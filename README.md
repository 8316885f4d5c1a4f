# A verified model of lk's bus, file-system, network and platform cores

This project models, in Dafny, the parts of the lk kernel that are sequential and self-contained enough to state and prove precise contracts about. Each proof is about the model: nothing in the kernel is compiled or run.

- **PCI bus manager** (`dev/bus/pci/bus_mgr`):
  - `device` probes a function and decodes and sizes its six BARs by writing all ones and reading back.
  - It walks the capability list, programs MSI and MSI-X, computes BAR sizes and allocation requests, and assigns resources.
  - `bridge` decodes its I/O, memory and prefetchable windows and propagates bus numbers up the hierarchy.
  - `bus` scans slots 0..31 with the multi-function rule.
  - Configuration space is a backend of read results plus an ordered log of the writes the code issues (`pci_config.dfy`).
- **virtio** (`dev/virtio`):
  - the descriptor free list;
  - chain allocation and submission on the available ring;
  - the used-ring walk;
  - over PCI: the capability classification of `init`, the split-ring layout `register_ring` programs, the notify offset of a kick, and the ISR dispatch.
- **FAT** (`lib/fs/fat`, `lib/fs/fat32`):
  - the little-endian field readers and end-of-chain range;
  - the three mount variants, with their BPB checks and geometry;
  - 8.3 and long-name decoding;
  - the directory scan, the path walk and directory cookies;
  - cluster offsets, the FAT chain, file reads, `fat_open_file` and stat.
- **minip** (`lib/minip`):
  - the RFC 1071 checksum `ones_sum16`;
  - the sixteen-slot route table;
  - dotted-decimal parsing and printing, and random MAC addresses;
  - the IPv4 header build and the accept checks on input;
  - the ARP cache as an MRU list, and ARP packet handling;
  - the UDP listener list, input and the send header;
  - the netif record, its flags and list, and the netmask and broadcast expressions.
- **Smaller cores:**
  - `bcache_block_ref`, a reference to one cached block;
  - the m68k three-level page tables and `map_range`;
  - the GICv3 SGI register value, the per-interrupt group bits, the interrupt count at init, and the suspend/resume enable masks;
  - the PC PIT divisor, the 32.32 millisecond clock and the one-shot/periodic trigger;
  - x86 CPUID vendor and family/model detection;
  - three UEFI boot services: `allocate_pool`, `get_memory_map` and `allocate_pages`.

The code falls into three kinds, and each is modelled in its own form:
- **Pure code** (register packing, index arithmetic, field readers) becomes functions, with lemmas for what the code promises.
- **Code that updates objects or statics in place** becomes classes whose methods are proved against specification functions:
  - the PCI `device` and `bridge`;
  - the virtio ring;
  - the route table, ARP cache, UDP listener list and netif list;
  - the block reference;
  - the m68k tables;
  - the GIC registers;
  - the PIT statics;
  - the x86 globals.
- **Loops** become `while` loops with invariants. Examples are the checksum, the BAR loop, the directory scan and the file read.

Integer widths are explicit wherever the code relies on them. `bv32`/`bv64` stand for register values, and `% 2^32` / `% 2^64` for C unsigned arithmetic.

Where the code departs from its evident intent, the model keeps the code as written next to a corrected definition. Both are listed under "## Findings". The operations themselves follow the code as written; each corrected definition stands beside them with the intended property proved about it.

Modules follow the source files:

| file | module | source |
|---|---|---|
| `common.dfy` | `Lk` | shared types: options, status codes, register reads, fixed-width bounds |
| `pci_config.dfy` | `PciConfig` | configuration-space offsets, backend, write log |
| `pci_bars.dfy` | `PciBars` | BAR decoding and sizing (`device.cpp`) |
| `pci_device.dfy` | `PciDevice` | `dev/bus/pci/bus_mgr/device.cpp` |
| `pci_bridge.dfy` | `PciBridge` | `dev/bus/pci/bus_mgr/bridge.cpp` |
| `pci_bus.dfy` | `PciBus` | `dev/bus/pci/bus_mgr/bus.cpp` |
| `virtio_device.dfy` | `VirtioDevice` | `dev/virtio/virtio-device.cpp` |
| `virtio_pci_bus.dfy` | `VirtioPciBus` | `dev/virtio/virtio-pci-bus.cpp` |
| `fat_fs.dfy` | `FatFs` | `lib/fs/fat/fat_fs.h` |
| `fat_mount.dfy` | `FatMount` | `lib/fs/fat/fs.cpp`, `lib/fs/fat/fat.cpp`, `lib/fs/fat32/fat.cpp` |
| `fat_dir.dfy` | `FatDir` | `lib/fs/fat/dir.cpp` |
| `fat_file.dfy` | `FatFile` | `lib/fs/fat/file.cpp` |
| `minip_net.dfy` | `MinipNet` | types shared by minip |
| `minip_chksum.dfy` | `MinipChksum` | `lib/minip/chksum.c` |
| `minip_route.dfy` | `MinipRoute` | route table of `lib/minip/minip.c` |
| `minip_ipv4.dfy` | `MinipIpv4` | the rest of `lib/minip/minip.c` |
| `minip_arp.dfy` | `MinipArp` | `lib/minip/arp.c` |
| `minip_udp.dfy` | `MinipUdp` | `lib/minip/udp.c` |
| `minip_netif.dfy` | `MinipNetif` | `lib/minip/netif.c`, `lib/minip/include/lib/minip/netif.h` |
| `bcache_ref.dfy` | `BcacheRef` | `lib/bcache/include/lib/bcache/bcache_block_ref.h` |
| `m68k_mmu.dfy` | `M68kMmu` | `arch/m68k/mmu.c` |
| `gic_v3.dfy` | `GicV3` | `dev/interrupt/arm_gic/gic_v3.c` |
| `pit.dfy` | `Pit` | `platform/pc/pit.c` |
| `x86_feature.dfy` | `X86Feature` | `arch/x86/feature.c` |
| `uefi_boot.dfy` | `UefiBoot` | `lib/uefi/boot_service_provider.cpp` |

## Model

| member | source | states |
|---|---|---|
| PciBars.SlotBarsWidth | dev/bus/pci/bus_mgr/device.cpp:572-604 | a slot decodes to two BAR records exactly when it holds a 64-bit BAR that is not in the last slot, one otherwise |
| PciBars.DecodeStep | dev/bus/pci/bus_mgr/device.cpp:535-606 | the BAR loop proceeds slot by slot: the records and sizing writes for slots i.. are slot i's followed by those from the next unconsumed slot |
| PciBars.DecodeAdvance | dev/bus/pci/bus_mgr/device.cpp:535-606 | a decoded prefix ending at slot i extends by slot i's BAR(s) and its writes, and the loop index advances by the slot's width |
| PciBars.IoSizeOfDecoder | dev/bus/pci/bus_mgr/device.cpp:545-552 | an I/O BAR decoding 2^k ports reads back 0xFFFF with its low k bits clear, and the size formula recovers 2^k |
| PciBars.Mem32SizeOfDecoder | dev/bus/pci/bus_mgr/device.cpp:562-569 | a 32-bit memory BAR decoding 2^k bytes reads back ones above bit k-1 plus its type bits, and the size formula recovers 2^k |
| PciBars.Mem64SizeOfDecoder | dev/bus/pci/bus_mgr/device.cpp:585-598 | a 64-bit memory BAR decoding 2^k bytes: the size formula over both read-backs recovers 2^k |
| PciBars.UnimplementedBarInvalid | dev/bus/pci/bus_mgr/device.cpp:568-571 | a memory BAR that reads back zero has size 0 and is not valid |
| PciBars.BarShapes | dev/bus/pci/bus_mgr/device.cpp:543-582 | an I/O BAR address has its low 2 bits clear, a memory BAR address its low 4 bits |
| PciBars.SlotWellDecoded | dev/bus/pci/bus_mgr/device.cpp:535-606 | each record a slot decodes to is well formed: flags and address by the type bits, the slot after a 64-bit BAR cleared |
| PciBars.DecodedSlot | dev/bus/pci/bus_mgr/device.cpp:535-606 | every record load_bars leaves in slots i..n-1 is well formed |
| PciBars.DecodedSlots | dev/bus/pci/bus_mgr/device.cpp:535-606 | every record of the whole header is well formed |
| PciBars.FirstSlotDecode | dev/bus/pci/bus_mgr/device.cpp:537-604 | slot 0 is decoded from its own word by its type bits: I/O, 32-bit or 64-bit (joining slot 1's word, with slot 1 cleared) |
| PciBars.SlotWritesOnBars | dev/bus/pci/bus_mgr/device.cpp:547-595 | the sizing writes of one slot land only on that slot's BAR register and the next one it takes |
| PciBars.SizingWritesOnlyBars | dev/bus/pci/bus_mgr/device.cpp:535-606 | sizing writes touch nothing but the BAR registers of the probed slots |
| PciBars.RoundUpPage | dev/bus/pci/bus_mgr/device.cpp:645 | ROUNDUP to PAGE_SIZE gives a page-aligned size, at least x and less than a page above it when it does not wrap |
| PciBars.AlignOfPow2 | dev/bus/pci/bus_mgr/device.cpp:646 | the intended alignment of a power-of-two size 2^k is k |
| PciBars.AlignAsWrittenBelow4G | dev/bus/pci/bus_mgr/device.cpp:646 | below 4 GiB, __builtin_ctz on the truncated size agrees with the intended alignment |
| PciBars.AlignAsWritten4GiBBar | dev/bus/pci/bus_mgr/device.cpp:645-654 | a 64-bit BAR decoding 4 GiB has a rounded size whose low 32 bits are zero: __builtin_ctz of them is undefined while the intended alignment is 32 |
| PciBars.RequestsFromValidSlots | dev/bus/pci/bus_mgr/device.cpp:689-725 | every request get_bar_alloc_requests emits comes from a valid slot and is that slot's request |
| PciBars.RequestsInSlotOrder | dev/bus/pci/bus_mgr/device.cpp:689-725 | requests are appended in strictly increasing slot order, so no slot is requested twice |
| PciBars.ValidSlotsRequested | dev/bus/pci/bus_mgr/device.cpp:689-725 | every valid slot has a request |
| PciBars.AddBarWindow | dev/bus/pci/bus_mgr/device.cpp:633-675 | adding one BAR grows only the window of its own class, by the rounded size, and raises that class's alignment to the BAR's |
| PciBars.RequestForBar | dev/bus/pci/bus_mgr/device.cpp:695-722 | the request for a valid BAR has the BAR's class, its rounded size and its alignment |
| PciBars.SizesMatchRequests | dev/bus/pci/bus_mgr/device.cpp:625-728 | for every class, compute_bar_sizes adds exactly the sizes of the requests get_bar_alloc_requests emits for that class |
| PciBars.AlignsMatchRequests | dev/bus/pci/bus_mgr/device.cpp:625-728 | for every class, compute_bar_sizes raises the alignment to the largest alignment among that class's requests |
| PciDevice.EnabledKeepsOtherBits | dev/bus/pci/bus_mgr/device.cpp:160 | enable sets exactly the I/O, memory and bus-master bits and keeps every other command bit |
| PciDevice.DecodeOffKeepsOtherBits | dev/bus/pci/bus_mgr/device.cpp:531-533 | while BARs are probed the I/O and memory decode bits are clear and every other command bit is kept |
| PciDevice.WalkHalts | dev/bus/pci/bus_mgr/device.cpp:182-192 | the capability walk stops at a zero pointer, when out of steps, or on a failed id read, appending nothing |
| PciDevice.WalkAdvance | dev/bus/pci/bus_mgr/device.cpp:188-230 | one node is appended per step; a failed next-pointer read ends the walk with that error, otherwise it continues at the pointer read |
| PciDevice.LastWithIdSnoc | dev/bus/pci/bus_mgr/device.cpp:206-220 | appending a node with the MSI (MSI-X) id makes it the remembered one; another node keeps the previous answer |
| PciDevice.LastWithIdIsLast | dev/bus/pci/bus_mgr/device.cpp:206-220 | the remembered MSI (MSI-X) capability is the last node of the list with that id, or the prior one when none has it |
| PciDevice.CapWalkNodes | dev/bus/pci/bus_mgr/device.cpp:181-231 | every appended node sits at a non-zero offset whose id byte read without error, the first at the list pointer, at most fuel of them |
| PciDevice.CapWalkFollowsChain | dev/bus/pci/bus_mgr/device.cpp:224-230 | the list is appended in chain order: each node's next-pointer byte holds the offset of the following node |
| PciDevice.CapWalkLink | dev/bus/pci/bus_mgr/device.cpp:224-230 | node k's next-pointer byte reads without error and holds node k+1's offset |
| PciDevice.CapWalkFuelIrrelevant | dev/bus/pci/bus_mgr/device.cpp:182-231 | a walk that ends within the step bound gives the same list with any larger bound |
| PciDevice.SelfLinkedCapabilityNeverEnds | dev/bus/pci/bus_mgr/device.cpp:182-231 | there is no cycle guard: a self-linked node is appended again at every step and the walk never finishes |
| PciDevice.VendorCapsAreVendor | dev/bus/pci/bus_mgr/device.cpp:238-251 | the vendor list holds exactly the list's nodes with id 0x9 |
| PciDevice.VendorReadShape | dev/bus/pci/bus_mgr/device.cpp:236-255 | the index-th vendor capability is found exactly when there are more than index of them; its length byte is returned and min(len, buflen) bytes are copied from its offset; otherwise ERR_NOT_FOUND |
| PciDevice.MsiDisabledWhileProgrammed | dev/bus/pci/bus_mgr/device.cpp:341-355 | MSI is disabled by the first write and enabled by the last but one, and no write in between touches the control register |
| PciDevice.Msi64Message | dev/bus/pci/bus_mgr/device.cpp:344-348 | a 64-bit capable function receives the whole message address in two words and the data at offset 0xC |
| PciDevice.Msi32Message | dev/bus/pci/bus_mgr/device.cpp:344-350 | a 32-bit function receives the low address word and the data at offset 8 |
| PciDevice.MsixEntryAddress | dev/bus/pci/bus_mgr/device.cpp:494-495 | an entry's two address words join back into the message address |
| PciDevice.MsixTableEntries | dev/bus/pci/bus_mgr/device.cpp:485-498 | entry k of the programmed table holds the message unmasked when k < num, and is masked otherwise |
| PciDevice.TableWords | dev/bus/pci/bus_mgr/device.cpp:485-498 | a table whose words agree word by word with the programmed table is the programmed table |
| PciDevice.MsixTableKeepsRest | dev/bus/pci/bus_mgr/device.cpp:485-498 | words past the table's count entries are untouched |
| PciDevice.MsixTableCountBounds | dev/bus/pci/bus_mgr/device.cpp:387 | the table count (control & 0x3f) + 1 lies between 1 and 64 |
| PciDevice.MappingSplitsWord | dev/bus/pci/bus_mgr/device.cpp:412-422 | the mapping's BAR index is below 4, its offset 4-aligned, and together they give back the word |
| PciDevice.MapCoversOwnRange | dev/bus/pci/bus_mgr/device.cpp:437-438 | the page-rounded window covers the mapping's own range, starts and ends on pages and adds less than a page at the end |
| PciDevice.TableMappingCoversTable | dev/bus/pci/bus_mgr/device.cpp:412-424 | the corrected table window covers all table_count entries of 16 bytes |
| PciDevice.PbaMappingCoversPba | dev/bus/pci/bus_mgr/device.cpp:412-425 | the corrected PBA window covers one pending bit per entry |
| PciDevice.AsWrittenTableWindowEmpty | dev/bus/pci/bus_mgr/device.cpp:416 | as written, a table at offset 0 of BAR 0 gets a window of length 0 that holds not even the first entry |
| PciDevice.MsixSetUpSucceeds | dev/bus/pci/bus_mgr/device.cpp:379-467 | set-up succeeds only when every read succeeded, the table has room for the vectors, and both windows, each `offset_bar_word * 16` bytes long as the code maps them, lie in valid memory BARs below BAR 4 and map without error; the table window covers the table only when that word is at least the entry count |
| PciDevice.ProbeAccepts | dev/bus/pci/bus_mgr/device.cpp:49-121 | probe succeeds exactly for a function whose reads succeed, whose vendor id is not 0xFFFF, whose masked header type is 0, that is not a PCI-to-PCI bridge, and whose header loads |
| PciDevice.Device.constructor | dev/bus/pci/bus_mgr/device.cpp:37 | a new device has no BARs, no capabilities and an all-zero header |
| PciDevice.Device.Probe | dev/bus/pci/bus_mgr/device.cpp:49-121 | the status is ProbeStatus, a device exists exactly when it is NO_ERROR, and it then holds the loaded header, its decoded BARs and its capability list; no device on any error path |
| PciDevice.Device.ProbeChecks | dev/bus/pci/bus_mgr/device.cpp:55-97 | the checks of the live vendor id, class and header type give ProbeLiveStatus |
| PciDevice.Device.LoadBars | dev/bus/pci/bus_mgr/device.cpp:513-612 | a header type other than 0 or 1 is ERR_NOT_SUPPORTED with nothing done; otherwise the BARs become the decoded slots, and the log gets decode-off, the sizing writes and the restored command register |
| PciDevice.Device.SizeBars | dev/bus/pci/bus_mgr/device.cpp:535-606 | the loop leaves DecodeFrom(words, readback) in the first n slots, keeps the rest, and issues exactly the sizing writes |
| PciDevice.Device.SizeSlot | dev/bus/pci/bus_mgr/device.cpp:536-604 | one iteration decodes slot i to SlotBars and issues SlotWrites |
| PciDevice.Device.ReadBars | dev/bus/pci/bus_mgr/device.cpp:614-618 | the copy is the six cached BARs |
| PciDevice.Device.Enable | dev/bus/pci/bus_mgr/device.cpp:151-167 | a failed read is returned with nothing written; otherwise the command register is written with the three enable bits set and the write's status returned |
| PciDevice.Device.ComputeBarSizes | dev/bus/pci/bus_mgr/device.cpp:625-679 | the result is SizesFrom(bars, sizes), which SizesMatchRequests and AlignsMatchRequests relate to the requests |
| PciDevice.Device.GetBarAllocRequests | dev/bus/pci/bus_mgr/device.cpp:681-728 | the list grows by RequestsFrom(bars): one request per valid BAR, in slot order |
| PciDevice.Device.ProbeCapabilities | dev/bus/pci/bus_mgr/device.cpp:170-234 | without the new-capabilities status bit nothing changes; otherwise the list grows by the walk from the capabilities pointer and MSI/MSI-X become the last such nodes |
| PciDevice.Device.WalkCapabilities | dev/bus/pci/bus_mgr/device.cpp:182-231 | status, completion and appended nodes are those of CapWalk from the pointer |
| PciDevice.Device.AddCapability | dev/bus/pci/bus_mgr/device.cpp:197-220 | the node is appended, and an MSI (MSI-X) node becomes the MSI (MSI-X) capability |
| PciDevice.Device.ReadVendorCapability | dev/bus/pci/bus_mgr/device.cpp:236-255 | not found leaves buf alone and returns ERR_NOT_FOUND; found copies the bytes VendorRead names and returns the length byte |
| PciDevice.Device.FindVendorCap | dev/bus/pci/bus_mgr/device.cpp:238-252 | the index-th vendor capability, or none when there are not that many |
| PciDevice.Device.CopyConfigBytes | dev/bus/pci/bus_mgr/device.cpp:245-247 | the first n bytes of buf are config bytes off..off+n-1, the rest untouched |
| PciDevice.Device.AllocateIrq | dev/bus/pci/bus_mgr/device.cpp:290-309 | a failed pin read is returned, pin 0 is ERR_NO_RESOURCES, a failed mapping is returned, otherwise the vector is written to the interrupt line |
| PciDevice.Device.AllocateMsi | dev/bus/pci/bus_mgr/device.cpp:311-364 | no MSI capability is ERR_NOT_SUPPORTED, platform failures are returned with nothing written, otherwise the log gets MsiWrites and the interrupt line |
| PciDevice.Device.AllocateMsix | dev/bus/pci/bus_mgr/device.cpp:366-511 | no MSI-X capability is ERR_NOT_SUPPORTED, set-up failures are returned with the table untouched, otherwise, after the set-up with the windows as the code maps them, the table becomes MsixTable and MSI-X is enabled |
| PciDevice.Device.ProgramMsix | dev/bus/pci/bus_mgr/device.cpp:485-505 | the table becomes MsixTable, then the control register with bit 15 set and the interrupt line are written |
| PciDevice.Device.SetUpMsix | dev/bus/pci/bus_mgr/device.cpp:379-467 | the status is MsixSetUp, which maps both windows with the lengths the code computes, and a success leaves room in the table for the vectors |
| PciDevice.Device.MapIt | dev/bus/pci/bus_mgr/device.cpp:429-448 | an invalid or I/O BAR is ERR_INVALID_ARGS, otherwise the mapping's status |
| PciDevice.Device.ProgramMsixTable | dev/bus/pci/bus_mgr/device.cpp:485-498 | the table becomes num message entries, count-num masked entries, and the untouched tail |
| PciDevice.Device.MaskEntries | dev/bus/pci/bus_mgr/device.cpp:485-490 | every entry of the table is masked, words past it untouched |
| PciDevice.Device.FillEntries | dev/bus/pci/bus_mgr/device.cpp:493-498 | the first num entries hold the message, the rest as they were |
| PciDevice.Device.AssignResource | dev/bus/pci/bus_mgr/device.cpp:730-766 | the BAR register(s) get the address masked by type, high word into the next slot for a 64-bit BAR, then the header and BARs are reloaded |
| PciBridge.StoreWordReadsBack | dev/bus/pci/bus_mgr/bridge.cpp:154-162 | a word written to the header reads back as itself |
| PciBridge.BusNumberBytes | dev/bus/pci/bus_mgr/bridge.cpp:154-158 | the new bus-number register holds primary, secondary and subordinate bus in bytes 0-2 and the old latency timer in byte 3 |
| PciBridge.BusNumbersAssigned | dev/bus/pci/bus_mgr/bridge.cpp:149-163 | the register assign_bus_numbers stores sets the three bus numbers and keeps the latency timer and the rest of the header |
| PciBridge.ExtendedCons | dev/bus/pci/bus_mgr/bridge.cpp:136-145 | a bridge whose subordinate bus is below n is renumbered and the walk continues with its parent bridge |
| PciBridge.ExtendedStops | dev/bus/pci/bus_mgr/bridge.cpp:136 | a bridge that already reaches n ends the walk: nothing is renumbered or written |
| PciBridge.ExtendedAt | dev/bus/pci/bus_mgr/bridge.cpp:132-147 | on a nested chain, extending to n renumbers exactly the bridges whose subordinate bus is below n |
| PciBridge.WithBusNumbersFields | dev/bus/pci/bus_mgr/bridge.cpp:155-158 | a renumbered header holds the given primary, secondary and subordinate buses |
| PciBridge.ExtendedIsMax | dev/bus/pci/bus_mgr/bridge.cpp:132-147 | on a nested chain every bridge ends with subordinate bus max(old, n), primary and secondary kept |
| PciBridge.ExtendedNested | dev/bus/pci/bus_mgr/bridge.cpp:132-147 | extending a nested chain keeps it nested |
| PciBridge.NestedAbove | dev/bus/pci/bus_mgr/bridge.cpp:132-147 | in a nested chain a bridge's subordinate bus bounds those of the bridges below it |
| PciBridge.ExtendedPrefix | dev/bus/pci/bus_mgr/bridge.cpp:132-147 | extend_subordinate_range rewrites exactly the leading bridges whose subordinate bus is below n and leaves the others |
| PciBridge.IoWindowShape | dev/bus/pci/bus_mgr/bridge.cpp:200-208 | the I/O window is closed ({0,0}) when limit < base; otherwise it runs from the 4 KiB boundary of the base nibble to the last byte of the limit nibble's 4 KiB page |
| PciBridge.MemWindowShape | dev/bus/pci/bus_mgr/bridge.cpp:210-217 | the memory window has the shape of the I/O window with 1 MiB granules |
| PciBridge.PrefetchWindowShape | dev/bus/pci/bus_mgr/bridge.cpp:219-237 | the prefetchable window is the memory-window shape widened with the upper registers exactly when the base announces 64-bit decoding |
| PciBridge.Join64Halves | dev/bus/pci/bus_mgr/bridge.cpp:227-234 | a value widened with an upper register splits back into its halves |
| PciBridge.ProbedBusNumbers | dev/bus/pci/bus_mgr/bridge.cpp:83-107 | an unnumbered bridge gets primary = parent bus and secondary = subordinate = the new bus; a numbered one keeps its header; probe succeeds exactly when the secondary bus is at least the last bus |
| PciBridge.Bridge.AssignBusNumbers | dev/bus/pci/bus_mgr/bridge.cpp:149-163 | the header becomes the stored bus-number register with the other bytes kept, and the write is logged |
| PciBridge.Bridge.ExtendSubordinateRange | dev/bus/pci/bus_mgr/bridge.cpp:132-147 | the chain's headers become Extended(old headers, n) and each bridge logs exactly its own renumbering write |
| PciBridge.Bridge.ProbeChecks | dev/bus/pci/bus_mgr/bridge.cpp:42-63 | a failed read, vendor 0xFFFF or a masked header type other than 1 is ERR_NOT_FOUND |
| PciBridge.Bridge.NumberBridge | dev/bus/pci/bus_mgr/bridge.cpp:83-100 | an unnumbered bridge is numbered (parent, new, new) and the bridges above are extended to the new bus |
| PciBridge.Bridge.ProbeCapabilities | dev/bus/pci/bus_mgr/device.cpp:170-234 | device::probe_capabilities on a bridge, over the PciDevice walk: without the capabilities bit nothing is walked; otherwise the walked list is appended and the MSI and MSI-X capabilities are the last of their kind found; the header and the write log are unchanged |
| PciBridge.Bridge.NewProbed | dev/bus/pci/bus_mgr/bridge.cpp:66-79 | a new bridge holds the loaded header, an empty write log, and the capabilities walked from its header |
| PciBridge.Bridge.ScanSecondary | dev/bus/pci/bus_mgr/bridge.cpp:109-124 | bus::probe of the secondary bus succeeds with a new bus numbered as the bridge's secondary bus holding the children Scan lists, and add_bus appends it; nothing else of the bridge changes |
| PciBridge.Bridge.Downstream | dev/bus/pci/bus_mgr/bridge.cpp:102-124 | a secondary bus below the last bus seen is ERR_NO_RESOURCES with no bus added; otherwise the scanned secondary bus is appended and the status is NO_ERROR |
| PciBridge.Bridge.Attach | dev/bus/pci/bus_mgr/bridge.cpp:83-124 | the header becomes ProbedConfig with its numbering write logged, the bridges above are extended exactly when the bridge was unnumbered, and the overlap check decides between ERR_NO_RESOURCES and one new scanned bus |
| PciBridge.Bridge.Probe | dev/bus/pci/bus_mgr/bridge.cpp:35-124 | the status is BridgeProbeStatus; a bridge exists exactly when the live checks and the header load succeed, with its capabilities probed, the probed bus numbers and the write log; on NO_ERROR it holds one child bus, the secondary bus with the children its scan finds, and none otherwise |
| PciBus.FunctionsFound | dev/bus/pci/bus_mgr/bus.cpp:57-122 | the function loop of one device lists a child exactly when its slot answers, its probe succeeds and, past function 0, function 0 announced multi-function |
| PciBus.ScanFound | dev/bus/pci/bus_mgr/bus.cpp:52-123 | a child is on the bus iff its slot answers, its probe succeeds and, past function 0, function 0 is multi-function |
| PciBus.DevicesBelowFound | dev/bus/pci/bus_mgr/bus.cpp:52-123 | the scan of devices 0..n-1 lists exactly the found children below device n |
| PciBus.FunctionsOrdered | dev/bus/pci/bus_mgr/bus.cpp:58-122 | one device's children are in increasing function order, all at that device |
| PciBus.DevicesBelowOrdered | dev/bus/pci/bus_mgr/bus.cpp:52-123 | the children of devices 0..n-1 are in increasing (device, function) order |
| PciBus.ScanOrdered | dev/bus/pci/bus_mgr/bus.cpp:52-123 | the bus lists its children in increasing (device, function) order, so no slot appears twice |
| PciBus.AbsentFunctionZero | dev/bus/pci/bus_mgr/bus.cpp:58-94 | a device whose function 0 does not answer contributes no children |
| PciBus.Bus.constructor | dev/bus/pci/bus_mgr/bus.cpp:30 | a new bus has its number and no children |
| PciBus.Bus.AddDevice | dev/bus/pci/bus_mgr/bus.cpp:32-35 | the child is appended at the tail and nothing else changes |
| PciBus.Bus.Probe | dev/bus/pci/bus_mgr/bus.cpp:38-128 | probe always succeeds, records the bus number as the last bus, and leaves the children Scan lists |
| PciBus.Bus.ScanDevice | dev/bus/pci/bus_mgr/bus.cpp:53-122 | the function loop for one device appends exactly Functions(dev) |
| VirtioDevice.DistinctBelow | dev/virtio/virtio-device.cpp:50-59 | a duplicate-free list of descriptor indices below n holds at most n of them, so free_count never exceeds the ring length |
| VirtioDevice.LinkedElsewhere | dev/virtio/virtio-device.cpp:87-105 | popping a chain touches only the popped descriptors |
| VirtioDevice.LinkedChain | dev/virtio/virtio-device.cpp:87-105 | after the chain loop the first descriptor popped has flags 0 and next 0, every later one has VRING_DESC_F_NEXT and next = the one popped before it, and addresses and lengths are kept |
| VirtioDevice.WalkMod | dev/virtio/virtio-device.cpp:229-242 | the k-th slot the used-ring walk visits is (last_used + k) mod ring size |
| VirtioDevice.WalkDistinct | dev/virtio/virtio-device.cpp:229-242 | the used-ring walk never visits a slot twice and stops before used->idx masked to the ring |
| VirtioDevice.ReschedExists | dev/virtio/virtio-device.cpp:237-239 | the walk asks for a reschedule iff some visited element's callback returns INT_RESCHEDULE |
| VirtioDevice.PushLinks | dev/virtio/virtio-device.cpp:56-58 | pushing an index not yet free keeps the free list threaded through next |
| VirtioDevice.PushedEntry | dev/virtio/virtio-device.cpp:56-58 | behind the new head every entry is unchanged and still linked to its old successor |
| VirtioDevice.PopLinks | dev/virtio/virtio-device.cpp:69-73 | popping the head keeps the rest threaded, and the head's next is the new head (0xFFFF when none is left) |
| VirtioDevice.Ring.constructor | dev/virtio/virtio-device.cpp:140-187 | a zero-initialised ring is well formed with no descriptors and an empty free list |
| VirtioDevice.Ring.Reset | dev/virtio/virtio-device.cpp:184-187 | the table and rings are zeroed to len entries and the free list is empty (0xFFFF, count 0) |
| VirtioDevice.Ring.FreeDesc | dev/virtio/virtio-device.cpp:50-59 | the descriptor goes on the head of the free list, its next is the old head, free_count grows by one, the ring stays well formed |
| VirtioDevice.Ring.FreeAll | dev/virtio/virtio-device.cpp:189-192 | freeing every descriptor lowest first leaves the free list len-1 down to 0 and free_count = len |
| VirtioDevice.Ring.AllocDesc | dev/virtio/virtio-device.cpp:61-76 | an empty free list gives 0xFFFF and changes nothing; otherwise the head is popped (last in, first out) and free_count drops by one |
| VirtioDevice.Ring.AllocDescChain | dev/virtio/virtio-device.cpp:78-111 | fewer than count free descriptors gives none and changes nothing; otherwise count are popped and linked into a chain headed by the last popped, which is returned |
| VirtioDevice.Ring.PopChain | dev/virtio/virtio-device.cpp:87-105 | the chain loop pops the first count free descriptors and the table becomes Linked(table, free, count) |
| VirtioDevice.Ring.PopLink | dev/virtio/virtio-device.cpp:88-104 | one iteration pops the head and links it behind the previous pop |
| VirtioDevice.Ring.ChainStep | dev/virtio/virtio-device.cpp:88-104 | one pop of the chain loop on the table as a value |
| VirtioDevice.Ring.ChainHead | dev/virtio/virtio-device.cpp:91 | after count pops the free-list head is the next free index, or 0xFFFF when none is left |
| VirtioDevice.Ring.ChainLinks | dev/virtio/virtio-device.cpp:87-105 | after a chain allocation the descriptors still free are untouched and still threaded |
| VirtioDevice.Ring.SubmitChain | dev/virtio/virtio-device.cpp:113-129 | the head goes into avail->ring at idx masked to the ring, idx grows by one modulo 2^16, nothing else changes |
| VirtioDevice.Ring.KeptValid | dev/virtio/virtio-device.cpp:229-242 | moving last_used within the ring keeps the ring well formed |
| VirtioDevice.Ring.ProcessUsed | dev/virtio/virtio-device.cpp:225-242 | the walk visits Walk(last_used, used->idx masked), last_used ends at that index, and the result is Resched over the visited elements |
| VirtioDevice.ActiveAt | dev/virtio/virtio-device.cpp:222 | ring r is serviced exactly when bit r of active_rings_bitmap_ is set |
| VirtioDevice.AnyRingReschedExists | dev/virtio/virtio-device.cpp:221-243 | the ring loop asks for a reschedule iff some active ring's walk does |
| VirtioDevice.VirtioDevice.constructor | dev/virtio/virtio-device.cpp:140-206 | a new device has four empty, well-formed rings and no active ring |
| VirtioDevice.VirtioDevice.AllocRing | dev/virtio/virtio-device.cpp:140-206 | len 0, a non-power-of-two or len >= 0xFFFF is ERR_INVALID_ARGS and a failed allocation ERR_NO_MEMORY, with nothing changed; otherwise every index is free (highest first), the ring is registered and marked active |
| VirtioDevice.VirtioDevice.ServiceRing | dev/virtio/virtio-device.cpp:221-243 | an inactive ring is skipped; an active one has its used ring walked |
| VirtioDevice.VirtioDevice.ServiceRings | dev/virtio/virtio-device.cpp:221-243 | every active ring has its used ring walked in ring order, and the result is AnyRingResched |
| VirtioDevice.VirtioDevice.Irq | dev/virtio/virtio-device.cpp:208-258 | bit 0 acknowledges and walks every active ring, bit 1 acknowledges and calls the config callback when there is one; the result is INT_RESCHEDULE iff some callback asked for it |
| VirtioPciBus.ScanLength | dev/virtio/virtio-pci-bus.cpp:244-249 | the capability loop reads indices 0, 1, ... and stops at the first read that did not return all 16 bytes: every index before it is complete |
| VirtioPciBus.ClassifiedIsLast | dev/virtio/virtio-pci-bus.cpp:253-289 | a window is valid exactly when some capability of its type was recorded, and then it is the last such capability |
| VirtioPciBus.InitNeedsMandatoryCaps | dev/virtio/virtio-pci-bus.cpp:244-295 | init succeeds only if common, notify, ISR and PCI capabilities all appear before the first incomplete read |
| VirtioPciBus.LayoutDisjoint | dev/virtio/virtio-pci-bus.cpp:183-185 | below 2^28 entries the descriptor table, the available ring and the used ring follow each other without overlapping |
| VirtioPciBus.NotifyOffsetsDistinct | dev/virtio/virtio-pci-bus.cpp:170-175 | without wrap-around and with a non-zero multiplier, distinct rings notify distinct registers |
| VirtioPciBus.Dispatch | dev/virtio/virtio-pci-bus.cpp:202-232 | ISR bit 0 calls the queue handler and bit 1 the config handler, queue first; the result reschedules iff a called handler asked for it |
| VirtioPciBus.SpuriousIrq | dev/virtio/virtio-pci-bus.cpp:211-231 | an ISR status with neither bit calls nothing and never reschedules |
| VirtioPciBus.ClassifiedCheckedResolves | dev/virtio/include/dev/virtio/virtio-pci-bus.h:74-81 | with the BAR number checked, every accepted window resolves to an address |
| VirtioPciBus.ReservedBarAccepted | dev/virtio/virtio-pci-bus.cpp:283-288 | as written, a common capability in BAR 6 is accepted and init succeeds, yet config_ptr of that window indexes bar_map_[6], one past its end |
| VirtioPciBus.Bus.constructor | dev/virtio/include/dev/virtio/virtio-pci-bus.h:58-70 | a new bus has no valid window, no mapped BAR and no interrupt |
| VirtioPciBus.Bus.Classify | dev/virtio/virtio-pci-bus.cpp:253-289 | one capability fills the window its cfg_type selects (the notify window also the multiplier) and marks its BAR when it is below 6; other windows unchanged |
| VirtioPciBus.Bus.ScanCapabilities | dev/virtio/virtio-pci-bus.cpp:243-290 | after the loop each window is Classified over the complete reads and map_bars marks exactly the BARs below 6 a window lives in |
| VirtioPciBus.Bus.ClassifyStep | dev/virtio/virtio-pci-bus.cpp:253-289 | appending one capability updates each window exactly as one pass of the switch does |
| VirtioPciBus.Bus.Init | dev/virtio/virtio-pci-bus.cpp:234-366 | the status is InitStatus; on success the BAR map and the interrupt (MSI, else legacy) are those the code sets up, and the log holds the device enable, the VERSION_1 guest-feature writes when the device offers it, and the interrupt set-up, in that order; the feature read is an input (see "## Left out") |
| VirtioPciBus.Bus.MapBars | dev/virtio/virtio-pci-bus.cpp:307-330 | each marked memory BAR is used at its physical address, the others stay null |
| VirtioPciBus.Bus.AllocateIrq | dev/virtio/virtio-pci-bus.cpp:347-362 | an MSI vector if MSI allocation succeeds, else a legacy one; the vector is masked and its handler registered; both failing returns the legacy error |
| VirtioPciBus.Bus.SetGuestFeatures | dev/virtio/virtio-pci-bus.cpp:165-168 | the feature word is selected, then written |
| VirtioPciBus.Bus.RegisterRing | dev/virtio/virtio-pci-bus.cpp:179-200 | the queue is selected, its 16-bit size and the three Layout addresses are written, and it is enabled last |
| VirtioPciBus.Bus.Kick | dev/virtio/virtio-pci-bus.cpp:170-177 | the ring index is written to the notify window at ring_index * multiplier, wrapped to 32 bits |
| VirtioPciBus.ConfigPtr | dev/virtio/include/dev/virtio/virtio-pci-bus.h:74-81 | an absent window gives the null pointer; a present one, with its BAR inside bar_map_, gives an address at its offset or above |
| VirtioPciBus.MappedBars | dev/virtio/virtio-pci-bus.cpp:307-330 | bar_map_ holds six entries, and a non-null one belongs to a marked memory BAR and is its physical address |
| VirtioPciBus.Layout | dev/virtio/virtio-pci-bus.cpp:183-185 | the descriptor table is at pfn * page size, the available ring right after the 16-byte descriptors (2-aligned), and the used ring after its 6 + 2 * num bytes, rounded up to the alignment |
| VirtioPciBus.NotifyOffset | dev/virtio/virtio-pci-bus.cpp:170-175 | the notify offset fits 32 bits and is ring_index * multiplier whenever that product does |
| VirtioPciBus.RoundUp | dev/virtio/virtio-pci-bus.cpp:185 | ALIGN gives the least multiple of the alignment at or above the value |
| FatFs.Read16Le16 | lib/fs/fat/fat_fs.h:63-68 | fat_read16 reads back a stored little-endian 16-bit field, and a read field's bytes are the bytes read |
| FatFs.Read32Le32 | lib/fs/fat/fat_fs.h:54-61 | fat_read32 reads back a stored little-endian 32-bit field, and a read field's bytes are the bytes read |
| FatMount.ParseEncode | lib/fs/fat/fs.cpp:76-169 | the fields the mount reads from the boot sector determine the sector: parsing a sector that holds a parameter block gives that block back |
| FatMount.CommonChecksSignature | lib/fs/fat/fs.cpp:61-109 | a volume that passes the common checks has bytes per sector 512/1024/2048, a power-of-two cluster size up to 128, 1-8 FATs, media byte 0xF8 and the 0x55 0xAA signature |
| FatMount.FatBits | lib/fs/fat/fs.cpp:152-158 | FAT12 below 4085 clusters, FAT16 below 65525, FAT32 otherwise |
| FatMount.MountBpb | lib/fs/fat/fs.cpp:66-188 | a mounted volume's bytes per cluster is sectors per cluster times bytes per sector; the fields the path leaves unset come from what `new fat_fs_t` left |
| FatMount.LeftoverRootClusterUsed | lib/fs/fat/fs.cpp:66-67 | as written, a FAT16 volume mounted over a structure holding root_cluster 5 makes fat_walk start in cluster 5; the zeroed structure gives the fixed root directory |
| FatMount.MountZeroed | lib/fs/fat/fs.cpp:66-188 | on a zeroed structure a FAT12/16 volume has no root cluster, so walks start in its fixed root directory, and uses FAT 0; a FAT32 volume has no fixed root and walks start at its root cluster |
| FatMount.LeftoverOnlyInUnsetFields | lib/fs/fat/fs.cpp:66-188 | what the allocation held changes neither whether the mount succeeds nor any field but the unset ones |
| FatMount.Mount | lib/fs/fat/fs.cpp:42-59 | no device is ERR_NOT_VALID and a failed boot-sector read passes its error back |
| FatMount.MountSane | lib/fs/fat/fs.cpp:42-200 | a mount succeeds only with a device, a readable boot sector and a sane volume: the checks held and the geometry was derived from them; FAT32 takes the root cluster from the boot sector, FAT12/16 the root start sector after the FATs, and the fields left unset (root_cluster and active_fat on FAT12/16, root_start_sector on FAT32) hold what the allocation left |
| FatMount.ClusterBytes | lib/fs/fat/fs.cpp:188 | a cluster holds between 512 and 256 KiB |
| FatMount.MountWrapAccepted | lib/fs/fat/fs.cpp:144-148 | as written, a 100-sector FAT32 volume whose FATs end at sector 232 mounts with 2^32 - 132 data clusters; the checked mount refuses it |
| FatMount.MountCheckedFits | lib/fs/fat/fs.cpp:144-148 | with data_start checked against the total sector count, the data clusters of a mounted volume lie within its sectors |
| FatMount.MountedGeometry | lib/fs/fat/fs.cpp:122-148 | a mounted volume's FAT size, total sectors, cluster size, data start and cluster count are those the fields give |
| FatMount.MountFat | lib/fs/fat/fat.cpp:40-177 | no device is ERR_NOT_VALID and a failed read passes its error back |
| FatMount.MountFat32 | lib/fs/fat32/fat.cpp:38-167 | no device is ERR_NOT_VALID and a failed read is ERR_GENERIC |
| FatMount.MountLegacySane | lib/fs/fat/fat.cpp:40-177 | an older-variant mount succeeds only with a sane volume, and with the lower bound the FAT32 root cluster is at least 2 |
| FatMount.LegacyVariantsAgree | lib/fs/fat32/fat.cpp:116-132 | the two older variants agree on every readable boot sector except a FAT32 one whose root cluster is 0 or 1, which only fat32_mount mounts |
| FatMount.Fat32AcceptsRootClusterZero | lib/fs/fat32/fat.cpp:116-125 | a FAT32 boot sector naming the reserved cluster 0 as its root mounts under fat32_mount and not under the other variant |
| FatDir.TrimmedUnique | lib/fs/fat/dir.cpp:34-48 | the trimmed length is the only length with nothing but spaces after it and no space at its end |
| FatDir.ShortNameOfFields | lib/fs/fat/dir.cpp:32-58 | an entry whose name and extension fields hold base and ext (neither ending in a space) has the name base, or base.ext when ext is not empty |
| FatDir.KeptAppend | lib/fs/fat/dir.cpp:64-66 | dropping 0x00 and 0xFF bytes distributes over concatenation |
| FatDir.LongNameHasNoNul | lib/fs/fat/dir.cpp:61-74 | a decoded long name never holds the NUL that would end it as a C string |
| FatDir.CStringUnique | lib/fs/fat/dir.cpp:223 | the C string of a buffer is the prefix r when r holds no NUL and a NUL or the end follows it |
| FatDir.CStringOfPadded | lib/fs/fat/dir.cpp:30 | the zeros calloc leaves after a name do not change the C string it reads as |
| FatDir.TrimField | lib/fs/fat/dir.cpp:35-48 | the trimming loop returns the field's length without trailing spaces |
| FatDir.CopyName | lib/fs/fat/dir.cpp:50-57 | the copying loop writes src into result from j0 on and changes nothing else |
| FatDir.GetShortName | lib/fs/fat/dir.cpp:32-58 | the zero-filled 13-byte buffer holds ShortName of the entry, then zeros |
| FatDir.GatheredIsLfnPart | lib/fs/fat/dir.cpp:62-73 | the inner loop's index jumps gather exactly the kept bytes of entry bytes 1-9, 14-25 and 28-31 |
| FatDir.GatherLfnPart | lib/fs/fat/dir.cpp:62-73 | the inner loop appends the kept name bytes of one long-name entry at j, the tail staying zero |
| FatDir.AppendLfnPart | lib/fs/fat/dir.cpp:61-74 | one pass of the outer loop appends the part of the sequence-th entry before offset |
| FatDir.GetLongName | lib/fs/fat/dir.cpp:59-75 | the zero-filled buffer holds LongName: the parts of the n entries before offset, nearest first, then zeros |
| FatDir.GetFilename | lib/fs/fat/dir.cpp:26-77 | a buffer of 13 bytes, or 26 per long-name entry plus one, holding Filename of the entry and zero after it |
| FatDir.EntryHighHalf | lib/fs/fat/dir.cpp:232-235 | the entry as built agrees with the whole-cluster entry exactly when the high half at 0x14 is zero, and is its low 16 bits otherwise |
| FatDir.EntryTruncatesCluster | lib/fs/fat/dir.cpp:232-235 | a FAT32 entry starting at cluster 0x10002 is reported as starting at cluster 2 |
| FatDir.ScanFindsEntry | lib/fs/fat/dir.cpp:201-243 | what the scan finds is an entry before the first 0x00 entry, not deleted, without the volume-label bit, whose name test passes, read as the code reads it with the 16-bit start cluster at 0x1A |
| FatDir.ScanOverrunsAtEnd | lib/fs/fat/dir.cpp:205 | the loop as written reads buffer[bytes_per_cluster] exactly when the scan with its checks swapped ends without a 0x00 entry and without a match |
| FatDir.DeletedClusterOverruns | lib/fs/fat/dir.cpp:205-209 | a cluster of deleted entries makes the loop read the byte after the cluster |
| FatDir.AllDeleted | lib/fs/fat/dir.cpp:205-209 | from any entry on, a cluster of deleted entries reads past its end as written and ends without a match with the checks swapped |
| FatDir.EntryNameMatches | lib/fs/fat/dir.cpp:219-228 | the name test is the length test plus the case-insensitive compare of the decoded name |
| FatDir.ScanCluster | lib/fs/fat/dir.cpp:202-243 | the loop over one cluster gives ScanFrom, with the bounds check first and the entry read with the 16-bit start cluster at 0x1A |
| FatDir.FoundInChain | lib/fs/fat/dir.cpp:183-255 | a lookup that finds an entry found it, with the 16-bit start cluster the code reads, in a cluster of the chain, within fuel links, that was read whole |
| FatDir.FindFileInDir | lib/fs/fat/dir.cpp:162-258 | the lookup is FindInDir: read errors are returned, a short read is ERR_GENERIC, the chain is followed to its EOF marker, no match is ERR_NOT_FOUND, and a match gives the entry with its 16-bit start cluster |
| FatDir.PathIncrement | lib/fs/fat/dir.cpp:88-108 | the cursor moves to the element after the current one, past the run of slashes, with size 0 at the end of the path |
| FatDir.Walk | lib/fs/fat/dir.cpp:79-159 | the walk is WalkPath: each element is looked up in turn, a failed lookup is ERR_NOT_FOUND and the last element's entry, as the code reads it, is returned |
| FatDir.WalkOneElement | lib/fs/fat/dir.cpp:110-157 | a path of one element after a slash is that element's lookup in the root directory, any failure being ERR_NOT_FOUND, and the entry carries the 16-bit start cluster at 0x1A |
| FatDir.WalkStopsAtFile | lib/fs/fat/dir.cpp:144-152 | an inner element whose attribute byte is anything but exactly 0x10 ends the walk with ERR_NOT_FOUND |
| FatDir.FindsShortEntry | lib/fs/fat/dir.cpp:205-237 | a cluster whose first entry is a plain 8.3 entry with fields base and ext is found by a lookup of base.ext (or base) in any letter case, as the entry the code reads at offset 0 |
| FatDir.OpenDir.constructor | lib/fs/fat/dir.cpp:269-277 | a new open directory has its start cluster and no cookies |
| FatDir.DirCookie.constructor | lib/fs/fat/dir.cpp:260-267 | a new cookie points at its directory with index 0 |
| FatDir.DirList.constructor | lib/fs/fat/dir.cpp:306 | a volume starts with no open directories |
| FatDir.OpenRoot | lib/fs/fat/dir.cpp:288-293 | "" and "/" open the root directory, whatever the disk holds |
| FatDir.OpenDirectory | lib/fs/fat/dir.cpp:279-323 | a directory target gets a new open directory at the head of the list with one new cookie at index 0; another entry is ERR_NOT_FILE and a failed walk passes its status back, the list unchanged; the directory starts at the 16-bit cluster the walk read |
| FatDir.ReadDir | lib/fs/fat/dir.cpp:325-339 | no entry to fill is ERR_INVALID_ARGS; otherwise the cookie moves to the end and the status is ERR_NOT_FOUND |
| FatDir.WithoutAbsent | lib/fs/fat/dir.cpp:352 | removing a cookie that is not in the list changes nothing |
| FatDir.CloseDir | lib/fs/fat/dir.cpp:342-358 | the cookie leaves its directory's list, the open directory stays on the volume's list |
| FatDir.NextElement | lib/fs/fat/dir.cpp:88-108 | the next element starts after the current one and after a run of '/' only; it holds no '/', ends at a '/' or at the end of the path, and is empty exactly at the end of the path |
| FatDir.Element | lib/fs/fat/dir.cpp:128-129 | the name searched for is the current element, cut to 255 bytes |
| FatFile.OffsetForCluster | lib/fs/fat/file.cpp:31-35 | the offset as written never lies before the partition start |
| FatFile.ClusterOffset | lib/fs/fat/file.cpp:31-35 | a cluster's offset lies in the data region, and clusters from 2 on are laid out one after the other, sectors_per_cluster sectors apart |
| FatFile.OffsetsAgreeOnFat32 | lib/fs/fat/file.cpp:31-35 | with no root directory sectors and the sector numbers inside 32 bits, the offset as written is the layout's |
| FatFile.OffsetMissesRootDir | lib/fs/fat/file.cpp:33-34 | on a FAT16 volume with a 512-entry root directory, cluster 2 lies at sector 97 but the source reads sector 65 |
| FatFile.Widen16 | lib/fs/fat/file.cpp:63-67 | a 16-bit entry at 0xFFF8 or above becomes an end-of-chain value, and an entry at 0xFFF0 or below keeps its value |
| FatFile.EntryValue | lib/fs/fat/file.cpp:55-70 | a FAT32 entry read has its top nibble masked off |
| FatFile.NextClusterAsWritten | lib/fs/fat/file.cpp:41-78 | what fat_next_cluster_in_chain returns on FAT32, or when the cache fails, is at most EOF_CLUSTER |
| FatFile.NextClusterAgreesOnFat32 | lib/fs/fat/file.cpp:42-60 | on FAT32 with 512-byte sectors, the sector cluster >> 7 and the index cluster & 127 are where the entry of the cluster lies |
| FatFile.NextClusterMisreadsFat16 | lib/fs/fat/file.cpp:42-47 | on FAT16 the entry of cluster 200 holds the end of the chain, but the source reads another entry, 0 |
| FatFile.ChainWalkFollow | lib/fs/fat/file.cpp:250-261 | a walk that does not end at end-of-chain followed all its links, and one that does end there met end-of-chain within its links |
| FatFile.ChainWalkAdd | lib/fs/fat/file.cpp:318 | walking n links and then m links, with no end-of-chain after the first n, is walking n + m links |
| FatFile.FileOffsetToCluster | lib/fs/fat/file.cpp:241-262 | a negative offset gives EOF_CLUSTER; otherwise the walk of offset / bytes_per_cluster links, stopping at end-of-chain |
| FatFile.BioRead | lib/fs/fat/file.cpp:304 | a device read returns at most len bytes, all of them when the range lies inside the device, each being the image's byte there |
| FatFile.CopyInto | lib/fs/fat/file.cpp:304 | a read writes its bytes into the buffer at the position given and leaves the rest of the buffer alone |
| FatFile.CopyToStart | lib/fs/fat/file.cpp:304 | a read into buf writes its bytes to the buffer's start and leaves the rest alone |
| FatFile.ReadLoopAsWritten | lib/fs/fat/file.cpp:293-324 | the loop as written counts at most len more bytes and keeps the buffer's length |
| FatFile.ReadAsWritten | lib/fs/fat/file.cpp:264-328 | a negative offset is ERR_INVALID_ARGS and nothing else is; an offset past the end reads nothing, and otherwise no more than the file holds after the offset |
| FatFile.ReadLoopAsWrittenStep | lib/fs/fat/file.cpp:293-324 | one pass of the loop as written: a short read ends it, end-of-chain ends it after counting the chunk, and otherwise it goes on from the next cluster at the same in-cluster offset with the next chunk also read to the buffer's start |
| FatFile.ReadLoop | lib/fs/fat/file.cpp:293-324 | the loop over the caller's buffer is ReadLoopAsWritten |
| FatFile.ReadFileAsWritten | lib/fs/fat/file.cpp:264-328 | fat_read_file over the caller's buffer is ReadAsWritten |
| FatFile.ChunkLen | lib/fs/fat/file.cpp:294-295 | a chunk is never longer than the read and never empty while something is left |
| FatFile.ReadChain | lib/fs/fat/file.cpp:293-324 | the intended read of len bytes returns at most len bytes |
| FatFile.ChunkBytes | lib/fs/fat/file.cpp:294-304 | a chunk read at offset co of the k-th cluster of the chain holds the file's bytes at k * bytes_per_cluster + co |
| FatFile.ReadChainBytes | lib/fs/fat/file.cpp:293-324 | every byte of the intended read is the file's byte at its position |
| FatFile.ReadChainWhole | lib/fs/fat/file.cpp:293-324 | when the clusters needed are data clusters inside the device, the read returns all len bytes |
| FatFile.ReadFileSpec | lib/fs/fat/file.cpp:264-328 | fat_read_file as intended (the code as written is ReadAsWritten): a negative offset is ERR_INVALID_ARGS and nothing else is; the count is the number of bytes returned, at most len, none at or past the end of the file, and never more than the file holds after the offset |
| FatFile.ReadFileBytes | lib/fs/fat/file.cpp:264-328 | what a read returns is the file's bytes from the offset on |
| FatFile.ReadChunkInto | lib/fs/fat/file.cpp:294-313 | one pass writes the chunk after the bytes already read and nothing else; a short read leaves the buffer as it was |
| FatFile.ReadChainInto | lib/fs/fat/file.cpp:293-324 | the loop places ReadChain's bytes at the buffer's start, returns their count and leaves the rest of the buffer alone |
| FatFile.ReadFile | lib/fs/fat/file.cpp:264-328 | fat_read_file as intended, over the caller's buffer, is ReadFileSpec: its status, and its bytes at the buffer's start with the rest unchanged |
| FatFile.DirBuffer | lib/fs/fat/file.cpp:154 | the directory buffer is one cluster long and holds the image's bytes of that cluster |
| FatFile.Strchr | lib/fs/fat/file.cpp:161 | a '/' that is found lies at or after ptr, with no '/' and no NUL between them |
| FatFile.StrchrNone | lib/fs/fat/file.cpp:161-168 | strchr finds no '/' exactly when the C string from ptr has none |
| FatFile.ExactIsWholePrefix | lib/fs/fat/file.cpp:191 | an exact match is exactly a prefix match of the whole wanted name |
| FatFile.ScanDirAsWritten | lib/fs/fat/file.cpp:170-210 | the scan loop, guard order included, is ScanAsWritten |
| FatFile.PassAsWritten | lib/fs/fat/file.cpp:152-231 | a pass keeps the path buffer's length, and one that goes on leaves ptr inside it |
| FatFile.OpenLoopAsWritten | lib/fs/fat/file.cpp:152-232 | the loop keeps the path buffer's length |
| FatFile.OpenLoopUnfold | lib/fs/fat/file.cpp:152-232 | the loop's result is the first pass's result when that pass stops, and otherwise the rest of the loop's from the state the pass leaves |
| FatFile.OpenAsWritten | lib/fs/fat/file.cpp:134-238 | fat_open_file as written keeps the path buffer's length |
| FatFile.SkipSeparators | lib/fs/fat/file.cpp:147-149 | the loop steps over the run of '/' from k |
| FatFile.OpenPass | lib/fs/fat/file.cpp:152-231 | a pass over the caller's path buffer is PassAsWritten, NUL written at the '/' included |
| FatFile.OpenFileAsWritten | lib/fs/fat/file.cpp:134-238 | fat_open_file over the caller's path buffer is OpenAsWritten |
| FatFile.LookupInChain | lib/fs/fat/file.cpp:152-231 | a lookup finds an entry, or fails with ERR_GENERIC, or runs out of links |
| FatFile.OpenFrom | lib/fs/fat/file.cpp:134-238 | an open finds an entry, or fails with ERR_GENERIC, or runs out of links |
| FatFile.Lookup | lib/fs/fat/file.cpp:152-231 | the loop over a directory's chain is LookupInChain |
| FatFile.OpenFile | lib/fs/fat/file.cpp:134-238 | fat_open_file as intended is OpenPath |
| FatFile.ScanFindsName | lib/fs/fat/file.cpp:173-207 | what a cluster scan finds is the entry at its 32-byte slot, read with the 16-bit start cluster at 0x1A, whose name matches the wanted name up to letter case |
| FatFile.LookupFound | lib/fs/fat/file.cpp:152-231 | a lookup that succeeds found its entry by name in a data cluster of the chain, fewer than fuel links along, read whole |
| FatFile.OpenFindsLast | lib/fs/fat/file.cpp:134-238 | an open that succeeds returns what the lookup of the path's last element found |
| FatFile.OpenOneComponent | lib/fs/fat/file.cpp:146-149 | a path of one element after any slashes opens what its lookup in the root directory finds |
| FatFile.StatIsDirOnlyBit | lib/fs/fat/file.cpp:336-341 | stat gives the file's length, and reports a directory exactly when the directory bit is the only attribute bit set |
| FatFile.OpenMatchesPrefix | lib/fs/fat/file.cpp:191 | opening "ab" where the file "A" is the first entry opens "A" as written; the intended lookup fails |
| FatFile.OpenContinuesAsLast | lib/fs/fat/file.cpp:161-168 | opening "a/b" where "a" is in the second cluster of the root opens the directory "a" as written; the intended open fails |
| FatFile.ReadOverwritesChunks | lib/fs/fat/file.cpp:293-324 | as written, reading an 8-byte file of two 4-byte clusters leaves the second cluster then zeros in the buffer, where the read as intended returns the file's eight bytes in order |
| MinipChksum.Word | lib/minip/chksum.c:15 | the word loaded from two bytes is a 16-bit value |
| MinipChksum.FoldShrinks | lib/minip/chksum.c:26-27 | a fold of a value of 17 bits or more makes it smaller, so the folding loop ends |
| MinipChksum.FoldAll | lib/minip/chksum.c:26-27 | the folding loop leaves a 16-bit value |
| MinipChksum.OnesSum | lib/minip/chksum.c:11-30 | ones_sum16 returns a 16-bit value |
| MinipChksum.OnesSum16 | lib/minip/chksum.c:11-30 | the word loop with its 32-bit accumulator and early fold, the odd byte and the folding loop compute OnesSum |
| MinipChksum.EndAround | lib/minip/chksum.c:11-30 | the end-around-carry sum is a 16-bit value that is 0 only for 0 |
| MinipChksum.FoldEquiv | lib/minip/chksum.c:17 | a fold keeps the value's residue modulo 0xffff, and a nonzero value nonzero |
| MinipChksum.EndAroundEquiv | lib/minip/chksum.c:26-27 | two values with the same residue modulo 0xffff, both zero or both not, have the same end-around sum |
| MinipChksum.FoldAllIsEndAround | lib/minip/chksum.c:26-27 | the folding loop computes the end-around-carry sum of its input |
| MinipChksum.AddWordEquiv | lib/minip/chksum.c:15-17 | adding a word to an accumulator of at most 0xffff0000 loses no carry and keeps it at most 0xffff0000 |
| MinipChksum.SumWordsEquiv | lib/minip/chksum.c:14-19 | the word loop stays at most 0xffff0000 and keeps the plain sum of the words modulo 0xffff |
| MinipChksum.OnesSumIsEndAround | lib/minip/chksum.c:11-30 | for an initial sum of at most 0xffff0000, ones_sum16 is the end-around-carry sum of the initial sum, the words and the last odd byte padded with a zero byte |
| MinipChksum.LargeInitialSumWraps | lib/minip/chksum.c:15 | an initial sum of 0xffffffff wraps on the first add and loses its carry: 0 instead of 1 |
| MinipChksum.WordSumAppend | lib/minip/chksum.c:14-19 | the word sum of an even-length run followed by more bytes is the sum of the two |
| MinipChksum.WordSumShift | lib/minip/chksum.c:14-19 | the word sum of a + b from |a| + j is the word sum of b from j |
| MinipChksum.Complement | lib/minip/minip.c:276 | the complement of a 16-bit sum is 16 bits and adds up with it to 0xffff |
| MinipChksum.ComplementTotal | lib/minip/minip.c:276 | adding the complement of a positive total's end-around sum gives a total whose end-around sum is 0xffff |
| MinipChksum.Le16 | lib/minip/minip.c:276 | storing a 16-bit value as two bytes gives the word it is loaded back as |
| MinipChksum.TotalWithWord | lib/minip/minip.c:276 | a word stored between two runs of whole words adds its value to the total |
| MinipChksum.ComplementCompletes | lib/minip/minip.c:276 | a header of whole words, not all zero, with the complement of its ones-sum stored in it sums to 0xffff |
| MinipRoute.SearchFrom | lib/minip/minip.c:129-146 | the slot the search loop picks from i on is a slot of the table |
| MinipRoute.Search | lib/minip/minip.c:123-146 | the slot ipv4_search_route picks is a slot of the table |
| MinipRoute.SearchFromChoice | lib/minip/minip.c:129-146 | from slot i, with def the last default route before i, the loop picks the first serving route when there is one, and otherwise the last default route or nothing |
| MinipRoute.SearchChoice | lib/minip/minip.c:123-146 | the search picks the first up, non-default route whose subnet holds dest; when there is none, the last up default route, and nothing only when there is no default route either |
| MinipRoute.FreeSlot | lib/minip/minip.c:176-179 | the slot found is the first one from i on with no references and no flags, and none is found only when every slot is in use |
| MinipRoute.AddedRouteServes | lib/minip/minip.c:168-197 | once an up route for dest/mask has been added, a lookup of any address in that subnet finds a route |
| MinipRoute.DefaultRouteServesAll | lib/minip/minip.c:199-229 | once a default route has been added, a lookup of every address finds a route |
| MinipRoute.RouteTable.constructor | lib/minip/minip.c:43 | the table has 16 slots, all unused |
| MinipRoute.RouteTable.FindRoute | lib/minip/minip.c:129-146 | the scan over the table picks Search's slot |
| MinipRoute.RouteTable.SearchRoute | lib/minip/minip.c:123-155 | the picked route gets one more reference and is returned; with no route the table is unchanged |
| MinipRoute.RouteTable.DecRouteRef | lib/minip/minip.c:157-166 | the route loses one reference and nothing else changes |
| MinipRoute.RouteTable.AddInFreeSlot | lib/minip/minip.c:176-192 | the first unused slot takes the route, and a full table is ERR_NO_MEMORY with nothing changed |
| MinipRoute.RouteTable.AddRoute | lib/minip/minip.c:168-197 | the first unused slot becomes an up route to dest/mask with no references; a full table is ERR_NO_MEMORY |
| MinipRoute.RouteTable.AddDefaultRoute | lib/minip/minip.c:199-229 | the first unused slot becomes an up default route with mask 0; a full table is ERR_NO_MEMORY |
| MinipIpv4.UnicastLocal | lib/minip/minip.c:112-113 | the first byte becomes unicast (bit 0 clear) and locally administered (bit 1 set), its other bits kept |
| MinipIpv4.GenRandomMac | lib/minip/minip.c:107-114 | each byte of the address is the low byte of its rand() draw, the first made unicast and locally administered |
| MinipIpv4.ParseIpAddr | lib/minip/minip.c:517-535 | the loop over the first len bytes is ParseAsWritten, an overrun of ip[] included |
| MinipIpv4.PastFourthOctet | lib/minip/minip.c:521-532 | past the fourth octet the scan as written either writes past ip[] or ends with the octets unchanged |
| MinipIpv4.BoundedAgreesFrom | lib/minip/minip.c:521-532 | whenever the scan as written stays inside ip[], the bounded scan gives the same address |
| MinipIpv4.BoundedAgrees | lib/minip/minip.c:517-535 | whenever minip_parse_ipaddr stays inside ip[], it returns what the bounded parser returns |
| MinipIpv4.FifthOctetOverruns | lib/minip/minip.c:523-529 | the input "....1" makes the loop write ip[4]; the bounded parser ignores the fifth octet |
| MinipIpv4.Decimal | lib/minip/minip.c:542-549 | the decimal digits printed for an octet are one to three digit characters |
| MinipIpv4.DigitAppends | lib/minip/minip.c:528-529 | scanning the last digit of n after the digits of n / 10 gives n |
| MinipIpv4.DecimalRun | lib/minip/minip.c:528-529 | scanning the digits of n into a zero octet leaves n in it |
| MinipIpv4.OctetRun | lib/minip/minip.c:521-532 | an octet's digits and the '.' after them fill that octet and move to the next |
| MinipIpv4.LastOctetRun | lib/minip/minip.c:521-535 | the last octet's digits up to the end fill it and give the packed address |
| MinipIpv4.OctetsRebuild | lib/minip/minip.c:542-548 | an address rebuilt from the four octets print_ipv4_address prints is the address |
| MinipIpv4.DottedScans | lib/minip/minip.c:517-535 | the scan as written reads a dotted quad back into its four octets |
| MinipIpv4.FormatParses | lib/minip/minip.c:517-549 | parsing what print_ipv4_address prints gives the address back, as written and bounded alike |
| MinipIpv4.Be16 | lib/minip/minip.c:266 | htons of a 16-bit value lies in memory as its big-endian bytes |
| MinipIpv4.BuildIpv4Hdr | lib/minip/minip.c:263-277 | the header built is twenty bytes whose ones-sum, checksum included, is 0xffff |
| MinipIpv4.ChecksumOfBuilt | lib/minip/minip.c:275-276 | storing the complement of the zeroed header's sum in the checksum field makes the header sum to 0xffff |
| MinipIpv4.BuiltHeaderFields | lib/minip/minip.c:264-273 | the built header holds version 4, a twenty-byte header, the total length 20 + len in 16 bits, the don't-fragment flag, ttl 64, the protocol and both addresses |
| MinipIpv4.AsWrittenChecksumRejectsOnlyEmptyHeader | lib/minip/minip.c:419 | the checksum test as written rejects only a header of length 0 |
| MinipIpv4.AsWrittenIgnoresChecksum | lib/minip/minip.c:392-437 | a twenty-byte version 4 header of total length 20 passes the checks as written whatever its checksum field holds |
| MinipIpv4.CorruptedChecksumRejected | lib/minip/minip.c:419 | in a header that passes the RFC 1071 test, any other checksum value except its one's-complement twin fails it |
| MinipIpv4.EndAroundDiffers | lib/minip/minip.c:419 | two totals whose end-around sums are both 0xffff differ by a multiple of 0xffff |
| MinipIpv4.BuiltPacketAccepted | lib/minip/minip.c:263-277 | a header built by minip_build_ipv4_hdr, in front of its payload and any padding, passes the intended checks, which hand back the payload with the padding trimmed |
| MinipNetif.FlagsAreDistinctBits | lib/minip/include/lib/minip/netif.h:39-41 | the three interface flags are single bits, pairwise disjoint |
| MinipNetif.NetmaskAsWrittenIsAddressPart | lib/minip/include/lib/minip/netif.h:52-53 | the "netmask" as written is a part of the address (its low 32 - width bits), 0 for the address 0 |
| MinipNetif.NetmaskAsWrittenHighBitsClear | lib/minip/include/lib/minip/netif.h:52-53 | the "netmask" as written has its high width bits clear |
| MinipNetif.BroadcastAsWrittenSetsHighBits | lib/minip/include/lib/minip/netif.h:55-56 | the "broadcast" as written is the "netmask" with its high width bits set |
| MinipNetif.AsWrittenOnClassC | lib/minip/include/lib/minip/netif.h:52-56 | on 192.168.1.10/24 the helpers give the netmask 192.0.0.0 and the broadcast address 192.255.255.255 |
| MinipNetif.BroadcastInSubnet | lib/minip/include/lib/minip/netif.h:51-56 | the broadcast address lies in the address's subnet and has every host bit set |
| MinipNetif.NetmaskOnClassC | lib/minip/include/lib/minip/netif.h:51-56 | a /24 gives the netmask 255.255.255.0 and 192.168.1.10/24 the broadcast address 192.168.1.255; the loopback's /8 gives 255.0.0.0 |
| MinipNetif.NameField | lib/minip/netif.c:62-65 | the name field is 32 bytes |
| MinipNetif.NameFieldTruncates | lib/minip/netif.c:62-65 | the name field holds the first 31 characters of the name, then a NUL and only zeros |
| MinipNetif.Netif.constructor | lib/minip/netif.c:55-67 | a newly allocated record is zeroed apart from its magic and its truncated name |
| MinipNetif.Netif.Create | lib/minip/netif.c:62-67 | a caller's record is zeroed apart from its magic and its truncated name |
| MinipNetif.Netif.SetEth | lib/minip/netif.c:95-113 | the MAC address, transmit routine and its argument are set, ETH_CONFIGURED is added to the flags, and nothing else changes |
| MinipNetif.Netif.SetIpv4Addr | lib/minip/netif.c:115-127 | the address and subnet width are set, IPV4_CONFIGURED is added to the flags, and nothing else changes |
| MinipNetif.SetFlagKeepsOthers | lib/minip/netif.c:82 | setting a flag sets it and leaves every other bit as it was |
| MinipNetif.Netifs.constructor | lib/minip/netif.c:24-32 | the interface list starts empty with no main and no published loopback |
| MinipNetif.Netifs.Register | lib/minip/netif.c:70-93 | the interface goes to the head of the list and gets REGISTERED; the first one other than the loopback becomes main; its other fields are unchanged |
| MinipNetif.Netifs.Init | lib/minip/netif.c:39-50 | the loopback is created, configured with the broadcast MAC and 128.0.0.1/8, registered at the list's head with the three flags, and published |
| MinipNetif.NetifCreate | lib/minip/netif.c:52-68 | a given record is reused; a null one is allocated, and a failed allocation returns null; the record returned is zeroed with its magic and name |
| MinipNet.FirstFrom | lib/minip/arp.c:54-61 | the list walk from i on stops at the first element passing the test, and finds nothing exactly when no element from i on passes it |
| MinipArp.Find | lib/minip/arp.c:54-61 | the list walk finds an entry holding addr, and finds none exactly when no entry holds it |
| MinipArp.MoveToFrontPermutes | lib/minip/arp.c:31-37 | moving an entry to the head keeps every entry, puts that one first and keeps the others in order |
| MinipArp.MoveToFrontKeepsValid | lib/minip/arp.c:31-37 | moving an entry to the head keeps the cached addresses distinct and every hardware address six bytes long |
| MinipArp.InsertKeepsValid | lib/minip/arp.c:72-74 | a new entry at the head for an address not yet cached keeps the cache valid |
| MinipArp.UpdatesKeepValid | lib/minip/arp.c:39-80 | arp_cache_update, as written and as RFC 826 intends, keeps the cache valid |
| MinipArp.UpdatePutsAddrFirst | lib/minip/arp.c:54-75 | after an update of a cached address, or of a new one whose allocation succeeds, that address is the head entry; the intended update stores the new hardware address there |
| MinipArp.StaleMacKept | lib/minip/arp.c:55-58 | an address already cached keeps its old hardware address through the update as written |
| MinipArp.StaleMacExample | lib/minip/arp.c:55-58 | after a host changes its hardware address, a lookup still returns the old one |
| MinipArp.LookupAfterUpdate | lib/minip/arp.c:39-100 | after the intended update of an address that is not ignored, a lookup returns the new hardware address |
| MinipArp.IgnoredLeavesCache | lib/minip/arp.c:46-49 | an update for 0.0.0.0 or an address ending in .255 leaves the cache as it was |
| MinipArp.LookupPermutes | lib/minip/arp.c:83-100 | a lookup keeps the same entries, a miss keeps their order too, and a lookup hits exactly when some entry holds the address |
| MinipArp.ArpCache.constructor | lib/minip/arp.c:26 | the cache starts empty |
| MinipArp.ArpCache.FindEntry | lib/minip/arp.c:54-61 | the list walk is Find |
| MinipArp.ArpCache.MruUpdate | lib/minip/arp.c:31-37 | the entry moves to the head |
| MinipArp.ArpCache.UpdateCache | lib/minip/arp.c:39-80 | the cache becomes UpdateAsWritten of what it was |
| MinipArp.ArpCache.LookupCache | lib/minip/arp.c:83-100 | the cache and the answer are Lookup of the cache as it was |
| MinipArp.ReplyTo | lib/minip/arp.c:203-218 | the reply goes to the requester's hardware address from ours, is a REPLY, gives our addresses as sender and the requester's as target |
| MinipArp.HandleArpPacket | lib/minip/arp.c:180-236 | a packet too short is -1 and changes nothing; a request for our address sends the reply when a buffer is free and leaves the cache alone; a reply updates the cache with spa and sha; other operations do nothing; otherwise 0 |
| MinipUdp.FindPort | lib/minip/udp.c:53-61 | the walk finds the first listener on the port, and none exactly when no listener has it |
| MinipUdp.RemoveKeeps | lib/minip/udp.c:56 | deleting a listener keeps the others in order |
| MinipUdp.ListenKeepsPortsDistinct | lib/minip/udp.c:50-74 | udp_listen, as written and with the callback checked, keeps one listener per port |
| MinipUdp.ListenKeepsCallbacksSet | lib/minip/udp.c:50-74 | udp_listen with the callback checked never registers a null callback |
| MinipUdp.ListenThenUnlisten | lib/minip/udp.c:50-74 | listening on a free port and then calling udp_listen with a null callback for it leaves the list as it was |
| MinipUdp.TakenPortRefused | lib/minip/udp.c:54-60 | a non-null callback for a taken port is -1 and changes nothing |
| MinipUdp.Be16At | lib/minip/udp.c:226 | a 16-bit field read in network order is below 65536 |
| MinipUdp.InputReachesPortOwner | lib/minip/udp.c:217-234 | with one listener per port, a datagram goes to the listener on its destination port, with the payload, source address and source port |
| MinipUdp.InputCallsSetCallback | lib/minip/udp.c:217-234 | while no null callback is registered, a delivery never calls null |
| MinipUdp.NullCallbackRegistered | lib/minip/udp.c:63-73 | udp_listen with a null callback for a port nobody listens on registers it, and the next datagram to that port calls null |
| MinipUdp.UdpListeners.constructor | lib/minip/udp.c:23 | the listener list starts empty |
| MinipUdp.UdpListeners.UdpListen | lib/minip/udp.c:50-74 | the list and the result are ListenAsWritten of the list as it was |
| MinipUdp.UdpListeners.UdpInput | lib/minip/udp.c:217-234 | the walk delivers as Input says |
| MinipUdp.Be16 | lib/minip/udp.c:171-173 | htons of a 16-bit value reads back as that value in network order |
| MinipUdp.UdpHeader | lib/minip/udp.c:170-174 | the UDP header is eight bytes |
| MinipUdp.SentDatagramReadsBack | lib/minip/udp.c:150-215 | a datagram sent with udp_send reads back with the socket's ports, a length field equal to its own length, and the payload |
| MinipUdp.SendRejectsMissingArguments | lib/minip/udp.c:156-162 | a null handle, a null iov or no iovecs is -EINVAL, a null or empty buffer to udp_send is -EINVAL, and a failed packet allocation is -ENOMEM |
| BcacheRef.ApplyAppend | lib/bcache/include/lib/bcache/bcache_block_ref.h:46-85 | applying two runs of cache calls one after the other is applying the joined run |
| BcacheRef.GetBlockCases | lib/bcache/include/lib/bcache/bcache_block_ref.h:56-79 | the held block is returned without a call; otherwise a failed put is returned with nothing held; a failed get is returned with nothing held; a successful get holds the new block |
| BcacheRef.CloseTwice | lib/bcache/include/lib/bcache/bcache_block_ref.h:46-53 | a close leaves nothing held, and a second close does nothing and returns 0 |
| BcacheRef.StepBalances | lib/bcache/include/lib/bcache/bcache_block_ref.h:46-85 | each of close, get_block and mark_dirty keeps the references taken from the cache equal to the block held |
| BcacheRef.RunBalances | lib/bcache/include/lib/bcache/bcache_block_ref.h:46-85 | over any run of operations the references taken and not put back are exactly the block held: none leaks and none is put twice |
| BcacheRef.MoveConstructConserves | lib/bcache/include/lib/bcache/bcache_block_ref.h:23-30 | the move constructor keeps every reference held exactly once |
| BcacheRef.MoveAssignConserves | lib/bcache/include/lib/bcache/bcache_block_ref.h:33-41 | move assignment that closes the target first keeps the references taken equal to those the two holders hold |
| BcacheRef.MoveAssignLeaks | lib/bcache/include/lib/bcache/bcache_block_ref.h:33-41 | move-assigning a holder of block 2 onto a holder of block 1 loses the reference to block 1 |
| BcacheRef.BlockRef.IsValid | lib/bcache/include/lib/bcache/bcache_block_ref.h:87 | is_valid is true exactly when a block is held |
| BcacheRef.BlockRef.constructor | lib/bcache/include/lib/bcache/bcache_block_ref.h:18 | a new holder has its cache and no block |
| BcacheRef.BlockRef.MoveFrom | lib/bcache/include/lib/bcache/bcache_block_ref.h:23-30 | the new holder takes the other's cache, pointer and block; the other is emptied |
| BcacheRef.BlockRef.MoveAssign | lib/bcache/include/lib/bcache/bcache_block_ref.h:33-41 | the target takes the other's state without closing what it held; the other is emptied |
| BcacheRef.BlockRef.CloseRef | lib/bcache/include/lib/bcache/bcache_block_ref.h:46-53 | the new state, result and cache calls are Close's |
| BcacheRef.BlockRef.GetBlockRef | lib/bcache/include/lib/bcache/bcache_block_ref.h:56-79 | the new state, result and cache calls are GetBlock's |
| BcacheRef.BlockRef.MarkDirtyRef | lib/bcache/include/lib/bcache/bcache_block_ref.h:81-85 | the cache calls are MarkDirty's: one dirty mark for a held block, none otherwise |
| M68kMmu.IndicesDecompose | arch/m68k/mmu.c:146-156 | for a 32-bit address the three indices are below 16, 64 and 1024 and, with the page offset, give the address back |
| M68kMmu.PageIndices | arch/m68k/mmu.c:146-156 | the three indices of an address depend only on its page number |
| M68kMmu.RootEntryFor | arch/m68k/mmu.c:181-188 | repeat i of map_l0 points at the 512-byte slice i of the L1 table, in 23 bits |
| M68kMmu.PtpFor | arch/m68k/mmu.c:199-206 | repeat i of map_l1 points at the 256-byte slice i of the L2 table, in 24 bits |
| M68kMmu.PteFor | arch/m68k/mmu.c:218-227 | map_l2's descriptor holds, in 20 bits, the page that contains addr |
| M68kMmu.WrittenEntriesValid | arch/m68k/mmu.c:263-280 | every entry map_l0, map_l1 and map_l2 write is valid, and a zeroed entry is invalid at every level |
| M68kMmu.RootSlices | arch/m68k/mmu.c:111-117 | the root entry the hardware indexes with bits 31..25 lies in the group of the L0 index, and its slice of the L1 table holds the L1 index's entries |
| M68kMmu.PointerSlices | arch/m68k/mmu.c:111-117 | the L1 entry the hardware indexes with bits 27..18 lies in the group of the L1 index, and its slice of the L2 table holds the L2 index's entries |
| M68kMmu.SliceAddress | arch/m68k/mmu.c:181-184 | the slices of a page-aligned table do not wrap and lie at consecutive 512- or 256-byte addresses |
| M68kMmu.HardwareSeesL1 | arch/m68k/mmu.c:176-192 | after map_l0, the root entry the hardware picks for any address of the group, plus its offset, is the L1 index's entry in the 1024-entry table |
| M68kMmu.HardwareSeesL2 | arch/m68k/mmu.c:194-210 | after map_l1, the L1 entry the hardware picks for any address of the group, plus its offset, is the L2 index's entry in the 1024-entry table |
| M68kMmu.AllocL1Effect | arch/m68k/mmu.c:295-304 | linking a fresh L1 table for a group that had none gives that group the table, changes no other group and no translation, and keeps the tables well formed |
| M68kMmu.AllocL2Effect | arch/m68k/mmu.c:313-322 | linking a fresh L2 table for a group that had none gives it the table, changes no other group and no translation, and keeps the tables well formed |
| M68kMmu.PagesDiffer | arch/m68k/mmu.c:146-156 | two different pages with the same L0 and L1 indices have different L2 indices |
| M68kMmu.SetLeafEffect | arch/m68k/mmu.c:212-229 | map_l2 on the walk of a page maps that page to the page holding addr and changes no other page |
| M68kMmu.PageStep | arch/m68k/mmu.c:330-331 | the k-th page after an aligned address is page k after it, modulo 2^32, and stays aligned |
| M68kMmu.NextPageGroups | arch/m68k/mmu.c:337-338 | stepping to the next page without the L2 index wrapping keeps the upper indices, and without the L1 index wrapping keeps the L0 index |
| M68kMmu.TerminalReached | arch/m68k/mmu.c:289-336 | the cursor reaches terminal_va exactly after the last page of the range |
| M68kMmu.MapStep | arch/m68k/mmu.c:328-331 | mapping the page at distance d extends the mapped prefix by one and leaves every page further out alone |
| M68kMmu.LeafTranslates | arch/m68k/mmu.c:218-228 | a mapped page translates every address in it to the same offset in its physical page |
| M68kMmu.MappedTranslates | arch/m68k/mmu.c:284-341 | after map_range every address at offset off of the k-th page of the range translates to offset off of the k-th physical page |
| M68kMmu.ReadRoot | arch/m68k/mmu.c:293-307 | the root entry of a group is valid exactly when the group has an L1 table, found at table_address << 9 |
| M68kMmu.ReadPointer | arch/m68k/mmu.c:311-325 | the L1 entry of a group is valid exactly when the group has an L2 table, found at table_address << 8 |
| M68kMmu.RangeAllocL1 | arch/m68k/mmu.c:295-304 | allocating and linking an L1 table keeps the walk's invariant |
| M68kMmu.RangeAllocL2 | arch/m68k/mmu.c:313-322 | allocating and linking an L2 table keeps the walk's invariant |
| M68kMmu.RangeMapPage | arch/m68k/mmu.c:328-331 | mapping the page under the cursor moves the walk's invariant on by one page |
| M68kMmu.RangeTerminal | arch/m68k/mmu.c:334-336 | the cursor equals terminal_va exactly after the last page |
| M68kMmu.CursorGroups | arch/m68k/mmu.c:337-338 | moving an aligned cursor on by one page within an L2 table, or an L1 table, keeps the upper indices |
| M68kMmu.MapL0 | arch/m68k/mmu.c:176-192 | the 8 repeats of the group of vaddr point at the slices of the L1 table at paddr, the rest of the root table unchanged |
| M68kMmu.PageTables.constructor | arch/m68k/mmu.c:119 | the root table is empty and maps no page; the free pages are the given ones |
| M68kMmu.PageTables.MapL1 | arch/m68k/mmu.c:194-210 | the 16 repeats of the group of vaddr in the L1 table at t point at the slices of the L2 table at paddr; nothing else changes |
| M68kMmu.PageTables.MapL2 | arch/m68k/mmu.c:212-229 | entry L2Index(vaddr) of the L2 table at t maps the page holding addr; nothing else changes |
| M68kMmu.PageTables.AllocPgtable | arch/m68k/mmu.c:126-142 | the next free page is handed out, or ERR_NO_MEMORY when there is none; the tables are unchanged |
| M68kMmu.PageTables.MapRangeL2 | arch/m68k/mmu.c:328-337 | the inner loop maps one page after another into the L2 table, keeping the walk's invariant, until the terminal address or the end of the table |
| M68kMmu.PageTables.MapRangeL1 | arch/m68k/mmu.c:310-338 | the middle loop gives each group its L2 table, a fresh one when its entry is not valid, keeping the walk's invariant; a failed allocation is ERR_NO_MEMORY |
| M68kMmu.PageTables.MapRange | arch/m68k/mmu.c:284-341 | on success every page of [va, va + len_minus_one] maps to the page at the same distance from pa; ERR_NO_MEMORY only when the free pages run out; no page outside the range changes, and existing tables are kept |
| GicV3.AffinityOfMpidr | dev/interrupt/arm_gic/gic_v3.c:358-363 | on aarch64 Aff0, Aff1 and Aff2 are MPIDR bits 7..0, 15..8 and 23..16, and Aff3 is bits 39..32 |
| GicV3.AffinityOfCpuNum | dev/interrupt/arm_gic/gic_v3.c:364-367 | elsewhere only Aff0 is set, to the low eight bits of the CPU number |
| GicV3.SgirVal | dev/interrupt/arm_gic/gic_v3.c:349-385 | the INTID is at bits 27..24, Aff1 at 23..16, Aff2 at 39..32, Aff3 at 55..48, the range selector Aff0 / 16 at 47..44, the target list holds the single bit Aff0 % 16, and every other bit is zero |
| GicV3.SgirDistinguishesTargets | dev/interrupt/arm_gic/gic_v3.c:349-385 | two CPUs with different affinities get different register values for the same SGI |
| GicV3.SetBit | dev/interrupt/arm_gic/gic_v3.c:149-155 | the read-modify-write sets bit j when on and clears it otherwise, keeping every other bit |
| GicV3.BitKept | dev/interrupt/arm_gic/gic_v3.c:149-155 | two words that agree outside bit j agree on every other bit |
| GicV3.BitOfDiffers | dev/interrupt/arm_gic/gic_v3.c:147 | two different interrupts of the same word have different bits |
| GicV3.OtherBitKept | dev/interrupt/arm_gic/gic_v3.c:147-163 | setting the bit of one interrupt keeps the bit of every other interrupt of its word |
| GicV3.SetGroupBit | dev/interrupt/arm_gic/gic_v3.c:147-163 | updating a bank of group words changes the group bit of the vector alone, to the value asked for |
| GicV3.ConfigureSetsOnlyVector | dev/interrupt/arm_gic/gic_v3.c:297-309 | configuring an interrupt puts it in group GICV3_IRQ_GROUP (IGROUPR from bit 0, IGRPMODR from bit 1) as the current CPU sees it, and changes the group of no other interrupt, nor of a PPI on another CPU |
| GicV3.MaxInterrupts | dev/interrupt/arm_gic/gic_v3.c:216-228 | there is a count exactly when the revision in PIDR2 bits 7..4 is 3 or 4; it is 32 * (TYPER bits 4..0 + 1) capped at MAX_INT, and never more than 1024 |
| GicV3.CeilWords | dev/interrupt/arm_gic/gic_v3.c:238 | the loop over i = 0, 32, ... below m stops after ceil(m / 32) words |
| GicV3.WordInRange | dev/interrupt/arm_gic/gic_v3.c:238-243 | the word of an interrupt below the count is a word of the bank |
| GicV3.InitEffect | dev/interrupt/arm_gic/gic_v3.c:238-264 | after init with count m every interrupt below m is disabled and in group 1 non-secure, and every SPI below m is routed to core 0; the others are as they were |
| GicV3.RestoreStep | dev/interrupt/arm_gic/gic_v3.c:335-337 | one more pass of the resume loop sets the saved bits of one more word |
| GicV3.RestoreEnd | dev/interrupt/arm_gic/gic_v3.c:335-337 | past the last word the resume loop writes nothing more |
| GicV3.ResumeRestores | dev/interrupt/arm_gic/gic_v3.c:314-339 | after a suspend, any change to the SPI enables and a resume, every SPI enabled at suspend is enabled again; with every SPI disabled in between, exactly the saved enables come back |
| GicV3.Gic.constructor | dev/interrupt/arm_gic/gic_v3.c:311-312 | the saved masks start at zero, one SPI word per 32 interrupts and one PPI word per CPU |
| GicV3.Gic.GicdSetupIrqGroup | dev/interrupt/arm_gic/gic_v3.c:141-164 | bit vector % 32 of word vector / 32 of IGROUPR follows grp bit 0 and of IGRPMODR grp bit 1; nothing else changes |
| GicV3.Gic.GicrSetupIrqGroup | dev/interrupt/arm_gic/gic_v3.c:180-204 | the same update on the redistributor of the given CPU alone; nothing else changes |
| GicV3.Gic.ConfigureIrqLocked | dev/interrupt/arm_gic/gic_v3.c:297-309 | a PPI is set up on the current CPU's redistributor and an SPI on the distributor, in group GICV3_IRQ_GROUP; enables and routing are unchanged |
| GicV3.Gic.Init | dev/interrupt/arm_gic/gic_v3.c:213-266 | the count is MaxInterrupts; with none nothing is written; otherwise every word of an interrupt below the count is disabled and in group 1 non-secure and every SPI below the count is routed to core 0 |
| GicV3.Gic.InitWords | dev/interrupt/arm_gic/gic_v3.c:238-243 | the first ceil(count / 32) words are disabled and put in group 1 non-secure |
| GicV3.Gic.RouteToCore0 | dev/interrupt/arm_gic/gic_v3.c:262-264 | IROUTER is 0 for every SPI below the count; nothing else changes |
| GicV3.Gic.SuspendCpu | dev/interrupt/arm_gic/gic_v3.c:314-325 | CPU 0 also saves the SPI enables of words 1 and up; every CPU saves its own PPI enables |
| GicV3.Gic.ResumeGicd | dev/interrupt/arm_gic/gic_v3.c:333-338 | the saved SPI enables are set again in words 1 and up; nothing else changes |
| GicV3.Gic.ResumeCpuLocked | dev/interrupt/arm_gic/gic_v3.c:327-339 | the CPU's saved PPI enables are set again, and with gicd the saved SPI enables too; nothing else changes |
| Pit.FirstRoundingNeverFires | platform/pc/pit.c:107-121 | as written, the remainder of 3579546 / frequency is never at least 3579546 / 2, so the count is the truncated third of the truncated quotient, plus one when that third leaves a remainder of 1 or 2 on division by 3 |
| Pit.CountAsWrittenMissesNearest | platform/pc/pit.c:103-121 | as written, 1000 Hz gets divisor 1194 where 1193 is nearest, 100 Hz 11931 where 11932 is nearest, and 1193181 Hz gets 2 where 1 is nearest |
| Pit.FirstRoundingNearest | platform/pc/pit.c:108-113 | rounding 3579546 / f to the nearest whole number leaves it within half of f of 3579546 |
| Pit.SecondRoundingNearest | platform/pc/pit.c:115-120 | rounding that count / 3 to the nearest keeps count * f within half of f of 1193182 |
| Pit.NearestFitsDivisor | platform/pc/pit.c:103-123 | between 19 and 1193181 Hz a count within half a frequency of 1193182 fits the 16-bit divisor and is at least 1 |
| Pit.CountIsNearest | platform/pc/pit.c:103-123 | the divisor is 0xffff up to 18 Hz and 1 from 1193182 Hz; between them count * frequency is within half a frequency of 1193182, and it always fits 16 bits |
| Pit.CountIsBest | platform/pc/pit.c:103-121 | no other count, of any size, gives a period nearer the frequency asked for |
| Pit.PitCount | platform/pc/pit.c:103-121 | the divisor computed step by step on 32-bit locals, with both roundings as written, is CountAsWritten |
| Pit.CountAsWrittenWithinOne | platform/pc/pit.c:103-121 | the divisor as written lies in 1..0xffff, and for 18 < f < 1193182 it is within one step of the exact one: the period it gives is off by less than one tick of f |
| Pit.DeltaTracksPeriod | platform/pc/pit.c:129 | the 32.32 tick length (3685982306 * count) >> 10 times 1193182 lies above count * 1000 * 2^32 - 1193182 and at most count * 1000 * 2^32 + count * 1199936: the length of count input-clock periods in milliseconds to within 0.28 parts per million |
| Pit.TickRearms | platform/pc/pit.c:72-95 | one tick adds the delta to the clock modulo 2^64; the callback runs exactly when one is installed, a trigger is set and the clock has reached it; then a periodic trigger moves on by one period and a one-shot is cleared; otherwise the trigger stays |
| Pit.ModAddLeft | platform/pc/pit.c:78 | reducing a 64-bit sum part way does not change it |
| Pit.TicksAdvance | platform/pc/pit.c:78 | after n ticks the clock has advanced by n deltas modulo 2^64, and the callback ran at most n times |
| Pit.AdvanceShift | platform/pc/pit.c:84-86 | one period and then k more is k + 1 periods |
| Pit.AdvanceIsMul | platform/pc/pit.c:84-86 | k periods in turn are k * p at once, modulo 2^64 |
| Pit.PeriodicAdvances | platform/pc/pit.c:83-86 | over any ticks a periodic trigger moves on by one period per callback |
| Pit.PeriodicNoDrift | platform/pc/pit.c:83-86 | a periodic trigger after any ticks is the first trigger plus one period per callback run, modulo 2^64: overshoot does not accumulate |
| Pit.TicksUnfold | platform/pc/pit.c:72-95 | n ticks are one tick followed by n - 1 more |
| Pit.MulSucc | platform/pc/pit.c:86 | (k + 1) * p is k * p + p |
| Pit.OneShotAtMostOnce | platform/pc/pit.c:83-89 | a one-shot trigger runs the callback at most once over any ticks, and never when no trigger is set |
| Pit.OneShotFiresWhenDue | platform/pc/pit.c:83-89 | without wrap-around, a one-shot trigger ahead of the clock runs once exactly when n ticks take the clock to it |
| Pit.OneShotFiresAfterInterval | platform/pc/pit.c:168-184 | a one-shot armed for interval ms with a callback runs once over n ticks exactly when n deltas reach interval << 32 |
| Pit.Millis | platform/pc/pit.c:50-59 | pit_current_time is the integer part of the 32.32 clock and fits 32 bits |
| Pit.MicrosAgreesWithMillis | platform/pc/pit.c:61-70 | the microsecond clock ((t >> 22) * 1000) >> 10 does not wrap, and its whole milliseconds are the millisecond clock |
| Pit.PitTimer.constructor | platform/pc/pit.c:26-41 | every static starts at zero and the interrupt masked |
| Pit.PitTimer.SetPitFrequency | platform/pc/pit.c:97-141 | the delta becomes that of the divisor as written, and 0x34 then the divisor's low and high bytes are written to the control and data ports; the clock and the trigger are unchanged |
| Pit.PitTimer.Init | platform/pc/pit.c:143-148 | the clock restarts at 0, ticks per ms become 1193, and the timer is set to 1000 Hz: the divisor written is 0x04aa = 1194, not the nearest 1193 |
| Pit.PitTimer.TimerTick | platform/pc/pit.c:72-95 | the state after the interrupt and whether the callback ran are those of one Tick |
| Pit.PitTimer.SetPeriodicTimer | platform/pc/pit.c:150-166 | the period becomes interval << 32, the trigger the clock plus the period, the callback the one given, and the interrupt unmasked |
| Pit.PitTimer.SetOneshotTimer | platform/pc/pit.c:168-184 | the period becomes 0, the trigger the clock plus interval << 32, the callback the one given, and the interrupt unmasked |
| Pit.PitTimer.StopTimer | platform/pc/pit.c:186-194 | the interrupt is masked and nothing else changes |
| X86Feature.MatchVendor | arch/x86/feature.c:38-71 | a known vendor is answered only for a string equal to that vendor's string; anything else is unknown |
| X86Feature.VendorStringsDiffer | arch/x86/feature.c:40-69 | no two known vendors share a string: they differ in the first or the eighth character |
| X86Feature.MatchVendorString | arch/x86/feature.c:38-71 | each known vendor's 12-character string is matched to that vendor |
| X86Feature.VendorBytes | arch/x86/feature.c:102-109 | the union holds 13 bytes, ebx then edx then ecx lowest byte first, and a NUL at index 12 |
| X86Feature.CStringStopsAtNul | arch/x86/feature.c:110 | the string strcmp reads is the characters before the first NUL, all of them when there is none |
| X86Feature.CStringUpToNul | arch/x86/feature.c:109-110 | bytes with no NUL before a final NUL hold exactly the characters before it |
| X86Feature.RegsHoldString | arch/x86/feature.c:102-110 | registers whose twelve bytes are the characters of a string, none NUL, hold that string in the union |
| X86Feature.DetectsEveryVendor | arch/x86/feature.c:98-110 | for each known vendor, the registers leaf 0 returns on its CPUs put its string in the union, and detection names that vendor |
| X86Feature.ModelNibbles | arch/x86/feature.c:142 | model \| (ext_model << 4) keeps the model in the low nibble and the extended model in the next |
| X86Feature.DecodeRecoversFields | arch/x86/feature.c:126-154 | family 4 is a 486, 5 a Pentium, any other a Pentium Pro or later; the family is the family field plus the extended family for family 0xf; the model's low nibble is the model field and its high nibble the extended model for family 0xf and for Intel family 6, zero otherwise |
| X86Feature.DecodeSignature | arch/x86/feature.c:126-154 | the switch on the family, on 32-bit locals, gives the level, family and model of Decode |
| X86Feature.DetectedRecords | arch/x86/feature.c:73-165 | detection records the highest basic leaf, the vendor matched from ebx, edx, ecx, and the highest extended leaf only when it is at least 0x80000000; leaf 1 is decoded exactly when the highest basic leaf is at least 1, and the level is then its level, Pentium otherwise |
| X86Feature.CpuInfo.constructor | arch/x86/feature.c:33-36 | before detection the globals say Intel, a 386, and no leaves |
| X86Feature.CpuInfo.Detect | arch/x86/feature.c:73-169 | the globals and the decoded family and model after detection are those of Detected on the globals before it |
| X86Feature.CpuInfo.DetectVendor | arch/x86/feature.c:92-116 | the level becomes Pentium, the highest basic leaf and the vendor are read from leaf 0, and the highest extended leaf is updated only when leaf 0x80000000 reports one |
| X86Feature.CpuInfo.DetectLevel | arch/x86/feature.c:120-158 | with a leaf 1 the level becomes its decoded level and the decode is given back; without one nothing changes |
| UefiBoot.AllocatePoolContract | lib/uefi/boot_service_provider.cpp:65-78 | a null buf is the only invalid parameter and writes nothing; size 0 succeeds with a null buffer; otherwise the call succeeds exactly when malloc does and hands out its non-null buffer, and is out of resources when it fails |
| UefiBoot.AllocatePagesAsWrittenWraps | lib/uefi/boot_service_provider.cpp:168-173 | as written, 2^52 pages ask memalign for 0 bytes (the size_t product wraps) and the call still succeeds |
| UefiBoot.AllocatePagesContract | lib/uefi/boot_service_provider.cpp:158-174 | a null memory pointer is an invalid parameter; a maximum address other than all ones is unsupported; neither writes *memory; a success asks memalign for exactly pages * 4096 bytes and hands out its non-null address; where that size fits in 64 bits the service as written agrees |
| UefiBoot.MemoryMapSizeProtocol | lib/uefi/boot_service_provider.cpp:85-110 | a null size pointer is an invalid parameter; a size below 40 bytes per region is too small, any size at least that succeeds, the size needed is always written back, and a retry with it succeeds |
| UefiBoot.DescriptorDescribesRegion | lib/uefi/boot_service_provider.cpp:114-118 | each descriptor is identity mapped at its region's base and counts the whole pages that fit in the region |
| UefiBoot.GetMemoryMap | lib/uefi/boot_service_provider.cpp:85-122 | the status and the size written are those of the size protocol; the key 0, the descriptor size 40 and the version 1 are written to each non-null pointer; on failure the map is untouched; on success entry i describes region i and the rest of the buffer is untouched |
| UefiBoot.CountRegions | lib/uefi/boot_service_provider.cpp:100-105 | the walk counts one entry per region |
| UefiBoot.FillMap | lib/uefi/boot_service_provider.cpp:111-119 | after the memset and the walk entry i describes region i, and the rest of the buffer is untouched |

## Left out

- VirtioPciBus.Bus.Init: the feature read `virtio_read_host_feature_word_64(0)` (virtio-pci-bus.cpp:339) is an input and its device_feature_select writes are not logged, because the 64-bit reader is not defined in virtio-pci-bus.cpp (its 32-bit primitive at virtio-pci-bus.cpp:160-163 is) and is not part of this model.
- PciBridge.Bridge.Probe: `new_bus->add_to_global_list()` (bridge.cpp:127) is not modelled, because the global bus list belongs to the bus manager, which is not part of this model; the scan of the secondary bus takes each slot's probe status as an input, as PciBus.Bus.Probe does, rather than probing nested bridges recursively.
- Configuration-space transport (`dev/bus/pci/pci.cpp`): config space is an abstract backend of read results plus an ordered log of writes, because the dispatch behind it is spinlock-guarded code into backends that are not part of this model.
- Platform and VM collaborators are inputs, because they are foreign code: `platform_allocate_interrupts`, `platform_compute_msi_values`, `platform_pci_int_to_vector`, `vmm_alloc_physical`, `malloc`, `memalign`, `pmm` pages, rand() and the block cache.
- The `map_it` lambda of `allocate_msix` is reduced to the status of the mapping call, because the mapping itself is virtual-memory code.
- BAR mapping in `virtio-pci-bus.cpp` is modelled only as the addresses it would record, because the mapping itself is virtual-memory code.
- lk/err.h, dev/bus/pci.h, lib/minip.h, minip-internal.h and lk/macros.h are not part of this model. As a result:
  - status codes are named constructors without numeric values;
  - PCI register offsets and bits are those of the PCI Local Bus Specification 3.0;
  - `IPV4_ROUTE_UP`/`IPV4_ROUTE_DEFAULT` are two distinct single bits;
  - `ALIGN`/`ROUNDUP` is rounding up to a multiple.
- lk/bits.h and the UEFI headers are not part of this model either:
  - `BITS_SHIFT(x, hi, lo)` is bits hi..lo of x;
  - `sizeof(EfiMemoryDescriptor)` is 40, as EFI_MEMORY_DESCRIPTOR in the UEFI specification;
  - `PAGE_SIZE` is 4096.
- Diagnostic printing is not modelled, because it does not affect results: `dump`, printf, `LTRACEF`, `dprintf`, hexdump and `netif_dump`.
- Mutexes and spinlocks (minip, pit) and interrupt registration are not modelled, because the model is sequential. Interrupt masking is a boolean.
- Byte order: the model fixes a little-endian host for `htons` and for the word loads of `ones_sum16`, because the result of the code depends on it.
- Capability walk (`probe_capabilities`), FAT directory lookup, path walk and `fat_open_file`: a `fuel` bound limits the steps. On an acyclic list or chain, enough fuel gives the source's result; on a cyclic one, where the source loops forever, the model reports that the bound ran out.
- `fat_unmount`, `fat_close_file` and `fat_closedir` only free memory and drop the block cache, so only the cookie list update of `fat_closedir` is modelled.
- The bio layer under FAT is a device image and a cluster-read function passed in, because it is I/O.
- `ipv4_payload_len` (lib/minip/minip.c:253-255) is not modelled, because nothing calls it.
- minip send paths are not modelled, because they are packet transmission: `minip_ipv4_send`, `udp_open`, `udp_open_raw`, `udp_close` and the transmit part of `udp_send_iovec`. Only the UDP header and the argument checks are modelled.
- `arp_send_request` and `arp_get_dest_mac` are not modelled, because they are a packet transmit and a polling wait on a timer.
- `handle_ipv4_packet` is modelled up to its accept checks. The dispatch to ICMP/UDP after them is left out.
- `check_and_set_configured` event signalling in netif is not modelled, because it is event plumbing.
- MinipChksum.OnesSumIsEndAround: proved only for initial sums up to 0xffff0000. Above that, the 32-bit add of the word loop can wrap and lose a carry (LargeInitialSumWraps), and every caller passes 0.
- MinipIpv4.ParseIpAddr: requires len below 256. With a longer len, the `uint8_t pos` of `minip_parse_ipaddr` wraps to 0 and the loop scans the string again from its start, which the model does not follow.
- The UDP checksum is computed under `#if 0` in the source and is not modelled.
- MinipRoute: the route reference count is unbounded, because the source never checks it against its type's width.
- m68k: `m68k_mmu_init` and the `movec` accessors are not modelled, because they are control-register access. The L1 and L2 tables are modelled as maps by physical address, and pages from the pool read as zero.
- m68k: an upper-descriptor type of 2 counts as invalid, as in the source.
- GICv3: RWP and WAKER polling, the CTLR enable writes, the ICPENDR clears, `gicd_setup_default_group`, `gicr_init` and `arm_gicv3_init_percpu` are not modelled, because they are MMIO polling and power sequencing.
- GICv3: `MAX_INT`, `SMP_MAX_CPUS` and `GICV3_IRQ_GROUP` are constants of the model, and the current CPU and its MPIDR are parameters.
- GicV3.Gic.ConfigureIrqLocked: the `cpu` argument is ignored, as in the source, which uses the current CPU.
- pit: the platform timer callback, its argument and its return value are not modelled; only whether it runs is. Nor are `current_time()`, `register_int_handler` and `pit_current_time_hires`'s use by other code.
- x86: the `X86_LEGACY` build (EFLAGS probing for 386/486) is not modelled, because it has no cpuid. cpuid results are parameters.
- UEFI: `free_pool` (a call to free) and the unsupported or stub services (`locate_protocol`, `handle_protocol`, `register_protocol_notify`, `locate_handle`) are not modelled.
- UEFI: the unused `pool_type` and `memory_type` arguments are not modelled.
- UefiBoot.GetMemoryMap: `num_entries * sizeof(EfiMemoryDescriptor)` is not wrapped to 64 bits, because a region list long enough to wrap cannot exist in memory.

## Findings

| source | as written | input that shows it | evidently intended | confidence | as-written member | corrected member |
|---|---|---|---|---|---|---|
| dev/bus/pci/bus_mgr/device.cpp:645-654 | `__builtin_ctz` of the 64-bit rounded BAR size truncates it to 32 bits | a 64-bit BAR that decodes 4 GiB (read-backs 0x0000000C, 0xFFFFFFFF): ctz(0) is undefined | the alignment is the 64-bit trailing-zero count, 32 | not executed | PciBars.AlignAsWritten4GiBBar | PciBars.AlignOfPow2 |
| dev/bus/pci/bus_mgr/device.cpp:416 | the MSI-X table mapping is `offset_bar_word * 16` bytes long | a table at offset 0 of BAR 0: a mapping of length 0 | the mapping covers the table, 16 bytes per entry | not executed | PciDevice.AsWrittenTableWindowEmpty | PciDevice.TableMappingCoversTable |
| dev/virtio/virtio-pci-bus.cpp:283-288 | a capability naming BAR 6 or above is recorded as a valid window | a common capability in BAR 6: init succeeds and `config_ptr` indexes `bar_map_[6]` | a window in a BAR above 5 is rejected | not executed | VirtioPciBus.ReservedBarAccepted | VirtioPciBus.ClassifiedCheckedResolves |
| lib/fs/fat/fs.cpp:66-67 | `new fat_fs_t` (no `()`, no initialisers) leaves root_cluster unset on FAT12/16, though the comment says the fields are zeroed | a FAT16 volume over an allocation that held 5 at root_cluster: fat_walk starts in cluster 5 (dir.cpp:116) instead of the fixed root directory | the structure is zeroed, so a FAT12/16 walk starts in the fixed root directory | not executed | FatMount.LeftoverRootClusterUsed | FatMount.MountZeroed |
| lib/fs/fat/fs.cpp:144-148 | `total_sectors - data_start_sector` is not checked and wraps | a 100-sector FAT32 volume whose FATs end at sector 232 mounts with 2^32 - 132 clusters | the mount fails when the data region does not fit | not executed | FatMount.MountWrapAccepted | FatMount.MountCheckedFits |
| lib/fs/fat/dir.cpp:205 | the scan reads `buffer[offset]` before checking `offset < bytes_per_cluster` | a cluster of deleted entries: the byte after the cluster is read | the bound is checked first | not executed | FatDir.DeletedClusterOverruns | FatDir.ScanCluster |
| lib/fs/fat/dir.cpp:232-235 | the start cluster is the 16-bit field at 0x1A only | a FAT32 entry starting at cluster 0x10002 is reported at cluster 2 | the high word at 0x14 is included | not executed | FatDir.EntryTruncatesCluster | FatDir.EntryHighHalf |
| lib/fs/fat/file.cpp:33-34 | the cluster offset leaves out the FAT12/16 root directory | a FAT16 volume with a 512-entry root: cluster 2 lands 32 sectors early | data starts after the root directory | not executed | FatFile.OffsetMissesRootDir | FatFile.OffsetsAgreeOnFat32 |
| lib/fs/fat/file.cpp:42-47 | the FAT sector and index are `cluster >> 7` and `& 127`, 4-byte entries in 512-byte sectors, on FAT16 too | FAT16 cluster 200: bytes 144-145 of the second FAT sector are read instead of bytes 400-401 of the first | the entry size follows the FAT type | not executed | FatFile.NextClusterMisreadsFat16 | FatFile.NextClusterAgreesOnFat32 |
| lib/fs/fat/file.cpp:293-324 | every chunk is read to the start of the caller's buffer, and the first chunk ignores the offset within the cluster | an 8-byte file in two 4-byte clusters read whole: the buffer holds the second cluster then zeros | each chunk follows the previous one, the first running to the end of its cluster | not executed | FatFile.ReadOverwritesChunks | FatFile.ReadFileBytes |
| lib/fs/fat/file.cpp:191 | a name matches when the entry's name is a prefix of the path element | opening "ab" where the directory holds "A" opens "A" | the whole element must match | not executed | FatFile.OpenMatchesPrefix | FatFile.ScanFindsName |
| lib/fs/fat/file.cpp:161-168 | after the search moves to the next directory cluster, `strchr` meets the NUL written at the '/' and takes the component as the last | "a/b" with "a" in the second root cluster opens "a" itself | the lookup continues with "b" | not executed | FatFile.OpenContinuesAsLast | FatFile.OpenFindsLast |
| lib/minip/include/lib/minip/netif.h:52-56 | the netmask is `addr & (0xffffffff >> width)` and the broadcast ORs in `0xffffffff << (32 - width)` | 192.168.1.10/24 gives the netmask 192.0.0.0 and the broadcast 192.255.255.255 | the prefix mask of width bits, and the subnet's broadcast address | not executed | MinipNetif.AsWrittenOnClassC | MinipNetif.NetmaskOnClassC |
| lib/minip/minip.c:419 | a header is rejected only when `ones_sum16` is 0, which no version-4 header gives | a 20-byte version-4 header with any checksum field is accepted | reject unless the sum is 0xffff | not executed | MinipIpv4.AsWrittenIgnoresChecksum | MinipIpv4.CorruptedChecksumRejected |
| lib/minip/minip.c:523-529 | the octet index grows on every '.', with no bound | "....1" writes `ip[4]` | at most four octets are written | not executed | MinipIpv4.FifthOctetOverruns | MinipIpv4.FormatParses |
| lib/minip/arp.c:55-58 | a cache hit assigns the address to itself and keeps the old hardware address | 10.0.0.2 changing MAC from 02:00:00:00:00:01 to ...:09 is still answered with ...:01 | the hit updates the hardware address (RFC 826) | not executed | MinipArp.StaleMacExample | MinipArp.LookupAfterUpdate |
| lib/minip/udp.c:63-73 | `udp_listen` with a NULL callback on a new port appends a listener | `udp_listen(7, NULL, ...)`, then a datagram to port 7 calls NULL | a NULL callback is refused | not executed | MinipUdp.NullCallbackRegistered | MinipUdp.InputCallsSetCallback |
| lib/bcache/include/lib/bcache/bcache_block_ref.h:33-41 | move assignment overwrites the target without putting back its block | move-assigning a holder of block 2 over a holder of block 1 loses block 1's reference | the target's block is put back first | not executed | BcacheRef.MoveAssignLeaks | BcacheRef.MoveAssignConserves |
| platform/pc/pit.c:103-121 | the first rounding compares the remainder with 3579546 / 2 and never fires; the second takes `count % 3` after the division | 1000 Hz gets divisor 1194 where 1193 is nearest | both roundings to nearest, giving the nearest divisor | not executed | Pit.CountAsWrittenMissesNearest | Pit.CountIsNearest |
| lib/uefi/boot_service_provider.cpp:168-169 | `pages * PAGE_SIZE` wraps in size_t | 2^52 pages ask memalign for 0 bytes and the call can succeed | a size that does not fit is out of resources | not executed | UefiBoot.AllocatePagesAsWrittenWraps | UefiBoot.AllocatePagesContract |
