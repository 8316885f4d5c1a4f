/**
 * lk's PCI-to-PCI bridge (dev/bus/pci/bus_mgr/bridge.cpp): the bus-number
 * register and its propagation up the bridge hierarchy, the bridge probe,
 * and the decoding of the I/O, memory and prefetchable windows of a type 1
 * header (PCI-to-PCI Bridge Architecture Specification 1.2, section 3.2.5).
 *
 * A bridge's header registers are its cached `config`: a write to the
 * bus-number register lands in the header, so the re-read that follows it
 * returns what was written.
 */
module PciBridge {
  import opened Lk
  import opened PciConfig
  import PciDevice
  import PciBus

  // Type 1 header offsets.
  const BUS_NUMBERS: nat := 0x18
  const PRIMARY_BUS: nat := 0x18
  const SECONDARY_BUS: nat := 0x19
  const SUBORDINATE_BUS: nat := 0x1A
  const SECONDARY_LATENCY: nat := 0x1B
  const IO_BASE: nat := 0x1C
  const IO_LIMIT: nat := 0x1D
  const MEMORY_BASE: nat := 0x20
  const MEMORY_LIMIT: nat := 0x22
  const PREFETCH_BASE: nat := 0x24
  const PREFETCH_LIMIT: nat := 0x26
  const PREFETCH_BASE_UPPER: nat := 0x28
  const PREFETCH_LIMIT_UPPER: nat := 0x2C

  function PrimaryBus(c: Config): bv8 { c[PRIMARY_BUS] }
  function SecondaryBus(c: Config): bv8 { c[SECONDARY_BUS] }
  function SubordinateBus(c: Config): bv8 { c[SUBORDINATE_BUS] }

  // ---------------------------------------------------------------------------
  // Bus numbers.

  /**
   * assign_bus_numbers' new register value: the top byte (the secondary
   * latency timer) of the word read back, then subordinate, secondary and
   * primary bus.
   */
  function BusNumberWord(old_: bv32, primary: bv8, secondary: bv8, subordinate: bv8): bv32
  {
    (old_ & 0xFF00_0000) | ((subordinate as bv32) << 16) | ((secondary as bv32) << 8) | (primary as bv32)
  }

  /** The write assign_bus_numbers issues to a bridge whose header is c. */
  function BusNumbersWrite(c: Config, primary: bv8, secondary: bv8, subordinate: bv8): Write
  {
    WriteWord(BUS_NUMBERS, BusNumberWord(Word32(c, BUS_NUMBERS), primary, secondary, subordinate))
  }

  /** The four bytes of a 32-bit register, lowest first. */
  function WordBytes(w: bv32): seq<bv8>
  {
    [(w & 0xFF) as bv8, ((w >> 8) & 0xFF) as bv8, ((w >> 16) & 0xFF) as bv8, ((w >> 24) & 0xFF) as bv8]
  }

  /** The header with the 32-bit register at off holding w. */
  function StoreWord(c: Config, off: nat, w: bv32): Config
    requires off + 4 <= 256
  {
    c[..off] + WordBytes(w) + c[off + 4..]
  }

  /** A stored word reads back as itself. */
  lemma StoreWordReadsBack(c: Config, off: nat, w: bv32)
    requires off + 4 <= 256
    ensures Word32(StoreWord(c, off, w), off) == w
  {
    var r := StoreWord(c, off, w);
    var b := WordBytes(w);
    assert r[off] == b[0] && r[off + 1] == b[1] && r[off + 2] == b[2] && r[off + 3] == b[3];
    ByteJoin(w);
  }

  lemma ByteJoin(w: bv32)
    ensures var b := WordBytes(w);
      (b[0] as bv32) | ((b[1] as bv32) << 8) | ((b[2] as bv32) << 16) | ((b[3] as bv32) << 24) == w
  {
  }

  /**
   * The bytes of the new bus-number register: primary, secondary and
   * subordinate bus, then the latency timer byte as it was.
   */
  lemma BusNumberBytes(b0: bv8, b1: bv8, b2: bv8, b3: bv8, primary: bv8, secondary: bv8, subordinate: bv8)
    ensures var old_ := (b0 as bv32) | ((b1 as bv32) << 8) | ((b2 as bv32) << 16) | ((b3 as bv32) << 24);
      WordBytes(BusNumberWord(old_, primary, secondary, subordinate)) == [primary, secondary, subordinate, b3]
  {
  }

  /** The header after assign_bus_numbers(primary, secondary, subordinate). */
  function WithBusNumbers(c: Config, primary: bv8, secondary: bv8, subordinate: bv8): Config
  {
    c[PRIMARY_BUS := primary][SECONDARY_BUS := secondary][SUBORDINATE_BUS := subordinate]
  }

  /**
   * Storing the register assign_bus_numbers computes sets the three bus
   * numbers and nothing else: the latency timer byte and the rest of the
   * header keep their values.
   */
  lemma BusNumbersAssigned(c: Config, primary: bv8, secondary: bv8, subordinate: bv8)
    ensures StoreWord(c, BUS_NUMBERS, BusNumberWord(Word32(c, BUS_NUMBERS), primary, secondary, subordinate))
            == WithBusNumbers(c, primary, secondary, subordinate)
  {
    BusNumberBytes(c[BUS_NUMBERS], c[BUS_NUMBERS + 1], c[BUS_NUMBERS + 2], c[BUS_NUMBERS + 3], primary, secondary, subordinate);
    var w := BusNumberWord(Word32(c, BUS_NUMBERS), primary, secondary, subordinate);
    assert WordBytes(w) == [primary, secondary, subordinate, c[SECONDARY_LATENCY]];
    assert c[..BUS_NUMBERS] + WordBytes(w) + c[BUS_NUMBERS + 4..] == WithBusNumbers(c, primary, secondary, subordinate);
  }

  /**
   * The headers of a chain of bridges, nearest first, after
   * extend_subordinate_range(n): each bridge whose subordinate bus is below
   * n is raised to n, up to the first one that already reaches n.
   */
  function Extended(chain: seq<Config>, n: bv8): (r: seq<Config>)
    ensures |r| == |chain|
  {
    if chain == [] || n <= SubordinateBus(chain[0]) then chain
    else
      var c := chain[0];
      [WithBusNumbers(c, PrimaryBus(c), SecondaryBus(c), n)] + Extended(chain[1..], n)
  }

  /** How many bridges of the chain extend_subordinate_range(n) rewrites. */
  function ExtendCount(chain: seq<Config>, n: bv8): (k: nat)
    ensures k <= |chain|
  {
    if chain == [] || n <= SubordinateBus(chain[0]) then 0 else 1 + ExtendCount(chain[1..], n)
  }

  /** A bridge below n is renumbered and the walk goes on with the bridge above it. */
  lemma ExtendedCons(chain: seq<Config>, n: bv8)
    requires chain != [] && SubordinateBus(chain[0]) < n
    ensures Extended(chain, n) == [WithBusNumbers(chain[0], PrimaryBus(chain[0]), SecondaryBus(chain[0]), n)] + Extended(chain[1..], n)
    ensures ExtendWrites(chain, n, 0) == [BusNumbersWrite(chain[0], PrimaryBus(chain[0]), SecondaryBus(chain[0]), n)]
    ensures forall i :: 1 <= i < |chain| ==> ExtendWrites(chain, n, i) == ExtendWrites(chain[1..], n, i - 1)
  {
    forall i | 1 <= i < |chain| ensures ExtendWrites(chain, n, i) == ExtendWrites(chain[1..], n, i - 1) {
      assert chain[1..][i - 1] == chain[i];
    }
  }

  /** A bridge that already reaches n ends the walk: nothing is renumbered or written. */
  lemma ExtendedStops(chain: seq<Config>, n: bv8)
    requires chain == [] || n <= SubordinateBus(chain[0])
    ensures Extended(chain, n) == chain
    ensures forall i :: 0 <= i < |chain| ==> ExtendWrites(chain, n, i) == []
  {
  }

  /** The writes extend_subordinate_range issues to the i-th bridge of a chain whose headers were `before`. */
  function ExtendWrites(before: seq<Config>, n: bv8, i: nat): seq<Write>
    requires i < |before|
  {
    if i < ExtendCount(before, n)
    then [BusNumbersWrite(before[i], PrimaryBus(before[i]), SecondaryBus(before[i]), n)]
    else []
  }

  /** Every bridge's bus range contains the range of the bridge below it. */
  predicate Nested(chain: seq<Config>)
  {
    forall i :: 0 <= i < |chain| - 1 ==> SubordinateBus(chain[i]) <= SubordinateBus(chain[i + 1])
  }

  /**
   * On a nested chain, extending to n renumbers exactly the bridges whose
   * subordinate bus is below n.
   */
  lemma {:induction false} ExtendedAt(chain: seq<Config>, n: bv8, i: nat)
    requires Nested(chain) && i < |chain|
    ensures Extended(chain, n)[i] ==
      if SubordinateBus(chain[i]) < n then WithBusNumbers(chain[i], PrimaryBus(chain[i]), SecondaryBus(chain[i]), n) else chain[i]
  {
    if n <= SubordinateBus(chain[0]) {
      NestedAbove(chain, i);
    } else if i > 0 {
      NestedTail(chain);
      ExtendedAt(chain[1..], n, i - 1);
      assert chain[1..][i - 1] == chain[i];
    }
  }

  lemma NestedTail(chain: seq<Config>)
    requires Nested(chain) && chain != []
    ensures Nested(chain[1..])
  {
    forall i | 0 <= i < |chain[1..]| - 1 ensures SubordinateBus(chain[1..][i]) <= SubordinateBus(chain[1..][i + 1]) {
      assert chain[1..][i] == chain[i + 1];
    }
  }

  /** The bus numbers a renumbered header holds. */
  lemma WithBusNumbersFields(c: Config, primary: bv8, secondary: bv8, subordinate: bv8)
    ensures var r := WithBusNumbers(c, primary, secondary, subordinate);
      PrimaryBus(r) == primary && SecondaryBus(r) == secondary && SubordinateBus(r) == subordinate
  {
  }

  /**
   * On a nested chain, extending to n leaves every bridge with subordinate
   * bus max(old, n) and keeps primary and secondary buses.
   */
  lemma ExtendedIsMax(chain: seq<Config>, n: bv8, i: nat)
    requires Nested(chain) && i < |chain|
    ensures SubordinateBus(Extended(chain, n)[i]) == (if SubordinateBus(chain[i]) < n then n else SubordinateBus(chain[i]))
    ensures PrimaryBus(Extended(chain, n)[i]) == PrimaryBus(chain[i])
    ensures SecondaryBus(Extended(chain, n)[i]) == SecondaryBus(chain[i])
  {
    ExtendedAt(chain, n, i);
    WithBusNumbersFields(chain[i], PrimaryBus(chain[i]), SecondaryBus(chain[i]), n);
  }

  /** Extending a nested chain keeps it nested. */
  lemma ExtendedNested(chain: seq<Config>, n: bv8)
    requires Nested(chain)
    ensures Nested(Extended(chain, n))
  {
    var r := Extended(chain, n);
    forall i | 0 <= i < |chain| - 1 ensures SubordinateBus(r[i]) <= SubordinateBus(r[i + 1]) {
      ExtendedIsMax(chain, n, i);
      ExtendedIsMax(chain, n, i + 1);
    }
  }

  /** In a nested chain a bridge's subordinate bus bounds those below it. */
  lemma {:induction false} NestedAbove(chain: seq<Config>, i: nat)
    requires Nested(chain) && i < |chain|
    ensures SubordinateBus(chain[0]) <= SubordinateBus(chain[i])
  {
    if i > 0 {
      NestedAbove(chain, i - 1);
    }
  }

  /**
   * extend_subordinate_range rewrites exactly the leading bridges whose
   * subordinate bus is below n.
   */
  lemma {:induction false} ExtendedPrefix(chain: seq<Config>, n: bv8, i: nat)
    requires i <= |chain|
    requires forall j :: 0 <= j < i ==> SubordinateBus(chain[j]) < n
    requires i == |chain| || n <= SubordinateBus(chain[i])
    ensures ExtendCount(chain, n) == i
    ensures forall j :: 0 <= j < i ==>
      Extended(chain, n)[j] == WithBusNumbers(chain[j], PrimaryBus(chain[j]), SecondaryBus(chain[j]), n)
    ensures forall j :: i <= j < |chain| ==> Extended(chain, n)[j] == chain[j]
  {
    if i > 0 {
      ExtendedPrefix(chain[1..], n, i - 1);
      var r := Extended(chain, n);
      assert r == [WithBusNumbers(chain[0], PrimaryBus(chain[0]), SecondaryBus(chain[0]), n)] + Extended(chain[1..], n);
      forall j | 1 <= j < |chain| ensures r[j] == Extended(chain[1..], n)[j - 1] && chain[1..][j - 1] == chain[j] {
      }
    }
  }

  // ---------------------------------------------------------------------------
  // Windows.

  datatype Range<T> = Range(base: T, limit: T)

  /** The I/O window the base and limit registers describe: 4 KiB granular, {0, 0} when the limit is below the base. */
  function IoWindow(base: bv8, limit: bv8): Range<bv32>
  {
    if limit < base then Range(0, 0)
    else Range(((base as bv32) >> 4) << 12, (((limit as bv32) >> 4) << 12) | 0xFFF)
  }

  /** bridge::io_range. */
  function IoRange(c: Config): Range<bv32>
  {
    IoWindow(c[IO_BASE], c[IO_LIMIT])
  }

  /**
   * An open I/O window runs from the 4 KiB boundary the base register's
   * upper nibble gives to the last byte of the 4 KiB page the limit
   * register's upper nibble gives; the window is open exactly when its limit
   * ends in 0xFFF.
   */
  lemma IoWindowShape(base: bv8, limit: bv8)
    ensures IoWindow(base, limit).limit & 0xFFF == 0xFFF <==> base <= limit
    ensures limit < base ==> IoWindow(base, limit) == Range(0, 0)
    ensures base <= limit ==>
      var r := IoWindow(base, limit);
      && r.base & 0xFFF == 0 && r.base >> 12 == (base >> 4) as bv32
      && r.limit >> 12 == (limit >> 4) as bv32 && r.base <= r.limit
  {
  }

  /** The memory window the base and limit registers describe: 1 MiB granular, {0, 0} when the limit is below the base. */
  function MemWindow(base: bv16, limit: bv16): Range<bv32>
  {
    if limit < base then Range(0, 0)
    else Range(((base as bv32) >> 4) << 20, (((limit as bv32) >> 4) << 20) | 0xF_FFFF)
  }

  /** bridge::mem_range. */
  function MemRange(c: Config): Range<bv32>
  {
    MemWindow(Half16(c, MEMORY_BASE), Half16(c, MEMORY_LIMIT))
  }

  /** The memory window, in the shape of the I/O window with 1 MiB pages. */
  lemma MemWindowShape(base: bv16, limit: bv16)
    ensures MemWindow(base, limit).limit & 0xF_FFFF == 0xF_FFFF <==> base <= limit
    ensures limit < base ==> MemWindow(base, limit) == Range(0, 0)
    ensures base <= limit ==>
      var r := MemWindow(base, limit);
      && r.base & 0xF_FFFF == 0 && r.base >> 20 == (base >> 4) as bv32
      && r.limit >> 20 == (limit >> 4) as bv32 && r.base <= r.limit
  {
  }

  /**
   * The prefetchable window the base, limit and upper registers describe:
   * 64-bit when the base register's low nibble is 1, and then the upper
   * halves come from the upper base and limit registers; {0, 0} when the
   * limit is below the base.
   */
  function PrefetchWindow(base: bv16, limit: bv16, baseUpper: bv32, limitUpper: bv32): Range<bv64>
  {
    if limit < base then Range(0, 0)
    else
      var is64 := base & 0xF == 1;
      var b := ((base as bv64) >> 4) << 20;
      var l := (((limit as bv64) >> 4) << 20) | 0xF_FFFF;
      Range(if is64 then b | ((baseUpper as bv64) << 32) else b,
            if is64 then l | ((limitUpper as bv64) << 32) else l)
  }

  /** bridge::prefetch_range. */
  function PrefetchRange(c: Config): Range<bv64>
  {
    PrefetchWindow(Half16(c, PREFETCH_BASE), Half16(c, PREFETCH_LIMIT),
                   Word32(c, PREFETCH_BASE_UPPER), Word32(c, PREFETCH_LIMIT_UPPER))
  }

  /** The 64-bit value whose low and high halves are lo and hi. */
  function Join64(lo: bv32, hi: bv32): bv64
  {
    (lo as bv64) | ((hi as bv64) << 32)
  }

  /**
   * An open prefetchable window is the memory window the same registers
   * describe, widened with the upper registers exactly when the base
   * register announces 64-bit decoding and with zero otherwise; the limit
   * register's own nibble plays no part.
   */
  lemma PrefetchWindowShape(base: bv16, limit: bv16, baseUpper: bv32, limitUpper: bv32)
    ensures limit < base ==> PrefetchWindow(base, limit, baseUpper, limitUpper) == Range(0, 0)
    ensures base <= limit ==>
      var m := MemWindow(base, limit);
      var is64 := base & 0xF == 1;
      PrefetchWindow(base, limit, baseUpper, limitUpper)
        == Range(Join64(m.base, if is64 then baseUpper else 0), Join64(m.limit, if is64 then limitUpper else 0))
  {
    if base <= limit {
      WidenedBase(base, baseUpper);
      WidenedLimit(limit, limitUpper);
    }
  }

  lemma WidenedBase(reg: bv16, upper: bv32)
    ensures var b := ((reg as bv64) >> 4) << 20;
      && b | ((upper as bv64) << 32) == Join64(((reg as bv32) >> 4) << 20, upper)
      && b == Join64(((reg as bv32) >> 4) << 20, 0)
  {
  }

  lemma WidenedLimit(reg: bv16, upper: bv32)
    ensures var l := (((reg as bv64) >> 4) << 20) | 0xF_FFFF;
      && l | ((upper as bv64) << 32) == Join64((((reg as bv32) >> 4) << 20) | 0xF_FFFF, upper)
      && l == Join64((((reg as bv32) >> 4) << 20) | 0xF_FFFF, 0)
  {
  }

  /** A joined value splits back into its halves. */
  lemma Join64Halves(lo: bv32, hi: bv32)
    ensures (Join64(lo, hi) & 0xFFFF_FFFF) as bv32 == lo && (Join64(lo, hi) >> 32) as bv32 == hi
  {
  }

  // ---------------------------------------------------------------------------
  // Probe.

  /** The live checks bridge::probe makes before creating the bridge: a function answers with a type 1 header. */
  predicate AnswersAsBridge(space: Space)
  {
    && Ok(space.half(VENDOR_ID)) && space.half(VENDOR_ID).value != 0xFFFF
    && Ok(space.byte(HEADER_TYPE)) && space.byte(HEADER_TYPE).value & HEADER_TYPE_MASK == 1
  }

  /**
   * bridge::probe's verdict: ERR_NOT_FOUND when the vendor id or header
   * type cannot be read, no function answers or the header is not type 1;
   * the header load's failure; ERR_NO_RESOURCES when the secondary bus,
   * after one is allocated for an unnumbered bridge, lies below the last
   * bus seen; else NO_ERROR (the downstream bus scan never fails).
   */
  function BridgeProbeStatus(space: Space, loadConfig: Read<Config>, newSecondary: bv8, lastBus: bv8): Status
  {
    if !AnswersAsBridge(space) then ErrNotFound
    else if !Ok(loadConfig) then loadConfig.status
    else
      var secondary := if SecondaryBus(loadConfig.value) == 0 then newSecondary else SecondaryBus(loadConfig.value);
      if secondary < lastBus then ErrNoResources else NoError
  }

  /**
   * The capability list probe leaves on a bridge with the loaded header:
   * none without the new-capabilities status bit, else the walk from the
   * capabilities pointer.
   */
  function ProbedCaps(space: Space, loaded: Config, fuel: nat): seq<PciDevice.Capability>
  {
    if StatusReg(loaded) & STATUS_NEW_CAPS == 0 then [] else PciDevice.CapWalk(space, CapabilitiesPtr(loaded) as nat, fuel).caps
  }

  /** The header a probed bridge ends with: an unnumbered bridge gets the new bus as secondary and subordinate. */
  function ProbedConfig(loaded: Config, parentBus: bv8, newSecondary: bv8): Config
  {
    if SecondaryBus(loaded) == 0 then WithBusNumbers(loaded, parentBus, newSecondary, newSecondary) else loaded
  }

  /**
   * A probed bridge ends with a non-zero secondary bus whenever the bus
   * manager hands out one, the new bus exactly when it had none; only
   * NO_ERROR and ERR_NO_RESOURCES come after the bridge was created.
   */
  lemma ProbedBusNumbers(space: Space, loadConfig: Read<Config>, parentBus: bv8, newSecondary: bv8, lastBus: bv8)
    requires AnswersAsBridge(space) && Ok(loadConfig)
    ensures var c := ProbedConfig(loadConfig.value, parentBus, newSecondary);
      && (SecondaryBus(loadConfig.value) == 0 ==>
            PrimaryBus(c) == parentBus && SecondaryBus(c) == newSecondary && SubordinateBus(c) == newSecondary)
      && (SecondaryBus(loadConfig.value) != 0 ==> c == loadConfig.value)
      && (BridgeProbeStatus(space, loadConfig, newSecondary, lastBus) == NoError <==> lastBus <= SecondaryBus(c))
  {
  }

  /** The headers of a chain of bridges. */
  function ConfigsOf(chain: seq<Bridge>): (r: seq<Config>)
    reads chain
    ensures |r| == |chain|
  {
    if chain == [] then [] else [chain[0].config] + ConfigsOf(chain[1..])
  }

  lemma {:induction false} ConfigsOfAt(chain: seq<Bridge>, i: nat)
    requires i < |chain|
    ensures ConfigsOf(chain)[i] == chain[i].config
  {
    if i > 0 {
      ConfigsOfAt(chain[1..], i - 1);
    }
  }

  predicate Distinct(chain: seq<Bridge>)
  {
    forall i, j :: 0 <= i < j < |chain| ==> chain[i] != chain[j]
  }

  class Bridge {
    /** config_: the bridge's type 1 header. */
    var config: Config
    /** Every configuration write issued for this bridge, oldest first. */
    var log: seq<Write>
    /** The device part's capability_list_, and its MSI and MSI-X capabilities. */
    var caps: seq<PciDevice.Capability>
    var msiCap: Option<PciDevice.Capability>
    var msixCap: Option<PciDevice.Capability>
    /** The buses add_bus has put below the bridge. */
    var buses: seq<PciBus.Bus>

    constructor(c: Config)
      ensures config == c && log == [] && caps == [] && msiCap == None && msixCap == None && buses == []
    {
      buses := [];
      config := c;
      log := [];
      caps := [];
      msiCap := None;
      msixCap := None;
    }

    /**
     * device::probe_capabilities on the bridge's device part: without the
     * new-capabilities status bit nothing changes; otherwise the list is
     * walked from the capabilities pointer (at the same offset in a type 1
     * header), at most fuel nodes, as Device.WalkCapabilities does.
     */
    method ProbeCapabilities(space: Space, fuel: nat) returns (status: Status, finished: bool)
      modifies this
      ensures config == old(config) && log == old(log) && buses == old(buses)
      ensures caps == old(caps) + ProbedCaps(space, config, fuel)
      ensures msiCap == PciDevice.LastWithId(ProbedCaps(space, config, fuel), PciDevice.CAP_MSI, old(msiCap))
      ensures msixCap == PciDevice.LastWithId(ProbedCaps(space, config, fuel), PciDevice.CAP_MSIX, old(msixCap))
      ensures StatusReg(config) & STATUS_NEW_CAPS == 0 ==> status == NoError && finished
      ensures StatusReg(config) & STATUS_NEW_CAPS != 0 ==>
        var w := PciDevice.CapWalk(space, CapabilitiesPtr(config) as nat, fuel);
        status == w.status && finished == w.finished
    {
      if StatusReg(config) & STATUS_NEW_CAPS == 0 {
        assert caps + [] == caps;
        return NoError, true;
      }
      var w := PciDevice.CapWalk(space, CapabilitiesPtr(config) as nat, fuel);
      caps := caps + w.caps;
      msiCap := PciDevice.LastWithId(w.caps, PciDevice.CAP_MSI, msiCap);
      msixCap := PciDevice.LastWithId(w.caps, PciDevice.CAP_MSIX, msixCap);
      return w.status, w.finished;
    }

    /**
     * assign_bus_numbers: a read-modify-write of the bus-number register
     * that keeps the latency timer, then the re-read of the header.
     */
    method AssignBusNumbers(primary: bv8, secondary: bv8, subordinate: bv8)
      modifies this
      ensures config == WithBusNumbers(old(config), primary, secondary, subordinate)
      ensures log == old(log) + [BusNumbersWrite(old(config), primary, secondary, subordinate)]
      ensures caps == old(caps) && msiCap == old(msiCap) && msixCap == old(msixCap) && buses == old(buses)
    {
      var temp := Word32(config, BUS_NUMBERS);
      temp := BusNumberWord(temp, primary, secondary, subordinate);
      log := log + [WriteWord(BUS_NUMBERS, temp)];
      BusNumbersAssigned(config, primary, secondary, subordinate);
      config := StoreWord(config, BUS_NUMBERS, temp);
    }

    /**
     * extend_subordinate_range on this bridge and, through the parent
     * links, on the bridges above it: chain[0] is the bridge the call starts
     * at and chain[i + 1] is the bridge above chain[i]. Each bridge whose
     * subordinate bus is below n is renumbered to reach n, and the walk
     * stops at the first bridge that already reaches n.
     */
    static method ExtendSubordinateRange(chain: seq<Bridge>, n: bv8)
      requires Distinct(chain)
      modifies chain
      ensures ConfigsOf(chain) == Extended(old(ConfigsOf(chain)), n)
      ensures forall i :: 0 <= i < |chain| ==> chain[i].log == old(chain[i].log) + ExtendWrites(old(ConfigsOf(chain)), n, i)
      decreases |chain|
    {
      ghost var before := ConfigsOf(chain);
      if chain != [] && n > SubordinateBus(chain[0].config) {
        var b := chain[0];
        ghost var tail := ConfigsOf(chain[1..]);
        assert before == [b.config] + tail;
        b.AssignBusNumbers(PrimaryBus(b.config), SecondaryBus(b.config), n);
        assert ConfigsOf(chain[1..]) == tail;
        ExtendSubordinateRange(chain[1..], n);
        ExtendedCons(before, n);
        assert ConfigsOf(chain) == [b.config] + ConfigsOf(chain[1..]);
        forall i | 1 <= i < |chain| ensures chain[i].log == old(chain[i].log) + ExtendWrites(before, n, i) {
          assert chain[1..][i - 1] == chain[i];
        }
      } else {
        ExtendedStops(before, n);
      }
    }

    /** bridge::probe's checks of the live registers, before the bridge is created. */
    static method ProbeChecks(space: Space) returns (answers: bool)
      ensures answers == AnswersAsBridge(space)
    {
      var vendor := space.half(VENDOR_ID);
      if !Ok(vendor) || vendor.value == 0xFFFF {
        return false;
      }
      var header := space.byte(HEADER_TYPE);
      return Ok(header) && header.value & HEADER_TYPE_MASK == 1;
    }

    /** bridge::probe's new bridge with the loaded header, its capability list walked. */
    static method NewProbed(space: Space, loaded: Config, fuel: nat) returns (br: Bridge)
      ensures fresh(br) && br.config == loaded && br.log == [] && br.buses == []
      ensures br.caps == ProbedCaps(space, loaded, fuel)
      ensures br.msiCap == PciDevice.LastWithId(br.caps, PciDevice.CAP_MSI, None)
      ensures br.msixCap == PciDevice.LastWithId(br.caps, PciDevice.CAP_MSIX, None)
    {
      br := new Bridge(loaded);
      var _, _ := br.ProbeCapabilities(space, fuel);
      assert [] + ProbedCaps(space, loaded, fuel) == ProbedCaps(space, loaded, fuel);
    }

    /**
     * bridge::probe's last steps: bus::probe of the secondary bus, whose
     * device slots are `slots` (outcome(dev, fn) being the probe status of
     * a slot that answers), then add_bus of the new bus. bus::probe always
     * succeeds, so its error return is never taken.
     */
    method ScanSecondary(slots: seq<seq<Space>>, outcome: (nat, nat) -> Status) returns (status: Status, b: PciBus.Bus)
      requires PciBus.WellFormed(slots)
      modifies this
      ensures status == NoError && fresh(b)
      ensures b.busNum == SecondaryBus(config) && b.children == PciBus.Scan(slots, outcome)
      ensures buses == old(buses) + [b]
      ensures config == old(config) && log == old(log)
      ensures caps == old(caps) && msiCap == old(msiCap) && msixCap == old(msixCap)
    {
      var lastBus;
      status, b, lastBus := PciBus.Bus.Probe(SecondaryBus(config), slots, outcome);
      buses := buses + [b];
    }

    /**
     * bridge::probe after the numbering: the overlap check against lastBus,
     * then the scan of the secondary bus and add_bus. newBus is the bus
     * added, null when the check fails.
     */
    static method Downstream(br: Bridge, lastBus: bv8, slots: seq<seq<Space>>, outcome: (nat, nat) -> Status)
      returns (status: Status, newBus: PciBus.Bus?)
      requires PciBus.WellFormed(slots)
      modifies br
      ensures br.config == old(br.config) && br.log == old(br.log)
      ensures br.caps == old(br.caps) && br.msiCap == old(br.msiCap) && br.msixCap == old(br.msixCap)
      ensures status == (if SecondaryBus(br.config) < lastBus then ErrNoResources else NoError)
      ensures status != NoError ==> newBus == null && br.buses == old(br.buses)
      ensures status == NoError ==>
        && newBus != null && fresh(newBus) && br.buses == old(br.buses) + [newBus]
        && newBus.busNum == SecondaryBus(br.config) && newBus.children == PciBus.Scan(slots, outcome)
    {
      if SecondaryBus(br.config) < lastBus {
        return ErrNoResources, null;
      }
      status, newBus := br.ScanSecondary(slots, outcome);
    }

    /**
     * bridge::probe's numbering of an unnumbered bridge br: primary = the
     * parent bus, secondary = subordinate = the new bus, then the bridges
     * above are told of the new bus.
     */
    static method NumberBridge(br: Bridge, parentBus: bv8, newSecondary: bv8, upstream: seq<Bridge>)
      requires Distinct(upstream) && br !in upstream
      modifies br, upstream
      ensures br.config == WithBusNumbers(old(br.config), parentBus, newSecondary, newSecondary)
      ensures br.log == old(br.log) + [BusNumbersWrite(old(br.config), parentBus, newSecondary, newSecondary)]
      ensures br.caps == old(br.caps) && br.msiCap == old(br.msiCap) && br.msixCap == old(br.msixCap)
      ensures br.buses == old(br.buses)
      ensures ConfigsOf(upstream) == Extended(old(ConfigsOf(upstream)), newSecondary)
      ensures forall i :: 0 <= i < |upstream| ==> upstream[i].log == old(upstream[i].log) + ExtendWrites(old(ConfigsOf(upstream)), newSecondary, i)
    {
      ghost var before := ConfigsOf(upstream);
      br.AssignBusNumbers(parentBus, newSecondary, newSecondary);
      assert ConfigsOf(upstream) == before;
      ExtendSubordinateRange(upstream, newSecondary);
    }

    /**
     * bridge::probe: the live checks, the header load, the walk of the
     * bridge's capability list (at most fuel nodes), bus numbering of an
     * unnumbered bridge (primary = the parent bus, secondary = subordinate =
     * newSecondary, the bus the bus manager hands out) with the bridges
     * above told of the new bus, then the overlap check against lastBus,
     * the last bus the bus manager has seen, and last the scan of the
     * secondary bus, whose slots are `downstream`, with add_bus of the new
     * bus. `upstream` is the parent bus's bridge and the bridges above it,
     * nearest first.
     *
     * On ERR_NO_RESOURCES the bridge is discarded, but the pointer to it
     * has already been handed back: br is that bridge.
     */
    static method Probe(space: Space, loadConfig: Read<Config>, parentBus: bv8, newSecondary: bv8, lastBus: bv8,
                        upstream: seq<Bridge>, fuel: nat, downstream: seq<seq<Space>>, outcome: (nat, nat) -> Status)
      returns (status: Status, br: Bridge?)
      requires Distinct(upstream) && PciBus.WellFormed(downstream)
      modifies upstream
      ensures status == BridgeProbeStatus(space, loadConfig, newSecondary, lastBus)
      ensures !(AnswersAsBridge(space) && Ok(loadConfig)) ==> br == null
      ensures AnswersAsBridge(space) && Ok(loadConfig) ==>
        && br != null && fresh(br)
        && br.config == ProbedConfig(loadConfig.value, parentBus, newSecondary)
        && br.log == (if SecondaryBus(loadConfig.value) == 0
                      then [BusNumbersWrite(loadConfig.value, parentBus, newSecondary, newSecondary)] else [])
        && br.caps == ProbedCaps(space, loadConfig.value, fuel)
        && br.msiCap == PciDevice.LastWithId(br.caps, PciDevice.CAP_MSI, None)
        && br.msixCap == PciDevice.LastWithId(br.caps, PciDevice.CAP_MSIX, None)
        && (status == NoError ==>
              && |br.buses| == 1 && fresh(br.buses[0]) && br.buses[0].busNum == SecondaryBus(br.config)
              && br.buses[0].children == PciBus.Scan(downstream, outcome))
        && (status != NoError ==> br.buses == [])
      ensures AnswersAsBridge(space) && Ok(loadConfig) && SecondaryBus(loadConfig.value) == 0 ==>
        && ConfigsOf(upstream) == Extended(old(ConfigsOf(upstream)), newSecondary)
        && forall i :: 0 <= i < |upstream| ==> upstream[i].log == old(upstream[i].log) + ExtendWrites(old(ConfigsOf(upstream)), newSecondary, i)
      ensures !(AnswersAsBridge(space) && Ok(loadConfig) && SecondaryBus(loadConfig.value) == 0) ==>
        forall i :: 0 <= i < |upstream| ==> upstream[i].config == old(upstream[i].config) && upstream[i].log == old(upstream[i].log)
    {
      var answers := ProbeChecks(space);
      if !answers {
        return ErrNotFound, null;
      }
      if !Ok(loadConfig) {
        return loadConfig.status, null;
      }
      ProbedBusNumbers(space, loadConfig, parentBus, newSecondary, lastBus);
      br := NewProbed(space, loadConfig.value, fuel);
      status := Attach(br, parentBus, newSecondary, lastBus, upstream, downstream, outcome);
    }

    /**
     * bridge::probe once the bridge exists with its loaded header: the
     * numbering of an unnumbered bridge with the bridges above told of the
     * new bus, the overlap check, the scan of the secondary bus and add_bus.
     */
    static method Attach(br: Bridge, parentBus: bv8, newSecondary: bv8, lastBus: bv8,
                         upstream: seq<Bridge>, downstream: seq<seq<Space>>, outcome: (nat, nat) -> Status)
      returns (status: Status)
      requires Distinct(upstream) && br !in upstream && PciBus.WellFormed(downstream)
      modifies br, upstream
      ensures br.config == ProbedConfig(old(br.config), parentBus, newSecondary)
      ensures br.log == old(br.log) + (if SecondaryBus(old(br.config)) == 0
                                       then [BusNumbersWrite(old(br.config), parentBus, newSecondary, newSecondary)] else [])
      ensures br.caps == old(br.caps) && br.msiCap == old(br.msiCap) && br.msixCap == old(br.msixCap)
      ensures status == (if SecondaryBus(br.config) < lastBus then ErrNoResources else NoError)
      ensures status != NoError ==> br.buses == old(br.buses)
      ensures status == NoError ==>
        && |br.buses| == |old(br.buses)| + 1 && br.buses[..|old(br.buses)|] == old(br.buses)
        && fresh(br.buses[|old(br.buses)|]) && br.buses[|old(br.buses)|].busNum == SecondaryBus(br.config)
        && br.buses[|old(br.buses)|].children == PciBus.Scan(downstream, outcome)
      ensures SecondaryBus(old(br.config)) == 0 ==>
        && ConfigsOf(upstream) == Extended(old(ConfigsOf(upstream)), newSecondary)
        && forall i :: 0 <= i < |upstream| ==> upstream[i].log == old(upstream[i].log) + ExtendWrites(old(ConfigsOf(upstream)), newSecondary, i)
      ensures SecondaryBus(old(br.config)) != 0 ==>
        forall i :: 0 <= i < |upstream| ==> upstream[i].config == old(upstream[i].config) && upstream[i].log == old(upstream[i].log)
    {
      if SecondaryBus(br.config) == 0 {
        NumberBridge(br, parentBus, newSecondary, upstream);
      }
      var newBus;
      status, newBus := Downstream(br, lastBus, downstream, outcome);
    }
  }
}
