/**
 * Three UEFI boot services of the loader (lib/uefi/boot_service_provider.cpp):
 * AllocatePool, GetMemoryMap and AllocatePages, with the argument checks,
 * the size protocol of the memory map, and the descriptors it writes.
 *
 * Pointers the caller passes are Option values: None is a null pointer,
 * Some(v) a pointer to v. What the service writes through a pointer is
 * returned as an Option too: None when it writes nothing. malloc and
 * memalign are outside the model: the address they return is a parameter,
 * 0 for a failed allocation. The kernel address space's region list is a
 * parameter. sizeof(EfiMemoryDescriptor) is 40, the layout of
 * EFI_MEMORY_DESCRIPTOR in the UEFI specification, and PAGE_SIZE is 4096.
 */
module UefiBoot {
  import opened Lk

  /** The EFI_STATUS values these services return. */
  datatype EfiStatus = Success | InvalidParameter | Unsupported | BufferTooSmall | OutOfResources

  const PageSize: int := 4096
  const DescSize: int := 40

  // AllocatePool

  /**
   * allocate_pool(pool_type, size, buf), with buf the pointer given and
   * mallocResult what malloc(size) returns; the result is the status and
   * what is written to *buf.
   */
  function AllocatePool(buf: bool, size: nat, mallocResult: nat): (EfiStatus, Option<nat>)
  {
    if !buf then (InvalidParameter, None)
    else if size == 0 then (Success, Some(0))
    else if mallocResult != 0 then (Success, Some(mallocResult))
    else (OutOfResources, Some(0))
  }

  /**
   * A null buf is the only invalid parameter and leaves nothing written; a
   * zero size succeeds with a null buffer and no allocation; otherwise the
   * call succeeds exactly when malloc does, handing out its buffer.
   */
  lemma AllocatePoolContract(buf: bool, size: nat, mallocResult: nat)
    ensures var (st, out) := AllocatePool(buf, size, mallocResult);
            (st == InvalidParameter <==> !buf) && (out.None? <==> !buf)
            && (buf && size == 0 ==> st == Success && out == Some(0))
            && (buf && size > 0 ==> (st == Success <==> mallocResult != 0) && out == Some(mallocResult))
            && (st == OutOfResources <==> buf && size > 0 && mallocResult == 0)
            && (st == Success && size > 0 ==> out.value != 0)
  {
  }

  // AllocatePages

  /** EFI_ALLOCATE_TYPE. */
  datatype AllocateType = AllocateAnyPages | AllocateMaxAddress | AllocateAddress

  const AllOnes: int := 0xffff_ffff_ffff_ffff

  /**
   * allocate_pages as written, with memory the pointer given and
   * memalignResult what memalign(PAGE_SIZE, pages * PAGE_SIZE) returns;
   * the size_t product wraps modulo 2^64. The result is the status, what is
   * written to *memory, and the number of bytes asked of memalign.
   */
  function AllocatePagesAsWritten(t: AllocateType, pages: nat, memory: Option<nat>, memalignResult: nat)
    : (EfiStatus, Option<nat>, Option<nat>)
  {
    if memory.None? then (InvalidParameter, None, None)
    else if t == AllocateMaxAddress && memory.value != AllOnes then (Unsupported, None, None)
    else
      var bytes := (pages * PageSize) % U64;
      (if memalignResult == 0 then OutOfResources else Success, Some(memalignResult), Some(bytes))
  }

  /** As written, 2^52 pages ask memalign for 0 bytes, and the call succeeds whenever memalign hands back an address. */
  lemma AllocatePagesAsWrittenWraps(memalignResult: nat)
    requires memalignResult != 0
    ensures var (st, _, bytes) := AllocatePagesAsWritten(AllocateAnyPages, 0x10_0000_0000_0000, Some(0), memalignResult);
            st == Success && bytes == Some(0)
  {
  }

  /**
   * allocate_pages with the request checked for overflow: a page count
   * whose size does not fit in size_t is out of resources without a call
   * to memalign.
   */
  function AllocatePages(t: AllocateType, pages: nat, memory: Option<nat>, memalignResult: nat)
    : (EfiStatus, Option<nat>, Option<nat>)
  {
    if memory.None? then (InvalidParameter, None, None)
    else if t == AllocateMaxAddress && memory.value != AllOnes then (Unsupported, None, None)
    else if pages * PageSize >= U64 then (OutOfResources, None, None)
    else (if memalignResult == 0 then OutOfResources else Success, Some(memalignResult), Some(pages * PageSize))
  }

  /**
   * A null memory pointer is an invalid parameter; a maximum address other
   * than all ones is unsupported and leaves *memory alone; a success always
   * comes from asking memalign for exactly pages pages, and hands out its
   * non-null address. Where the size fits, the as-written service agrees.
   */
  lemma AllocatePagesContract(t: AllocateType, pages: nat, memory: Option<nat>, memalignResult: nat)
    ensures var (st, out, bytes) := AllocatePages(t, pages, memory, memalignResult);
            (st == InvalidParameter <==> memory.None?)
            && (st == Unsupported <==> memory.Some? && t == AllocateMaxAddress && memory.value != AllOnes)
            && (st == Unsupported || st == InvalidParameter ==> out.None? && bytes.None?)
            && (st == Success ==> bytes == Some(pages * PageSize) && out == Some(memalignResult) && memalignResult != 0)
            && (pages * PageSize < U64 ==> AllocatePagesAsWritten(t, pages, memory, memalignResult) == (st, out, bytes))
  {
  }

  // GetMemoryMap

  /** A region of the kernel address space: its base and its size in bytes. */
  datatype Region = Region(base: nat, size: nat)

  /** EfiMemoryDescriptor. */
  datatype Descriptor = Descriptor(memoryType: nat, physicalStart: nat, virtualStart: nat, numberOfPages: nat, attribute: nat)

  const ZeroDescriptor := Descriptor(0, 0, 0, 0, 0)

  /** The descriptor of one region: identity mapped, its whole pages, everything else zero. */
  function DescriptorOf(r: Region): Descriptor
  {
    Descriptor(0, r.base, r.base, r.size / PageSize, 0)
  }

  /** The status of get_memory_map and what it writes to *memory_map_size. */
  function MemoryMapResult(mapSize: Option<nat>, regions: nat): (EfiStatus, Option<nat>)
  {
    if mapSize.None? then (InvalidParameter, None)
    else if mapSize.value < regions * DescSize then (BufferTooSmall, Some(regions * DescSize))
    else (Success, Some(regions * DescSize))
  }

  /**
   * The size protocol: a size below one descriptor per region is too small
   * and is answered with the size needed, any size at least that succeeds,
   * and a retry with the size answered succeeds.
   */
  lemma MemoryMapSizeProtocol(mapSize: Option<nat>, regions: nat)
    ensures var (st, out) := MemoryMapResult(mapSize, regions);
            (st == InvalidParameter <==> mapSize.None?)
            && (st == BufferTooSmall <==> mapSize.Some? && mapSize.value < regions * DescSize)
            && (st == Success <==> mapSize.Some? && mapSize.value >= regions * DescSize)
            && (mapSize.Some? ==> out == Some(regions * DescSize))
            && (st == BufferTooSmall ==> MemoryMapResult(out, regions).0 == Success)
  {
  }

  /** Each descriptor written describes its region: identity mapped, with the pages that fit whole in it. */
  lemma DescriptorDescribesRegion(r: Region)
    ensures var d := DescriptorOf(r);
            d.physicalStart == d.virtualStart == r.base
            && d.numberOfPages * PageSize <= r.size < (d.numberOfPages + 1) * PageSize
  {
    var d := DescriptorOf(r);
    DivModUnique(r.size, PageSize, d.numberOfPages, r.size % PageSize);
  }

  /** The outputs of get_memory_map besides the map itself. */
  datatype MapOutputs = MapOutputs(status: EfiStatus, mapSize: Option<nat>, mapKey: Option<nat>, descSize: Option<nat>,
                                   descVersion: Option<nat>)

  /**
   * get_memory_map(memory_map_size, memory_map, map_key, desc_size,
   * desc_version): mapSize is the size pointer given; the three flags say
   * whether the other output pointers are non-null. The caller's buffer
   * holds at least the size it declares.
   */
  method GetMemoryMap(mapSize: Option<nat>, memoryMap: array<Descriptor>, wantKey: bool, wantDescSize: bool,
                      wantVersion: bool, regions: seq<Region>) returns (out: MapOutputs)
    requires mapSize.Some? ==> mapSize.value <= memoryMap.Length * DescSize
    modifies memoryMap
    ensures (out.status, out.mapSize) == MemoryMapResult(mapSize, |regions|)
    ensures mapSize.None? ==> out.mapKey.None? && out.descSize.None? && out.descVersion.None?
    ensures mapSize.Some? ==> out.mapKey == (if wantKey then Some(0) else None)
                              && out.descSize == (if wantDescSize then Some(DescSize) else None)
                              && out.descVersion == (if wantVersion then Some(1) else None)
    ensures out.status != Success ==> memoryMap[..] == old(memoryMap[..])
    ensures out.status == Success ==>
              |regions| <= memoryMap.Length
              && (forall i :: 0 <= i < |regions| ==> memoryMap[i] == DescriptorOf(regions[i]))
              && memoryMap[|regions|..] == old(memoryMap[|regions|..])
  {
    out := MapOutputs(InvalidParameter, None, None, None, None);
    if mapSize.None? {
      return;
    }
    if wantKey {
      out := out.(mapKey := Some(0));
    }
    if wantDescSize {
      out := out.(descSize := Some(DescSize));
    }
    if wantVersion {
      out := out.(descVersion := Some(1));
    }
    var numEntries := CountRegions(regions);
    var sizeNeeded := numEntries * DescSize;
    if mapSize.value < sizeNeeded {
      out := out.(status := BufferTooSmall, mapSize := Some(sizeNeeded));
      return;
    }
    out := out.(mapSize := Some(sizeNeeded));
    FillMap(memoryMap, regions);
    out := out.(status := Success);
  }

  /** The first walk of the region list: one entry per region. */
  method CountRegions(regions: seq<Region>) returns (n: nat)
    ensures n == |regions|
  {
    n := 0;
    var rest := regions;
    while rest != []
      invariant n + |rest| == |regions|
      decreases |rest|
    {
      n := n + 1;
      rest := rest[1..];
    }
  }

  /** The memset and the second walk: the first |regions| entries zeroed, then each filled from its region. */
  method FillMap(memoryMap: array<Descriptor>, regions: seq<Region>)
    requires |regions| <= memoryMap.Length
    modifies memoryMap
    ensures forall i :: 0 <= i < |regions| ==> memoryMap[i] == DescriptorOf(regions[i])
    ensures memoryMap[|regions|..] == old(memoryMap[|regions|..])
  {
    forall k | 0 <= k < |regions| {
      memoryMap[k] := ZeroDescriptor;
    }
    var i := 0;
    while i < |regions|
      invariant 0 <= i <= |regions|
      invariant forall k :: 0 <= k < i ==> memoryMap[k] == DescriptorOf(regions[k])
      invariant forall k :: i <= k < |regions| ==> memoryMap[k] == ZeroDescriptor
      invariant memoryMap[|regions|..] == old(memoryMap[|regions|..])
    {
      memoryMap[i] := memoryMap[i].(virtualStart := regions[i].base);
      memoryMap[i] := memoryMap[i].(physicalStart := memoryMap[i].virtualStart);
      memoryMap[i] := memoryMap[i].(numberOfPages := regions[i].size / PageSize);
      i := i + 1;
    }
  }
}
