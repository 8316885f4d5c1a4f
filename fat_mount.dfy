/**
 * Mounting a FAT volume: the checks of the BIOS parameter block in the boot
 * sector and the geometry derived from it (Microsoft FAT32 File System
 * Specification 1.03, "Boot Sector and BPB" and "FAT Type Determination"),
 * in the three variants lk carries: lib/fs/fat/fs.cpp, the older
 * lib/fs/fat/fat.cpp and lib/fs/fat32/fat.cpp. All arithmetic on the
 * geometry is uint32 arithmetic and wraps.
 */
module FatMount {
  import opened Lk
  import opened FatFs
  import FatDir

  const BOOT_SECTOR_SIZE: nat := 512

  /** The BIOS parameter block fields the mounts read, at their boot-sector offsets. */
  datatype Bpb = Bpb(
    bytesPerSector: nat,    // 0x0B, 16 bits
    sectorsPerCluster: nat, // 0x0D
    reservedSectors: nat,   // 0x0E, 16 bits
    fatCount: nat,          // 0x10
    rootEntries: nat,       // 0x11, 16 bits
    totalSectors16: nat,    // 0x13, 16 bits
    media: nat,             // 0x15
    sectorsPerFat16: nat,   // 0x16, 16 bits
    totalSectors32: nat,    // 0x20, 32 bits
    sectorsPerFat32: nat,   // 0x24, 32 bits
    extFlags: nat,          // 0x28
    rootCluster: nat,       // 0x2C, 32 bits
    sig0: nat,              // 0x1FE
    sig1: nat)              // 0x1FF

  /** Every field within the width it is stored in. */
  predicate InRange(p: Bpb)
  {
    p.bytesPerSector < U16 && p.sectorsPerCluster < U8 && p.reservedSectors < U16 && p.fatCount < U8
    && p.rootEntries < U16 && p.totalSectors16 < U16 && p.media < U8 && p.sectorsPerFat16 < U16
    && p.totalSectors32 < U32 && p.sectorsPerFat32 < U32 && p.extFlags < U8 && p.rootCluster < U32
    && p.sig0 < U8 && p.sig1 < U8
  }

  /** The fields as the mounts read them from the boot sector. */
  function Parse(bs: seq<byte>): (p: Bpb)
    requires |bs| == BOOT_SECTOR_SIZE
    ensures InRange(p)
  {
    Bpb(Read16(bs, 0x0B), bs[0x0D] as nat, Read16(bs, 0x0E), bs[0x10] as nat, Read16(bs, 0x11), Read16(bs, 0x13),
        bs[0x15] as nat, Read16(bs, 0x16), Read32(bs, 0x20), Read32(bs, 0x24), bs[0x28] as nat, Read32(bs, 0x2C),
        bs[0x1FE] as nat, bs[0x1FF] as nat)
  }

  /** Byte i of a boot sector holding p, zero outside the fields. */
  function EncodedByte(p: Bpb, i: nat): byte
    requires InRange(p)
  {
    if 0x0B <= i < 0x0D then Le16(p.bytesPerSector)[i - 0x0B]
    else if i == 0x0D then p.sectorsPerCluster as byte
    else if 0x0E <= i < 0x10 then Le16(p.reservedSectors)[i - 0x0E]
    else if i == 0x10 then p.fatCount as byte
    else if 0x11 <= i < 0x13 then Le16(p.rootEntries)[i - 0x11]
    else if 0x13 <= i < 0x15 then Le16(p.totalSectors16)[i - 0x13]
    else if i == 0x15 then p.media as byte
    else if 0x16 <= i < 0x18 then Le16(p.sectorsPerFat16)[i - 0x16]
    else if 0x20 <= i < 0x24 then Le32(p.totalSectors32)[i - 0x20]
    else if 0x24 <= i < 0x28 then Le32(p.sectorsPerFat32)[i - 0x24]
    else if i == 0x28 then p.extFlags as byte
    else if 0x2C <= i < 0x30 then Le32(p.rootCluster)[i - 0x2C]
    else if i == 0x1FE then p.sig0 as byte
    else if i == 0x1FF then p.sig1 as byte
    else 0
  }

  /** A boot sector holding p. */
  function Encode(p: Bpb): (bs: seq<byte>)
    requires InRange(p)
    ensures |bs| == BOOT_SECTOR_SIZE
  {
    seq(BOOT_SECTOR_SIZE, i requires 0 <= i < BOOT_SECTOR_SIZE => EncodedByte(p, i))
  }

  /** Every parameter block is the one some boot sector holds: Parse undoes Encode. */
  lemma ParseEncode(p: Bpb)
    requires InRange(p)
    ensures Parse(Encode(p)) == p
  {
    var bs := Encode(p);
    Read16Le16(p.bytesPerSector, bs, 0x0B);
    Read16Le16(p.reservedSectors, bs, 0x0E);
    Read16Le16(p.rootEntries, bs, 0x11);
    Read16Le16(p.totalSectors16, bs, 0x13);
    Read16Le16(p.sectorsPerFat16, bs, 0x16);
    Read32Le32(p.totalSectors32, bs, 0x20);
    Read32Le32(p.sectorsPerFat32, bs, 0x24);
    Read32Le32(p.rootCluster, bs, 0x2C);
    assert bs[0x0B..0x0D] == Le16(p.bytesPerSector);
    assert bs[0x0E..0x10] == Le16(p.reservedSectors);
    assert bs[0x11..0x13] == Le16(p.rootEntries);
    assert bs[0x13..0x15] == Le16(p.totalSectors16);
    assert bs[0x16..0x18] == Le16(p.sectorsPerFat16);
    assert bs[0x20..0x24] == Le32(p.totalSectors32);
    assert bs[0x24..0x28] == Le32(p.sectorsPerFat32);
    assert bs[0x2C..0x30] == Le32(p.rootCluster);
  }

  /** The outcome of a mount: the volume the cookie is set to, or the error (the cookie untouched). */
  datatype Mounted<V> = Mounted(volume: V) | MountFailed(status: Status)

  predicate SectorSizeOk(bps: nat) { bps == 0x200 || bps == 0x400 || bps == 0x800 }

  predicate ClusterSizeOk(spc: nat)
  {
    spc == 1 || spc == 2 || spc == 4 || spc == 8 || spc == 0x10 || spc == 0x20 || spc == 0x40 || spc == 0x80
  }

  /**
   * The boot-signature test: it rejects a missing 0x55 0xAA only when the
   * media byte is 0xF8.
   */
  predicate SignatureRejects(p: Bpb)
  {
    (p.sig0 != 0x55 || p.sig1 != 0xAA) && p.media == 0xF8
  }

  /** The checks all three mounts make before the FAT type is known, in their order. */
  function CommonChecks(p: Bpb): Option<Status>
  {
    if SignatureRejects(p) then Some(ErrNotValid)
    else if !SectorSizeOk(p.bytesPerSector) then Some(ErrNotValid)
    else if !ClusterSizeOk(p.sectorsPerCluster) then Some(ErrNotValid)
    else if p.fatCount == 0 || p.fatCount > 8 then Some(ErrNotValid)
    else if p.media != 0xF8 then Some(ErrNotValid)
    else None
  }

  /** A volume that passed the common checks carries the 0x55 0xAA signature and media byte 0xF8. */
  lemma CommonChecksSignature(p: Bpb)
    requires CommonChecks(p) == None
    ensures p.sig0 == 0x55 && p.sig1 == 0xAA && p.media == 0xF8
    ensures SectorSizeOk(p.bytesPerSector) && ClusterSizeOk(p.sectorsPerCluster) && 1 <= p.fatCount <= 8
  {
  }

  /** The FAT type for a count of data clusters. */
  function FatBits(totalClusters: nat): (r: nat)
    ensures r == 12 <==> totalClusters < 4085
    ensures r == 16 <==> 4085 <= totalClusters < 65525
    ensures r == 32 <==> 65525 <= totalClusters
  {
    if totalClusters < 4085 then 12 else if totalClusters < 65525 then 16 else 32
  }

  /** The FAT size: the 16-bit field, or the 32-bit one when that is zero. */
  function SectorsPerFat(p: Bpb): nat
  {
    if p.sectorsPerFat16 != 0 then p.sectorsPerFat16 else p.sectorsPerFat32
  }

  /** The total sector count: the 16-bit field, or the 32-bit one when that is zero. */
  function TotalSectors(p: Bpb): nat
  {
    if p.totalSectors16 != 0 then p.totalSectors16 else p.totalSectors32
  }

  /** The sectors before the data area: reserved sectors, the FATs and the fixed root directory. */
  function MetadataSectors(p: Bpb): nat
  {
    p.reservedSectors + p.fatCount * SectorsPerFat(p) + RootDirSectors(p)
  }

  /** The first sector of the data area as fs.cpp computes it, wrapping at 2^32. */
  function DataStart(p: Bpb): nat
  {
    MetadataSectors(p) % U32
  }

  /** The sectors of the FAT12/16 root directory: root_entries·32 bytes rounded up to whole sectors. */
  function RootDirSectors(p: Bpb): nat
  {
    if p.bytesPerSector == 0 then 0 else (p.rootEntries * 32 + p.bytesPerSector - 1) / p.bytesPerSector
  }

  /**
   * What `new fat_fs_t` leaves in the fields fat_mount of lib/fs/fat/fs.cpp
   * does not assign on its path: fat_fs_t has no initialisers and the
   * new-expression no `()`, so root_cluster and active_fat of a FAT12/16
   * volume and root_start_sector of a FAT32 one hold whatever the
   * allocation held.
   */
  datatype Leftover = Leftover(rootCluster: nat, activeFat: nat, rootStartSector: nat)

  /** The structure zeroed, as the comment at fs.cpp's allocation takes it to be. */
  const Zeroed := Leftover(0, 0, 0)

  /**
   * fat_mount of lib/fs/fat/fs.cpp on the parameter block of a boot sector
   * that could be read: the common checks, root_entries a multiple of the
   * entries per sector, the FAT size and total sector count from the 16-bit
   * field or else the 32-bit one (zero rejected), the FAT type from the count
   * of data clusters, and for FAT32 no fixed root directory and a root
   * cluster in [2, total_clusters). The fields the path leaves unset come
   * from left.
   */
  function MountBpb(p: Bpb, left: Leftover): (r: Mounted<Volume>)
    ensures r.Mounted? ==> r.volume.bytesPerCluster == r.volume.sectorsPerCluster * r.volume.bytesPerSector
  {
    if CommonChecks(p).Some? then MountFailed(CommonChecks(p).value)
    else if p.rootEntries % (p.bytesPerSector / 0x20) != 0 then MountFailed(ErrNotValid)
    else
      var spf := SectorsPerFat(p);
      var total := TotalSectors(p);
      if spf == 0 || total == 0 then MountFailed(ErrNotValid)
      else
        var dataStart := DataStart(p);
        var totalClusters := ((total - dataStart) % U32) / p.sectorsPerCluster;
        var bits := FatBits(totalClusters);
        var v := Volume(p.bytesPerSector, p.sectorsPerCluster, p.sectorsPerCluster * p.bytesPerSector,
                        p.reservedSectors, bits, p.fatCount, spf, total, left.activeFat, dataStart, totalClusters,
                        left.rootCluster, p.rootEntries, left.rootStartSector);
        if bits == 32 then
          if p.rootEntries != 0 || p.rootCluster >= totalClusters || p.rootCluster < 2 then MountFailed(ErrNotValid)
          else Mounted(v.(rootCluster := p.rootCluster,
                          activeFat := if p.extFlags >= 0x80 then 0 else p.extFlags % 0x10))
        else Mounted(v.(rootStartSector := (p.reservedSectors + p.fatCount * spf) % U32))
  }

  /** fat_mount of lib/fs/fat/fs.cpp: no device, a failed boot-sector read, or MountBpb. */
  function Mount(dev: bool, read: Read<seq<byte>>, left: Leftover): (r: Mounted<Volume>)
    requires |read.value| == BOOT_SECTOR_SIZE
    ensures !dev ==> r == MountFailed(ErrNotValid)
    ensures dev && !Ok(read) ==> r == MountFailed(read.status)
  {
    if !dev then MountFailed(ErrNotValid)
    else if !Ok(read) then MountFailed(read.status)
    else MountBpb(Parse(read.value), left)
  }

  /**
   * What a mounted volume of lib/fs/fat/fs.cpp satisfies, the fields the
   * mount does not assign being those left in the allocation.
   */
  predicate SaneVolume(v: Volume, p: Bpb, left: Leftover)
  {
    && SectorSizeOk(v.bytesPerSector) && ClusterSizeOk(v.sectorsPerCluster) && 1 <= v.fatCount <= 8
    && 512 <= v.bytesPerCluster <= 0x40000
    && p.sig0 == 0x55 && p.sig1 == 0xAA && p.media == 0xF8
    && v.sectorsPerFat != 0 && v.totalSectors != 0
    && v.rootEntries % (v.bytesPerSector / 32) == 0
    && v.fatBits == FatBits(v.totalClusters)
    && (v.fatBits == 32 ==> v.rootEntries == 0 && 2 <= v.rootCluster < v.totalClusters && v.activeFat < 16
                            && v.rootCluster == p.rootCluster && v.rootStartSector == left.rootStartSector)
    && (v.fatBits != 32 ==> v.rootStartSector == (v.reservedSectors + v.fatCount * v.sectorsPerFat) % U32
                            && v.rootCluster == left.rootCluster && v.activeFat == left.activeFat)
  }

  /** A mount of lib/fs/fat/fs.cpp succeeds only with a sane volume. */
  lemma MountSane(dev: bool, read: Read<seq<byte>>, left: Leftover)
    requires |read.value| == BOOT_SECTOR_SIZE && Mount(dev, read, left).Mounted?
    ensures dev && Ok(read) && SaneVolume(Mount(dev, read, left).volume, Parse(read.value), left)
  {
    var p := Parse(read.value);
    CommonChecksSignature(p);
    var v := Mount(dev, read, left).volume;
    assert v.bytesPerCluster == v.sectorsPerCluster * v.bytesPerSector;
    ClusterBytes(v.sectorsPerCluster, v.bytesPerSector);
  }

  /**
   * As written, a FAT16 volume keeps the root_cluster the allocation held:
   * with 5 left there, fat_walk starts in cluster 5 instead of the fixed
   * root directory the zeroed structure gives.
   */
  lemma LeftoverRootClusterUsed()
    ensures var p := Bpb(512, 1, 1, 2, 512, 10000, 0xF8, 40, 0, 0, 0, 0, 0x55, 0xAA);
      && InRange(p) && MountBpb(p, Leftover(5, 0, 0)).Mounted?
      && MountBpb(p, Leftover(5, 0, 0)).volume.fatBits == 16
      && FatDir.RootDir(MountBpb(p, Leftover(5, 0, 0)).volume) == FatDir.Clustered(5)
      && FatDir.RootDir(MountBpb(p, Zeroed).volume) == FatDir.LinearRoot
  {
    var p := Bpb(512, 1, 1, 2, 512, 10000, 0xF8, 40, 0, 0, 0, 0, 0x55, 0xAA);
    assert RootDirSectors(p) == 32;
    assert DataStart(p) == 113;
  }

  /**
   * The mount on a zeroed structure: a FAT12/16 volume has no root cluster,
   * so walks start in its fixed root directory, and reads FAT 0; a FAT32
   * volume has no fixed root directory and walks start at its root cluster.
   */
  function MountZeroed(p: Bpb): (r: Mounted<Volume>)
    ensures r.Mounted? && r.volume.fatBits != 32 ==>
      FatDir.RootDir(r.volume) == FatDir.LinearRoot && r.volume.activeFat == 0
    ensures r.Mounted? && r.volume.fatBits == 32 ==>
      FatDir.RootDir(r.volume) == FatDir.Clustered(p.rootCluster) && r.volume.rootStartSector == 0
  {
    MountBpb(p, Zeroed)
  }

  /**
   * What the allocation leaves reaches the volume only through the fields
   * the mount does not assign: whether it mounts, and every other field,
   * are those of the zeroed mount.
   */
  lemma LeftoverOnlyInUnsetFields(p: Bpb, left: Leftover)
    ensures MountBpb(p, left).Mounted? <==> MountZeroed(p).Mounted?
    ensures MountBpb(p, left).MountFailed? ==> MountBpb(p, left) == MountZeroed(p)
    ensures MountBpb(p, left).Mounted? ==>
      var v := MountBpb(p, left).volume;
      var w := MountZeroed(p).volume;
      && v.fatBits == w.fatBits
      && (v.fatBits == 32 ==> v == w.(rootStartSector := left.rootStartSector))
      && (v.fatBits != 32 ==> v == w.(rootCluster := left.rootCluster, activeFat := left.activeFat))
  {
  }

  lemma ClusterBytes(spc: nat, bps: nat)
    requires ClusterSizeOk(spc) && SectorSizeOk(bps)
    ensures 512 <= spc * bps <= 0x40000
  {
    assert 1 * bps <= spc * bps <= 0x80 * bps;
  }

  /**
   * The mount derives data_start without checking it against the total
   * sector count: a 100-sector FAT32 volume whose FATs end at sector 232
   * mounts with 2^32 - 132 data clusters.
   */
  lemma MountWrapAccepted(left: Leftover)
    ensures var p := Bpb(512, 1, 32, 2, 0, 100, 0xF8, 0, 0, 100, 0, 2, 0x55, 0xAA);
      && InRange(p) && MountBpb(p, left).Mounted?
      && MountBpb(p, left).volume.totalClusters == U32 - 132
      && MountBpb(p, left).volume.totalClusters * MountBpb(p, left).volume.sectorsPerCluster > MountBpb(p, left).volume.totalSectors
      && MountChecked(p, left).MountFailed?
  {
    var p := Bpb(512, 1, 32, 2, 0, 100, 0xF8, 0, 0, 100, 0, 2, 0x55, 0xAA);
    assert RootDirSectors(p) == 0;
    assert DataStart(p) == 232;
  }

  /**
   * The corrected mount: a volume whose reserved sectors, FATs and root
   * directory do not fit in its sectors is rejected before the cluster
   * count is derived.
   */
  function MountChecked(p: Bpb, left: Leftover): (r: Mounted<Volume>)
  {
    if MountBpb(p, left).Mounted? && MetadataSectors(p) > TotalSectors(p) then MountFailed(ErrNotValid)
    else MountBpb(p, left)
  }

  /** With the check, the data clusters of a mounted volume lie within its sectors. */
  lemma MountCheckedFits(p: Bpb, left: Leftover)
    requires InRange(p) && MountChecked(p, left).Mounted?
    ensures var v := MountChecked(p, left).volume;
      v.dataStartSector + v.totalClusters * v.sectorsPerCluster <= v.totalSectors
  {
    assert MountChecked(p, left) == MountBpb(p, left) && MetadataSectors(p) <= TotalSectors(p);
    MountedGeometry(p, left);
    FitsArith(MetadataSectors(p), TotalSectors(p), p.sectorsPerCluster);
  }

  lemma FitsArith(raw: int, total: int, spc: int)
    requires 0 <= raw <= total < U32 && spc > 0
    ensures raw % U32 + ((total - raw % U32) % U32) / spc * spc <= total
  {
    assert raw % U32 == raw;
    assert (total - raw) % U32 == total - raw;
    DivMul(total - raw, spc);
  }

  /** The geometry fields of a volume MountBpb accepts. */
  lemma MountedGeometry(p: Bpb, left: Leftover)
    requires MountBpb(p, left).Mounted?
    ensures var v := MountBpb(p, left).volume;
      && v.sectorsPerFat == SectorsPerFat(p) && v.totalSectors == TotalSectors(p)
      && v.sectorsPerCluster == p.sectorsPerCluster > 0
      && v.dataStartSector == DataStart(p)
      && v.totalClusters == ((TotalSectors(p) - DataStart(p)) % U32) / p.sectorsPerCluster
  {
  }

  lemma DivMul(x: int, d: int)
    requires x >= 0 && d > 0
    ensures (x / d) * d <= x
  {
    assert x == d * (x / d) + x % d;
  }

  /** fat_fs_t of the older lib/fs/fat/fat.cpp and lib/fs/fat32/fat.cpp. */
  datatype LegacyVolume = LegacyVolume(
    lbaStart: nat,
    bytesPerSector: nat,
    sectorsPerCluster: nat,
    bytesPerCluster: nat,
    reservedSectors: nat,
    fatBits: nat,
    fatCount: nat,
    sectorsPerFat: nat,
    totalSectors: nat,
    activeFat: Option<nat>, // None: left as malloc returned it
    dataStart: nat,
    totalClusters: nat,
    rootCluster: nat,
    rootEntries: nat,
    rootStart: nat)

  /**
   * The mount of the older variants after the common checks: FAT32 iff the
   * 16-bit FAT size is zero (total sectors then from the 32-bit field, or
   * the 16-bit one when that is zero), FAT16 with exactly two FATs and at
   * least 0xFF2 clusters otherwise. `rootLowerBound` says whether a FAT32
   * root cluster below 2 is refused (lib/fs/fat/fat.cpp) or not
   * (lib/fs/fat32/fat.cpp).
   */
  function MountLegacyBpb(p: Bpb, rootLowerBound: bool): (r: Mounted<LegacyVolume>)
  {
    if CommonChecks(p).Some? then MountFailed(CommonChecks(p).value)
    else if p.sectorsPerFat16 == 0 then
      var spf := p.sectorsPerFat32;
      var total := if p.totalSectors32 != 0 then p.totalSectors32 else p.totalSectors16;
      var dataStart := (p.reservedSectors + p.fatCount * spf) % U32;
      var totalClusters := ((total - dataStart) % U32) / p.sectorsPerCluster;
      if p.rootCluster >= totalClusters || (rootLowerBound && p.rootCluster < 2) then MountFailed(ErrNotValid)
      else Mounted(LegacyVolume(0, p.bytesPerSector, p.sectorsPerCluster, p.sectorsPerCluster * p.bytesPerSector,
                                p.reservedSectors, 32, p.fatCount, spf, total,
                                Some(if p.extFlags >= 0x80 then 0 else p.extFlags % 0x10),
                                dataStart, totalClusters, p.rootCluster, 0, 0))
    else if p.fatCount != 2 then MountFailed(ErrNotValid)
    else if p.rootEntries % (p.bytesPerSector / 0x20) != 0 then MountFailed(ErrNotValid)
    else
      var spf := p.sectorsPerFat16;
      var total := if p.totalSectors16 != 0 then p.totalSectors16 else p.totalSectors32;
      var rootStart := (p.reservedSectors + p.fatCount * spf) % U32;
      var dataStart := (rootStart + p.rootEntries * 0x20 / p.bytesPerSector) % U32;
      var totalClusters := ((total - dataStart) % U32) / p.sectorsPerCluster;
      if totalClusters < 0xFF2 then MountFailed(ErrNotValid)
      else Mounted(LegacyVolume(0, p.bytesPerSector, p.sectorsPerCluster, p.sectorsPerCluster * p.bytesPerSector,
                                p.reservedSectors, 16, p.fatCount, spf, total, None,
                                dataStart, totalClusters, 0, p.rootEntries, rootStart))
  }

  /** fat_mount of lib/fs/fat/fat.cpp: a failed read passes its error back. */
  function MountFat(dev: bool, read: Read<seq<byte>>): (r: Mounted<LegacyVolume>)
    requires |read.value| == BOOT_SECTOR_SIZE
    ensures !dev ==> r == MountFailed(ErrNotValid)
    ensures dev && !Ok(read) ==> r == MountFailed(read.status)
  {
    if !dev then MountFailed(ErrNotValid)
    else if !Ok(read) then MountFailed(read.status)
    else MountLegacyBpb(Parse(read.value), true)
  }

  /** fat32_mount of lib/fs/fat32/fat.cpp: a failed read gives ERR_GENERIC; no lower bound on the root cluster. */
  function MountFat32(dev: bool, read: Read<seq<byte>>): (r: Mounted<LegacyVolume>)
    requires |read.value| == BOOT_SECTOR_SIZE
    ensures !dev ==> r == MountFailed(ErrNotValid)
    ensures dev && !Ok(read) ==> r == MountFailed(ErrGeneric)
  {
    if !dev then MountFailed(ErrNotValid)
    else if !Ok(read) then MountFailed(ErrGeneric)
    else MountLegacyBpb(Parse(read.value), false)
  }

  /** What a volume mounted by the older variants satisfies. */
  predicate SaneLegacyVolume(v: LegacyVolume, p: Bpb)
  {
    && v.lbaStart == 0 && SectorSizeOk(v.bytesPerSector) && ClusterSizeOk(v.sectorsPerCluster)
    && 1 <= v.fatCount <= 8 && p.sig0 == 0x55 && p.sig1 == 0xAA && p.media == 0xF8
    && (v.fatBits == 32 <==> p.sectorsPerFat16 == 0)
    && (v.fatBits == 32 ==> v.rootEntries == 0 && v.rootStart == 0 && v.rootCluster < v.totalClusters
                            && v.activeFat.Some? && v.activeFat.value < 16)
    && (v.fatBits != 32 ==> v.fatBits == 16 && v.fatCount == 2 && v.totalClusters >= 0xFF2 && v.rootCluster == 0
                            && v.activeFat.None? && v.rootEntries % (v.bytesPerSector / 32) == 0
                            && v.dataStart == (v.rootStart + v.rootEntries * 32 / v.bytesPerSector) % U32)
  }

  lemma MountLegacySane(p: Bpb, rootLowerBound: bool)
    requires MountLegacyBpb(p, rootLowerBound).Mounted?
    ensures SaneLegacyVolume(MountLegacyBpb(p, rootLowerBound).volume, p)
    ensures rootLowerBound && MountLegacyBpb(p, rootLowerBound).volume.fatBits == 32 ==>
      MountLegacyBpb(p, rootLowerBound).volume.rootCluster >= 2
  {
    CommonChecksSignature(p);
  }

  /**
   * The two older variants agree on every readable boot sector except a
   * FAT32 one whose root cluster is 0 or 1, which only lib/fs/fat32/fat.cpp
   * mounts.
   */
  lemma LegacyVariantsAgree(read: Read<seq<byte>>)
    requires |read.value| == BOOT_SECTOR_SIZE && Ok(read)
    ensures var p := Parse(read.value);
      MountFat(true, read) != MountFat32(true, read) <==>
        MountFat32(true, read).Mounted? && MountFat32(true, read).volume.fatBits == 32 && p.rootCluster < 2
  {
    var p := Parse(read.value);
    if MountFat32(true, read).Mounted? {
      MountLegacySane(p, false);
    }
  }

  /** A FAT32 boot sector naming the reserved cluster 0 as its root mounts under lib/fs/fat32/fat.cpp. */
  lemma Fat32AcceptsRootClusterZero()
    ensures var p := Bpb(512, 8, 32, 2, 0, 0, 0xF8, 0, 0x10_0000, 1024, 0, 0, 0x55, 0xAA);
      InRange(p) && MountLegacyBpb(p, false).Mounted? && MountLegacyBpb(p, false).volume.rootCluster == 0
      && MountLegacyBpb(p, true).MountFailed?
  {
  }
}
