/**
 * File access of lk's FAT driver, lib/fs/fat/file.cpp: the byte offset of a
 * cluster, the next cluster of a chain read from the FAT through the block
 * cache, the walk along a chain, reads, opening a path and stat (Microsoft
 * FAT32 File System Specification 1.03, "FAT Data Structure"). The file
 * belongs with the older mount of lib/fs/fat/fat.cpp and uses its volume
 * record, which has the partition's starting byte.
 */
module FatFile {
  import opened Lk
  import opened FatFs
  import opened FatMount
  import opened FatDir

  // ---------------------------------------------------------------------
  // Cluster offsets (fat_offset_for_cluster)
  // ---------------------------------------------------------------------

  /**
   * fat_offset_for_cluster as written: the first sector after the FATs, in
   * 32-bit arithmetic, plus (cluster - 2) * sectors_per_cluster, also in
   * 32-bit arithmetic, in bytes from the partition start. A FAT12/16 root
   * directory between the FATs and the data region is not counted.
   */
  function OffsetForCluster(v: LegacyVolume, cluster: nat): (r: nat)
    ensures r >= v.lbaStart
  {
    v.lbaStart + ((v.reservedSectors + v.fatCount * v.sectorsPerFat) % U32
                  + ((cluster - 2) * v.sectorsPerCluster) % U32) * v.bytesPerSector
  }

  /**
   * The byte offset of a data cluster: the data region starts at
   * data_start, after the root directory on FAT12/16. Clusters 0 and 1 hold
   * no data and are taken to the start of the region.
   */
  function ClusterOffset(v: LegacyVolume, cluster: nat): (r: nat)
    ensures r >= v.lbaStart + v.dataStart * v.bytesPerSector
    ensures cluster >= 2 ==> r == ClusterOffset(v, 2) + (cluster - 2) * v.sectorsPerCluster * v.bytesPerSector
  {
    v.lbaStart + (v.dataStart + (if cluster >= 2 then cluster - 2 else 0) * v.sectorsPerCluster) * v.bytesPerSector
  }

  /** On FAT32 volumes (no root directory sectors) both offsets agree while the sector numbers fit in 32 bits. */
  lemma OffsetsAgreeOnFat32(v: LegacyVolume, cluster: nat)
    requires cluster >= 2 && v.dataStart == v.reservedSectors + v.fatCount * v.sectorsPerFat < U32
    requires (cluster - 2) * v.sectorsPerCluster < U32
    ensures OffsetForCluster(v, cluster) == ClusterOffset(v, cluster)
  {
  }

  /** A FAT16 volume with a 512-entry root directory: the offset as written lands 32 sectors before cluster 2. */
  lemma OffsetMissesRootDir()
    ensures var v := LegacyVolume(0, 512, 4, 2048, 1, 16, 2, 32, 0x10000, None, 97, 0x3FE7, 0, 512, 65);
      ClusterOffset(v, 2) == 97 * 512 && OffsetForCluster(v, 2) == 65 * 512
  {
  }

  // ---------------------------------------------------------------------
  // The next cluster of a chain (fat_next_cluster_in_chain)
  // ---------------------------------------------------------------------

  /** The block cache of a volume: bcache_get_block either fails or yields a block of bytes_per_sector bytes. */
  type Cache = nat -> Option<seq<byte>>

  ghost predicate CacheBlocks(cache: Cache, bps: nat)
  {
    forall n :: cache(n).Some? ==> |cache(n).value| == bps
  }

  /** The mask of the 28 bits of a FAT32 entry. */
  const FAT32_MASK: nat := 0x1000_0000

  /** A FAT16 entry with 0x0FFF0000 ORed in when it is above 0xFFF0, which carries the FAT16 end-of-chain values into the FAT32 range. */
  function Widen16(x: nat): (r: nat)
    requires x < U16
    ensures x >= 0xFFF8 <==> IsEofCluster(r)
    ensures x <= 0xFFF0 ==> r == x
  {
    if x > 0xFFF0 then x + 0x0FFF_0000 else x
  }

  /** The entry value read at byte index of a FAT block, for the volume's FAT width; anything but FAT16 and FAT32 is the end of the chain. */
  function EntryValue(fatBits: nat, block: seq<byte>, index: nat): (r: nat)
    requires index + 4 <= |block|
    ensures fatBits == 32 ==> r < FAT32_MASK
  {
    if fatBits == 32 then Read32(block, index) % FAT32_MASK
    else if fatBits == 16 then Widen16(Read16(block, index))
    else EOF_CLUSTER
  }

  /**
   * fat_next_cluster_in_chain as written: the FAT sector cluster >> 7 past
   * the reserved sectors and entry cluster & 127 of it, read as a 32-bit
   * entry on FAT32 and as a 16-bit entry on FAT16; a cache failure is the
   * end of the chain.
   */
  function NextClusterAsWritten(v: LegacyVolume, cache: Cache, cluster: nat): (r: nat)
    requires v.bytesPerSector >= 512 && CacheBlocks(cache, v.bytesPerSector)
    ensures v.fatBits == 32 || cache((v.lbaStart / v.bytesPerSector + v.reservedSectors + cluster / 128) % U32).None? ==> r <= EOF_CLUSTER
  {
    var bnum := (v.lbaStart / v.bytesPerSector + v.reservedSectors + cluster / 128) % U32;
    var index := cluster % 128;
    match cache(bnum)
    case None => EOF_CLUSTER
    case Some(block) => EntryValue(v.fatBits, block, (if v.fatBits == 32 then 4 else 2) * index)
  }

  /** The number of FAT entries a sector holds. */
  function EntriesPerSector(v: LegacyVolume): nat
  {
    v.bytesPerSector / (if v.fatBits == 32 then 4 else 2)
  }

  lemma EntryFits(k: nat, e: nat, w: nat, bps: nat)
    requires k < e && e * w == bps && w > 0
    ensures k * w + w <= bps
  {
    assert (k + 1) * w <= e * w;
  }

  /**
   * The FAT entry of cluster as the FAT lays it out: entry cluster of the
   * table, 4 bytes wide on FAT32 and 2 on FAT16, in the sector that holds it.
   */
  function NextCluster(v: LegacyVolume, cache: Cache, cluster: nat): (r: nat)
    requires v.bytesPerSector >= 512 && v.bytesPerSector % 4 == 0 && CacheBlocks(cache, v.bytesPerSector)
  {
    var w := if v.fatBits == 32 then 4 else 2;
    var e := EntriesPerSector(v);
    var bnum := (v.lbaStart / v.bytesPerSector + v.reservedSectors + cluster / e) % U32;
    match cache(bnum)
    case None => EOF_CLUSTER
    case Some(block) =>
      EntryFits(cluster % e, e, w, v.bytesPerSector);
      if v.fatBits == 32 then Read32(block, cluster % e * w) % FAT32_MASK
      else if v.fatBits == 16 then Widen16(Read16(block, cluster % e * w))
      else EOF_CLUSTER
  }

  /** With 512-byte sectors on FAT32 the source's sector and index are the layout's. */
  lemma NextClusterAgreesOnFat32(v: LegacyVolume, cache: Cache, cluster: nat)
    requires v.bytesPerSector == 512 && v.fatBits == 32 && CacheBlocks(cache, 512)
    ensures NextClusterAsWritten(v, cache, cluster) == NextCluster(v, cache, cluster)
  {
    assert EntriesPerSector(v) == 128;
  }

  /**
   * On FAT16 with 512-byte sectors the entry of cluster 200 is bytes 400-401
   * of the first FAT sector, but the source reads bytes 144-145 of the
   * second.
   */
  lemma NextClusterMisreadsFat16()
    ensures var v := LegacyVolume(0, 512, 4, 2048, 1, 16, 2, 32, 0x10000, None, 97, 0x3FE7, 0, 512, 65);
      var block0 := seq(512, i => if i == 400 || i == 401 then 0xFF as byte else 0);
      var cache: Cache := n => if n == 1 then Some(block0) else Some(seq(512, _ => 0));
      NextCluster(v, cache, 200) == EOF_CLUSTER && NextClusterAsWritten(v, cache, 200) == 0
  {
    var v := LegacyVolume(0, 512, 4, 2048, 1, 16, 2, 32, 0x10000, None, 97, 0x3FE7, 0, 512, 65);
    var block0 := seq(512, i => if i == 400 || i == 401 then 0xFF as byte else 0);
    var cache: Cache := n => if n == 1 then Some(block0) else Some(seq(512, _ => 0));
    assert EntriesPerSector(v) == 256;
    assert block0[400] == 0xFF && block0[401] == 0xFF;
    assert cache(2).value[144] == 0 && cache(2).value[145] == 0;
  }

  // ---------------------------------------------------------------------
  // Walking a chain (file_offset_to_cluster)
  // ---------------------------------------------------------------------

  /** n links along the chain from cluster, stopping at the first end-of-chain value. */
  function ChainWalk(next: nat -> nat, cluster: nat, n: nat): nat
    decreases n
  {
    if n == 0 then cluster
    else if IsEofCluster(next(cluster)) then next(cluster)
    else ChainWalk(next, next(cluster), n - 1)
  }

  /**
   * A walk that ends on a non-end-of-chain cluster followed all n links, and
   * a walk that ends on an end-of-chain value found it on the way.
   */
  lemma {:induction false} ChainWalkFollow(next: nat -> nat, cluster: nat, n: nat)
    ensures !IsEofCluster(ChainWalk(next, cluster, n)) ==> ChainWalk(next, cluster, n) == Follow(next, cluster, n)
    ensures IsEofCluster(ChainWalk(next, cluster, n)) ==>
      exists k: nat :: k <= n && (k > 0 || IsEofCluster(cluster)) && ChainWalk(next, cluster, n) == Follow(next, cluster, k)
    decreases n
  {
    if n > 0 && !IsEofCluster(next(cluster)) {
      ChainWalkFollow(next, next(cluster), n - 1);
      FollowFirst(next, cluster, n - 1);
      if IsEofCluster(ChainWalk(next, cluster, n)) {
        var k: nat :| k <= n - 1 && (k > 0 || IsEofCluster(next(cluster))) && ChainWalk(next, next(cluster), n - 1) == Follow(next, next(cluster), k);
        FollowFirst(next, cluster, k);
      }
    } else if n > 0 {
      assert next(cluster) == Follow(next, cluster, 1);
    } else {
      assert cluster == Follow(next, cluster, 0);
    }
  }

  /** Walking n and then m links without meeting an end-of-chain value is walking n + m links. */
  lemma {:induction false} ChainWalkAdd(next: nat -> nat, cluster: nat, n: nat, m: nat)
    requires !IsEofCluster(ChainWalk(next, cluster, n))
    ensures ChainWalk(next, ChainWalk(next, cluster, n), m) == ChainWalk(next, cluster, n + m)
    decreases n
  {
    if n > 0 {
      ChainWalkAdd(next, next(cluster), n - 1, m);
    }
  }

  /**
   * file_offset_to_cluster: a negative offset is the end of the chain;
   * otherwise the walk of offset / bytes_per_cluster links from start.
   */
  method FileOffsetToCluster(next: nat -> nat, start: nat, offset: int, bpc: nat) returns (found: nat)
    requires bpc > 0
    ensures offset < 0 ==> found == EOF_CLUSTER
    ensures offset >= 0 ==> found == ChainWalk(next, start, offset / bpc)
  {
    if offset < 0 {
      return EOF_CLUSTER;
    }
    found := start;
    var toWalk: nat := offset / bpc;
    while toWalk > 0
      invariant ChainWalk(next, found, toWalk) == ChainWalk(next, start, offset / bpc)
      decreases toWalk
    {
      if IsEofCluster(next(found)) {
        found := next(found);
        break;
      }
      found := next(found);
      toWalk := toWalk - 1;
    }
  }

  // ---------------------------------------------------------------------
  // Reading a file (fat_read_file)
  // ---------------------------------------------------------------------

  /**
   * The block device under the volume: bio_read of len bytes at a byte
   * offset returns the bytes of the device image, cut at the end of the
   * device.
   */
  datatype Device = Device(image: nat -> byte, size: nat)

  function Min(a: nat, b: nat): nat { if a < b then a else b }

  /** bio_read: the bytes read, fewer than len when the read runs past the end of the device. */
  function BioRead(dev: Device, off: nat, len: nat): (r: seq<byte>)
    ensures |r| <= len && (off + len <= dev.size ==> |r| == len)
    ensures forall i :: 0 <= i < |r| ==> r[i] == dev.image(off + i)
  {
    var n := if off >= dev.size then 0 else Min(len, dev.size - off);
    seq(n, i requires 0 <= i => dev.image(off + i))
  }

  /** Where file data lies on the device: the byte offset of the first byte of a cluster, and the bytes per cluster. */
  datatype Layout = Layout(at: nat -> nat, bpc: nat)

  /** The layout the source reads with: clusters at fat_offset_for_cluster. */
  function WrittenLayout(v: LegacyVolume): Layout
  {
    Layout(c => OffsetForCluster(v, c), v.bytesPerCluster)
  }

  /** The layout of the volume: data clusters after the root directory region. */
  function DataLayout(v: LegacyVolume): Layout
  {
    Layout(c => ClusterOffset(v, c), v.bytesPerCluster)
  }

  /** What fat_read_file returns: a negative status, or the number of bytes read. */
  datatype ReadResult = ReadErr(status: Status) | ReadCount(count: nat)

  /** Writes data into buf at position at, leaving the rest of buf as it was. */
  method CopyInto(buf: array<byte>, at: nat, data: seq<byte>)
    requires at + |data| <= buf.Length
    modifies buf
    ensures buf[..at + |data|] == old(buf[..at]) + data
    ensures forall i :: at + |data| <= i < buf.Length ==> buf[i] == old(buf[i])
  {
    var i := 0;
    while i < |data|
      invariant 0 <= i <= |data|
      invariant forall j :: 0 <= j < at ==> buf[j] == old(buf[j])
      invariant forall j :: 0 <= j < i ==> buf[at + j] == data[j]
      invariant forall j :: at + i <= j < buf.Length ==> buf[j] == old(buf[j])
    {
      buf[at + i] := data[i];
      i := i + 1;
    }
  }

  /** A sequence that starts with t and agrees with o after it is t followed by the rest of o. */
  lemma PrefixThenRest(s: seq<byte>, t: seq<byte>, o: seq<byte>, k: nat)
    requires |s| == |o| && k <= |s| && s[..k] == t
    requires forall i :: k <= i < |s| ==> s[i] == o[i]
    ensures s == t + o[k..]
  {
  }

  lemma SeqAssoc(a: seq<byte>, b: seq<byte>, c: seq<byte>)
    ensures a + b + c == a + (b + c)
  {
  }

  /** Writes data to the start of buf. */
  method CopyToStart(buf: array<byte>, data: seq<byte>)
    requires |data| <= buf.Length
    modifies buf
    ensures buf[..] == data + old(buf[|data|..])
  {
    ghost var before := buf[..];
    CopyInto(buf, 0, data);
    assert before[..0] + data == data;
    PrefixThenRest(buf[..], data, before, |data|);
  }

  /**
   * The loop of fat_read_file as written, from a cluster and the offset co
   * in it: every chunk is bytes_per_cluster long (or what is left),
   * whatever co is, and is read to the start of the caller's buffer, which
   * is never advanced; a short read stops the loop, and the next cluster is
   * one link on, stopping at an end-of-chain value. The file offset only
   * grows by whole clusters while the loop goes on, so co stays the first
   * chunk's. The result is the count and the caller's buffer.
   */
  function ReadLoopAsWritten(l: Layout, next: nat -> nat, dev: Device, cluster: nat, co: nat, len: nat,
                             amount: nat, buf: seq<byte>): (r: (nat, seq<byte>))
    requires l.bpc > 0 && len <= |buf|
    ensures amount <= r.0 <= amount + len && |r.1| == |buf|
    decreases len
  {
    if len == 0 then (amount, buf)
    else
      var toRead := Min(l.bpc, len);
      var data := BioRead(dev, l.at(cluster) + co, toRead);
      var buf' := data + buf[|data|..];
      if |data| != toRead then (amount, buf')
      else if len > toRead && IsEofCluster(next(cluster)) then (amount + toRead, buf')
      else ReadLoopAsWritten(l, next, dev, if len > toRead then next(cluster) else cluster, co,
                             len - toRead, amount + toRead, buf')
  }

  /**
   * fat_read_file as written: a negative offset is ERR_INVALID_ARGS, an
   * offset at or past the end of the file reads nothing, and the count is
   * trimmed to the file before the loop starts at the cluster the offset
   * falls in.
   */
  function ReadAsWritten(l: Layout, next: nat -> nat, dev: Device, f: DirEntry, offset: int, len: nat,
                         buf: seq<byte>): (r: (ReadResult, seq<byte>))
    requires l.bpc > 0 && len <= |buf|
    ensures offset < 0 <==> r.0 == ReadErr(ErrInvalidArgs)
    ensures offset >= 0 ==> r.0.ReadCount? && r.0.count <= len
    ensures offset >= f.length ==> r == (ReadCount(0), buf)
    ensures 0 <= offset < f.length ==> r.0.count <= f.length - offset
    ensures |r.1| == |buf|
  {
    if offset < 0 then (ReadErr(ErrInvalidArgs), buf)
    else if offset >= f.length then (ReadCount(0), buf)
    else
      var n := if offset + len > f.length then f.length - offset else len;
      var (count, b) := ReadLoopAsWritten(l, next, dev, ChainWalk(next, f.startCluster, offset / l.bpc),
                                          offset % l.bpc, n, 0, buf);
      (ReadCount(count), b)
  }

  /** One pass of the loop of fat_read_file as written, reading data. */
  lemma ReadLoopAsWrittenStep(l: Layout, next: nat -> nat, dev: Device, cluster: nat, co: nat, len: nat,
                              amount: nat, buf: seq<byte>, toRead: nat, data: seq<byte>)
    requires l.bpc > 0 && 0 < len <= |buf| && toRead == Min(l.bpc, len)
    requires data == BioRead(dev, l.at(cluster) + co, toRead)
    ensures |data| != toRead ==>
      ReadLoopAsWritten(l, next, dev, cluster, co, len, amount, buf) == (amount, data + buf[|data|..])
    ensures |data| == toRead && len > toRead && IsEofCluster(next(cluster)) ==>
      ReadLoopAsWritten(l, next, dev, cluster, co, len, amount, buf) == (amount + toRead, data + buf[|data|..])
    ensures |data| == toRead && len == toRead ==>
      ReadLoopAsWritten(l, next, dev, cluster, co, len, amount, buf) == (amount + toRead, data + buf[|data|..])
    ensures |data| == toRead && len > toRead && !IsEofCluster(next(cluster)) ==>
      ReadLoopAsWritten(l, next, dev, cluster, co, len, amount, buf)
        == ReadLoopAsWritten(l, next, dev, next(cluster), co, len - toRead, amount + toRead, data + buf[|data|..])
  {
  }

  /** The loop of fat_read_file as written. */
  method ReadLoop(l: Layout, next: nat -> nat, dev: Device, cluster: nat, co: nat, len: nat,
                  buf: array<byte>) returns (amount: nat)
    requires l.bpc > 0 && len <= buf.Length
    modifies buf
    ensures (amount, buf[..]) == ReadLoopAsWritten(l, next, dev, cluster, co, len, 0, old(buf[..]))
  {
    var n: nat, c: nat := len, cluster;
    amount := 0;
    ghost var final := ReadLoopAsWritten(l, next, dev, cluster, co, len, 0, buf[..]);
    while n > 0
      invariant n <= buf.Length
      invariant ReadLoopAsWritten(l, next, dev, c, co, n, amount, buf[..]) == final
      decreases n
    {
      var toRead := Min(l.bpc, n);
      var data := BioRead(dev, l.at(c) + co, toRead);
      ghost var b0 := buf[..];
      ReadLoopAsWrittenStep(l, next, dev, c, co, n, amount, b0, toRead, data);
      CopyToStart(buf, data);
      ghost var b1 := data + b0[|data|..];
      assert buf[..] == b1;
      if |data| != toRead {
        return;
      }
      n, amount := n - toRead, amount + toRead;
      if n > 0 {
        c := next(c);
        if IsEofCluster(c) {
          return;
        }
      }
    }
  }

  /** fat_read_file as written, into the caller's buffer. */
  method ReadFileAsWritten(l: Layout, next: nat -> nat, dev: Device, f: DirEntry, offset: int, len: nat,
                           buf: array<byte>) returns (r: ReadResult)
    requires l.bpc > 0 && len <= buf.Length
    modifies buf
    ensures (r, buf[..]) == ReadAsWritten(l, next, dev, f, offset, len, old(buf[..]))
  {
    if offset < 0 {
      return ReadErr(ErrInvalidArgs);
    }
    if offset >= f.length {
      return ReadCount(0);
    }
    var n: nat := len;
    if offset + len > f.length {
      n := f.length - offset;
    }
    var cluster := FileOffsetToCluster(next, f.startCluster, offset, l.bpc);
    var amount := ReadLoop(l, next, dev, cluster, offset % l.bpc, n, buf);
    return ReadCount(amount);
  }

  /** A cluster that holds data: at least 2 and not an end-of-chain value. */
  predicate DataCluster(c: nat) { c >= 2 && !IsEofCluster(c) }

  /**
   * Byte pos of the file whose chain starts at start: at pos %
   * bytes_per_cluster in cluster pos / bytes_per_cluster of the chain.
   */
  function FileByte(l: Layout, next: nat -> nat, dev: Device, start: nat, pos: nat): byte
    requires l.bpc > 0
  {
    dev.image(l.at(Follow(next, start, pos / l.bpc)) + pos % l.bpc)
  }

  /** The size of the chunk read at offset co of a cluster: up to the end of the cluster, or of the read. */
  function ChunkLen(l: Layout, co: nat, len: nat): (n: nat)
    requires co < l.bpc
    ensures n <= len && (len > 0 ==> n > 0)
  {
    Min(l.bpc - co, len)
  }

  /** The chunk read at offset co of cluster. */
  function Chunk(l: Layout, dev: Device, cluster: nat, co: nat, len: nat): seq<byte>
    requires co < l.bpc
  {
    BioRead(dev, l.at(cluster) + co, ChunkLen(l, co, len))
  }

  /**
   * The read of len bytes from offset co of cluster on: each chunk runs to
   * the end of its cluster (or of the read) and is placed after the
   * previous one, and the chain is followed one link per chunk; a short
   * read, or a cluster that is not a data cluster, ends the read.
   */
  function ReadChain(l: Layout, next: nat -> nat, dev: Device, cluster: nat, co: nat, len: nat): (r: seq<byte>)
    requires co < l.bpc
    ensures |r| <= len
    decreases len
  {
    if len == 0 || !DataCluster(cluster) then []
    else
      var data := Chunk(l, dev, cluster, co, len);
      if |data| != ChunkLen(l, co, len) then []
      else data + ReadChain(l, next, dev, next(cluster), 0, len - |data|)
  }

  /** Every byte of r is the byte of the file whose chain starts at start, from position pos on. */
  ghost predicate FileBytesAt(l: Layout, next: nat -> nat, dev: Device, start: nat, pos: nat, r: seq<byte>)
    requires l.bpc > 0
  {
    forall i :: 0 <= i < |r| ==> r[i] == FileByte(l, next, dev, start, pos + i)
  }

  lemma FileBytesAppend(l: Layout, next: nat -> nat, dev: Device, start: nat, pos: nat, a: seq<byte>, b: seq<byte>)
    requires l.bpc > 0
    requires FileBytesAt(l, next, dev, start, pos, a) && FileBytesAt(l, next, dev, start, pos + |a|, b)
    ensures FileBytesAt(l, next, dev, start, pos, a + b)
  {
    forall i | 0 <= i < |a + b|
      ensures (a + b)[i] == FileByte(l, next, dev, start, pos + i)
    {
      if i >= |a| {
        assert pos + i == pos + |a| + (i - |a|);
      }
    }
  }

  /** A chunk read from cluster k of the chain, at offset co in it, holds the file's bytes. */
  lemma ChunkBytes(l: Layout, next: nat -> nat, dev: Device, start: nat, k: nat, co: nat, pos: nat, len: nat)
    requires co < l.bpc && pos == k * l.bpc + co
    ensures FileBytesAt(l, next, dev, start, pos, Chunk(l, dev, Follow(next, start, k), co, len))
  {
    var data := Chunk(l, dev, Follow(next, start, k), co, len);
    forall i | 0 <= i < |data|
      ensures data[i] == FileByte(l, next, dev, start, pos + i)
    {
      DivModUnique(pos + i, l.bpc, k, co + i);
    }
  }

  lemma NextClusterStart(k: nat, b: nat, co: nat, n: nat)
    requires co + n == b
    ensures k * b + co + n == (k + 1) * b
  {
  }

  /**
   * Every byte the read from offset co of cluster k of a chain returns is
   * the file's byte at its position pos.
   */
  lemma {:induction false} ReadChainBytes(l: Layout, next: nat -> nat, dev: Device, start: nat, k: nat, co: nat, pos: nat, len: nat)
    requires co < l.bpc && pos == k * l.bpc + co
    ensures FileBytesAt(l, next, dev, start, pos, ReadChain(l, next, dev, Follow(next, start, k), co, len))
    decreases len
  {
    var cluster := Follow(next, start, k);
    if len > 0 && DataCluster(cluster) {
      var data := Chunk(l, dev, cluster, co, len);
      if |data| == ChunkLen(l, co, len) {
        ChunkBytes(l, next, dev, start, k, co, pos, len);
        var rest := ReadChain(l, next, dev, next(cluster), 0, len - |data|);
        assert ReadChain(l, next, dev, cluster, co, len) == data + rest;
        if len > |data| {
          NextClusterStart(k, l.bpc, co, |data|);
          ReadChainBytes(l, next, dev, start, k + 1, 0, pos + |data|, len - |data|);
        } else {
          assert rest == [];
        }
        FileBytesAppend(l, next, dev, start, pos, data, rest);
      }
    }
  }

  /**
   * A read of len bytes from a chain whose first len clusters are data
   * clusters lying inside the device returns all len bytes.
   */
  lemma {:induction false} ReadChainWhole(l: Layout, next: nat -> nat, dev: Device, cluster: nat, co: nat, len: nat)
    requires co < l.bpc
    requires forall j: nat :: j < len ==>
      DataCluster(Follow(next, cluster, j)) && l.at(Follow(next, cluster, j)) + l.bpc <= dev.size
    ensures |ReadChain(l, next, dev, cluster, co, len)| == len
    decreases len
  {
    if len > 0 {
      assert cluster == Follow(next, cluster, 0);
      var n := ChunkLen(l, co, len);
      forall j: nat | j < len - n
        ensures DataCluster(Follow(next, next(cluster), j))
        ensures l.at(Follow(next, next(cluster), j)) + l.bpc <= dev.size
      {
        FollowFirst(next, cluster, j);
      }
      ReadChainWhole(l, next, dev, next(cluster), 0, len - n);
    }
  }

  /**
   * fat_read_file as intended: a negative offset is ERR_INVALID_ARGS, an
   * offset at or past the end of the file reads nothing, and otherwise the
   * read trimmed to the file, from the cluster the offset falls in; the
   * bytes go to the caller's buffer one after the other.
   */
  function ReadFileSpec(l: Layout, next: nat -> nat, dev: Device, f: DirEntry, offset: int, len: nat): (r: (ReadResult, seq<byte>))
    requires l.bpc > 0
    ensures offset < 0 <==> r.0 == ReadErr(ErrInvalidArgs)
    ensures r.0.ReadCount? ==> r.0.count == |r.1| <= len
    ensures offset >= f.length ==> r.1 == []
    ensures 0 <= offset < f.length ==> |r.1| <= f.length - offset
  {
    if offset < 0 then (ReadErr(ErrInvalidArgs), [])
    else if offset >= f.length then (ReadCount(0), [])
    else
      var n := if offset + len > f.length then f.length - offset else len;
      var data := ReadChain(l, next, dev, ChainWalk(next, f.startCluster, offset / l.bpc), offset % l.bpc, n);
      (ReadCount(|data|), data)
  }

  /** What a read returns is the file's bytes from the offset on. */
  lemma ReadFileBytes(l: Layout, next: nat -> nat, dev: Device, f: DirEntry, offset: int, len: nat)
    requires l.bpc > 0
    ensures offset >= 0 ==> FileBytesAt(l, next, dev, f.startCluster, offset, ReadFileSpec(l, next, dev, f, offset, len).1)
  {
    if 0 <= offset < f.length {
      var k := offset / l.bpc;
      var c := ChainWalk(next, f.startCluster, k);
      ChainWalkFollow(next, f.startCluster, k);
      if !IsEofCluster(c) {
        var n := if offset + len > f.length then f.length - offset else len;
        ReadChainBytes(l, next, dev, f.startCluster, k, offset % l.bpc, offset, n);
      }
    }
  }

  /** Clusters of 4 bytes at byte 4 * c, on a device whose byte i is i. */
  function TinyLayout(): Layout { Layout(c => 4 * c, 4) }

  function TinyDev(): Device { Device(i => (i % 256) as byte, 256) }

  /** The chain 2, 3. */
  function TwoClusters(): nat -> nat { c => if c == 2 then 3 else EOF_CLUSTER }

  /**
   * An 8-byte file in clusters 2 and 3, read whole into an 8-byte buffer:
   * as written both chunks land at the start of the buffer, so it ends up
   * holding cluster 3 and then zeros; as intended it holds bytes 8 to 15.
   */
  lemma ReadOverwritesChunks()
    ensures ReadAsWritten(TinyLayout(), TwoClusters(), TinyDev(), DirEntry(0, 8, 2), 0, 8, seq(8, _ => 0))
            == (ReadCount(8), [12, 13, 14, 15, 0, 0, 0, 0])
    ensures ReadFileSpec(TinyLayout(), TwoClusters(), TinyDev(), DirEntry(0, 8, 2), 0, 8)
            == (ReadCount(8), [8, 9, 10, 11, 12, 13, 14, 15])
  {
    var l, next, dev := TinyLayout(), TwoClusters(), TinyDev();
    var c2: seq<byte> := [8, 9, 10, 11];
    var c3: seq<byte> := [12, 13, 14, 15];
    assert l.at(2) == 8 && l.at(3) == 12 && l.bpc == 4;
    assert next(2) == 3 && !IsEofCluster(3) && next(3) == EOF_CLUSTER;
    assert BioRead(dev, 8, 4) == c2;
    assert BioRead(dev, 12, 4) == c3;
    assert ChainWalk(next, 2, 0) == 2;
    var b0: seq<byte> := seq(8, _ => 0);
    var b1 := c2 + b0[4..];
    var b2 := c3 + b1[4..];
    assert b2 == [12, 13, 14, 15, 0, 0, 0, 0];
    assert ReadLoopAsWritten(l, next, dev, 3, 0, 0, 8, b2) == (8, b2);
    assert ReadLoopAsWritten(l, next, dev, 3, 0, 4, 4, b1) == (8, b2);
    assert ReadLoopAsWritten(l, next, dev, 2, 0, 8, 0, b0) == (8, b2);
    assert ReadChain(l, next, dev, EOF_CLUSTER, 0, 0) == [];
    assert ChunkLen(l, 0, 8) == 4 && ChunkLen(l, 0, 4) == 4;
    assert Chunk(l, dev, 3, 0, 4) == c3 && Chunk(l, dev, 2, 0, 8) == c2;
    assert DataCluster(2) && DataCluster(3);
    assert ReadChain(l, next, dev, 3, 0, 4) == c3;
    assert ReadChain(l, next, dev, 2, 0, 8) == c2 + c3;
    assert ReadChain(l, next, dev, ChainWalk(next, 2, 0 / l.bpc), 0 % l.bpc, 8) == c2 + c3;
    assert ReadFileSpec(l, next, dev, DirEntry(0, 8, 2), 0, 8) == (ReadCount(8), c2 + c3);
    assert c2 + c3 == [8, 9, 10, 11, 12, 13, 14, 15];
    assert ReadChain(l, next, dev, 2, 0, 8) == c2 + ReadChain(l, next, dev, 3, 0, 4);
  }

  /** One pass of the loop of fat_read_file as intended: the chunk at co goes to the buffer at amount unless the read is short. */
  method ReadChunkInto(l: Layout, next: nat -> nat, dev: Device, c: nat, co: nat, n: nat, buf: array<byte>, amount: nat)
    returns (toRead: nat, ok: bool)
    requires co < l.bpc && n > 0 && DataCluster(c) && amount + n <= buf.Length
    modifies buf
    ensures toRead == ChunkLen(l, co, n) && 0 < toRead <= n
    ensures !ok ==> ReadChain(l, next, dev, c, co, n) == [] && buf[..] == old(buf[..])
    ensures ok ==> buf[..amount + toRead] == old(buf[..amount]) + Chunk(l, dev, c, co, n)
    ensures ok ==> forall i :: amount + toRead <= i < buf.Length ==> buf[i] == old(buf[i])
    ensures ok ==> ReadChain(l, next, dev, c, co, n) == Chunk(l, dev, c, co, n) + ReadChain(l, next, dev, next(c), 0, n - toRead)
  {
    toRead := ChunkLen(l, co, n);
    var data := BioRead(dev, l.at(c) + co, toRead);
    if |data| != toRead {
      return toRead, false;
    }
    CopyInto(buf, amount, data);
    return toRead, true;
  }

  /** The loop of fat_read_file as intended: every chunk goes after the previous one in the caller's buffer. */
  method ReadChainInto(l: Layout, next: nat -> nat, dev: Device, cluster: nat, co: nat, len: nat,
                       buf: array<byte>) returns (amount: nat)
    requires co < l.bpc && len <= buf.Length
    modifies buf
    ensures var data := ReadChain(l, next, dev, cluster, co, len);
      amount == |data| && buf[..] == data + old(buf[|data|..])
  {
    var n: nat, c: nat, clusterOffset: nat := len, cluster, co;
    amount := 0;
    ghost var total := ReadChain(l, next, dev, cluster, co, len);
    ghost var init := buf[..];
    while n > 0
      invariant clusterOffset < l.bpc && amount + n <= buf.Length
      invariant buf[..amount] + ReadChain(l, next, dev, c, clusterOffset, n) == total
      invariant forall i :: amount <= i < buf.Length ==> buf[i] == init[i]
      decreases n
    {
      if !DataCluster(c) {
        break;
      }
      ghost var before := buf[..amount];
      ghost var chunk := Chunk(l, dev, c, clusterOffset, n);
      var toRead, ok := ReadChunkInto(l, next, dev, c, clusterOffset, n, buf, amount);
      if !ok {
        break;
      }
      ghost var rest := ReadChain(l, next, dev, next(c), 0, n - toRead);
      SeqAssoc(before, chunk, rest);
      n, amount, clusterOffset := n - toRead, amount + toRead, 0;
      if n > 0 {
        c := next(c);
      }
      assert buf[..amount] == before + chunk;
      assert ReadChain(l, next, dev, c, clusterOffset, n) == rest;
    }
    PrefixThenRest(buf[..], total, init, amount);
  }

  /** fat_read_file as intended, into the caller's buffer. */
  method ReadFile(l: Layout, next: nat -> nat, dev: Device, f: DirEntry, offset: int, len: nat,
                  buf: array<byte>) returns (r: ReadResult)
    requires l.bpc > 0 && len <= buf.Length
    modifies buf
    ensures var (res, data) := ReadFileSpec(l, next, dev, f, offset, len);
      r == res && buf[..] == data + old(buf[|data|..])
  {
    if offset < 0 {
      return ReadErr(ErrInvalidArgs);
    }
    if offset >= f.length {
      return ReadCount(0);
    }
    var n: nat := len;
    if offset + len > f.length {
      n := f.length - offset;
    }
    var cluster := FileOffsetToCluster(next, f.startCluster, offset, l.bpc);
    var amount := ReadChainInto(l, next, dev, cluster, offset % l.bpc, n, buf);
    return ReadCount(amount);
  }

  // ---------------------------------------------------------------------
  // Opening a path (fat_open_file)
  // ---------------------------------------------------------------------

  /** The directory buffer after bio_read of a cluster, whose result is not checked: the bytes of the image there. */
  function DirBuffer(l: Layout, dev: Device, cluster: nat): (r: seq<byte>)
    ensures |r| == l.bpc
    ensures forall i :: 0 <= i < |r| ==> r[i] == dev.image(l.at(cluster) + i)
  {
    seq(l.bpc, i requires 0 <= i => dev.image(l.at(cluster) + i))
  }

  /**
   * strchr(ptr, '/') in the path buffer p: the first '/' from ptr on that
   * comes before a NUL; the end of the buffer stands for the terminating NUL.
   */
  function Strchr(p: seq<byte>, ptr: nat): (r: Option<nat>)
    requires ptr <= |p|
    ensures r.Some? ==> ptr <= r.value < |p| && p[r.value] == SLASH
    ensures r.Some? ==> forall i :: ptr <= i < r.value ==> p[i] != SLASH && p[i] != 0
    decreases |p| - ptr
  {
    if ptr == |p| || p[ptr] == 0 then None
    else if p[ptr] == SLASH then Some(ptr)
    else Strchr(p, ptr + 1)
  }

  /** strchr finds no '/' exactly when the C string from ptr has none. */
  lemma {:induction false} StrchrNone(p: seq<byte>, ptr: nat)
    requires ptr <= |p|
    ensures Strchr(p, ptr).None? <==> SLASH !in CString(p[ptr..])
    decreases |p| - ptr
  {
    if ptr < |p| && p[ptr] != 0 {
      assert p[ptr..] == [p[ptr]] + p[ptr + 1..];
      if p[ptr] != SLASH {
        StrchrNone(p, ptr + 1);
      }
    }
  }

  /**
   * strnicmp(ptr, filename, strlen(filename)) == 0: the entry's name is,
   * up to letter case, a prefix of the wanted name.
   */
  predicate PrefixMatches(name: seq<byte>, filename: seq<byte>)
  {
    var f := CString(filename);
    |f| <= |name| && forall i :: 0 <= i < |f| ==> ToLower(name[i]) == ToLower(f[i])
  }

  /** An exact match is a prefix match of the whole wanted name, and only that. */
  lemma ExactIsWholePrefix(name: seq<byte>, filename: seq<byte>)
    ensures NameMatches(name, filename) <==> PrefixMatches(name, filename) && |CString(filename)| == |name|
  {
  }

  /** The name test of the scan in fat_open_file: entry j, preceded by n long-name entries, prefix-matches. */
  function PrefixMatcher(b: seq<byte>, name: seq<byte>): (nat, nat) -> bool
  {
    (j: nat, n: nat) => 32 * j + 32 <= |b| && n <= j && PrefixMatches(name, Filename(b, 32 * j, n))
  }

  /** The loop of fat_open_file over one directory cluster, with its guard reading the entry before the bounds check. */
  method ScanDirAsWritten(b: seq<byte>, matches: (nat, nat) -> bool) returns (r: ScanWritten)
    requires Entries(b)
    ensures r == ScanAsWritten(b, matches, 0, 0)
  {
    var offset := 0;
    ghost var k := 0;
    var lfnSequences := 0;
    while true
      invariant offset == 32 * k <= |b| && lfnSequences <= k
      invariant ScanAsWritten(b, matches, k, lfnSequences) == ScanAsWritten(b, matches, 0, 0)
      decreases |b| - offset
    {
      if offset == |b| {
        return Overrun;
      }
      if b[offset] == 0 {
        return EndWritten;
      }
      if b[offset] == DELETED {
        offset, k := offset + DIR_ENTRY_LENGTH, k + 1;
        continue;
      } else if Bit(b[offset + 0x0B], 3) {
        if b[offset + 0x0B] == ATTR_LFN {
          lfnSequences := lfnSequences + 1;
        }
        offset, k := offset + DIR_ENTRY_LENGTH, k + 1;
        continue;
      }
      assert offset / DIR_ENTRY_LENGTH == k;
      var matched := matches(offset / DIR_ENTRY_LENGTH, lfnSequences);
      lfnSequences := 0;
      if matched {
        return FoundWritten(EntryAsWritten(b, offset));
      }
      offset, k := offset + DIR_ENTRY_LENGTH, k + 1;
    }
  }

  /**
   * What fat_open_file as written comes to: a file, ERR_GENERIC, a scan
   * that reads past the directory buffer, or, in this model, the bound on
   * the number of clusters read used up.
   */
  datatype Opening = Opened(file: DirEntry) | OpenFailed | ReadsPastCluster | OpenOutOfFuel

  /**
   * The scan of fat_open_file for a name in a directory cluster as written:
   * the buffer bio_read fills, scanned for an entry whose name is a prefix of
   * the name.
   */
  function DirScan(l: Layout, dev: Device): (nat, seq<byte>) -> ScanWritten
    requires l.bpc % DIR_ENTRY_LENGTH == 0
  {
    (c: nat, name: seq<byte>) => ScanAsWritten(DirBuffer(l, dev, c), PrefixMatcher(DirBuffer(l, dev, c), name), 0, 0)
  }

  /** Where a pass of the loop of fat_open_file leaves it: ended with a result, or at the next component or cluster. */
  datatype Pass = Stop(result: Opening, p: seq<byte>) | Continue(p: seq<byte>, ptr: nat, cluster: nat, done: bool)

  /**
   * A pass of the loop of fat_open_file as written, at ptr in the path
   * buffer p in the directory cluster cluster, scan(c, name) being the scan
   * of cluster c for name: strchr cuts the current component at the next
   * '/' by writing a NUL there, or marks it the last; a hit on the last
   * component is the file, and a hit on another one moves past the '/' and
   * its repeats into the entry's start cluster; a miss moves to the next
   * cluster of the same directory with the same ptr, and an end-of-chain
   * value fails.
   */
  function PassAsWritten(scan: (nat, seq<byte>) -> ScanWritten, next: nat -> nat, p: seq<byte>, ptr: nat,
                         cluster: nat, done: bool): (r: Pass)
    requires ptr <= |p|
    ensures |r.p| == |p| && (r.Continue? ==> r.ptr <= |p|)
  {
    var sep := Strchr(p, ptr);
    var p' := if sep.Some? then p[sep.value := 0] else p;
    var done' := done || sep.None?;
    match scan(cluster, CString(p'[ptr..]))
    case Overrun => Stop(ReadsPastCluster, p')
    case FoundWritten(e) =>
      if done' then Stop(Opened(e), p')
      else Continue(p', SkipSlashes(p', sep.value + 1), e.startCluster, done')
    case EndWritten =>
      if IsEofCluster(next(cluster)) then Stop(OpenFailed, p')
      else Continue(p', ptr, next(cluster), done')
  }

  /** The loop of fat_open_file as written, for at most fuel passes; the result holds the path buffer as the loop leaves it. */
  function OpenLoopAsWritten(scan: (nat, seq<byte>) -> ScanWritten, next: nat -> nat, p: seq<byte>, ptr: nat,
                             cluster: nat, done: bool, fuel: nat): (r: (Opening, seq<byte>))
    requires ptr <= |p|
    ensures |r.1| == |p|
    decreases fuel
  {
    if fuel == 0 then (OpenOutOfFuel, p)
    else match PassAsWritten(scan, next, p, ptr, cluster, done)
      case Stop(result, p') => (result, p')
      case Continue(p', ptr', cluster', done') => OpenLoopAsWritten(scan, next, p', ptr', cluster', done', fuel - 1)
  }

  /** The loop goes on from where a pass leaves it: a pass that stops gives its result, one that continues leaves the rest to the next passes. */
  lemma OpenLoopUnfold(scan: (nat, seq<byte>) -> ScanWritten, next: nat -> nat, p: seq<byte>, ptr: nat,
                       cluster: nat, done: bool, fuel: nat, pass: Pass, final: (Opening, seq<byte>))
    requires ptr <= |p| && fuel > 0 && pass == PassAsWritten(scan, next, p, ptr, cluster, done)
    requires OpenLoopAsWritten(scan, next, p, ptr, cluster, done, fuel) == final
    ensures pass.Stop? ==> final == (pass.result, pass.p)
    ensures !pass.Stop? ==> pass.ptr <= |pass.p| && OpenLoopAsWritten(scan, next, pass.p, pass.ptr, pass.cluster, pass.done, fuel - 1) == final
  {
  }

  /** fat_open_file as written, from the root cluster past the leading slashes of path. */
  function OpenAsWritten(l: Layout, next: nat -> nat, dev: Device, root: nat, path: seq<byte>, fuel: nat): (r: (Opening, seq<byte>))
    requires l.bpc % DIR_ENTRY_LENGTH == 0
    ensures |r.1| == |path|
  {
    OpenLoopAsWritten(DirScan(l, dev), next, path, SkipSlashes(path, 0), root, false, fuel)
  }

  /** The loop that steps over a run of '/' from k. */
  method SkipSeparators(path: seq<byte>, k: nat) returns (r: nat)
    requires k <= |path|
    ensures r == SkipSlashes(path, k)
  {
    r := k;
    while r < |path| && path[r] == SLASH
      invariant k <= r <= |path| && SkipSlashes(path, r) == SkipSlashes(path, k)
      decreases |path| - r
    {
      r := r + 1;
    }
  }

  /** A pass of the loop of fat_open_file as written, cutting the caller's path buffer in place. */
  method OpenPass(l: Layout, next: nat -> nat, dev: Device, path: array<byte>, ptr: nat, cluster: nat, done: bool)
    returns (r: Pass)
    requires l.bpc % DIR_ENTRY_LENGTH == 0 && ptr <= path.Length
    modifies path
    ensures r == PassAsWritten(DirScan(l, dev), next, old(path[..]), ptr, cluster, done) && path[..] == r.p
  {
    var p := path[..];
    var dir := DirBuffer(l, dev, cluster);
    var sep := Strchr(p, ptr);
    var done' := done;
    if sep.Some? {
      path[sep.value] := 0;
    } else {
      done' := true;
    }
    var cut := if sep.Some? then p[sep.value := 0] else p;
    assert path[..] == cut;
    var s := ScanDirAsWritten(dir, PrefixMatcher(dir, CString(cut[ptr..])));
    assert s == DirScan(l, dev)(cluster, CString(cut[ptr..]));
    match s {
      case Overrun =>
        r := Stop(ReadsPastCluster, cut);
      case FoundWritten(e) =>
        if done' {
          r := Stop(Opened(e), cut);
        } else {
          var ptr' := SkipSeparators(cut, sep.value + 1);
          r := Continue(cut, ptr', e.startCluster, done');
        }
      case EndWritten =>
        var cluster' := next(cluster);
        r := if IsEofCluster(cluster') then Stop(OpenFailed, cut) else Continue(cut, ptr, cluster', done');
    }
  }

  /** fat_open_file as written, cutting the caller's path buffer in place. */
  method OpenFileAsWritten(l: Layout, next: nat -> nat, dev: Device, root: nat, path: array<byte>, fuel: nat)
    returns (r: Opening)
    requires l.bpc % DIR_ENTRY_LENGTH == 0
    modifies path
    ensures (r, path[..]) == OpenAsWritten(l, next, dev, root, old(path[..]), fuel)
  {
    var ptr: nat := SkipSeparators(path[..], 0);
    var done := false;
    var cluster := root;
    var f := fuel;
    ghost var final := OpenAsWritten(l, next, dev, root, path[..], fuel);
    ghost var scan := DirScan(l, dev);
    ghost var at := Continue(path[..], ptr, cluster, done);
    while f > 0
      invariant at == Continue(path[..], ptr, cluster, done) && ptr <= path.Length
      invariant OpenLoopAsWritten(scan, next, at.p, at.ptr, at.cluster, at.done, f) == final
      decreases f
    {
      var pass := OpenPass(l, next, dev, path, ptr, cluster, done);
      OpenLoopUnfold(scan, next, at.p, at.ptr, at.cluster, at.done, f, pass, final);
      if pass.Stop? {
        return pass.result;
      }
      ptr, cluster, done := pass.ptr, pass.cluster, pass.done;
      f := f - 1;
      at := pass;
    }
    return OpenOutOfFuel;
  }

  /**
   * The lookup of name along a directory's chain from cluster, as intended:
   * a cluster that is not a data cluster, or a short read, fails with
   * ERR_GENERIC; a cluster whose scan finds the name (exactly, up to letter
   * case) gives its entry, with the 16-bit start cluster at 0x1A that
   * file.cpp reads as well; otherwise the next cluster of the chain is read, at most fuel clusters in all.
   */
  function LookupInChain(l: Layout, next: nat -> nat, dev: Device, name: seq<byte>, cluster: nat, fuel: nat): (r: Outcome<DirEntry>)
    requires l.bpc % DIR_ENTRY_LENGTH == 0
    ensures r.Done? || r == Err(ErrGeneric) || r == OutOfFuel
    decreases fuel
  {
    if fuel == 0 then OutOfFuel
    else if !DataCluster(cluster) then Err(ErrGeneric)
    else
      var dir := BioRead(dev, l.at(cluster), l.bpc);
      if |dir| != l.bpc then Err(ErrGeneric)
      else match ClusterScan(dir, name)
        case Found(e) => Done(e)
        case End => LookupInChain(l, next, dev, name, next(cluster), fuel - 1)
  }

  /**
   * fat_open_file as intended, from the component at pos in the directory
   * cluster: each component up to the next '/' is looked up in its
   * directory; a hit on the last one (nothing but '/' after it) is the file,
   * a hit on another one continues in the entry's start cluster past the run
   * of '/', and a miss is ERR_GENERIC.
   */
  function OpenFrom(l: Layout, next: nat -> nat, dev: Device, path: seq<byte>, pos: nat, cluster: nat, fuel: nat): (r: Outcome<DirEntry>)
    requires l.bpc % DIR_ENTRY_LENGTH == 0 && pos <= |path| && (pos < |path| ==> path[pos] != SLASH)
    ensures r.Done? || r == Err(ErrGeneric) || r == OutOfFuel
    decreases |path| - pos
  {
    var end := ElementEnd(path, pos);
    var rest := SkipSlashes(path, end);
    var found := LookupInChain(l, next, dev, path[pos..end], cluster, fuel);
    if !found.Done? || rest == |path| then found
    else OpenFrom(l, next, dev, path, rest, found.value.startCluster, fuel)
  }

  /** fat_open_file as intended, from the root cluster past the leading slashes of path. */
  function OpenPath(l: Layout, next: nat -> nat, dev: Device, root: nat, path: seq<byte>, fuel: nat): Outcome<DirEntry>
    requires l.bpc % DIR_ENTRY_LENGTH == 0
  {
    OpenFrom(l, next, dev, path, SkipSlashes(path, 0), root, fuel)
  }

  /** The lookup along a directory's chain, one cluster per pass. */
  method Lookup(l: Layout, next: nat -> nat, dev: Device, name: seq<byte>, cluster: nat, fuel: nat) returns (r: Outcome<DirEntry>)
    requires l.bpc % DIR_ENTRY_LENGTH == 0
    ensures r == LookupInChain(l, next, dev, name, cluster, fuel)
  {
    var c, f := cluster, fuel;
    while true
      invariant LookupInChain(l, next, dev, name, c, f) == LookupInChain(l, next, dev, name, cluster, fuel)
      decreases f
    {
      if f == 0 {
        return OutOfFuel;
      }
      if !DataCluster(c) {
        return Err(ErrGeneric);
      }
      var dir := BioRead(dev, l.at(c), l.bpc);
      if |dir| != l.bpc {
        return Err(ErrGeneric);
      }
      var s := ScanCluster(dir, Matcher(dir, name));
      if s.Found? {
        return Done(s.entry);
      }
      c, f := next(c), f - 1;
    }
  }

  /** fat_open_file as intended. */
  method OpenFile(l: Layout, next: nat -> nat, dev: Device, root: nat, path: seq<byte>, fuel: nat) returns (r: Outcome<DirEntry>)
    requires l.bpc % DIR_ENTRY_LENGTH == 0
    ensures r == OpenPath(l, next, dev, root, path, fuel)
  {
    var pos := SkipSeparators(path, 0);
    var cluster := root;
    while true
      invariant pos <= |path| && (pos < |path| ==> path[pos] != SLASH)
      invariant OpenFrom(l, next, dev, path, pos, cluster, fuel) == OpenPath(l, next, dev, root, path, fuel)
      decreases |path| - pos
    {
      var end := ElementEnd(path, pos);
      var found := Lookup(l, next, dev, path[pos..end], cluster, fuel);
      var rest := SkipSeparators(path, end);
      if !found.Done? || rest == |path| {
        return found;
      }
      pos, cluster := rest, found.value.startCluster;
    }
  }

  /** What a cluster scan finds is an entry of the cluster whose name is the wanted name, up to letter case. */
  lemma ScanFindsName(b: seq<byte>, name: seq<byte>)
    requires Entries(b) && ClusterScan(b, name).Found?
    ensures exists j: nat, n: nat ::
              && 32 * j + 32 <= |b| && n <= j && NameMatches(name, Filename(b, 32 * j, n))
              && ClusterScan(b, name).entry == EntryAsWritten(b, 32 * j)
  {
    ScanFindsEntry(b, Matcher(b, name), 0, 0);
  }

  /**
   * A lookup that succeeds found its entry by name in a data cluster of the
   * directory's chain, fewer than fuel links from its start, read whole.
   */
  lemma {:induction false} LookupFound(l: Layout, next: nat -> nat, dev: Device, name: seq<byte>, cluster: nat, fuel: nat)
    requires l.bpc % DIR_ENTRY_LENGTH == 0 && LookupInChain(l, next, dev, name, cluster, fuel).Done?
    ensures exists steps: nat ::
              var c := Follow(next, cluster, steps);
              var dir := BioRead(dev, l.at(c), l.bpc);
              && steps < fuel && DataCluster(c) && |dir| == l.bpc
              && ClusterScan(dir, name) == Found(LookupInChain(l, next, dev, name, cluster, fuel).value)
    decreases fuel
  {
    var dir := BioRead(dev, l.at(cluster), l.bpc);
    if ClusterScan(dir, name).End? {
      LookupFound(l, next, dev, name, next(cluster), fuel - 1);
      var steps: nat :|
        var c := Follow(next, next(cluster), steps);
        var d := BioRead(dev, l.at(c), l.bpc);
        && steps < fuel - 1 && DataCluster(c) && |d| == l.bpc
        && ClusterScan(d, name) == Found(LookupInChain(l, next, dev, name, next(cluster), fuel - 1).value);
      FollowFirst(next, cluster, steps);
    } else {
      assert cluster == Follow(next, cluster, 0);
    }
  }

  /**
   * An open that succeeds gives the entry the lookup of the last component
   * of the path found, in some directory cluster.
   */
  lemma {:induction false} OpenFindsLast(l: Layout, next: nat -> nat, dev: Device, path: seq<byte>, pos: nat, cluster: nat, fuel: nat)
    requires l.bpc % DIR_ENTRY_LENGTH == 0 && pos <= |path| && (pos < |path| ==> path[pos] != SLASH)
    requires OpenFrom(l, next, dev, path, pos, cluster, fuel).Done?
    ensures exists q: nat, c: nat ::
              && pos <= q <= |path| && SkipSlashes(path, ElementEnd(path, q)) == |path|
              && LookupInChain(l, next, dev, path[q..ElementEnd(path, q)], c, fuel) == OpenFrom(l, next, dev, path, pos, cluster, fuel)
    decreases |path| - pos
  {
    var end := ElementEnd(path, pos);
    var rest := SkipSlashes(path, end);
    var found := LookupInChain(l, next, dev, path[pos..end], cluster, fuel);
    if rest != |path| {
      OpenFindsLast(l, next, dev, path, rest, found.value.startCluster, fuel);
    } else {
      assert pos <= pos <= |path|;
    }
  }

  /** A path of one component, after any slashes, opens what the lookup of that component in the root directory finds. */
  lemma OpenOneComponent(l: Layout, next: nat -> nat, dev: Device, root: nat, name: seq<byte>, k: nat, fuel: nat)
    requires l.bpc % DIR_ENTRY_LENGTH == 0 && SLASH !in name
    ensures OpenPath(l, next, dev, root, seq(k, _ => SLASH) + name, fuel) == LookupInChain(l, next, dev, name, root, fuel)
  {
    var path := seq(k, _ => SLASH) + name;
    assert forall i :: k <= i < |path| ==> path[i] == name[i - k];
    SkipAll(path, 0, k);
    ElementEndAll(path, k);
    assert SkipSlashes(path, |path|) == |path|;
    assert path[k..|path|] == name;
  }

  lemma {:induction false} SkipAll(path: seq<byte>, j: nat, k: nat)
    requires j <= k <= |path| && (forall i :: j <= i < k ==> path[i] == SLASH) && (k < |path| ==> path[k] != SLASH)
    ensures SkipSlashes(path, j) == k
    decreases k - j
  {
    if j < k {
      SkipAll(path, j + 1, k);
    }
  }

  /** An 8.3 entry whose name field is "A" and whose extension is empty has the name "A". */
  lemma NamedA(b: seq<byte>)
    requires 11 <= |b| && b[0] == 0x41 && forall i :: 1 <= i < 11 ==> b[i] == SPACE
    ensures Filename(b, 0, 0) == [0x41] && CString(Filename(b, 0, 0)) == [0x41]
  {
    ShortNameOfFields([0x41], [], []);
    assert b[0..11] == Padded([0x41], 8) + Padded([], 3) + [];
    CStringUnique([0x41], [0x41]);
  }

  // ---------------------------------------------------------------------
  // File status (fat_stat_file)
  // ---------------------------------------------------------------------

  /** What fat_stat_file reports about an open file. */
  datatype FileStat = FileStat(size: nat, isDir: bool)

  /** fat_stat_file: the size is the entry's length, and the file is a directory when its attribute byte is exactly the directory value. */
  function StatFile(f: DirEntry): (r: FileStat)
  {
    FileStat(f.length, f.attributes == ATTR_DIRECTORY)
  }

  /** The bits of a byte value below 0x100, from bit 0 up, as x / 2^n % 2. */
  lemma OnlyBitFour(x: int)
    requires 0 <= x < 0x100 && (x / 16) % 2 == 1
    requires x % 2 == 0 && (x / 2) % 2 == 0 && (x / 4) % 2 == 0 && (x / 8) % 2 == 0
    requires (x / 32) % 2 == 0 && (x / 64) % 2 == 0 && (x / 128) % 2 == 0
    ensures x == 0x10
  {
    assert x / 128 == 0;
    assert x / 64 == 2 * (x / 128) + (x / 64) % 2;
    assert x / 32 == 2 * (x / 64) + (x / 32) % 2;
    assert x / 16 == 2 * (x / 32) + (x / 16) % 2;
    assert x % 4 == 2 * ((x / 2) % 2) + x % 2;
    assert x % 8 == 4 * ((x / 4) % 2) + x % 4;
    assert x % 16 == 8 * ((x / 8) % 2) + x % 8;
  }

  /** Bit n of a byte, for n below 8. */
  lemma BitBelow8(x: byte, n: nat)
    requires n < 8
    ensures n == 0 ==> (Bit(x, n) <==> x as int % 2 == 1)
    ensures n == 1 ==> (Bit(x, n) <==> (x as int / 2) % 2 == 1)
    ensures n == 2 ==> (Bit(x, n) <==> (x as int / 4) % 2 == 1)
    ensures n == 3 ==> (Bit(x, n) <==> (x as int / 8) % 2 == 1)
    ensures n == 4 ==> (Bit(x, n) <==> (x as int / 16) % 2 == 1)
    ensures n == 5 ==> (Bit(x, n) <==> (x as int / 32) % 2 == 1)
    ensures n == 6 ==> (Bit(x, n) <==> (x as int / 64) % 2 == 1)
    ensures n == 7 ==> (Bit(x, n) <==> (x as int / 128) % 2 == 1)
  {
    assert Pow2(0) == 1 && Pow2(1) == 2 && Pow2(2) == 4 && Pow2(3) == 8;
    assert Pow2(4) == 16 && Pow2(5) == 32 && Pow2(6) == 64 && Pow2(7) == 128;
  }

  /**
   * A file is reported as a directory exactly when the directory bit is the
   * only attribute bit set: a directory that also has, say, the archive or
   * read-only bit is reported as a plain file.
   */
  lemma StatIsDirOnlyBit(f: DirEntry)
    ensures StatFile(f).size == f.length
    ensures StatFile(f).isDir <==> Bit(f.attributes, 4) && forall n: nat :: n < 8 && n != 4 ==> !Bit(f.attributes, n)
  {
    var x := f.attributes;
    forall n: nat | n < 8
      ensures x == ATTR_DIRECTORY ==> (Bit(x, n) <==> n == 4)
    {
      BitBelow8(x, n);
    }
    if Bit(x, 4) && forall n: nat :: n < 8 && n != 4 ==> !Bit(x, n) {
      BitBelow8(x, 0); BitBelow8(x, 1); BitBelow8(x, 2); BitBelow8(x, 3);
      BitBelow8(x, 4); BitBelow8(x, 5); BitBelow8(x, 6); BitBelow8(x, 7);
      assert !Bit(x, 0) && !Bit(x, 1) && !Bit(x, 2) && !Bit(x, 3) && !Bit(x, 5) && !Bit(x, 6) && !Bit(x, 7);
      OnlyBitFour(x as int);
    }
  }

  /** Clusters of 512 bytes, cluster c at byte 512 * c. */
  function SmallLayout(): Layout { Layout(c => 512 * c, 512) }

  /** A directory cluster 2 whose first entry is the file "A" followed by the end of the directory. */
  function PrefixDev(): Device
  {
    Device(i => if i == 1024 then 0x41 else if 1024 < i < 1035 then SPACE else 0, 0x1_0000)
  }

  /** A chain of one cluster. */
  function NoNext(): nat -> nat { c => EOF_CLUSTER }

  lemma PrefixScans()
    ensures DirScan(SmallLayout(), PrefixDev())(2, [0x61, 0x62]) == FoundWritten(DirEntry(0, 0, 0))
    ensures ClusterScan(BioRead(PrefixDev(), SmallLayout().at(2), 512), [0x61, 0x62]) == End
  {
    var name: seq<byte> := [0x61, 0x62];
    var dir := DirBuffer(SmallLayout(), PrefixDev(), 2);
    NamedA(dir);
    assert PrefixMatches(name, Filename(dir, 0, 0));
    assert BioRead(PrefixDev(), SmallLayout().at(2), 512) == dir;
    assert !NameMatches(name, Filename(dir, 0, 0));
    assert ScanFrom(dir, Matcher(dir, name), 1, 0) == End;
  }

  /**
   * Opening "ab" in a directory whose first entry is the file "A": as
   * written the file "A" is opened, its name being a prefix of "ab"; the
   * lookup as intended finds nothing.
   */
  lemma OpenMatchesPrefix()
    ensures OpenAsWritten(SmallLayout(), NoNext(), PrefixDev(), 2, [0x61, 0x62], 2).0 == Opened(DirEntry(0, 0, 0))
    ensures OpenPath(SmallLayout(), NoNext(), PrefixDev(), 2, [0x61, 0x62], 2) == Err(ErrGeneric)
  {
    var path: seq<byte> := [0x61, 0x62];
    PrefixScans();
    CStringUnique(path, path);
    assert path[0..] == path;
    assert Strchr(path, 0) == None;
    assert ElementEnd(path, 0) == 2;
    assert path[0..2] == path;
  }

  /**
   * A root directory of two clusters, 2 and 3: cluster 2 is empty and
   * cluster 3 begins with the directory "A", which starts at the empty
   * cluster 5.
   */
  function NestedDev(): Device
  {
    Device(i => if i == 1536 then 0x41 else if 1536 < i < 1547 then SPACE
                else if i == 1547 then ATTR_DIRECTORY else if i == 1562 then 5 else 0, 0x1_0000)
  }

  /** The chain 2, 3. */
  function NestedNext(): nat -> nat { c => if c == 2 then 3 else EOF_CLUSTER }

  lemma NestedScans()
    ensures DirScan(SmallLayout(), NestedDev())(2, [0x61]) == EndWritten
    ensures DirScan(SmallLayout(), NestedDev())(3, [0x61]) == FoundWritten(DirEntry(ATTR_DIRECTORY, 0, 5))
  {
    var dir3 := DirBuffer(SmallLayout(), NestedDev(), 3);
    NamedA(dir3);
    assert PrefixMatches([0x61], Filename(dir3, 0, 0));
  }

  lemma NestedLookups()
    ensures LookupInChain(SmallLayout(), NestedNext(), NestedDev(), [0x61], 2, 3) == Done(DirEntry(ATTR_DIRECTORY, 0, 5))
    ensures LookupInChain(SmallLayout(), NestedNext(), NestedDev(), [0x62], 5, 3) == Err(ErrGeneric)
  {
    var l, dev := SmallLayout(), NestedDev();
    var dir2, dir3, dir5 := DirBuffer(l, dev, 2), DirBuffer(l, dev, 3), DirBuffer(l, dev, 5);
    NamedA(dir3);
    assert BioRead(dev, l.at(2), 512) == dir2 && BioRead(dev, l.at(3), 512) == dir3 && BioRead(dev, l.at(5), 512) == dir5;
    assert ClusterScan(dir2, [0x61]) == End && ClusterScan(dir5, [0x62]) == End;
    assert NameMatches([0x61], Filename(dir3, 0, 0));
  }

  /**
   * Opening "a/b" when "a" is in the second cluster of the root directory:
   * as written, "a" is missed in the first cluster, and in the second one
   * strchr meets the NUL it wrote at the '/', so "a" is taken as the last
   * component and the directory "A" itself is opened; the open as intended
   * looks for "b" in "A" and fails.
   */
  lemma OpenContinuesAsLast()
    ensures OpenAsWritten(SmallLayout(), NestedNext(), NestedDev(), 2, [0x61, SLASH, 0x62], 3).0
              == Opened(DirEntry(ATTR_DIRECTORY, 0, 5))
    ensures OpenPath(SmallLayout(), NestedNext(), NestedDev(), 2, [0x61, SLASH, 0x62], 3) == Err(ErrGeneric)
  {
    var path: seq<byte> := [0x61, SLASH, 0x62];
    var cut: seq<byte> := [0x61, 0, 0x62];
    NestedScans();
    NestedLookups();
    CStringUnique(cut, [0x61]);
    assert cut[0..] == cut;
    assert Strchr(path, 0) == Some(1) && path[1 := 0] == cut;
    assert Strchr(cut, 0) == None;
    var scan := DirScan(SmallLayout(), NestedDev());
    assert PassAsWritten(scan, NestedNext(), path, 0, 2, false) == Continue(cut, 0, 3, false);
    assert PassAsWritten(scan, NestedNext(), cut, 0, 3, false) == Stop(Opened(DirEntry(ATTR_DIRECTORY, 0, 5)), cut);
    assert ElementEnd(path, 1) == 1;
    assert ElementEnd(path, 0) == 1;
    SkipAll(path, 1, 2);
    ElementEndAll(path, 2);
    assert path[0..1] == [0x61] && path[2..3] == [0x62];
    assert OpenFrom(SmallLayout(), NestedNext(), NestedDev(), path, 2, 5, 3) == Err(ErrGeneric);
  }
}
