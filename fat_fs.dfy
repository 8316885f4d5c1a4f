/**
 * The on-disk helpers shared by lk's FAT driver: little-endian field reads,
 * the end-of-chain cluster range and the directory-entry attribute bits
 * (Microsoft FAT32 File System Specification 1.03).
 */
module FatFs {
  import opened Lk

  /** Cluster numbers from EOF_CLUSTER_BASE to EOF_CLUSTER end a FAT32 chain. */
  const EOF_CLUSTER_BASE: nat := 0x0FFF_FFF8
  const EOF_CLUSTER: nat := 0x0FFF_FFFF

  /** A byte of a sector buffer. */
  newtype byte = x: int | 0 <= x < 0x100

  /** Bit n of a byte, as the source's `& (1 << n)` tests it. */
  predicate Bit(x: byte, n: nat)
  {
    (x as int / Pow2(n)) % 2 == 1
  }

  /** fat_attribute. */
  const ATTR_READ_ONLY: byte := 0x01
  const ATTR_HIDDEN: byte := 0x02
  const ATTR_SYSTEM: byte := 0x04
  const ATTR_VOLUME_ID: byte := 0x08
  const ATTR_DIRECTORY: byte := 0x10
  const ATTR_ARCHIVE: byte := 0x20
  /** The OR of the four disjoint bits read_only, hidden, system and volume_id. */
  const ATTR_LFN: byte := ATTR_READ_ONLY + ATTR_HIDDEN + ATTR_SYSTEM + ATTR_VOLUME_ID

  /** is_eof_cluster. */
  predicate IsEofCluster(c: nat)
  {
    EOF_CLUSTER_BASE <= c <= EOF_CLUSTER
  }

  /** fat_read16: the little-endian 16-bit field at offset o. */
  function Read16(b: seq<byte>, o: nat): (r: nat)
    requires o + 2 <= |b|
    ensures r < U16
  {
    b[o] as int + b[o + 1] as int * 0x100
  }

  /**
   * fat_read32: the little-endian 32-bit field at offset o (the value of
   * the four bytes as an unsigned number).
   */
  function Read32(b: seq<byte>, o: nat): (r: nat)
    requires o + 4 <= |b|
    ensures r < U32
  {
    b[o] as int + b[o + 1] as int * 0x100 + b[o + 2] as int * 0x1_0000 + b[o + 3] as int * 0x100_0000
  }

  /** The two bytes a 16-bit field is stored as, low byte first. */
  function Le16(v: nat): (r: seq<byte>)
    requires v < U16
    ensures |r| == 2
  {
    [(v % 0x100) as byte, (v / 0x100) as byte]
  }

  /** The four bytes a 32-bit field is stored as, low byte first. */
  function Le32(v: nat): (r: seq<byte>)
    requires v < U32
    ensures |r| == 4
  {
    [(v % 0x100) as byte, (v / 0x100 % 0x100) as byte, (v / 0x1_0000 % 0x100) as byte, (v / 0x100_0000) as byte]
  }

  /** Reading back a stored 16-bit field gives its value, and the bytes of a read field are the bytes read. */
  lemma Read16Le16(v: nat, b: seq<byte>, o: nat)
    requires v < U16 && o + 2 <= |b|
    ensures Read16(Le16(v), 0) == v
    ensures Le16(Read16(b, o)) == b[o..o + 2]
  {
    var w := Read16(b, o);
    assert w % 0x100 == b[o] as int && w / 0x100 == b[o + 1] as int;
  }

  /** Reading back a stored 32-bit field gives its value, and the bytes of a read field are the bytes read. */
  lemma Read32Le32(v: nat, b: seq<byte>, o: nat)
    requires v < U32 && o + 4 <= |b|
    ensures Read32(Le32(v), 0) == v
    ensures Le32(Read32(b, o)) == b[o..o + 4]
  {
    var w := Read32(b, o);
    var b0, b1, b2, b3 := b[o] as int, b[o + 1] as int, b[o + 2] as int, b[o + 3] as int;
    assert w == b0 + 0x100 * (b1 + 0x100 * (b2 + 0x100 * b3));
    assert w % 0x100 == b0 && w / 0x100 == b1 + 0x100 * (b2 + 0x100 * b3);
    assert w / 0x100 % 0x100 == b1 && w / 0x1_0000 == b2 + 0x100 * b3 by {
      assert w / 0x1_0000 == (w / 0x100) / 0x100;
    }
    assert w / 0x1_0000 % 0x100 == b2 && w / 0x100_0000 == b3 by {
      assert w / 0x100_0000 == (w / 0x1_0000) / 0x100;
    }
    var x0, x1, x2, x3 := v % 0x100, v / 0x100 % 0x100, v / 0x1_0000 % 0x100, v / 0x100_0000;
    assert v == x0 + 0x100 * (x1 + 0x100 * (x2 + 0x100 * x3)) by {
      assert v / 0x1_0000 == (v / 0x100) / 0x100;
      assert v / 0x100_0000 == (v / 0x1_0000) / 0x100;
    }
  }

  /** fat_fs_t: the geometry lib/fs/fat/fs.cpp derives from the BIOS parameter block. */
  datatype Volume = Volume(
    bytesPerSector: nat,
    sectorsPerCluster: nat,
    bytesPerCluster: nat,
    reservedSectors: nat,
    fatBits: nat,
    fatCount: nat,
    sectorsPerFat: nat,
    totalSectors: nat,
    activeFat: nat,
    dataStartSector: nat,
    totalClusters: nat,
    rootCluster: nat,
    rootEntries: nat,
    rootStartSector: nat)
}
