/**
 * Directory lookup of lk's FAT driver, lib/fs/fat/dir.cpp: the name of a
 * directory entry (8.3 or long name), the walk through one directory
 * cluster, the lookup along a directory's cluster chain, the path walk and
 * the directory cookies (Microsoft FAT32 File System Specification 1.03,
 * "FAT Directory Structure" and "FAT Long Directory Entries").
 */
module FatDir {
  import opened Lk
  import opened FatFs

  const DIR_ENTRY_LENGTH: nat := 32
  const SPACE: byte := 0x20
  const DOT: byte := 0x2E
  const SLASH: byte := 0x2F
  /** The first byte of a deleted entry. */
  const DELETED: byte := 0xE5
  /** The longest path element the walk copies: name_element holds 256 bytes with its NUL. */
  const MAX_ELEMENT: nat := 255

  // ---------------------------------------------------------------------
  // Entry names (fat_dir_get_filename)
  // ---------------------------------------------------------------------

  /** The length of s once its trailing spaces are dropped. */
  function Trimmed(s: seq<byte>): (n: nat)
    ensures n <= |s|
    ensures forall i :: n <= i < |s| ==> s[i] == SPACE
    ensures n > 0 ==> s[n - 1] != SPACE
  {
    if |s| == 0 || s[|s| - 1] != SPACE then |s| else Trimmed(s[..|s| - 1])
  }

  /** The trimmed length is the only length with nothing but spaces after it and no space at its end. */
  lemma TrimmedUnique(s: seq<byte>, n: nat)
    requires n <= |s| && (forall i :: n <= i < |s| ==> s[i] == SPACE) && (n > 0 ==> s[n - 1] != SPACE)
    ensures Trimmed(s) == n
  {
    var t := Trimmed(s);
    assert n == 0 || s[n - 1] != SPACE;
    assert t == 0 || s[t - 1] != SPACE;
  }

  /**
   * The 8.3 name of the entry e: the name field (bytes 0-7) without its
   * trailing spaces, then '.' and the extension field (bytes 8-10) without
   * its trailing spaces when that is not empty.
   */
  function ShortName(e: seq<byte>): (r: seq<byte>)
    requires 11 <= |e|
    ensures |r| <= 12
  {
    var fn := Trimmed(e[..8]);
    var ext := Trimmed(e[8..11]);
    e[..fn] + (if ext > 0 then [DOT] + e[8..8 + ext] else [])
  }

  /** A field of n bytes holding s, padded with spaces. */
  function Padded(s: seq<byte>, n: nat): (r: seq<byte>)
    requires |s| <= n
    ensures |r| == n && r[..|s|] == s
  {
    s + seq(n - |s|, _ => SPACE)
  }

  /**
   * The 8.3 name of an entry whose name and extension fields hold base and
   * ext (neither ending in a space) is base, or base.ext when ext is not
   * empty.
   */
  lemma ShortNameOfFields(base: seq<byte>, ext: seq<byte>, rest: seq<byte>)
    requires 0 < |base| <= 8 && |ext| <= 3
    requires base[|base| - 1] != SPACE && (|ext| > 0 ==> ext[|ext| - 1] != SPACE)
    ensures ShortName(Padded(base, 8) + Padded(ext, 3) + rest) == base + (if |ext| > 0 then [DOT] + ext else [])
  {
    var e := Padded(base, 8) + Padded(ext, 3) + rest;
    assert e[..8] == Padded(base, 8);
    assert e[8..11] == Padded(ext, 3);
    TrimmedUnique(e[..8], |base|);
    TrimmedUnique(e[8..11], |ext|);
    assert e[..|base|] == base;
    assert e[8..8 + |ext|] == ext;
  }

  /** Whether the long-name decoding keeps a byte: it drops 0x00 and 0xFF. */
  predicate LfnKept(b: byte) { b != 0x00 && b != 0xFF }

  /** The byte b, if the long-name decoding keeps it. */
  function KeepByte(b: byte): seq<byte>
  {
    if LfnKept(b) then [b] else []
  }

  /** The bytes of s the long-name decoding keeps, in order. */
  function Kept(s: seq<byte>): (r: seq<byte>)
    ensures |r| <= |s|
    ensures forall i :: 0 <= i < |r| ==> LfnKept(r[i])
  {
    if |s| == 0 then [] else Kept(s[..|s| - 1]) + KeepByte(s[|s| - 1])
  }

  /** Kept keeps every byte of a string without 0x00 and 0xFF bytes, and distributes over concatenation. */
  lemma {:induction false} KeptAppend(s: seq<byte>, t: seq<byte>)
    ensures Kept(s + t) == Kept(s) + Kept(t)
    decreases |t|
  {
    if |t| == 0 {
      assert s + t == s;
    } else {
      assert (s + t)[..|s + t| - 1] == s + t[..|t| - 1];
      KeptAppend(s, t[..|t| - 1]);
    }
  }

  /**
   * The name bytes of one long-name entry e as the source gathers them:
   * bytes 1-9, 14-25 and 28-31, without 0x00 and 0xFF bytes.
   */
  function LfnPart(e: seq<byte>): (r: seq<byte>)
    requires 32 <= |e|
    ensures |r| <= 25
  {
    Kept(e[1..10]) + Kept(e[14..26]) + Kept(e[28..32])
  }

  /**
   * The long name of the short entry at offset: the parts of the n entries
   * before it, the nearest first.
   */
  function LongName(dir: seq<byte>, offset: nat, n: nat): (r: seq<byte>)
    requires 32 * n <= offset <= |dir|
    ensures |r| <= 25 * n
  {
    if n == 0 then [] else LongName(dir, offset, n - 1) + LfnPart(dir[offset - 32 * n .. offset - 32 * n + 32])
  }

  /** What fat_dir_get_filename reads: the 8.3 fields at offset, or the n entries before it. */
  predicate NameInBounds(dir: seq<byte>, offset: nat, n: nat)
  {
    if n == 0 then offset + 11 <= |dir| else 32 * n <= offset <= |dir|
  }

  /** The name of the entry at offset preceded by n long-name entries. */
  function Filename(dir: seq<byte>, offset: nat, n: nat): (r: seq<byte>)
    requires NameInBounds(dir, offset, n)
    ensures n == 0 ==> |r| <= 12
    ensures n > 0 ==> |r| <= 25 * n
  {
    if n == 0 then ShortName(dir[offset..offset + 11]) else LongName(dir, offset, n)
  }

  /** The bytes of a long name never include the NUL that would end it as a C string. */
  lemma {:induction false} LongNameHasNoNul(dir: seq<byte>, offset: nat, n: nat)
    requires 32 * n <= offset <= |dir|
    ensures 0 !in LongName(dir, offset, n)
  {
    if n > 0 {
      LongNameHasNoNul(dir, offset, n - 1);
      var e := dir[offset - 32 * n .. offset - 32 * n + 32];
      assert LongName(dir, offset, n) == LongName(dir, offset, n - 1) + LfnPart(e);
      forall i | 0 <= i < |LfnPart(e)| ensures LfnPart(e)[i] != 0 {
        if i < |Kept(e[1..10])| {
          assert LfnPart(e)[i] == Kept(e[1..10])[i];
        } else if i < |Kept(e[1..10]) + Kept(e[14..26])| {
          assert LfnPart(e)[i] == Kept(e[14..26])[i - |Kept(e[1..10])|];
        } else {
          assert LfnPart(e)[i] == Kept(e[28..32])[i - |Kept(e[1..10]) + Kept(e[14..26])|];
        }
      }
    }
  }

  /** The C string a zero-filled buffer holding s reads as: s up to its first NUL. */
  function CString(s: seq<byte>): (r: seq<byte>)
    ensures |r| <= |s| && r == s[..|r|]
    ensures 0 !in r
    ensures |r| < |s| ==> s[|r|] == 0
  {
    if |s| == 0 || s[0] == 0 then [] else [s[0]] + CString(s[1..])
  }

  /** The C string of t is the prefix r when r has no NUL and a NUL or the end of t follows it. */
  lemma CStringUnique(t: seq<byte>, r: seq<byte>)
    requires |r| <= |t| && r == t[..|r|] && 0 !in r && (|r| < |t| ==> t[|r|] == 0)
    ensures CString(t) == r
  {
    var q := CString(t);
    assert forall i :: 0 <= i < |r| ==> t[i] != 0;
    assert forall i :: 0 <= i < |q| ==> t[i] != 0;
  }

  /** Zeros after a string do not change the C string it reads as. */
  lemma CStringOfPadded(s: seq<byte>, k: nat)
    ensures CString(s + seq(k, _ => 0)) == CString(s)
  {
    var t := s + seq(k, _ => 0);
    var r := CString(s);
    assert t[..|s|] == s;
    assert t[..|r|] == r;
    assert |r| < |t| ==> t[|r|] == 0;
    CStringUnique(t, r);
  }

  /**
   * A trimming loop of fat_dir_get_filename: the length of field without
   * its trailing spaces, counted down from the end of the field.
   */
  method TrimField(field: seq<byte>) returns (len: nat)
    ensures len == Trimmed(field)
  {
    len := |field|;
    var i := |field| - 1;
    while i >= 0
      invariant -1 <= i < |field| && len == i + 1
      invariant forall k :: len <= k < |field| ==> field[k] == SPACE
    {
      if field[i] == SPACE {
        len := len - 1;
      } else {
        break;
      }
      i := i - 1;
    }
    TrimmedUnique(field, len);
  }

  /** A copying loop of fat_dir_get_filename: src written into result from j0 on, nothing else changed. */
  method CopyName(src: seq<byte>, result: array<byte>, j0: nat) returns (j: nat)
    requires j0 + |src| <= result.Length
    modifies result
    ensures j == j0 + |src| && result[..j] == old(result[..j0]) + src
    ensures forall k :: j <= k < result.Length ==> result[k] == old(result[k])
  {
    j := j0;
    for i := 0 to |src|
      invariant j == j0 + i && result[..j] == old(result[..j0]) + src[..i]
      invariant forall k :: j <= k < result.Length ==> result[k] == old(result[k])
    {
      assert src[..i + 1] == src[..i] + [src[i]];
      result[j] := src[i];
      j := j + 1;
    }
  }

  /**
   * The zero-filled name bytes left in result for the 8.3 name of the entry
   * at offset.
   */
  method GetShortName(dir: seq<byte>, offset: nat, result: array<byte>)
    requires offset + 11 <= |dir| && result.Length == 13
    requires forall k :: 0 <= k < result.Length ==> result[k] == 0
    modifies result
    ensures var name := ShortName(dir[offset..offset + 11]);
      result[..|name|] == name && forall k :: |name| <= k < result.Length ==> result[k] == 0
  {
    var e := dir[offset..offset + 11];
    var fnLen := TrimField(e[..8]);
    var extLen := TrimField(e[8..11]);
    var j := CopyName(e[..fnLen], result, 0);
    assert result[..j] == e[..fnLen];
    if extLen > 0 {
      result[j] := DOT;
      assert result[..j + 1] == e[..fnLen] + [DOT];
      j := CopyName(e[8..8 + extLen], result, j + 1);
      AppendAssoc(e[..fnLen], [DOT], e[8..8 + extLen]);
    } else {
      assert e[..fnLen] + [] == e[..fnLen];
    }
    assert result[..j] == ShortName(e);
  }

  /** The values the index of the inner loop of the long-name decoding takes at its head. */
  predicate LfnIndex(i: nat) { 1 <= i <= 9 || 14 <= i <= 25 || 28 <= i <= 32 }

  /** The index that loop moves to after byte i: it jumps over bytes 10-13 and 26-27. */
  function LfnNext(i: nat): nat
  {
    if i == 9 then 14 else if i == 25 then 28 else i + 1
  }

  /** The index that loop visits before i. */
  function LfnPrev(i: nat): (p: nat)
    requires LfnIndex(i) && i > 1
    ensures LfnIndex(p) && p < i && LfnNext(p) == i
  {
    if i == 14 then 9 else if i == 28 then 25 else i - 1
  }

  /** The bytes that loop has gathered from entry e when it reaches index i. */
  function Gathered(e: seq<byte>, i: nat): (r: seq<byte>)
    requires 32 <= |e| && LfnIndex(i)
    ensures |r| <= (if i <= 9 then i - 1 else if i <= 25 then i - 5 else i - 7)
  {
    if i == 1 then [] else Gathered(e, LfnPrev(i)) + KeepByte(e[LfnPrev(i)])
  }

  /** Kept over a slice grown by one byte. */
  lemma KeptSnoc(e: seq<byte>, lo: nat, i: nat)
    requires lo <= i < |e|
    ensures Kept(e[lo..i + 1]) == Kept(e[lo..i]) + KeepByte(e[i])
  {
    assert e[lo..i + 1][..i - lo] == e[lo..i];
  }

  /** Concatenation is associative. */
  lemma AppendAssoc(a: seq<byte>, b: seq<byte>, c: seq<byte>)
    ensures (a + b) + c == a + (b + c)
  {
  }

  /** One step of the gathering: a prefix grown by b, when the part after the fixed head a grows by b. */
  lemma GrowBoth(g: seq<byte>, gp: seq<byte>, a: seq<byte>, k: seq<byte>, kp: seq<byte>, b: seq<byte>)
    requires g == gp + b && gp == a + kp && k == kp + b
    ensures g == a + k
  {
    AppendAssoc(a, kp, b);
  }

  /** Gathered one index further on, within a run of consecutive bytes. */
  lemma GatheredStep(e: seq<byte>, i: nat)
    requires 32 <= |e| && LfnIndex(i) && i != 1 && i != 14 && i != 28
    ensures Gathered(e, i) == Gathered(e, i - 1) + KeepByte(e[i - 1])
  {
  }

  /** What that loop has gathered within bytes 1-9. */
  lemma {:induction false} GatheredName1(e: seq<byte>, i: nat)
    requires 32 <= |e| && 1 <= i <= 9
    ensures Gathered(e, i) == Kept(e[1..i])
    decreases i
  {
    if i > 1 {
      GatheredName1(e, i - 1);
      KeptSnoc(e, 1, i - 1);
    }
  }

  /** Reaching byte 14, that loop has gathered the kept bytes of bytes 1-9. */
  lemma GatheredAt14(e: seq<byte>)
    requires 32 <= |e|
    ensures Gathered(e, 14) == Kept(e[1..10])
  {
    GatheredName1(e, 9);
    KeptSnoc(e, 1, 9);
  }

  /** Reaching byte 28, that loop has gathered the kept bytes of bytes 1-9 and 14-25. */
  lemma GatheredAt28(e: seq<byte>)
    requires 32 <= |e|
    ensures Gathered(e, 28) == Kept(e[1..10]) + Kept(e[14..26])
  {
    GatheredName2(e, 25);
    KeptSnoc(e, 14, 25);
    AppendAssoc(Kept(e[1..10]), Kept(e[14..25]), KeepByte(e[25]));
  }

  /** What that loop has gathered within bytes 14-25. */
  lemma {:induction false} GatheredName2(e: seq<byte>, i: nat)
    requires 32 <= |e| && 14 <= i <= 25
    ensures Gathered(e, i) == Kept(e[1..10]) + Kept(e[14..i])
    decreases i
  {
    var k1 := Kept(e[1..10]);
    if i == 14 {
      GatheredAt14(e);
      assert e[14..14] == [];
      assert k1 + [] == k1;
    } else {
      GatheredName2(e, i - 1);
      GatheredStep(e, i);
      KeptSnoc(e, 14, i - 1);
      GrowBoth(Gathered(e, i), Gathered(e, i - 1), k1, Kept(e[14..i]), Kept(e[14..i - 1]), KeepByte(e[i - 1]));
    }
  }

  /** What that loop has gathered within bytes 28-31. */
  lemma {:induction false} GatheredName3(e: seq<byte>, i: nat)
    requires 32 <= |e| && 28 <= i <= 32
    ensures Gathered(e, i) == Kept(e[1..10]) + Kept(e[14..26]) + Kept(e[28..i])
    decreases i
  {
    var k1 := Kept(e[1..10]);
    var k12 := k1 + Kept(e[14..26]);
    if i == 28 {
      GatheredAt28(e);
      assert e[28..28] == [];
      assert k12 + [] == k12;
    } else {
      GatheredName3(e, i - 1);
      GatheredStep(e, i);
      KeptSnoc(e, 28, i - 1);
      GrowBoth(Gathered(e, i), Gathered(e, i - 1), k12, Kept(e[28..i]), Kept(e[28..i - 1]), KeepByte(e[i - 1]));
    }
  }

  /** The loop gathers exactly the kept bytes of bytes 1-9, 14-25 and 28-31. */
  lemma GatheredIsLfnPart(e: seq<byte>)
    requires 32 <= |e|
    ensures Gathered(e, 32) == LfnPart(e)
  {
    GatheredName3(e, 32);
  }

  /**
   * The inner loop of the long-name decoding: the kept name bytes of the
   * entry e appended at j to the zero-filled tail of result.
   */
  method GatherLfnPart(e: seq<byte>, result: array<byte>, j0: nat) returns (j: nat)
    requires |e| == 32 && j0 + 25 < result.Length
    requires forall k :: j0 <= k < result.Length ==> result[k] == 0
    modifies result
    ensures j == j0 + |LfnPart(e)|
    ensures result[..j] == old(result[..j0]) + LfnPart(e)
    ensures forall k :: j <= k < result.Length ==> result[k] == 0
  {
    ghost var before := result[..j0];
    j := j0;
    var i := 1;
    while i < 32
      invariant LfnIndex(i) && j == j0 + |Gathered(e, i)| && result[..j] == before + Gathered(e, i)
      invariant forall k :: j <= k < result.Length ==> result[k] == 0
      decreases 32 - i
    {
      ghost var next := LfnNext(i);
      assert LfnPrev(next) == i;
      if e[i] != 0x00 && e[i] != 0xFF {
        result[j] := e[i];
        j := j + 1;
      }
      if i == 9 {
        i := 13;
      } else if i == 25 {
        i := 27;
      }
      i := i + 1;
      assert i == next;
    }
    GatheredIsLfnPart(e);
  }

  /** One pass of the outer loop of the long-name decoding: the part of the sequence-th entry before offset. */
  method AppendLfnPart(d: seq<byte>, offset: nat, sequence: nat, result: array<byte>, j0: nat) returns (j: nat)
    requires 0 < sequence && 32 * sequence <= offset <= |d| && 25 * sequence < result.Length
    requires j0 == |LongName(d, offset, sequence - 1)| && result[..j0] == LongName(d, offset, sequence - 1)
    requires forall k :: j0 <= k < result.Length ==> result[k] == 0
    modifies result
    ensures j == |LongName(d, offset, sequence)| && result[..j] == LongName(d, offset, sequence)
    ensures forall k :: j <= k < result.Length ==> result[k] == 0
  {
    var base := offset - sequence * 32;
    j := GatherLfnPart(d[base..base + 32], result, j0);
  }

  /**
   * The zero-filled name bytes left in result for the long name of the n
   * entries before offset.
   */
  method GetLongName(d: seq<byte>, offset: nat, n: nat, result: array<byte>)
    requires 0 < n && 32 * n <= offset <= |d| && result.Length == 1 + 26 * n
    requires forall k :: 0 <= k < result.Length ==> result[k] == 0
    modifies result
    ensures var name := LongName(d, offset, n);
      result[..|name|] == name && forall k :: |name| <= k < result.Length ==> result[k] == 0
  {
    var j := 0;
    var sequence := 1;
    while sequence <= n
      invariant 1 <= sequence <= n + 1
      invariant j == |LongName(d, offset, sequence - 1)| && result[..j] == LongName(d, offset, sequence - 1)
      invariant forall k :: j <= k < result.Length ==> result[k] == 0
    {
      j := AppendLfnPart(d, offset, sequence, result, j);
      sequence := sequence + 1;
    }
    assert sequence - 1 == n;
  }

  /**
   * fat_dir_get_filename: a zero-filled buffer of 13 bytes, or 26 per
   * long-name entry and one more, holding the name of the entry at offset.
   */
  method GetFilename(dir: seq<byte>, offset: nat, lfnSequences: nat) returns (result: array<byte>)
    requires NameInBounds(dir, offset, lfnSequences)
    ensures fresh(result)
    ensures result.Length == 1 + (if lfnSequences == 0 then 12 else 26 * lfnSequences)
    ensures var name := Filename(dir, offset, lfnSequences);
      result[..|name|] == name && forall k :: |name| <= k < result.Length ==> result[k] == 0
  {
    var len := 1 + (if lfnSequences == 0 then 12 else 26 * lfnSequences);
    result := new byte[len](_ => 0);
    if lfnSequences == 0 {
      GetShortName(dir, offset, result);
    } else {
      GetLongName(dir, offset, lfnSequences, result);
    }
  }

  // ---------------------------------------------------------------------
  // The scan of one directory cluster (fat_find_file_in_dir)
  // ---------------------------------------------------------------------

  /** dir_entry: what a lookup reports about the entry it found. */
  datatype DirEntry = DirEntry(attributes: byte, length: nat, startCluster: nat)

  /** ASCII lower case, as strnicmp compares letters. */
  function ToLower(c: byte): (r: byte)
    ensures 0x41 <= c <= 0x5A ==> r == c + 0x20
    ensures !(0x41 <= c <= 0x5A) ==> r == c
  {
    if 0x41 <= c <= 0x5A then c + 0x20 else c
  }

  /** The match test: the wanted name and the C string of the entry's name have the same length and differ only in letter case. */
  predicate NameMatches(name: seq<byte>, filename: seq<byte>)
  {
    var f := CString(filename);
    |f| == |name| && forall i :: 0 <= i < |name| ==> ToLower(name[i]) == ToLower(f[i])
  }

  /** A directory buffer of whole 32-byte entries. */
  predicate Entries(b: seq<byte>) { |b| % DIR_ENTRY_LENGTH == 0 }

  /**
   * The entry at offset as lib/fs/fat/dir.cpp builds it: the start cluster
   * from the 16-bit field at 0x1A only.
   */
  function EntryAsWritten(b: seq<byte>, offset: nat): (r: DirEntry)
    requires offset + 32 <= |b|
    ensures r.startCluster < U16
  {
    DirEntry(b[offset + 0x0B], Read32(b, offset + 0x1C), Read16(b, offset + 0x1A))
  }

  /**
   * The entry at offset with its whole start cluster: the high 16 bits at
   * 0x14 and the low 16 bits at 0x1A (zero high bits on FAT12 and FAT16).
   */
  function EntryAt(b: seq<byte>, offset: nat): (r: DirEntry)
    requires offset + 32 <= |b|
    ensures r.startCluster < U32
  {
    DirEntry(b[offset + 0x0B], Read32(b, offset + 0x1C), Read16(b, offset + 0x14) * U16 + Read16(b, offset + 0x1A))
  }

  /** Both builds agree exactly when the high half of the start cluster is zero. */
  lemma EntryHighHalf(b: seq<byte>, offset: nat)
    requires offset + 32 <= |b|
    ensures EntryAt(b, offset) == EntryAsWritten(b, offset) <==> Read16(b, offset + 0x14) == 0
    ensures EntryAt(b, offset).startCluster % U16 == EntryAsWritten(b, offset).startCluster
  {
  }

  /** A FAT32 entry starting at cluster 0x10002 is reported by the source as starting at cluster 2. */
  lemma EntryTruncatesCluster()
    ensures var b := seq(0x14, _ => 0) + [1, 0, 0, 0, 0, 0, 2, 0] + seq(4, _ => 0);
      EntryAt(b, 0).startCluster == 0x1_0002 && EntryAsWritten(b, 0).startCluster == 2
  {
    var b := seq(0x14, _ => 0) + [1, 0, 0, 0, 0, 0, 2, 0] + seq(4, _ => 0);
    assert b[0x14] == 1 && b[0x15] == 0 && b[0x1A] == 2 && b[0x1B] == 0;
  }

  /** The outcome of the scan of one cluster. */
  datatype Scan = Found(entry: DirEntry) | End

  /** Whether the name of entry k, preceded by lfn long-name entries, matches the wanted name. */
  predicate MatchesAt(b: seq<byte>, name: seq<byte>, k: nat, lfn: nat)
    requires 32 * k + 32 <= |b| && lfn <= k
  {
    NameMatches(name, Filename(b, 32 * k, lfn))
  }

  /** The lfn count after entry k when that entry is skipped. */
  function CountAfter(b: seq<byte>, k: nat, lfn: nat): nat
    requires 32 * k + 32 <= |b|
  {
    if b[32 * k + 0x0B] == ATTR_LFN then lfn + 1 else lfn
  }

  /** Whether the scan skips entry k: it is deleted, or it has the volume-label bit. */
  predicate Skipped(b: seq<byte>, k: nat)
    requires 32 * k + 32 <= |b|
  {
    b[32 * k] == DELETED || Bit(b[32 * k + 0x0B], 3)
  }

  /**
   * The name test of the scan for a wanted name: whether entry j, preceded by
   * n long-name entries, matches it (false for entries outside b).
   */
  function Matcher(b: seq<byte>, name: seq<byte>): (nat, nat) -> bool
  {
    (j: nat, n: nat) => 32 * j + 32 <= |b| && n <= j && MatchesAt(b, name, j, n)
  }

  /**
   * The scan from entry k with lfn long-name entries counted since the last
   * short entry, matches(j, n) testing the name of entry j with n long-name
   * entries before it: it ends at a 0x00 first byte or the end of the
   * cluster, skips deleted entries, skips entries with the volume-label bit
   * and counts those whose attribute byte is exactly the long-name value, and
   * tests the name of every other entry, resetting the count.
   */
  function ScanFrom(b: seq<byte>, matches: (nat, nat) -> bool, k: nat, lfn: nat): Scan
    requires Entries(b) && 32 * k <= |b| && lfn <= k
    decreases |b| - 32 * k
  {
    if 32 * k == |b| || b[32 * k] == 0 then End
    else if b[32 * k] == DELETED then ScanFrom(b, matches, k + 1, lfn)
    else if Bit(b[32 * k + 0x0B], 3) then ScanFrom(b, matches, k + 1, CountAfter(b, k, lfn))
    else if matches(k, lfn) then Found(EntryAsWritten(b, 32 * k))
    else ScanFrom(b, matches, k + 1, 0)
  }

  /** The scan of a whole cluster for a wanted name. */
  function ClusterScan(b: seq<byte>, name: seq<byte>): Scan
    requires Entries(b)
  {
    ScanFrom(b, Matcher(b, name), 0, 0)
  }

  /**
   * What the scan finds is an entry of the cluster before the first 0x00
   * entry, neither deleted nor carrying the volume-label bit, whose name
   * test passes.
   */
  lemma {:induction false} ScanFindsEntry(b: seq<byte>, matches: (nat, nat) -> bool, k: nat, lfn: nat)
    requires Entries(b) && 32 * k <= |b| && lfn <= k
    requires ScanFrom(b, matches, k, lfn).Found?
    ensures exists j: nat, n: nat ::
              && k <= j && 32 * j + 32 <= |b| && n <= j
              && (forall i :: k <= i <= j ==> b[32 * i] != 0)
              && !Skipped(b, j) && matches(j, n) && ScanFrom(b, matches, k, lfn).entry == EntryAsWritten(b, 32 * j)
    decreases |b| - 32 * k
  {
    if Skipped(b, k) || !matches(k, lfn) {
      var next := if b[32 * k] == DELETED then lfn else if Skipped(b, k) then CountAfter(b, k, lfn) else 0;
      ScanFindsEntry(b, matches, k + 1, next);
    } else {
      assert k <= k && 32 * k + 32 <= |b| && lfn <= k;
    }
  }

  /** The outcome of the scan as written, which reads the first byte of an entry before it checks that the entry is inside the cluster. */
  datatype ScanWritten = FoundWritten(entry: DirEntry) | EndWritten | Overrun

  /**
   * The scan as lib/fs/fat/dir.cpp writes its loop guard, `buffer[offset]
   * != 0x00 && offset < bytes_per_cluster`: a scan that reaches the end of
   * the cluster reads the byte just past it.
   */
  function ScanAsWritten(b: seq<byte>, matches: (nat, nat) -> bool, k: nat, lfn: nat): ScanWritten
    requires Entries(b) && 32 * k <= |b| && lfn <= k
    decreases |b| - 32 * k
  {
    if 32 * k == |b| then Overrun
    else if b[32 * k] == 0 then EndWritten
    else if b[32 * k] == DELETED then ScanAsWritten(b, matches, k + 1, lfn)
    else if Bit(b[32 * k + 0x0B], 3) then ScanAsWritten(b, matches, k + 1, CountAfter(b, k, lfn))
    else if matches(k, lfn) then FoundWritten(EntryAsWritten(b, 32 * k))
    else ScanAsWritten(b, matches, k + 1, 0)
  }

  /** The scan as written reads past the cluster exactly when the scan with the checks swapped ends without a 0x00 entry and without a match. */
  lemma {:induction false} ScanOverrunsAtEnd(b: seq<byte>, matches: (nat, nat) -> bool, k: nat, lfn: nat)
    requires Entries(b) && 32 * k <= |b| && lfn <= k
    ensures ScanAsWritten(b, matches, k, lfn).Overrun? <==>
      ScanFrom(b, matches, k, lfn).End? && forall i: nat :: k <= i && 32 * i < |b| ==> b[32 * i] != 0
    ensures ScanAsWritten(b, matches, k, lfn).FoundWritten? <==> ScanFrom(b, matches, k, lfn).Found?
    ensures ScanFrom(b, matches, k, lfn).Found? ==> ScanAsWritten(b, matches, k, lfn).entry == ScanFrom(b, matches, k, lfn).entry
    decreases |b| - 32 * k
  {
    if 32 * k < |b| && b[32 * k] != 0 {
      if b[32 * k] == DELETED {
        ScanOverrunsAtEnd(b, matches, k + 1, lfn);
      } else if Bit(b[32 * k + 0x0B], 3) {
        ScanOverrunsAtEnd(b, matches, k + 1, CountAfter(b, k, lfn));
      } else if !matches(k, lfn) {
        ScanOverrunsAtEnd(b, matches, k + 1, 0);
      }
    }
  }

  /** A cluster of deleted entries makes the scan as written read the byte after the cluster. */
  lemma DeletedClusterOverruns(name: seq<byte>)
    ensures var b := seq(512, i => if i % 32 == 0 then DELETED else 0);
      ScanAsWritten(b, Matcher(b, name), 0, 0) == Overrun && ClusterScan(b, name) == End
  {
    var b := seq(512, i => if i % 32 == 0 then DELETED else 0);
    forall i: nat | 32 * i < |b|
      ensures b[32 * i] == DELETED
    {
      assert (32 * i) % 32 == 0;
    }
    AllDeleted(b, Matcher(b, name), 0);
  }

  /** From any entry on, a cluster of deleted entries reads past its end as written and ends without a match with the checks swapped. */
  lemma {:induction false} AllDeleted(b: seq<byte>, matches: (nat, nat) -> bool, k: nat)
    requires Entries(b) && 32 * k <= |b|
    requires forall i: nat :: 32 * i < |b| ==> b[32 * i] == DELETED
    ensures ScanAsWritten(b, matches, k, 0) == Overrun && ScanFrom(b, matches, k, 0) == End
    decreases |b| - 32 * k
  {
    if 32 * k < |b| {
      AllDeleted(b, matches, k + 1);
    }
  }

  /**
   * The name test of the scan loop: fat_dir_get_filename fills a buffer with
   * the name of the entry at offset, and the test compares its C string with
   * the wanted name.
   */
  method EntryNameMatches(b: seq<byte>, name: seq<byte>, offset: nat, ghost k: nat, lfn: nat) returns (matched: bool)
    requires offset == 32 * k && offset + 32 <= |b| && lfn <= k
    ensures matched == MatchesAt(b, name, k, lfn)
  {
    var filename := GetFilename(b, offset, lfn);
    ghost var f := Filename(b, offset, lfn);
    assert filename[..] == f + seq(filename.Length - |f|, _ => 0);
    CStringOfPadded(f, filename.Length - |f|);
    matched := NameMatches(name, filename[..]);
  }

  /**
   * The loop of fat_dir_find_file_in_dir over one cluster, with the bounds
   * check first, matches being the name test EntryNameMatches performs.
   */
  method ScanCluster(b: seq<byte>, matches: (nat, nat) -> bool) returns (r: Scan)
    requires Entries(b)
    ensures r == ScanFrom(b, matches, 0, 0)
  {
    var offset := 0;
    ghost var k := 0;
    var lfnSequences := 0;
    while offset < |b| && b[offset] != 0
      invariant offset == 32 * k <= |b| && lfnSequences <= k
      invariant ScanFrom(b, matches, k, lfnSequences) == ScanFrom(b, matches, 0, 0)
      decreases |b| - offset
    {
      if b[offset] == DELETED {
        offset, k := offset + DIR_ENTRY_LENGTH, k + 1;
        continue;
      } else if Bit(b[offset + 0x0B], 3) {
        if b[offset + 0x0B] == ATTR_LFN {
          lfnSequences := lfnSequences + 1;
        }
        offset, k := offset + DIR_ENTRY_LENGTH, k + 1;
        continue;
      }
      assert offset / DIR_ENTRY_LENGTH == k;
      var matched := matches(offset / DIR_ENTRY_LENGTH, lfnSequences);
      lfnSequences := 0;
      if matched {
        return Found(EntryAsWritten(b, offset));
      }
      offset, k := offset + DIR_ENTRY_LENGTH, k + 1;
    }
    return End;
  }

  // ---------------------------------------------------------------------
  // The lookup along a directory's cluster chain (fat_find_file_in_dir)
  // ---------------------------------------------------------------------

  /** dir_info: a FAT12/16 root directory at fixed sectors, or a directory in a cluster chain. */
  datatype DirInfo = LinearRoot | Clustered(startCluster: nat)

  /** What fat_read_cluster returns: a negative status, or the bytes it read into the buffer. */
  datatype ClusterRead = ReadError(code: int) | ReadBytes(data: seq<byte>)

  /**
   * The collaborators of a lookup: fat_read_cluster, and the FAT's
   * next-cluster lookup (lib/fs/fat/file.cpp).
   */
  datatype Disk = Disk(read: nat -> ClusterRead, next: nat -> nat)

  /**
   * The outcome of an operation that may also halt the kernel with a panic,
   * or, in this model, use up the bound on the number of clusters it reads.
   */
  datatype Outcome<T> = Done(value: T) | Err(status: Status) | Panic | OutOfFuel

  /** A cluster holds whole directory entries. */
  predicate Aligned(v: Volume) { v.bytesPerCluster % DIR_ENTRY_LENGTH == 0 }

  /**
   * The lookup of name in the directory whose chain continues at cluster,
   * reading at most fuel clusters: a read error is passed back, a short
   * read is ERR_GENERIC, a match is returned, and otherwise the chain is
   * followed until an end-of-chain value (ERR_NOT_FOUND); cluster 0 (the
   * sector-based root) panics as unimplemented.
   */
  function FindInChain(disk: Disk, bpc: nat, name: seq<byte>, cluster: nat, fuel: nat): Outcome<DirEntry>
    requires bpc % DIR_ENTRY_LENGTH == 0
    decreases fuel
  {
    if fuel == 0 then OutOfFuel
    else match disk.read(cluster)
      case ReadError(code) => Err(Failed(code))
      case ReadBytes(data) =>
        if |data| != bpc then Err(ErrGeneric)
        else match ClusterScan(data, name)
          case Found(e) => Done(e)
          case End =>
            if cluster == 0 then Panic
            else if IsEofCluster(disk.next(cluster)) then Err(ErrNotFound)
            else FindInChain(disk, bpc, name, disk.next(cluster), fuel - 1)
  }

  /** fat_find_file_in_dir: a root directory at nonzero fixed sectors panics before anything is read. */
  function FindInDir(disk: Disk, vol: Volume, dir: DirInfo, name: seq<byte>, fuel: nat): Outcome<DirEntry>
    requires Aligned(vol)
  {
    if dir.LinearRoot? && vol.rootStartSector != 0 then Panic
    else FindInChain(disk, vol.bytesPerCluster, name, if dir.LinearRoot? then 0 else dir.startCluster, fuel)
  }

  /** A lookup that finds an entry found it in a cluster of the chain that was read whole. */
  lemma {:induction false} FoundInChain(disk: Disk, bpc: nat, name: seq<byte>, cluster: nat, fuel: nat)
    requires bpc % DIR_ENTRY_LENGTH == 0 && FindInChain(disk, bpc, name, cluster, fuel).Done?
    ensures exists c: nat, steps: nat ::
              && steps < fuel && c == Follow(disk.next, cluster, steps)
              && disk.read(c).ReadBytes? && |disk.read(c).data| == bpc
              && ClusterScan(disk.read(c).data, name) == Found(FindInChain(disk, bpc, name, cluster, fuel).value)
    decreases fuel
  {
    if ClusterScan(disk.read(cluster).data, name).End? {
      var n := disk.next(cluster);
      FoundInChain(disk, bpc, name, n, fuel - 1);
      var c: nat, steps: nat :| steps < fuel - 1 && c == Follow(disk.next, n, steps)
        && disk.read(c).ReadBytes? && |disk.read(c).data| == bpc
        && ClusterScan(disk.read(c).data, name) == Found(FindInChain(disk, bpc, name, n, fuel - 1).value);
      FollowFirst(disk.next, cluster, steps);
    } else {
      assert cluster == Follow(disk.next, cluster, 0);
    }
  }

  /** The cluster steps links along a chain from cluster. */
  function Follow(next: nat -> nat, cluster: nat, steps: nat): nat
  {
    if steps == 0 then cluster else next(Follow(next, cluster, steps - 1))
  }

  /** Following steps + 1 links is following one link, then steps links. */
  lemma {:induction false} FollowFirst(next: nat -> nat, cluster: nat, steps: nat)
    ensures Follow(next, next(cluster), steps) == Follow(next, cluster, steps + 1)
  {
    if steps > 0 {
      FollowFirst(next, cluster, steps - 1);
    }
  }

  /** fat_find_file_in_dir, reading at most fuel clusters of the directory. */
  method FindFileInDir(disk: Disk, vol: Volume, dir: DirInfo, name: seq<byte>, fuel: nat) returns (r: Outcome<DirEntry>)
    requires Aligned(vol)
    ensures r == FindInDir(disk, vol, dir, name, fuel)
  {
    var dirSector, dirCluster := 0, 0;
    if dir.LinearRoot? {
      dirSector := vol.rootStartSector;
    } else {
      dirCluster := dir.startCluster;
    }
    var left := fuel;
    while true
      invariant dirSector != 0 ==> FindInDir(disk, vol, dir, name, fuel) == Panic
      invariant dirSector == 0 ==> FindInDir(disk, vol, dir, name, fuel) == FindInChain(disk, vol.bytesPerCluster, name, dirCluster, left)
      decreases left
    {
      if dirSector != 0 {
        return Panic;
      }
      if left == 0 {
        return OutOfFuel;
      }
      var ret := disk.read(dirCluster);
      if ret.ReadError? {
        return Err(Failed(ret.code));
      } else if |ret.data| != vol.bytesPerCluster {
        return Err(ErrGeneric);
      }
      var scan := ScanCluster(ret.data, Matcher(ret.data, name));
      if scan.Found? {
        return Done(scan.entry);
      }
      if dirCluster != 0 {
        dirCluster := disk.next(dirCluster);
        if IsEofCluster(dirCluster) {
          break;
        }
      } else {
        return Panic;
      }
      left := left - 1;
    }
    return Err(ErrNotFound);
  }

  // ---------------------------------------------------------------------
  // The path walk (fat_walk)
  // ---------------------------------------------------------------------

  /** The first index from k on that is not a '/'. */
  function SkipSlashes(path: seq<byte>, k: nat): (r: nat)
    requires k <= |path|
    ensures k <= r <= |path| && (r < |path| ==> path[r] != SLASH)
    ensures forall i :: k <= i < r ==> path[i] == SLASH
    decreases |path| - k
  {
    if k == |path| || path[k] != SLASH then k else SkipSlashes(path, k + 1)
  }

  /** The first index from k on that is a '/', or the end of the path. */
  function ElementEnd(path: seq<byte>, k: nat): (r: nat)
    requires k <= |path|
    ensures k <= r <= |path| && (r < |path| ==> path[r] == SLASH)
    ensures forall i :: k <= i < r ==> path[i] != SLASH
    decreases |path| - k
  {
    if k == |path| || path[k] == SLASH then k else ElementEnd(path, k + 1)
  }

  /** The walk's position in the path: the current element starts at pos and has size bytes. */
  datatype Cursor = Cursor(pos: nat, size: nat)

  /**
   * path_increment: the element after the current one, past the run of '/'
   * that follows it; an empty element exactly at the end of the path.
   */
  function NextElement(path: seq<byte>, c: Cursor): (r: Cursor)
    requires c.pos + c.size <= |path|
    ensures c.pos + c.size <= r.pos && r.pos + r.size <= |path|
    ensures forall i :: c.pos + c.size <= i < r.pos ==> path[i] == SLASH
    ensures forall i :: r.pos <= i < r.pos + r.size ==> path[i] != SLASH
    ensures r.pos + r.size < |path| ==> path[r.pos + r.size] == SLASH
    ensures r.size == 0 <==> r.pos == |path|
  {
    var p := c.pos + c.size;
    if p == |path| then Cursor(p, 0)
    else
      var s := SkipSlashes(path, p);
      Cursor(s, ElementEnd(path, s) - s)
  }

  /** path_increment, as the loops of its lambda move the cursor. */
  method PathIncrement(path: seq<byte>, c: Cursor) returns (r: Cursor)
    requires c.pos + c.size <= |path|
    ensures r == NextElement(path, c)
  {
    var p := c.pos + c.size;
    var size := 0;
    if p == |path| {
      return Cursor(p, 0);
    }
    while p < |path| && path[p] == SLASH
      invariant c.pos + c.size <= p <= |path|
      invariant SkipSlashes(path, p) == SkipSlashes(path, c.pos + c.size)
      decreases |path| - p
    {
      p := p + 1;
    }
    var q := p;
    while q < |path| && path[q] != SLASH
      invariant p <= q <= |path| && size == q - p
      invariant ElementEnd(path, q) == ElementEnd(path, p)
      decreases |path| - q
    {
      q := q + 1;
      size := size + 1;
    }
    return Cursor(p, size);
  }

  /** name_element: the current element, cut to 255 bytes as strlcpy into a 256-byte buffer does. */
  function Element(path: seq<byte>, c: Cursor): (r: seq<byte>)
    requires c.pos + c.size <= |path|
    ensures |r| <= MAX_ELEMENT && |r| <= c.size && r == path[c.pos..c.pos + |r|]
    ensures c.size <= MAX_ELEMENT ==> |r| == c.size
  {
    path[c.pos..c.pos + if c.size < MAX_ELEMENT then c.size else MAX_ELEMENT]
  }

  /** A cursor the walk can stand on: at an element, or at the end with an empty one. */
  predicate AtElement(path: seq<byte>, c: Cursor)
  {
    c.pos + c.size <= |path| && (c.size == 0 <==> c.pos == |path|)
  }

  /**
   * The walk from the element at c in directory dir: a failed lookup is
   * ERR_NOT_FOUND, a hit on the last element is the result, and a hit on an
   * inner element continues in it only when its attribute byte is exactly
   * the directory value.
   */
  function WalkFrom(disk: Disk, vol: Volume, dir: DirInfo, path: seq<byte>, c: Cursor, fuel: nat): Outcome<DirEntry>
    requires Aligned(vol) && AtElement(path, c)
    decreases |path| - c.pos
  {
    match FindInDir(disk, vol, dir, Element(path, c), fuel)
    case Done(e) =>
      var n := NextElement(path, c);
      if n.size == 0 then Done(e)
      else if e.attributes == ATTR_DIRECTORY then WalkFrom(disk, vol, Clustered(e.startCluster), path, n, fuel)
      else Err(ErrNotFound)
    case Err(_) => Err(ErrNotFound)
    case Panic => Panic
    case OutOfFuel => OutOfFuel
  }

  /** The directory a walk starts in: the root cluster, or the FAT12/16 root at fixed sectors. */
  function RootDir(vol: Volume): DirInfo
  {
    if vol.rootCluster != 0 then Clustered(vol.rootCluster) else LinearRoot
  }

  /** fat_walk, each lookup reading at most fuel clusters. */
  function WalkPath(disk: Disk, vol: Volume, path: seq<byte>, fuel: nat): Outcome<DirEntry>
    requires Aligned(vol)
  {
    WalkFrom(disk, vol, RootDir(vol), path, NextElement(path, Cursor(0, 0)), fuel)
  }

  /** fat_walk. */
  method Walk(disk: Disk, vol: Volume, path: seq<byte>, fuel: nat) returns (r: Outcome<DirEntry>)
    requires Aligned(vol)
    ensures r == WalkPath(disk, vol, path, fuel)
  {
    var c := PathIncrement(path, Cursor(0, 0));
    var dir := if vol.rootCluster != 0 then Clustered(vol.rootCluster) else LinearRoot;
    while true
      invariant AtElement(path, c)
      invariant WalkFrom(disk, vol, dir, path, c, fuel) == WalkPath(disk, vol, path, fuel)
      decreases |path| - c.pos
    {
      var nameElement := path[c.pos..c.pos + if c.size < MAX_ELEMENT then c.size else MAX_ELEMENT];
      var status := FindFileInDir(disk, vol, dir, nameElement, fuel);
      if status.Panic? || status.OutOfFuel? {
        return status;
      } else if status.Err? {
        return Err(ErrNotFound);
      }
      var entry := status.value;
      c := PathIncrement(path, c);
      if c.size > 0 {
        if entry.attributes == ATTR_DIRECTORY {
          dir := Clustered(entry.startCluster);
        } else {
          return Err(ErrNotFound);
        }
      } else {
        return Done(entry);
      }
    }
  }

  /** A path of one element after a slash is that element's lookup in the root directory, any failure being ERR_NOT_FOUND. */
  lemma WalkOneElement(disk: Disk, vol: Volume, name: seq<byte>, fuel: nat)
    requires Aligned(vol) && 0 < |name| <= MAX_ELEMENT && SLASH !in name
    ensures var r := FindInDir(disk, vol, RootDir(vol), name, fuel);
      WalkPath(disk, vol, [SLASH] + name, fuel) == if r.Err? then Err(ErrNotFound) else r
  {
    var path := [SLASH] + name;
    assert path[1..] == name;
    assert SkipSlashes(path, 1) == 1;
    ElementEndAll(path, 1);
    var c := NextElement(path, Cursor(0, 0));
    assert c == Cursor(1, |name|);
    assert Element(path, c) == name;
    assert NextElement(path, c) == Cursor(|path|, 0);
  }

  lemma ElementEndAll(path: seq<byte>, k: nat)
    requires k <= |path| && forall i :: k <= i < |path| ==> path[i] != SLASH
    ensures ElementEnd(path, k) == |path|
  {
  }

  /** An inner element that names anything but a directory (attribute byte exactly 0x10) ends the walk with ERR_NOT_FOUND. */
  lemma WalkStopsAtFile(disk: Disk, vol: Volume, dir: DirInfo, path: seq<byte>, c: Cursor, fuel: nat)
    requires Aligned(vol) && AtElement(path, c)
    requires FindInDir(disk, vol, dir, Element(path, c), fuel).Done?
    requires FindInDir(disk, vol, dir, Element(path, c), fuel).value.attributes != ATTR_DIRECTORY
    requires NextElement(path, c).size > 0
    ensures WalkFrom(disk, vol, dir, path, c, fuel) == Err(ErrNotFound)
  {
  }

  /**
   * A cluster whose first entry is a plain 8.3 entry with name fields base
   * and ext is found by a lookup of base.ext (or base when ext is empty) in
   * any letter case.
   */
  lemma FindsShortEntry(b: seq<byte>, base: seq<byte>, ext: seq<byte>, name: seq<byte>)
    requires Entries(b) && 32 <= |b|
    requires 0 < |base| <= 8 && |ext| <= 3 && 0 !in base && 0 !in ext
    requires base[|base| - 1] != SPACE && (|ext| > 0 ==> ext[|ext| - 1] != SPACE) && base[0] != DELETED
    requires b[..11] == Padded(base, 8) + Padded(ext, 3) && !Bit(b[0x0B], 3)
    requires var full := base + (if |ext| > 0 then [DOT] + ext else []);
      |name| == |full| && forall i :: 0 <= i < |name| ==> ToLower(name[i]) == ToLower(full[i])
    ensures ClusterScan(b, name) == Found(EntryAsWritten(b, 0))
  {
    var full := base + (if |ext| > 0 then [DOT] + ext else []);
    ShortNameOfFields(base, ext, []);
    assert Padded(base, 8) + Padded(ext, 3) + [] == b[..11];
    assert b[0..11] == b[..11];
    assert Filename(b, 0, 0) == full;
    assert 0 !in full;
    CStringUnique(full, full);
    assert MatchesAt(b, name, 0, 0);
    assert b[0] == base[0];
  }

  // ---------------------------------------------------------------------
  // Directory cookies (fat_opendir, fat_readdir, fat_closedir)
  // ---------------------------------------------------------------------

  /** fat_dir_cookie::index_eod: the index of a cookie at the end of its directory. */
  const INDEX_EOD: nat := 0xFFFF_FFFF

  /** fat_dir: an open directory, named by its start cluster (0 for the root), with its cookies. */
  class OpenDir {
    const startCluster: nat
    var cookies: seq<DirCookie>

    constructor (startCluster: nat)
      ensures this.startCluster == startCluster && cookies == []
    {
      this.startCluster := startCluster;
      cookies := [];
    }
  }

  /** fat_dir_cookie: a reader's position in an open directory, in units of 32-byte entries. */
  class DirCookie {
    const dir: OpenDir
    var index: nat

    constructor (dir: OpenDir)
      ensures this.dir == dir && index == 0
    {
      this.dir := dir;
      index := 0;
    }
  }

  /** The list of open directories of a mounted volume (fat->dir_list). */
  class DirList {
    var dirs: seq<OpenDir>

    constructor ()
      ensures dirs == []
    {
      dirs := [];
    }
  }

  /** The entry fat_opendir opens: the root for "" and "/", otherwise what the walk finds. */
  function DirTarget(disk: Disk, vol: Volume, name: seq<byte>, fuel: nat): Outcome<DirEntry>
    requires Aligned(vol)
  {
    if name == [] || name == [SLASH] then Done(DirEntry(ATTR_DIRECTORY, 0, 0))
    else WalkPath(disk, vol, name, fuel)
  }

  /** The root paths open the root directory, whatever the disk holds. */
  lemma OpenRoot(disk: Disk, vol: Volume, fuel: nat)
    requires Aligned(vol)
    ensures DirTarget(disk, vol, [], fuel) == Done(DirEntry(ATTR_DIRECTORY, 0, 0))
    ensures DirTarget(disk, vol, [SLASH], fuel) == Done(DirEntry(ATTR_DIRECTORY, 0, 0))
  {
  }

  /**
   * fat_opendir: a directory target gets a new open directory at the head of
   * the list with one new cookie at index 0; any other entry is
   * ERR_NOT_FILE, and a failed walk passes its status back, the list
   * unchanged in both cases.
   */
  method OpenDirectory(list: DirList, disk: Disk, vol: Volume, name: seq<byte>, fuel: nat) returns (r: Outcome<DirCookie>)
    requires Aligned(vol)
    modifies list
    ensures var t := DirTarget(disk, vol, name, fuel);
      if t.Done? && t.value.attributes == ATTR_DIRECTORY then
        && r.Done? && fresh(r.value) && fresh(r.value.dir)
        && r.value.index == 0 && r.value.dir.startCluster == t.value.startCluster && r.value.dir.cookies == [r.value]
        && list.dirs == [r.value.dir] + old(list.dirs)
      else
        && list.dirs == old(list.dirs)
        && (t.Done? ==> r == Err(ErrNotFile))
        && (t.Err? ==> r == Err(t.status))
        && (t.Panic? ==> r == Panic)
        && (t.OutOfFuel? ==> r == OutOfFuel)
  {
    var entry;
    if name == [] || name == [SLASH] {
      entry := DirEntry(ATTR_DIRECTORY, 0, 0);
    } else {
      var walked := Walk(disk, vol, name, fuel);
      if !walked.Done? {
        match walked
        case Err(status) => return Err(status);
        case Panic => return Panic;
        case OutOfFuel => return OutOfFuel;
      }
      entry := walked.value;
    }
    if entry.attributes == ATTR_DIRECTORY {
      var dir := new OpenDir(entry.startCluster);
      list.dirs := [dir] + list.dirs;
      var cookie := new DirCookie(dir);
      dir.cookies := dir.cookies + [cookie];
      return Done(cookie);
    } else {
      return Err(ErrNotFile);
    }
  }

  /** fat_readdir: without an entry to fill, ERR_INVALID_ARGS; otherwise the cookie moves to the end and the status is ERR_NOT_FOUND. */
  method ReadDir(cookie: DirCookie, hasEntry: bool) returns (status: Status)
    modifies cookie
    ensures !hasEntry ==> status == ErrInvalidArgs && cookie.index == old(cookie.index)
    ensures hasEntry ==> status == ErrNotFound && cookie.index == INDEX_EOD
  {
    if !hasEntry {
      return ErrInvalidArgs;
    }
    cookie.index := INDEX_EOD;
    return ErrNotFound;
  }

  /** s without the cookie c, the others in their order. */
  function Without(s: seq<DirCookie>, c: DirCookie): (r: seq<DirCookie>)
    ensures c !in r && |r| <= |s|
    ensures forall i :: 0 <= i < |r| ==> r[i] in s
    ensures forall i :: 0 <= i < |s| && s[i] != c ==> s[i] in r
  {
    if |s| == 0 then [] else if s[0] == c then Without(s[1..], c) else [s[0]] + Without(s[1..], c)
  }

  /** Removing a cookie that is not in the list changes nothing. */
  lemma {:induction false} WithoutAbsent(s: seq<DirCookie>, c: DirCookie)
    requires c !in s
    ensures Without(s, c) == s
  {
    if |s| > 0 {
      WithoutAbsent(s[1..], c);
    }
  }

  /** fat_closedir: the cookie leaves its directory's list; the open directory itself stays on the volume's list. */
  method CloseDir(cookie: DirCookie) returns (status: Status)
    modifies cookie.dir
    ensures cookie.dir.cookies == Without(old(cookie.dir.cookies), cookie) && status == NoError
  {
    cookie.dir.cookies := Without(cookie.dir.cookies, cookie);
    return NoError;
  }
}
