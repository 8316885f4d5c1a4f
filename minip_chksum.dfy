/**
 * minip's internet checksum helper, ones_sum16: the 16-bit one's complement
 * sum with end-around carry of RFC 1071. The model fixes a little-endian
 * host: a word of the buffer is its first byte plus 256 times its second.
 */
module MinipChksum {
  import opened Lk
  import opened MinipNet

  /** The 16-bit word the loop loads from two bytes of the buffer. */
  function Word(lo: byte, hi: byte): (r: nat)
    ensures r < U16
  {
    lo as nat + hi as nat * 0x100
  }

  const BIT31: nat := 0x8000_0000

  /** (sum & 0xffff) + (sum >> 16): one end-around carry fold. */
  function Fold(s: nat): nat
  {
    s % U16 + s / U16
  }

  /** A pass of the word loop: a 32-bit add, folded when bit 31 is set. */
  function AddWord(sum: nat, w: nat): nat
  {
    var s := (sum + w) % U32;
    if s >= BIT31 then Fold(s) else s
  }

  /** The word loop over the whole words of buf from k on. */
  function SumWords(sum: nat, buf: seq<byte>, k: nat): nat
    requires k <= |buf|
    decreases |buf| - k
  {
    if |buf| - k < 2 then sum else SumWords(AddWord(sum, Word(buf[k], buf[k + 1])), buf, k + 2)
  }

  /** An odd trailing byte is added, with a 32-bit add, as the word of that byte and a zero byte. */
  function AddOdd(sum: nat, buf: seq<byte>): nat
  {
    if |buf| % 2 == 1 then (sum + Word(buf[|buf| - 1], 0)) % U32 else sum
  }

  /** A fold takes a value of 17 bits or more strictly down. */
  lemma FoldShrinks(s: nat)
    requires s >= U16
    ensures Fold(s) < s
  {
    var q, r := s / U16, s % U16;
    assert s == U16 * q + r;
  }

  /** The final loop: fold until the value fits in 16 bits. */
  function FoldAll(s: nat): (r: nat)
    ensures r < U16
    decreases s
  {
    if s < U16 then s else FoldShrinks(s); FoldAll(Fold(s))
  }

  /** ones_sum16(sum, buf, |buf|) as written, for a 32-bit initial sum. */
  function OnesSum(sum: nat, buf: seq<byte>): (r: nat)
    requires sum < U32
    ensures r < U16
  {
    FoldAll(AddOdd(SumWords(sum, buf, 0), buf))
  }

  /** ones_sum16: the word loop, the odd byte, then the folding loop. */
  method OnesSum16(sum: nat, buf: seq<byte>) returns (r: nat)
    requires sum < U32
    ensures r == OnesSum(sum, buf)
  {
    var s: nat := sum;
    var k := 0;
    while |buf| - k >= 2
      invariant k <= |buf| && k % 2 == 0 && s < U32
      invariant SumWords(s, buf, k) == SumWords(sum, buf, 0)
      decreases |buf| - k
    {
      s := (s + Word(buf[k], buf[k + 1])) % U32;
      if s >= BIT31 {
        s := s % U16 + s / U16;
      }
      k := k + 2;
    }
    assert SumWords(s, buf, k) == s;
    if |buf| - k == 1 {
      s := (s + Word(buf[k], 0)) % U32;
    }
    assert s == AddOdd(SumWords(sum, buf, 0), buf);
    while s >= U16
      invariant FoldAll(s) == OnesSum(sum, buf)
      decreases s
    {
      FoldShrinks(s);
      s := s % U16 + s / U16;
    }
    r := s;
  }

  // The reference: RFC 1071's one's complement sum of the initial sum and the words.

  /** The plain sum of the whole words of buf from k on. */
  function WordSum(buf: seq<byte>, k: nat): nat
    requires k <= |buf|
    decreases |buf| - k
  {
    if |buf| - k < 2 then 0 else Word(buf[k], buf[k + 1]) + WordSum(buf, k + 2)
  }

  /** The initial sum, the words and the padded odd byte, added without any wrap. */
  function Total(sum: nat, buf: seq<byte>): nat
  {
    sum + WordSum(buf, 0) + (if |buf| % 2 == 1 then Word(buf[|buf| - 1], 0) else 0)
  }

  /** The end-around-carry sum of t in 16 bits: 0 only for 0, otherwise t's residue modulo 0xffff in 1..0xffff. */
  function EndAround(t: nat): (r: nat)
    ensures r < U16 && (r == 0 <==> t == 0)
  {
    if t == 0 then 0 else (t - 1) % 0xFFFF + 1
  }

  /** Two sums that agree modulo 0xffff and on being zero. */
  predicate Equiv(a: nat, b: nat)
  {
    a % 0xFFFF == b % 0xFFFF && (a == 0 <==> b == 0)
  }

  lemma EquivAdd(a: nat, b: nat, c: nat)
    requires Equiv(a, b)
    ensures Equiv(a + c, b + c)
  {
  }

  /** A fold keeps the residue modulo 0xffff and a nonzero value nonzero. */
  lemma FoldEquiv(s: nat)
    ensures Equiv(Fold(s), s)
  {
    var q, r := s / U16, s % U16;
    assert s == 0xFFFF * q + (q + r);
  }

  lemma EndAroundEquiv(a: nat, b: nat)
    requires Equiv(a, b)
    ensures EndAround(a) == EndAround(b)
  {
    if a != 0 {
      assert (a - 1) % 0xFFFF == (b - 1) % 0xFFFF by {
        var qa, qb := a / 0xFFFF, b / 0xFFFF;
        if a % 0xFFFF == 0 {
          assert a - 1 == 0xFFFF * (qa - 1) + 0xFFFE;
          assert b - 1 == 0xFFFF * (qb - 1) + 0xFFFE;
        } else {
          assert a - 1 == 0xFFFF * qa + (a % 0xFFFF - 1);
          assert b - 1 == 0xFFFF * qb + (b % 0xFFFF - 1);
        }
      }
    }
  }

  /** The folding loop computes the end-around-carry sum of its input. */
  lemma {:induction false} FoldAllIsEndAround(s: nat)
    ensures FoldAll(s) == EndAround(s)
    decreases s
  {
    if s >= U16 {
      FoldShrinks(s);
      FoldAllIsEndAround(Fold(s));
      FoldEquiv(s);
      EndAroundEquiv(Fold(s), s);
    }
  }

  /** A word added to a sum of at most 0xffff0000 cannot wrap, and the result is again at most 0xffff0000. */
  lemma AddWordEquiv(sum: nat, w: nat)
    requires sum <= 0xFFFF_0000 && w < U16
    ensures AddWord(sum, w) <= 0xFFFF_0000 && Equiv(AddWord(sum, w), sum + w)
  {
    var s := sum + w;
    assert s % U32 == s;
    if s >= BIT31 {
      FoldEquiv(s);
    }
  }

  /** The word loop with no wrap: the accumulator stays at most 0xffff0000 and tracks the plain sum. */
  lemma {:induction false} SumWordsEquiv(sum: nat, buf: seq<byte>, k: nat)
    requires sum <= 0xFFFF_0000 && k <= |buf|
    ensures SumWords(sum, buf, k) <= 0xFFFF_0000 && Equiv(SumWords(sum, buf, k), sum + WordSum(buf, k))
    decreases |buf| - k
  {
    if |buf| - k >= 2 {
      var w := Word(buf[k], buf[k + 1]);
      AddWordEquiv(sum, w);
      SumWordsEquiv(AddWord(sum, w), buf, k + 2);
      EquivAdd(AddWord(sum, w), sum + w, WordSum(buf, k + 2));
    }
  }

  /**
   * For an initial sum of at most 0xffff0000 (every caller passes 0), no
   * carry is lost: ones_sum16 is the end-around-carry sum of the initial sum,
   * the words and the odd byte padded with a zero byte.
   */
  lemma OnesSumIsEndAround(sum: nat, buf: seq<byte>)
    requires sum <= 0xFFFF_0000
    ensures OnesSum(sum, buf) == EndAround(Total(sum, buf))
  {
    var a := SumWords(sum, buf, 0);
    SumWordsEquiv(sum, buf, 0);
    var odd := if |buf| % 2 == 1 then Word(buf[|buf| - 1], 0) else 0;
    assert AddOdd(a, buf) == a + odd;
    EquivAdd(a, sum + WordSum(buf, 0), odd);
    FoldAllIsEndAround(a + odd);
    EndAroundEquiv(a + odd, Total(sum, buf));
  }

  /** An initial sum close to 2^32 wraps on the first add and loses a carry: the sum of 0xffffffff and the word 1 comes out 0. */
  lemma LargeInitialSumWraps()
    ensures OnesSum(0xFFFF_FFFF, [1, 0]) == 0 && EndAround(Total(0xFFFF_FFFF, [1, 0])) == 1
  {
    assert SumWords(0xFFFF_FFFF, [1, 0], 0) == 0 by {
      assert AddWord(0xFFFF_FFFF, 1) == 0;
    }
    assert Total(0xFFFF_FFFF, [1, 0]) == 0x1_0000_0000;
  }

  /** WordSum over an even-length prefix and the rest. */
  lemma {:induction false} WordSumAppend(a: seq<byte>, b: seq<byte>, k: nat)
    requires k <= |a| && (|a| - k) % 2 == 0
    ensures WordSum(a + b, k) == WordSum(a, k) + WordSum(b, 0)
    decreases |a| - k
  {
    if |a| - k >= 2 {
      assert (a + b)[k] == a[k] && (a + b)[k + 1] == a[k + 1];
      WordSumAppend(a, b, k + 2);
    } else {
      WordSumShift(a, b, 0);
    }
  }

  /** WordSum of a + b from |a| + j is WordSum of b from j. */
  lemma {:induction false} WordSumShift(a: seq<byte>, b: seq<byte>, j: nat)
    requires j <= |b|
    ensures WordSum(a + b, |a| + j) == WordSum(b, j)
    decreases |b| - j
  {
    if |b| - j >= 2 {
      assert (a + b)[|a| + j] == b[j] && (a + b)[|a| + j + 1] == b[j + 1];
      WordSumShift(a, b, j + 2);
    }
  }

  /** The one's complement (~x in 16 bits) of a 16-bit sum. */
  function Complement(x: nat): (r: nat)
    requires x < U16
    ensures r < U16 && r + x == 0xFFFF
  {
    0xFFFF - x
  }

  /** Adding the complement of an end-around sum to a positive total gives a total whose end-around sum is 0xffff. */
  lemma ComplementTotal(t: nat)
    requires t > 0
    ensures EndAround(t + Complement(EndAround(t))) == 0xFFFF
  {
    var s := EndAround(t);
    var q := (t - 1) / 0xFFFF;
    assert t - 1 == 0xFFFF * q + (s - 1);
    var u := t + Complement(s);
    assert u - 1 == 0xFFFF * q + 0xFFFE;
  }

  /** The little-endian bytes of a 16-bit value. */
  function Le16(c: nat): (r: seq<byte>)
    requires c < U16
    ensures |r| == 2 && Word(r[0], r[1]) == c
  {
    [(c % 0x100) as byte, (c / 0x100) as byte]
  }

  /** A word stored between two runs of whole words adds its value to the total. */
  lemma TotalWithWord(before: seq<byte>, c: nat, after: seq<byte>)
    requires |before| % 2 == 0 && |after| % 2 == 0 && c < U16
    ensures Total(0, before + Le16(c) + after) == Total(0, before + after) + c
  {
    var cw := Le16(c);
    var joined, full := before + after, before + cw + after;
    assert |joined| % 2 == 0 && |full| % 2 == 0;
    assert Total(0, joined) == WordSum(joined, 0);
    assert Total(0, full) == WordSum(full, 0);
    WordSumAppend(before, after, 0);
    WordSumAppend(before + cw, after, 0);
    WordSumAppend(before, cw, 0);
    assert WordSum(cw, 0) == c by {
      assert WordSum(cw, 2) == 0;
    }
  }

  /**
   * RFC 1071's check: a buffer of whole words, not all zero, with the
   * complement of its sum stored as one more word between before and after,
   * sums to 0xffff.
   */
  lemma ComplementCompletes(before: seq<byte>, after: seq<byte>)
    requires |before| % 2 == 0 && |after| % 2 == 0 && Total(0, before + after) > 0
    ensures OnesSum(0, before + Le16(Complement(OnesSum(0, before + after))) + after) == 0xFFFF
  {
    var t := Total(0, before + after);
    OnesSumIsEndAround(0, before + after);
    var c := Complement(EndAround(t));
    TotalWithWord(before, c, after);
    OnesSumIsEndAround(0, before + Le16(c) + after);
    ComplementTotal(t);
  }
}
