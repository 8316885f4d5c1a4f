/**
 * Base Address Register decoding and sizing as device::load_bars performs it
 * (PCI Local Bus Specification 3.0, section 6.2.5.1), and the sizes and
 * allocation requests the bus manager derives from the decoded BARs.
 */
module PciBars {
  import opened Lk
  import opened PciConfig

  /** The page size requests are rounded to (PAGE_SIZE of the platform; 4 KiB). */
  const PAGE_SIZE: bv64 := 4096

  /** pci_bar_t. */
  datatype Bar = Bar(addr: bv64, size: bv64, io: bool, prefetchable: bool, size64: bool, valid: bool)

  /** `bars_[i] = {}`: a cleared slot. */
  const EMPTY_BAR: Bar := Bar(0, 0, false, false, false, false)

  predicate IsIoBar(w: bv32) { w & 1 == 1 }
  predicate IsMem32Bar(w: bv32) { w & 1 == 0 && w & 6 == 0 }
  predicate IsMem64Bar(w: bv32) { w & 1 == 0 && w & 6 == 4 }

  /** Size of an I/O BAR from the value read back after 0xFFFF was written, in uint32 arithmetic. */
  function IoSize(readback: bv32): bv32 { ((readback & !3) ^ 0xFFFF) + 1 }

  /** Size of a 32-bit memory BAR from the value read back after all ones were written. */
  function Mem32Size(readback: bv32): bv32 { !(readback & !0xF) + 1 }

  /** Size of a 64-bit memory BAR from the read-backs of its low and high words, in uint64 arithmetic. */
  function Mem64Size(readbackLo: bv32, readbackHi: bv32): bv64
  {
    var composite := (readbackLo as bv64) | ((readbackHi as bv64) << 32);
    !(composite & !0xF) + 1
  }

  function IoBar(word: bv32, readback: bv32): Bar
  {
    var size := IoSize(readback);
    Bar((word & !3) as bv64, size as bv64, true, false, false, size != 0)
  }

  function Mem32Bar(word: bv32, readback: bv32): Bar
  {
    var size := Mem32Size(readback);
    Bar((word & !0xF) as bv64, size as bv64, false, word & 8 != 0, false, size != 0)
  }

  function Mem64Bar(word: bv32, upper: bv32, readbackLo: bv32, readbackHi: bv32): Bar
  {
    var size := Mem64Size(readbackLo, readbackHi);
    Bar(((word & !0xF) as bv64) | ((upper as bv64) << 32), size, false, word & 8 != 0, true, size != 0)
  }

  /**
   * What load_bars leaves in the slot(s) starting at slot i of an n-slot
   * header, given the cached BAR word(s) and what each slot reads back after
   * all ones were written to it. A 64-bit BAR takes its slot and the next
   * one, which is cleared; a 64-bit BAR in the last slot, and a reserved
   * type, leave the slot cleared.
   */
  function SlotBars(words: seq<bv32>, readback: seq<bv32>, n: nat, i: nat): (r: seq<Bar>)
    requires n <= |words| && n <= |readback| && i < n
    ensures 1 <= |r| <= n - i
  {
    if IsIoBar(words[i]) then [IoBar(words[i], readback[i])]
    else if IsMem32Bar(words[i]) then [Mem32Bar(words[i], readback[i])]
    else if IsMem64Bar(words[i]) && i + 1 < n then [Mem64Bar(words[i], words[i + 1], readback[i], readback[i + 1]), EMPTY_BAR]
    else [EMPTY_BAR]
  }

  /** The number of slots the BAR at slot i takes: two for a 64-bit BAR that fits, else one. */
  function SlotWidth(words: seq<bv32>, n: nat, i: nat): (k: nat)
    requires n <= |words| && i < n
    ensures 1 <= k <= n - i
  {
    if !IsIoBar(words[i]) && !IsMem32Bar(words[i]) && IsMem64Bar(words[i]) && i + 1 < n then 2 else 1
  }

  /**
   * The configuration writes load_bars issues for slot i: all ones (0xFFFF
   * for I/O), then the masked address; for a 64-bit BAR both words are
   * probed before both are restored; nothing for a slot it clears.
   */
  function SlotWrites(words: seq<bv32>, n: nat, i: nat): seq<Write>
    requires n <= |words| && i < n
  {
    if IsIoBar(words[i]) then [WriteWord(BarOffset(i), 0xFFFF), WriteWord(BarOffset(i), words[i] & !3)]
    else if IsMem32Bar(words[i]) then [WriteWord(BarOffset(i), 0xFFFF_FFFF), WriteWord(BarOffset(i), words[i] & !0xF)]
    else if IsMem64Bar(words[i]) && i + 1 < n then
      [WriteWord(BarOffset(i), 0xFFFF_FFFF), WriteWord(BarOffset(i + 1), 0xFFFF_FFFF),
       WriteWord(BarOffset(i), words[i] & !0xF), WriteWord(BarOffset(i + 1), words[i + 1])]
    else []
  }

  lemma SlotBarsWidth(words: seq<bv32>, readback: seq<bv32>, n: nat, i: nat)
    requires n <= |words| && n <= |readback| && i < n
    ensures |SlotBars(words, readback, n, i)| == SlotWidth(words, n, i)
  {
  }

  /** The BARs load_bars leaves in slots i..n-1. */
  function DecodeFrom(words: seq<bv32>, readback: seq<bv32>, n: nat, i: nat): (r: seq<Bar>)
    requires n <= |words| && n <= |readback| && i <= n
    ensures |r| == n - i
    decreases n - i
  {
    if i == n then []
    else
      SlotBarsWidth(words, readback, n, i);
      SlotBars(words, readback, n, i) + DecodeFrom(words, readback, n, i + SlotWidth(words, n, i))
  }

  /** The sizing writes load_bars issues for slots i..n-1, in order. */
  function SizingWritesFrom(words: seq<bv32>, n: nat, i: nat): (w: seq<Write>)
    requires n <= |words| && i <= n
    decreases n - i
  {
    if i == n then [] else SlotWrites(words, n, i) + SizingWritesFrom(words, n, i + SlotWidth(words, n, i))
  }

  /** Decoding and sizing proceed slot by slot. */
  lemma DecodeStep(words: seq<bv32>, readback: seq<bv32>, n: nat, i: nat)
    requires n <= |words| && n <= |readback| && i < n
    ensures |SlotBars(words, readback, n, i)| == SlotWidth(words, n, i)
    ensures DecodeFrom(words, readback, n, i)
         == SlotBars(words, readback, n, i) + DecodeFrom(words, readback, n, i + SlotWidth(words, n, i))
    ensures SizingWritesFrom(words, n, i) == SlotWrites(words, n, i) + SizingWritesFrom(words, n, i + SlotWidth(words, n, i))
  {
    SlotBarsWidth(words, readback, n, i);
  }

  /** A prefix decoded up to slot i extends by slot i's BAR(s) and writes to a prefix up to the next BAR. */
  lemma DecodeAdvance(words: seq<bv32>, readback: seq<bv32>, n: nat, i: nat, decoded: seq<Bar>, writes: seq<Write>)
    requires n <= |words| && n <= |readback| && i < n
    requires decoded + DecodeFrom(words, readback, n, i) == DecodeFrom(words, readback, n, 0)
    requires writes + SizingWritesFrom(words, n, i) == SizingWritesFrom(words, n, 0)
    ensures |SlotBars(words, readback, n, i)| == SlotWidth(words, n, i)
    ensures (decoded + SlotBars(words, readback, n, i)) + DecodeFrom(words, readback, n, i + SlotWidth(words, n, i))
         == DecodeFrom(words, readback, n, 0)
    ensures (writes + SlotWrites(words, n, i)) + SizingWritesFrom(words, n, i + SlotWidth(words, n, i))
         == SizingWritesFrom(words, n, 0)
  {
    DecodeStep(words, readback, n, i);
    var slot := SlotBars(words, readback, n, i);
    var rest := DecodeFrom(words, readback, n, i + SlotWidth(words, n, i));
    assert (decoded + slot) + rest == decoded + (slot + rest);
    var sw := SlotWrites(words, n, i);
    var wrest := SizingWritesFrom(words, n, i + SlotWidth(words, n, i));
    assert (writes + sw) + wrest == writes + (sw + wrest);
  }

  // ---------------------------------------------------------------------------
  // Properties of the decoding.

  /** A device decoding 2^k I/O ports reads back 0xFFFF with the low k bits clear: sizing recovers 2^k. */
  lemma IoSizeOfDecoder(k: nat)
    requires 2 <= k <= 16
    ensures IoSize(((0xFFFF as bv32) & !(((1 as bv32) << k) - 1)) | 1) == (1 as bv32) << k
  {
  }

  /** A 32-bit BAR decoding 2^k bytes reads back all ones above bit k-1 and its type bits: sizing recovers 2^k. */
  lemma Mem32SizeOfDecoder(k: nat, typeBits: bv32)
    requires 4 <= k <= 31 && typeBits < 16
    ensures Mem32Size(!(((1 as bv32) << k) - 1) | typeBits) == (1 as bv32) << k
  {
  }

  /** A 64-bit BAR decoding 2^k bytes: sizing over both read-backs recovers 2^k. */
  lemma Mem64SizeOfDecoder(k: nat, typeBits: bv32)
    requires 4 <= k <= 63 && typeBits < 16
    ensures var mask: bv64 := !(((1 as bv64) << k) - 1);
            Mem64Size(((mask & 0xFFFF_FFFF) as bv32) | typeBits, (mask >> 32) as bv32) == (1 as bv64) << k
  {
  }

  /** An unimplemented memory BAR reads back zero and is decoded as invalid. */
  lemma UnimplementedBarInvalid(word: bv32)
    ensures !Mem32Bar(word, 0).valid && Mem32Bar(word, 0).size == 0
  {
  }

  /**
   * What holds of every slot load_bars decodes: it is valid exactly when its
   * size is non-zero; an I/O address has its two low bits clear and a memory
   * address its four low bits; a 64-bit BAR is never in the last slot and the
   * slot after it is cleared.
   */
  ghost predicate WellDecoded(r: seq<Bar>, k: nat)
    requires k < |r|
  {
    && (r[k].valid <==> r[k].size != 0)
    && (r[k].io ==> r[k].addr & 3 == 0 && !r[k].size64)
    && (!r[k].io ==> r[k].addr & 0xF == 0)
    && (r[k].size64 ==> k + 1 < |r| && r[k + 1] == EMPTY_BAR)
  }

  lemma BarShapes(word: bv32, upper: bv32, readbackLo: bv32, readbackHi: bv32)
    ensures IoBar(word, readbackLo).addr & 3 == 0
    ensures Mem32Bar(word, readbackLo).addr & 0xF == 0
    ensures Mem64Bar(word, upper, readbackLo, readbackHi).addr & 0xF == 0
  {
  }

  /** The BAR(s) a slot decodes to are well formed, whatever follows them. */
  lemma SlotWellDecoded(words: seq<bv32>, readback: seq<bv32>, n: nat, i: nat, rest: seq<Bar>, k: nat)
    requires n <= |words| && n <= |readback| && i < n && k < |SlotBars(words, readback, n, i)|
    ensures WellDecoded(SlotBars(words, readback, n, i) + rest, k)
  {
    BarShapes(words[i], if i + 1 < n then words[i + 1] else 0, readback[i], if i + 1 < n then readback[i + 1] else 0);
  }

  /** Well-formedness of a slot does not depend on what precedes it. */
  lemma WellDecodedShift(a: seq<Bar>, b: seq<Bar>, k: nat)
    requires |a| <= k < |a| + |b| && WellDecoded(b, k - |a|)
    ensures WellDecoded(a + b, k)
  {
    assert (a + b)[k] == b[k - |a|];
    assert k + 1 < |a + b| ==> (a + b)[k + 1] == b[k + 1 - |a|];
  }

  lemma {:induction false} DecodedSlot(words: seq<bv32>, readback: seq<bv32>, n: nat, i: nat, k: nat)
    requires n <= |words| && n <= |readback| && i <= n && k < n - i
    ensures WellDecoded(DecodeFrom(words, readback, n, i), k)
    decreases n - i
  {
    DecodeStep(words, readback, n, i);
    var slot := SlotBars(words, readback, n, i);
    var rest := DecodeFrom(words, readback, n, i + SlotWidth(words, n, i));
    if k < |slot| {
      SlotWellDecoded(words, readback, n, i, rest, k);
    } else {
      DecodedSlot(words, readback, n, i + SlotWidth(words, n, i), k - |slot|);
      WellDecodedShift(slot, rest, k);
    }
  }

  lemma DecodedSlots(words: seq<bv32>, readback: seq<bv32>, n: nat)
    requires n <= |words| && n <= |readback|
    ensures forall k :: 0 <= k < n ==> WellDecoded(DecodeFrom(words, readback, n, 0), k)
  {
    forall k | 0 <= k < n ensures WellDecoded(DecodeFrom(words, readback, n, 0), k) {
      DecodedSlot(words, readback, n, 0, k);
    }
  }

  /** The first slot is decoded from its own word alone, by its type bits. */
  lemma FirstSlotDecode(words: seq<bv32>, readback: seq<bv32>, n: nat)
    requires 2 <= n <= |words| && n <= |readback|
    ensures var r := DecodeFrom(words, readback, n, 0);
      && (IsIoBar(words[0]) ==> r[0] == IoBar(words[0], readback[0]))
      && (IsMem32Bar(words[0]) ==> r[0] == Mem32Bar(words[0], readback[0]))
      && (IsMem64Bar(words[0]) ==> r[0] == Mem64Bar(words[0], words[1], readback[0], readback[1]) && r[1] == EMPTY_BAR)
      && (words[0] & 7 == 2 || words[0] & 7 == 6 ==> r[0] == EMPTY_BAR)
  {
  }

  /** A whole-word write to the BAR register of one of the slots lo..hi-1. */
  predicate OnBarRegister(w: Write, lo: nat, hi: nat)
  {
    w.width == Word && BarOffset(lo) <= w.offset < BarOffset(hi) && w.offset % 4 == 0
  }

  /** The writes for one slot land on the BAR registers of that slot and the next one it takes. */
  lemma SlotWritesOnBars(words: seq<bv32>, n: nat, i: nat)
    requires n <= |words| && i < n
    ensures forall w :: w in SlotWrites(words, n, i) ==> OnBarRegister(w, i, i + SlotWidth(words, n, i))
  {
  }

  /** Sizing touches nothing but the BAR registers of the probed slots. */
  lemma {:induction false} SizingWritesOnlyBars(words: seq<bv32>, n: nat, i: nat)
    requires n <= |words| && i <= n
    ensures forall w :: w in SizingWritesFrom(words, n, i) ==> OnBarRegister(w, i, n)
    decreases n - i
  {
    if i < n {
      var j := i + SlotWidth(words, n, i);
      SlotWritesOnBars(words, n, i);
      SizingWritesOnlyBars(words, n, j);
      assert SizingWritesFrom(words, n, i) == SlotWrites(words, n, i) + SizingWritesFrom(words, n, j);
    }
  }

  // ---------------------------------------------------------------------------
  // Rounding and alignment.

  /** ROUNDUP(x, a) in uint64 arithmetic, for a power-of-two a. */
  function RoundUp(x: bv64, a: bv64): bv64 { (x + (a - 1)) & !(a - 1) }

  lemma RoundUpPage(x: bv64)
    ensures RoundUp(x, PAGE_SIZE) & (PAGE_SIZE - 1) == 0
    ensures x <= 0xFFFF_FFFF_FFFF_F000 ==> x <= RoundUp(x, PAGE_SIZE) && RoundUp(x, PAGE_SIZE) - x < PAGE_SIZE
  {
  }

  /** Trailing zero bits among the low n bits of x (n when they are all clear). */
  function TrailingZeros64(x: bv64, n: nat): (r: nat)
    requires n <= 64
    ensures r <= n
  {
    if n == 0 || x & 1 == 1 then 0 else 1 + TrailingZeros64(x >> 1, n - 1)
  }

  function TrailingZeros32(x: bv32, n: nat): (r: nat)
    requires n <= 32
    ensures r <= n
  {
    if n == 0 || x & 1 == 1 then 0 else 1 + TrailingZeros32(x >> 1, n - 1)
  }

  lemma ShiftDown64(k: nat)
    requires 1 <= k < 64
    ensures ((1 as bv64) << k) & 1 == 0
    ensures ((1 as bv64) << k) >> 1 == (1 as bv64) << (k - 1)
  {
    var p: bv64 := (1 as bv64) << (k - 1);
    assert (1 as bv64) << k == p << 1;
  }

  lemma ShiftDown32(k: nat)
    requires 1 <= k < 32
    ensures ((1 as bv32) << k) & 1 == 0
    ensures ((1 as bv32) << k) >> 1 == (1 as bv32) << (k - 1)
  {
    var p: bv32 := (1 as bv32) << (k - 1);
    assert (1 as bv32) << k == p << 1;
  }

  lemma {:induction false} TrailingZerosOfPow64(k: nat, n: nat)
    requires k <= n <= 64 && k < 64
    ensures TrailingZeros64((1 as bv64) << k, n) == k
  {
    if k > 0 {
      ShiftDown64(k);
      TrailingZerosOfPow64(k - 1, n - 1);
    }
  }

  lemma {:induction false} TrailingZerosOfPow32(k: nat, n: nat)
    requires k <= n <= 32 && k < 32
    ensures TrailingZeros32((1 as bv32) << k, n) == k
  {
    if k > 0 {
      ShiftDown32(k);
      TrailingZerosOfPow32(k - 1, n - 1);
    }
  }

  /**
   * The alignment the bus manager records for a rounded size: the index of
   * its lowest set bit over all 64 bits (64 for zero, as std::countr_zero).
   */
  function AlignOf(size: bv64): nat
  {
    TrailingZeros64(size, 64)
  }

  /** The alignment of a power-of-two size is its exponent. */
  lemma AlignOfPow2(k: nat)
    requires k < 64
    ensures AlignOf((1 as bv64) << k) == k
  {
    TrailingZerosOfPow64(k, 64);
  }

  /**
   * The alignment as compute_bar_sizes and get_bar_alloc_requests compute
   * it: __builtin_ctz takes an unsigned int, so the 64-bit size is cut to its
   * low 32 bits, and the builtin has no defined result (None) when those are
   * all zero.
   */
  function AlignAsWritten(size: bv64): Option<nat>
  {
    var low := (size & 0xFFFF_FFFF) as bv32;
    if low == 0 then None else Some(TrailingZeros32(low, 32))
  }

  /** Below 4 GiB the truncation is harmless: both alignments agree on powers of two. */
  lemma AlignAsWrittenBelow4G(k: nat)
    requires k < 32
    ensures AlignAsWritten((1 as bv64) << k) == Some(AlignOf((1 as bv64) << k)) == Some(k)
  {
    assert ((((1 as bv64) << k) & 0xFFFF_FFFF) as bv32) == (1 as bv32) << k;
    TrailingZerosOfPow32(k, 32);
    AlignOfPow2(k);
  }

  /**
   * A 64-bit BAR that decodes 4 GiB (read-backs 0x0000000C and 0xFFFFFFFF)
   * has a page-rounded size whose low 32 bits are zero: the alignment as
   * written is undefined, while the intended alignment is 32.
   */
  lemma AlignAsWritten4GiBBar()
    ensures Mem64Size(0xC, 0xFFFF_FFFF) == 0x1_0000_0000
    ensures RoundUp(Mem64Size(0xC, 0xFFFF_FFFF), PAGE_SIZE) == 0x1_0000_0000
    ensures AlignAsWritten(0x1_0000_0000) == None
    ensures AlignOf(0x1_0000_0000) == 32
  {
    assert (1 as bv64) << 32 == 0x1_0000_0000;
    AlignOfPow2(32);
  }

  // ---------------------------------------------------------------------------
  // Resource negotiation: the requests a device emits and the sizes it sums.

  datatype ResourceType = IoRange | MmioRange | Mmio64Range

  /** device::bar_alloc_request for one of the device's own BARs. */
  datatype Request = Request(barNum: nat, size: bv64, align: nat, rtype: ResourceType, prefetchable: bool)

  /** The size a valid BAR is rounded to: 16 bytes for I/O, a page for memory. */
  function RoundedSize(b: Bar): bv64
  {
    if b.io then RoundUp(b.size, 16) else RoundUp(b.size, PAGE_SIZE)
  }

  /** The alignment (log2) a valid BAR asks for: 4 for I/O, the trailing zeros of the rounded size for memory. */
  function BarAlign(b: Bar): nat
  {
    if b.io then 4 else AlignOf(RoundedSize(b))
  }

  /** The request get_bar_alloc_requests builds for valid BAR b in slot i. */
  function RequestFor(b: Bar, i: nat): Request
  {
    if b.io then Request(i, RoundedSize(b), 4, IoRange, false)
    else Request(i, RoundedSize(b), BarAlign(b), if b.size64 then Mmio64Range else MmioRange, b.prefetchable)
  }

  /** The requests for the valid BARs among slots i.., in slot order. */
  function RequestsFrom(bars: seq<Bar>, i: nat): seq<Request>
    requires i <= |bars|
    decreases |bars| - i
  {
    if i == |bars| then []
    else (if bars[i].valid then [RequestFor(bars[i], i)] else []) + RequestsFrom(bars, i + 1)
  }

  /** q is the request for a valid slot at or after lo. */
  predicate RequestedSlot(bars: seq<Bar>, q: Request, lo: nat)
  {
    lo <= q.barNum < |bars| && bars[q.barNum].valid && q == RequestFor(bars[q.barNum], q.barNum)
  }

  /** Every request comes from a valid slot at or after i and is the request for that slot. */
  lemma {:induction false} RequestsFromValidSlots(bars: seq<Bar>, i: nat)
    requires i <= |bars|
    ensures forall j :: 0 <= j < |RequestsFrom(bars, i)| ==> RequestedSlot(bars, RequestsFrom(bars, i)[j], i)
    decreases |bars| - i
  {
    if i < |bars| {
      RequestsFromValidSlots(bars, i + 1);
      var rest := RequestsFrom(bars, i + 1);
      if bars[i].valid {
        var r := RequestsFrom(bars, i);
        assert r == [RequestFor(bars[i], i)] + rest;
        forall j | 0 <= j < |r| ensures RequestedSlot(bars, r[j], i) {
          if j == 0 {
            assert r[0] == RequestFor(bars[i], i);
            assert r[0].barNum == i;
          } else {
            assert r[j] == rest[j - 1];
          }
        }
      }
    }
  }

  /** The requests are in strictly increasing slot order, so no slot is requested twice. */
  lemma {:induction false} RequestsInSlotOrder(bars: seq<Bar>, i: nat)
    requires i <= |bars|
    ensures forall j, j' :: 0 <= j < j' < |RequestsFrom(bars, i)| ==> RequestsFrom(bars, i)[j].barNum < RequestsFrom(bars, i)[j'].barNum
    decreases |bars| - i
  {
    if i < |bars| {
      RequestsInSlotOrder(bars, i + 1);
      RequestsFromValidSlots(bars, i + 1);
      var rest := RequestsFrom(bars, i + 1);
      if bars[i].valid {
        var r := RequestsFrom(bars, i);
        assert r == [RequestFor(bars[i], i)] + rest;
        forall j, j' | 0 <= j < j' < |r| ensures r[j].barNum < r[j'].barNum {
          assert r[j'] == rest[j' - 1];
          if j > 0 { assert r[j] == rest[j - 1]; }
        }
      }
    }
  }

  /** Every valid slot at or after i has a request. */
  lemma {:induction false} ValidSlotsRequested(bars: seq<Bar>, i: nat, s: nat)
    requires i <= s < |bars| && bars[s].valid
    ensures exists j :: 0 <= j < |RequestsFrom(bars, i)| && RequestsFrom(bars, i)[j].barNum == s
    decreases |bars| - i
  {
    var r := RequestsFrom(bars, i);
    var rest := RequestsFrom(bars, i + 1);
    if s == i {
      assert r[0].barNum == s;
    } else {
      ValidSlotsRequested(bars, i + 1, s);
      var j :| 0 <= j < |rest| && rest[j].barNum == s;
      if bars[i].valid {
        assert r == [RequestFor(bars[i], i)] + rest;
        assert r[j + 1].barNum == s;
      } else {
        assert r == rest;
      }
    }
  }

  /** The five windows compute_bar_sizes accumulates into. */
  datatype SizeClass = IoClass | MmioClass | Mmio64Class | PrefetchableClass | Prefetchable64Class

  /** A total size (uint64 arithmetic) and the largest alignment seen. */
  datatype Window = Window(size: bv64, align: nat)

  /** device::bar_sizes. */
  datatype BarSizes = BarSizes(io: Window, mmio: Window, mmio64: Window, prefetchable: Window, prefetchable64: Window)

  function WindowOf(s: BarSizes, c: SizeClass): Window
  {
    match c
    case IoClass => s.io
    case MmioClass => s.mmio
    case Mmio64Class => s.mmio64
    case PrefetchableClass => s.prefetchable
    case Prefetchable64Class => s.prefetchable64
  }

  function WithWindow(s: BarSizes, c: SizeClass, w: Window): BarSizes
  {
    match c
    case IoClass => s.(io := w)
    case MmioClass => s.(mmio := w)
    case Mmio64Class => s.(mmio64 := w)
    case PrefetchableClass => s.(prefetchable := w)
    case Prefetchable64Class => s.(prefetchable64 := w)
  }

  /** The class a valid BAR is accumulated into. */
  function ClassOfBar(b: Bar): SizeClass
  {
    if b.io then IoClass
    else if b.size64 && b.prefetchable then Prefetchable64Class
    else if b.size64 then Mmio64Class
    else if b.prefetchable then PrefetchableClass
    else MmioClass
  }

  /** The class a request's window is taken from. */
  function ClassOfRequest(r: Request): SizeClass
  {
    match r.rtype
    case IoRange => IoClass
    case Mmio64Range => if r.prefetchable then Prefetchable64Class else Mmio64Class
    case MmioRange => if r.prefetchable then PrefetchableClass else MmioClass
  }

  function Max(a: nat, b: nat): nat { if a < b then b else a }

  /** Addition of two uint64 values, wrapping. */
  function Add64(a: bv64, b: bv64): bv64 { a + b }

  /** One iteration of compute_bar_sizes: grow the BAR's window by its rounded size and raise its alignment. */
  function AddBar(s: BarSizes, b: Bar): BarSizes
  {
    if !b.valid then s
    else
      var c := ClassOfBar(b);
      var w := WindowOf(s, c);
      WithWindow(s, c, Window(Add64(w.size, RoundedSize(b)), Max(w.align, BarAlign(b))))
  }

  /** compute_bar_sizes over slots i.. starting from accumulator s. */
  function SizesFrom(bars: seq<Bar>, i: nat, s: BarSizes): BarSizes
    requires i <= |bars|
    decreases |bars| - i
  {
    if i == |bars| then s else SizesFrom(bars, i + 1, AddBar(s, bars[i]))
  }

  /** a plus the sizes of the requests of class c, in uint64 arithmetic. */
  function TotalSize(reqs: seq<Request>, c: SizeClass, a: bv64): bv64
  {
    if reqs == [] then a
    else TotalSize(reqs[1..], c, if ClassOfRequest(reqs[0]) == c then Add64(a, reqs[0].size) else a)
  }

  /** Largest alignment among a and the requests of class c. */
  function MaxAlign(reqs: seq<Request>, c: SizeClass, a: nat): nat
  {
    if reqs == [] then a
    else MaxAlign(reqs[1..], c, if ClassOfRequest(reqs[0]) == c then Max(a, reqs[0].align) else a)
  }

  /** AddBar grows only the window of the BAR's own class. */
  lemma AddBarWindow(s: BarSizes, b: Bar, c: SizeClass)
    ensures WindowOf(AddBar(s, b), c) ==
      if b.valid && ClassOfBar(b) == c
      then Window(Add64(WindowOf(s, c).size, RoundedSize(b)), Max(WindowOf(s, c).align, BarAlign(b)))
      else WindowOf(s, c)
  {
  }

  /** The request for a valid BAR has the BAR's class, rounded size and alignment. */
  lemma RequestForBar(b: Bar, i: nat)
    ensures ClassOfRequest(RequestFor(b, i)) == ClassOfBar(b)
    ensures RequestFor(b, i).size == RoundedSize(b)
    ensures RequestFor(b, i).align == BarAlign(b)
  {
  }

  lemma TotalSizeStep(q: Request, rest: seq<Request>, c: SizeClass, a: bv64)
    ensures TotalSize([q] + rest, c, a) == TotalSize(rest, c, if ClassOfRequest(q) == c then Add64(a, q.size) else a)
  {
    assert ([q] + rest)[1..] == rest;
  }

  lemma MaxAlignStep(q: Request, rest: seq<Request>, c: SizeClass, a: nat)
    ensures MaxAlign([q] + rest, c, a) == MaxAlign(rest, c, if ClassOfRequest(q) == c then Max(a, q.align) else a)
  {
    assert ([q] + rest)[1..] == rest;
  }

  /**
   * The two halves of negotiation agree on sizes: for every class,
   * compute_bar_sizes adds exactly the sizes of the requests
   * get_bar_alloc_requests emits for that class.
   */
  lemma {:induction false} SizesMatchRequests(bars: seq<Bar>, i: nat, s: BarSizes, c: SizeClass)
    requires i <= |bars|
    ensures WindowOf(SizesFrom(bars, i, s), c).size == TotalSize(RequestsFrom(bars, i), c, WindowOf(s, c).size)
    decreases |bars| - i
  {
    if i < |bars| {
      var s' := AddBar(s, bars[i]);
      SizesMatchRequests(bars, i + 1, s', c);
      AddBarWindow(s, bars[i], c);
      var rest := RequestsFrom(bars, i + 1);
      if bars[i].valid {
        var q := RequestFor(bars[i], i);
        RequestForBar(bars[i], i);
        assert RequestsFrom(bars, i) == [q] + rest;
        TotalSizeStep(q, rest, c, WindowOf(s, c).size);
      } else {
        assert RequestsFrom(bars, i) == rest;
      }
    }
  }

  /**
   * ... and on alignment: compute_bar_sizes raises each class's alignment
   * to the largest alignment among that class's requests.
   */
  lemma {:induction false} AlignsMatchRequests(bars: seq<Bar>, i: nat, s: BarSizes, c: SizeClass)
    requires i <= |bars|
    ensures WindowOf(SizesFrom(bars, i, s), c).align == MaxAlign(RequestsFrom(bars, i), c, WindowOf(s, c).align)
    decreases |bars| - i
  {
    if i < |bars| {
      var s' := AddBar(s, bars[i]);
      AlignsMatchRequests(bars, i + 1, s', c);
      AddBarWindow(s, bars[i], c);
      var rest := RequestsFrom(bars, i + 1);
      if bars[i].valid {
        var q := RequestFor(bars[i], i);
        RequestForBar(bars[i], i);
        assert RequestsFrom(bars, i) == [q] + rest;
        MaxAlignStep(q, rest, c, WindowOf(s, c).align);
      } else {
        assert RequestsFrom(bars, i) == rest;
      }
    }
  }
}
