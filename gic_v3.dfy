/**
 * The GICv3 driver (dev/interrupt/arm_gic/gic_v3.c): the value written to
 * ICC_SGI1R_EL1 to send a software-generated interrupt, the per-interrupt
 * group bits in the distributor and the redistributors, the interrupt count
 * taken at init, and the enable masks saved at suspend and written back at
 * resume.
 *
 * Registers are modelled by what they hold: IGROUPR and IGRPMODR words hold
 * one group bit per interrupt; the enable state of an interrupt is what
 * ISENABLER reads back, a write of ones to ISENABLER enables the interrupts
 * whose bits are set and a write of ones to ICENABLER disables them (the
 * set-enable and clear-enable registers of the Arm GICv3 architecture).
 * MAX_INT, SMP_MAX_CPUS and GICV3_IRQ_GROUP come from the platform and are
 * constants of the model; the number of the current CPU is a parameter.
 */
module GicV3 {
  import opened Lk

  // ICC_SGI1R_EL1

  /** The four affinity levels of the target CPU, each a uint8_t. */
  datatype Affinity = Affinity(aff0: bv8, aff1: bv8, aff2: bv8, aff3: bv8)

  /** On aarch64: Aff0, Aff1 and Aff2 are MPIDR bits 7..0, 15..8 and 23..16; Aff3 is bits 39..32. */
  function AffinityOfMpidr(mpidr: bv64): (a: Affinity)
    ensures (a.aff0 as bv64) == mpidr & 0xff && (a.aff1 as bv64) == (mpidr >> 8) & 0xff
    ensures (a.aff2 as bv64) == (mpidr >> 16) & 0xff && (a.aff3 as bv64) == (mpidr >> 32) & 0xff
  {
    Affinity((mpidr & 0xff) as bv8, ((mpidr >> 8) & 0xff) as bv8, ((mpidr >> 16) & 0xff) as bv8, ((mpidr >> 32) & 0xff) as bv8)
  }

  /** Elsewhere only Aff0 is set, to the CPU number (a size_t) truncated to eight bits. */
  function AffinityOfCpuNum(cpuNum: bv64): (a: Affinity)
    ensures a.aff0 as bv64 == cpuNum & 0xff && a.aff1 == 0 && a.aff2 == 0 && a.aff3 == 0
  {
    Affinity((cpuNum & 0xff) as bv8, 0, 0, 0)
  }

  /**
   * arm_gicv3_sgir_val: INTID at bit 24, Aff1 at 16, Aff2 at 32, Aff3 at
   * 48, the range selector (Aff0 / 16) at 44 and, in the target list
   * (bits 15..0), the one bit Aff0 % 16. Each field reads back as packed:
   * the fields do not overlap, the target list names exactly the CPU
   * Aff0 % 16 of the range Aff0 / 16, and IRM (bit 40) and every reserved
   * bit are zero, so the interrupt goes to that one CPU.
   */
  function SgirVal(irq: bv64, a: Affinity): (r: bv64)
    requires irq < 16
    ensures (r >> 24) & 0xf == irq
    ensures (r >> 16) & 0xff == a.aff1 as bv64
    ensures (r >> 32) & 0xff == a.aff2 as bv64
    ensures (r >> 48) & 0xff == a.aff3 as bv64
    ensures (r >> 44) & 0xf == (a.aff0 >> 4) as bv64
    ensures r & 0xffff == 1 << ((a.aff0 & 0xf) as bv64)
    ensures (r >> 40) & 1 == 0
    ensures r & 0xff00_0f00_f000_0000 == 0
  {
    var rangeSelector := (a.aff0 >> 4) as bv64;
    var targetList := (1 as bv16 << (a.aff0 & 0xf)) as bv64;
    (irq << 24) | ((a.aff3 as bv64) << 48) | ((a.aff2 as bv64) << 32) | ((a.aff1 as bv64) << 16)
      | (rangeSelector << 44) | targetList
  }

  /** Two CPUs whose affinities differ get different register values for the same interrupt. */
  lemma SgirDistinguishesTargets(irq: bv64, a: Affinity, b: Affinity)
    requires irq < 16 && a != b
    ensures SgirVal(irq, a) != SgirVal(irq, b)
  {
    var ra, rb := SgirVal(irq, a), SgirVal(irq, b);
    if a.aff0 != b.aff0 {
      if (a.aff0 >> 4) == (b.aff0 >> 4) {
        assert (a.aff0 & 0xf) != (b.aff0 & 0xf);
        assert ra & 0xffff != rb & 0xffff;
      }
    }
  }

  // Group bits

  /** Bit i of a 32-bit register. */
  predicate TestBit(w: bv32, i: bv5)
  {
    (w >> i) & 1 == 1
  }

  /** The one-bit mask 1 << j. */
  function Mask(j: bv5): bv32 { 1 << j }

  /** The read-modify-write of the group setup: bit j set when on, cleared otherwise; every other bit kept. */
  function SetBit(val: bv32, j: bv5, on: bool): (r: bv32)
    ensures TestBit(r, j) == on
    ensures r & !Mask(j) == val & !Mask(j)
  {
    if on then val | Mask(j) else val & !Mask(j)
  }

  /** Two words that agree outside bit j agree on every other bit. */
  lemma BitKept(a: bv32, b: bv32, j: bv5, i: bv5)
    requires a & !Mask(j) == b & !Mask(j) && i != j
    ensures TestBit(a, i) == TestBit(b, i)
  {
  }

  /** The bit of interrupt n within its word. */
  function BitOf(n: nat): bv5 { (n % 32) as bv5 }

  /** Interrupts in the same word at different bits are different interrupts. */
  lemma BitOfDiffers(n: nat, m: nat)
    requires n / 32 == m / 32 && n != m
    ensures BitOf(n) != BitOf(m)
  {
    Bv5Distinct(n % 32, m % 32);
  }

  lemma Bv5Distinct(a: nat, b: nat)
    requires a < 32 && b < 32 && a != b
    ensures a as bv5 != b as bv5
  {
    assert (a as bv5) as int == a && (b as bv5) as int == b;
  }

  /** Setting the bit of one interrupt keeps the bit of every other interrupt of the word. */
  lemma OtherBitKept(w: bv32, vector: nat, n: nat, on: bool)
    requires vector < 32 && n < 32 && n != vector
    ensures TestBit(SetBit(w, BitOf(vector), on), BitOf(n)) == TestBit(w, BitOf(n))
  {
    BitOfDiffers(n, vector);
    BitKept(SetBit(w, BitOf(vector), on), w, BitOf(vector), BitOf(n));
  }

  /** The group bit of interrupt n in a bank of 32-bit words: word n / 32, bit n % 32. */
  predicate GroupBit(regs: seq<bv32>, n: nat)
    requires n < 32 * |regs|
  {
    TestBit(regs[n / 32], BitOf(n))
  }

  /** Setting the group bit of interrupt vector in a bank of words. */
  function SetGroupBit(regs: seq<bv32>, vector: nat, on: bool): (r: seq<bv32>)
    requires vector < 32 * |regs|
    ensures |r| == |regs|
    ensures forall n: nat :: n < 32 * |regs| ==> GroupBit(r, n) == (if n == vector then on else GroupBit(regs, n))
  {
    var r := regs[vector / 32 := SetBit(regs[vector / 32], BitOf(vector), on)];
    forall n: nat | n < 32 * |regs|
      ensures GroupBit(r, n) == (if n == vector then on else GroupBit(regs, n))
    {
      if n / 32 == vector / 32 && n != vector {
        BitOfDiffers(n, vector);
        BitKept(r[n / 32], regs[n / 32], BitOf(vector), BitOf(n));
      }
    }
    r
  }

  /** Bit 0 of grp selects IGROUPR, bit 1 selects IGRPMODR. */
  predicate GroupSelects(grp: bv32) { grp & 1 != 0 }
  predicate ModSelects(grp: bv32) { grp & 2 != 0 }

  /** The group registers: IGROUPR and IGRPMODR words of the distributor, GICR_IGROUPR0 and GICR_IGRPMODR0 per CPU. */
  datatype Groups = Groups(igroupr: seq<bv32>, igrpmodr: seq<bv32>, gicrIgroupr: seq<bv32>, gicrIgrpmodr: seq<bv32>)

  predicate GroupsWf(g: Groups)
  {
    |g.igrpmodr| == |g.igroupr| && |g.gicrIgrpmodr| == |g.gicrIgroupr|
  }

  /** The group and group-modifier bits of interrupt n as CPU cpu sees them: banked below 32, shared above. */
  function GroupOf(g: Groups, cpu: nat, n: nat): (bool, bool)
    requires GroupsWf(g) && cpu < |g.gicrIgroupr| && n < 32 * |g.igroupr|
  {
    if n < 32 then (TestBit(g.gicrIgroupr[cpu], BitOf(n)), TestBit(g.gicrIgrpmodr[cpu], BitOf(n)))
    else (GroupBit(g.igroupr, n), GroupBit(g.igrpmodr, n))
  }

  /**
   * arm_gicv3_configure_irq_locked on the group registers: below 32 the
   * redistributor of the current CPU, otherwise the distributor.
   */
  function Configure(g: Groups, vector: nat, curCpu: nat, grp: bv32): Groups
    requires GroupsWf(g) && curCpu < |g.gicrIgroupr| && vector < 32 * |g.igroupr|
  {
    if vector < 32 then
      g.(gicrIgroupr := g.gicrIgroupr[curCpu := SetBit(g.gicrIgroupr[curCpu], BitOf(vector), GroupSelects(grp))],
         gicrIgrpmodr := g.gicrIgrpmodr[curCpu := SetBit(g.gicrIgrpmodr[curCpu], BitOf(vector), ModSelects(grp))])
    else
      g.(igroupr := SetGroupBit(g.igroupr, vector, GroupSelects(grp)),
         igrpmodr := SetGroupBit(g.igrpmodr, vector, ModSelects(grp)))
  }

  /**
   * Configuring interrupt vector puts it in group grp as the current CPU
   * sees it, and changes the group of no other interrupt, nor of vector
   * on another CPU when it is banked.
   */
  lemma ConfigureSetsOnlyVector(g: Groups, vector: nat, curCpu: nat, grp: bv32)
    requires GroupsWf(g) && curCpu < |g.gicrIgroupr| && vector < 32 * |g.igroupr|
    ensures GroupsWf(Configure(g, vector, curCpu, grp))
    ensures GroupOf(Configure(g, vector, curCpu, grp), curCpu, vector) == (GroupSelects(grp), ModSelects(grp))
    ensures forall c: nat, n: nat :: c < |g.gicrIgroupr| && n < 32 * |g.igroupr| && n != vector ==>
              GroupOf(Configure(g, vector, curCpu, grp), c, n) == GroupOf(g, c, n)
    ensures vector < 32 ==> forall c: nat :: c < |g.gicrIgroupr| && c != curCpu ==>
              GroupOf(Configure(g, vector, curCpu, grp), c, vector) == GroupOf(g, c, vector)
  {
    var h := Configure(g, vector, curCpu, grp);
    forall c: nat, n: nat | c < |g.gicrIgroupr| && n < 32 * |g.igroupr| && n != vector
      ensures GroupOf(h, c, n) == GroupOf(g, c, n)
    {
      if n < 32 && vector < 32 && c == curCpu {
        OtherBitKept(g.gicrIgroupr[c], vector, n, GroupSelects(grp));
        OtherBitKept(g.gicrIgrpmodr[c], vector, n, ModSelects(grp));
      }
    }
  }

  // The interrupt count at init

  /** BITS_SHIFT(pidr2, 7, 4): the architecture revision. */
  function ArchRev(pidr2: bv32): bv32 { (pidr2 >> 4) & 0xf }

  /**
   * The interrupt count arm_gicv3_init settles on: None when the revision
   * is neither 3 nor 4 (the init panics), otherwise 32 times
   * (ITLinesNumber + 1), from TYPER bits 4..0, but never more than MAX_INT.
   */
  function MaxInterrupts(pidr2: bv32, typer: bv32, maxInt: nat): (r: Option<nat>)
    ensures r.Some? <==> ArchRev(pidr2) == 3 || ArchRev(pidr2) == 4
    ensures r.Some? ==> r.value <= maxInt && r.value <= 1024
    ensures r.Some? ==> r.value == maxInt || r.value == ((typer & 0x1f) as nat + 1) * 32
    ensures r.Some? && maxInt >= 1024 ==> r.value == ((typer & 0x1f) as nat + 1) * 32
  {
    var rev := ArchRev(pidr2);
    if rev != 3 && rev != 4 then None
    else
      var count := ((typer & 0x1f) as nat + 1) * 32;
      Some(if count > maxInt then maxInt else count)
  }

  /** The words below upto written with val, the others kept. */
  function WriteWords(regs: seq<bv32>, upto: nat, val: bv32): seq<bv32>
  {
    seq(|regs|, k requires 0 <= k < |regs| => if k < upto then val else regs[k])
  }

  lemma WriteWordsStep(regs: seq<bv32>, j: nat, val: bv32)
    requires j < |regs|
    ensures WriteWords(regs, j, val)[j := val] == WriteWords(regs, j + 1, val)
  {
  }

  /** The routes of the shared interrupts below upto set to 0 (core 0), the others kept. */
  function RouteSpis(irouter: seq<bv64>, upto: nat): seq<bv64>
  {
    seq(|irouter|, n requires 0 <= n < |irouter| => if 32 <= n < upto then 0 else irouter[n])
  }

  /** The loop over i = 0, 32, ... below m stops at the word count of m. */
  lemma CeilWords(i: nat, m: nat)
    requires i % 32 == 0 && i >= m && (i == 0 || i - 32 < m)
    ensures i / 32 == (m + 31) / 32
  {
    DivModUnique(m + 31, 32, i / 32, m + 31 - i);
  }

  /** A word of an interrupt below the count is a word of the bank. */
  lemma WordInRange(i: nat, m: nat, maxInt: nat)
    requires i < m <= maxInt
    ensures i / 32 < (maxInt + 31) / 32
  {
  }

  /**
   * After init with count m, every interrupt below m is disabled and in
   * group 1 non-secure, and every shared one is routed to core 0; the
   * others are as they were.
   */
  lemma InitEffect(enabled: seq<bv32>, igroupr: seq<bv32>, irouter: seq<bv64>, m: nat, n: nat)
    requires n < 32 * |enabled| && |igroupr| == |enabled| && n < |irouter|
    ensures n < m ==> !GroupBit(WriteWords(enabled, (m + 31) / 32, 0), n)
    ensures n < m ==> GroupBit(WriteWords(igroupr, (m + 31) / 32, 0xffff_ffff), n)
    ensures RouteSpis(irouter, m)[n] == if 32 <= n < m then 0 else irouter[n]
  {
    if n < m {
      assert n / 32 < (m + 31) / 32;
    }
  }

  // Suspend and resume

  /** The enable words suspend saves: words 1.. of the distributor's enables, word 0 of the mask kept. */
  function SaveSpi(mask: seq<bv32>, isenabler: seq<bv32>): (r: seq<bv32>)
    requires |mask| == |isenabler|
  {
    seq(|mask|, k requires 0 <= k < |mask| => if k == 0 then mask[0] else isenabler[k])
  }

  /**
   * Writes of mask to ISENABLER words 1 up to (not including) upto: every
   * interrupt enabled before, or named in the mask, is enabled.
   */
  function RestoreSpi(isenabler: seq<bv32>, mask: seq<bv32>, upto: nat): (r: seq<bv32>)
    requires |mask| == |isenabler|
  {
    seq(|isenabler|, k requires 0 <= k < |isenabler| => if 1 <= k < upto then isenabler[k] | mask[k] else isenabler[k])
  }

  /** One more word written. */
  lemma RestoreStep(isenabler: seq<bv32>, mask: seq<bv32>, j: nat)
    requires |mask| == |isenabler| && 1 <= j < |isenabler|
    ensures RestoreSpi(isenabler, mask, j)[j := isenabler[j] | mask[j]] == RestoreSpi(isenabler, mask, j + 1)
  {
  }

  /** Past the last word nothing more is written. */
  lemma RestoreEnd(isenabler: seq<bv32>, mask: seq<bv32>, j: nat)
    requires |mask| == |isenabler| && j >= |isenabler|
    ensures RestoreSpi(isenabler, mask, j) == RestoreSpi(isenabler, mask, |isenabler|)
  {
  }

  /**
   * Resume writes back exactly what suspend saved: after a suspend, any
   * change to the enables and a resume, every shared interrupt enabled at
   * suspend is enabled again; if the distributor lost its state (all
   * disabled), the enables are exactly those of suspend.
   */
  lemma {:induction false} ResumeRestores(before: seq<bv32>, mask: seq<bv32>, after: seq<bv32>)
    requires |before| == |mask| == |after|
    ensures forall k :: 1 <= k < |before| ==> RestoreSpi(after, SaveSpi(mask, before), |before|)[k] & before[k] == before[k]
    ensures (forall k :: 1 <= k < |after| ==> after[k] == 0) ==>
              forall k :: 1 <= k < |before| ==> RestoreSpi(after, SaveSpi(mask, before), |before|)[k] == before[k]
  {
    var saved := SaveSpi(mask, before);
    forall k | 1 <= k < |before|
      ensures RestoreSpi(after, saved, |before|)[k] == after[k] | before[k]
    {
    }
  }

  /**
   * The registers the driver reads and writes, and its two saved-mask
   * arrays. The distributor banks hold one word per 32 interrupts, the
   * redistributor registers one word per CPU.
   */
  class Gic {
    /** MAX_INT, SMP_MAX_CPUS and GICV3_IRQ_GROUP. */
    const maxInt: nat
    const maxCpus: nat
    const irqGroup: bv32

    /** GICD_IGROUPR(n), GICD_IGRPMODR(n), the enables GICD_ISENABLER(n) reads back, GICD_IROUTER(n). */
    var igroupr: seq<bv32>
    var igrpmodr: seq<bv32>
    var enabled: seq<bv32>
    var irouter: seq<bv64>
    /** GICR_IGROUPR0, GICR_IGRPMODR0 and the enables GICR_ISENABLER0 reads back, per CPU. */
    var gicrIgroupr: seq<bv32>
    var gicrIgrpmodr: seq<bv32>
    var gicrEnabled: seq<bv32>
    /** enabled_spi_mask and enabled_ppi_mask. */
    const spiMask: array<bv32>
    const ppiMask: array<bv32>

    /** DIV_ROUND_UP(MAX_INT, 32). */
    function Words(): nat { (maxInt + 31) / 32 }

    predicate Valid()
      reads this
    {
      |igroupr| == Words() && |igrpmodr| == Words() && |enabled| == Words() && |irouter| == maxInt
      && |gicrIgroupr| == maxCpus && |gicrIgrpmodr| == maxCpus && |gicrEnabled| == maxCpus
      && spiMask.Length == Words() && ppiMask.Length == maxCpus && spiMask != ppiMask
    }

    /** The group registers of the distributor and the redistributors. */
    function GroupRegs(): Groups
      reads this
    {
      Groups(igroupr, igrpmodr, gicrIgroupr, gicrIgrpmodr)
    }

    /** Registers and masks as they are out of reset; the masks are static and start at zero. */
    constructor (maxInt: nat, maxCpus: nat, irqGroup: bv32)
      ensures this.maxInt == maxInt && this.maxCpus == maxCpus && this.irqGroup == irqGroup
      ensures Valid() && fresh(spiMask) && fresh(ppiMask)
      ensures spiMask[..] == seq(Words(), _ => 0) && ppiMask[..] == seq(maxCpus, _ => 0)
    {
      this.maxInt := maxInt;
      this.maxCpus := maxCpus;
      this.irqGroup := irqGroup;
      var words := (maxInt + 31) / 32;
      igroupr := seq(words, _ => 0);
      igrpmodr := seq(words, _ => 0);
      enabled := seq(words, _ => 0);
      irouter := seq(maxInt, _ => 0);
      gicrIgroupr := seq(maxCpus, _ => 0);
      gicrIgrpmodr := seq(maxCpus, _ => 0);
      gicrEnabled := seq(maxCpus, _ => 0);
      spiMask := new bv32[words](_ => 0);
      ppiMask := new bv32[maxCpus](_ => 0);
    }

    /** gicv3_gicd_setup_irq_group: bit vector % 32 of word vector / 32 of IGROUPR (grp bit 0) and IGRPMODR (grp bit 1). */
    method GicdSetupIrqGroup(vector: nat, grp: bv32)
      requires Valid() && 32 <= vector < maxInt
      modifies this
      ensures Valid()
      ensures igroupr == SetGroupBit(old(igroupr), vector, GroupSelects(grp))
      ensures igrpmodr == SetGroupBit(old(igrpmodr), vector, ModSelects(grp))
      ensures enabled == old(enabled) && irouter == old(irouter)
      ensures gicrIgroupr == old(gicrIgroupr) && gicrIgrpmodr == old(gicrIgrpmodr) && gicrEnabled == old(gicrEnabled)
    {
      var val := igroupr[vector / 32];
      val := SetBit(val, BitOf(vector), grp & 1 != 0);
      igroupr := igroupr[vector / 32 := val];
      val := igrpmodr[vector / 32];
      val := SetBit(val, BitOf(vector), grp & 2 != 0);
      igrpmodr := igrpmodr[vector / 32 := val];
    }

    /** gicv3_gicr_setup_irq_group: the same update, on the redistributor of CPU cpu. */
    method GicrSetupIrqGroup(cpu: nat, vector: nat, grp: bv32)
      requires Valid() && cpu < maxCpus && vector < 32
      modifies this
      ensures Valid()
      ensures gicrIgroupr == old(gicrIgroupr)[cpu := SetBit(old(gicrIgroupr[cpu]), BitOf(vector), GroupSelects(grp))]
      ensures gicrIgrpmodr == old(gicrIgrpmodr)[cpu := SetBit(old(gicrIgrpmodr[cpu]), BitOf(vector), ModSelects(grp))]
      ensures igroupr == old(igroupr) && igrpmodr == old(igrpmodr) && enabled == old(enabled) && irouter == old(irouter)
      ensures gicrEnabled == old(gicrEnabled)
    {
      var val := gicrIgroupr[cpu];
      val := SetBit(val, BitOf(vector), grp & 1 != 0);
      gicrIgroupr := gicrIgroupr[cpu := val];
      val := gicrIgrpmodr[cpu];
      val := SetBit(val, BitOf(vector), grp & 2 != 0);
      gicrIgrpmodr := gicrIgrpmodr[cpu := val];
    }

    /** arm_gicv3_configure_irq_locked, with curCpu the CPU it runs on; the cpu argument is not used by the source. */
    method ConfigureIrqLocked(cpu: nat, vector: nat, curCpu: nat)
      requires Valid() && vector < maxInt && curCpu < maxCpus
      modifies this
      ensures Valid()
      ensures GroupRegs() == Configure(old(GroupRegs()), vector, curCpu, irqGroup)
      ensures enabled == old(enabled) && irouter == old(irouter) && gicrEnabled == old(gicrEnabled)
    {
      if vector < 32 {
        GicrSetupIrqGroup(curCpu, vector, irqGroup);
      } else {
        GicdSetupIrqGroup(vector, irqGroup);
      }
    }

    /**
     * The interrupt-count part of arm_gicv3_init: None is the panic on a
     * GIC that is not v3 or v4 (nothing written). Otherwise every word
     * holding an interrupt below the count is disabled and put in group 1
     * non-secure (IGROUPR and IGRPMODR all ones), and every shared interrupt
     * below the count is routed to core 0.
     */
    method Init(pidr2: bv32, typer: bv32) returns (count: Option<nat>)
      requires Valid()
      modifies this
      ensures Valid() && count == MaxInterrupts(pidr2, typer, maxInt)
      ensures count.None? ==> igroupr == old(igroupr) && igrpmodr == old(igrpmodr) && enabled == old(enabled) && irouter == old(irouter)
      ensures count.Some? ==> enabled == WriteWords(old(enabled), (count.value + 31) / 32, 0)
      ensures count.Some? ==> igroupr == WriteWords(old(igroupr), (count.value + 31) / 32, 0xffff_ffff)
      ensures count.Some? ==> igrpmodr == WriteWords(old(igrpmodr), (count.value + 31) / 32, 0xffff_ffff)
      ensures count.Some? ==> irouter == RouteSpis(old(irouter), count.value)
      ensures gicrIgroupr == old(gicrIgroupr) && gicrIgrpmodr == old(gicrIgrpmodr) && gicrEnabled == old(gicrEnabled)
    {
      count := MaxInterrupts(pidr2, typer, maxInt);
      if count.None? {
        return;
      }
      InitWords(count.value);
      RouteToCore0(count.value);
    }

    /** The first loop of arm_gicv3_init: for i = 0, 32, ... below gicMaxInt, word i / 32 disabled and in group 1 non-secure. */
    method InitWords(gicMaxInt: nat)
      requires Valid() && gicMaxInt <= maxInt
      modifies this
      ensures Valid()
      ensures enabled == WriteWords(old(enabled), (gicMaxInt + 31) / 32, 0)
      ensures igroupr == WriteWords(old(igroupr), (gicMaxInt + 31) / 32, 0xffff_ffff)
      ensures igrpmodr == WriteWords(old(igrpmodr), (gicMaxInt + 31) / 32, 0xffff_ffff)
      ensures irouter == old(irouter)
      ensures gicrIgroupr == old(gicrIgroupr) && gicrIgrpmodr == old(gicrIgrpmodr) && gicrEnabled == old(gicrEnabled)
    {
      var i := 0;
      while i < gicMaxInt
        invariant i % 32 == 0 && (i == 0 || i - 32 < gicMaxInt)
        invariant enabled == WriteWords(old(enabled), i / 32, 0)
        invariant igroupr == WriteWords(old(igroupr), i / 32, 0xffff_ffff)
        invariant igrpmodr == WriteWords(old(igrpmodr), i / 32, 0xffff_ffff)
        invariant irouter == old(irouter)
        invariant gicrIgroupr == old(gicrIgroupr) && gicrIgrpmodr == old(gicrIgrpmodr) && gicrEnabled == old(gicrEnabled)
      {
        WordInRange(i, gicMaxInt, maxInt);
        WriteWordsStep(old(enabled), i / 32, 0);
        WriteWordsStep(old(igroupr), i / 32, 0xffff_ffff);
        WriteWordsStep(old(igrpmodr), i / 32, 0xffff_ffff);
        enabled := enabled[i / 32 := 0];
        igroupr := igroupr[i / 32 := 0xffff_ffff];
        igrpmodr := igrpmodr[i / 32 := 0xffff_ffff];
        i := i + 32;
      }
      CeilWords(i, gicMaxInt);
    }

    /** The last loop of arm_gicv3_init: GICD_IROUTER(i) = 0 for every shared interrupt i below gicMaxInt. */
    method RouteToCore0(gicMaxInt: nat)
      requires Valid() && gicMaxInt <= maxInt
      modifies this
      ensures Valid()
      ensures irouter == RouteSpis(old(irouter), gicMaxInt)
      ensures enabled == old(enabled) && igroupr == old(igroupr) && igrpmodr == old(igrpmodr)
      ensures gicrIgroupr == old(gicrIgroupr) && gicrIgrpmodr == old(gicrIgrpmodr) && gicrEnabled == old(gicrEnabled)
    {
      var i := 32;
      while i < gicMaxInt
        invariant 32 <= i && (i == 32 || i <= gicMaxInt)
        invariant irouter == RouteSpis(old(irouter), i)
        invariant enabled == old(enabled) && igroupr == old(igroupr) && igrpmodr == old(igrpmodr)
        invariant gicrIgroupr == old(gicrIgroupr) && gicrIgrpmodr == old(gicrIgrpmodr) && gicrEnabled == old(gicrEnabled)
      {
        irouter := irouter[i := 0];
        i := i + 1;
      }
      assert irouter == RouteSpis(old(irouter), gicMaxInt);
    }

    /** arm_gicv3_suspend_cpu: CPU 0 also saves the shared enables (words 1..); every CPU saves its banked enables. */
    method SuspendCpu(cpu: nat)
      requires Valid() && cpu < maxCpus
      modifies spiMask, ppiMask
      ensures spiMask[..] == if cpu == 0 then SaveSpi(old(spiMask[..]), enabled) else old(spiMask[..])
      ensures ppiMask[..] == old(ppiMask[..])[cpu := gicrEnabled[cpu]]
    {
      if cpu == 0 {
        var i := 32;
        while i < maxInt
          invariant i % 32 == 0 && 32 <= i && (i == 32 || i - 32 < maxInt)
          invariant forall k :: 0 <= k < Words() ==> spiMask[k] == if 1 <= k && 32 * k < i then enabled[k] else old(spiMask[k])
          invariant ppiMask[..] == old(ppiMask[..])
        {
          spiMask[i / 32] := enabled[i / 32];
          i := i + 32;
        }
        assert spiMask[..] == SaveSpi(old(spiMask[..]), enabled);
      }
      ppiMask[cpu] := gicrEnabled[cpu];
    }

    /** The distributor part of arm_gicv3_resume_cpu_locked: the saved shared enables written to ISENABLER words 1... */
    method ResumeGicd()
      requires Valid()
      modifies this
      ensures Valid()
      ensures enabled == RestoreSpi(old(enabled), spiMask[..], Words())
      ensures igroupr == old(igroupr) && igrpmodr == old(igrpmodr) && irouter == old(irouter)
      ensures gicrIgroupr == old(gicrIgroupr) && gicrIgrpmodr == old(gicrIgrpmodr) && gicrEnabled == old(gicrEnabled)
    {
      var i := 32;
      while i < maxInt
        invariant i % 32 == 0 && 32 <= i && (i == 32 || i - 32 < maxInt)
        invariant enabled == RestoreSpi(old(enabled), spiMask[..], i / 32)
        invariant igroupr == old(igroupr) && igrpmodr == old(igrpmodr) && irouter == old(irouter)
        invariant gicrIgroupr == old(gicrIgroupr) && gicrIgrpmodr == old(gicrIgrpmodr) && gicrEnabled == old(gicrEnabled)
      {
        RestoreStep(old(enabled), spiMask[..], i / 32);
        enabled := enabled[i / 32 := enabled[i / 32] | spiMask[i / 32]];
        i := i + 32;
      }
      RestoreEnd(old(enabled), spiMask[..], i / 32);
    }

    /** arm_gicv3_resume_cpu_locked: the saved banked enables written back, and with gicd the saved shared ones. */
    method ResumeCpuLocked(cpu: nat, gicd: bool)
      requires Valid() && cpu < maxCpus
      modifies this
      ensures Valid()
      ensures gicrEnabled == old(gicrEnabled)[cpu := old(gicrEnabled[cpu]) | ppiMask[cpu]]
      ensures enabled == if gicd then RestoreSpi(old(enabled), spiMask[..], Words()) else old(enabled)
      ensures igroupr == old(igroupr) && igrpmodr == old(igrpmodr) && irouter == old(irouter)
      ensures gicrIgroupr == old(gicrIgroupr) && gicrIgrpmodr == old(gicrIgrpmodr)
    {
      gicrEnabled := gicrEnabled[cpu := gicrEnabled[cpu] | ppiMask[cpu]];
      if gicd {
        ResumeGicd();
      }
    }
  }
}
