/**
 * x86 CPU detection (arch/x86/feature.c): the vendor read from the string
 * cpuid leaf 0 returns in ebx, edx and ecx, the highest basic and extended
 * leaves, and the CPU level, family and model decoded from cpuid leaf 1.
 *
 * cpuid itself is outside the model: the registers each leaf returns are
 * parameters. Only the build for CPUs that have cpuid is modelled.
 */
module X86Feature {
  import opened Lk

  /** enum x86_cpu_vendor. */
  datatype Vendor = Unknown | Intel | Amd | Umc | Cyrix | NexGen | Centaur | Rise | Sis | Transmeta | Nsc

  /** enum x86_cpu_level. */
  datatype CpuLevel = Level386 | Level486 | Pentium | PentiumPro

  /** The registers one cpuid leaf returns. */
  datatype Regs = Regs(a: bv32, b: bv32, c: bv32, d: bv32)

  // The vendor string

  /** The vendor string of each known vendor. */
  function VendorString(v: Vendor): string
    requires v != Unknown
  {
    match v
    case Intel => "GenuineIntel"
    case Umc => "UMC UMC UMC "
    case Amd => "AuthenticAMD"
    case Cyrix => "CyrixInstead"
    case NexGen => "NexGenDriven"
    case Centaur => "CentaurHauls"
    case Rise => "RiseRiseRise"
    case Sis => "SiS SiS SiS "
    case Transmeta => "GenuineTMx86"
    case Nsc => "Geode by NSC"
  }

  /** match_cpu_vendor_string: the vendor whose string s is exactly, or Unknown. */
  function MatchVendor(s: string): (v: Vendor)
    ensures v != Unknown ==> VendorString(v) == s
  {
    if s == "GenuineIntel" then Intel
    else if s == "UMC UMC UMC " then Umc
    else if s == "AuthenticAMD" then Amd
    else if s == "CyrixInstead" then Cyrix
    else if s == "NexGenDriven" then NexGen
    else if s == "CentaurHauls" then Centaur
    else if s == "RiseRiseRise" then Rise
    else if s == "SiS SiS SiS " then Sis
    else if s == "GenuineTMx86" then Transmeta
    else if s == "Geode by NSC" then Nsc
    else Unknown
  }

  /** No two known vendors share a string: they differ in the first or the eighth character. */
  lemma VendorStringsDiffer(v: Vendor, w: Vendor)
    requires v != Unknown && w != Unknown && v != w
    ensures VendorString(v)[0] != VendorString(w)[0] || VendorString(v)[7] != VendorString(w)[7]
  {
  }

  /** Each known vendor's string gives that vendor. */
  lemma MatchVendorString(v: Vendor)
    requires v != Unknown
    ensures MatchVendor(VendorString(v)) == v && |VendorString(v)| == 12
  {
    var w := MatchVendor(VendorString(v));
    assert w != Unknown;
    if w != v {
      VendorStringsDiffer(v, w);
    }
  }

  /** The bytes of a register as they lie in memory, lowest first. */
  function RegBytes(r: bv32): seq<bv8>
  {
    [(r & 0xff) as bv8, ((r >> 8) & 0xff) as bv8, ((r >> 16) & 0xff) as bv8, ((r >> 24) & 0xff) as bv8]
  }

  /** The 13 bytes of the union: ebx, edx and ecx in that order, then the NUL at index 12. */
  function VendorBytes(b: bv32, d: bv32, c: bv32): (bs: seq<bv8>)
    ensures |bs| == 13 && bs[12] == 0
  {
    RegBytes(b) + RegBytes(d) + RegBytes(c) + [0]
  }

  /** A byte read as a character. */
  function ByteChar(x: bv8): char
  {
    (x as int) as char
  }

  /** The C string the bytes hold: the characters before the first NUL. */
  function CString(bs: seq<bv8>): string
    decreases |bs|
  {
    if bs == [] || bs[0] == 0 then [] else [ByteChar(bs[0])] + CString(bs[1..])
  }

  /** The C string is the characters of the bytes up to the first NUL, or of all of them when there is none. */
  lemma {:induction false} CStringStopsAtNul(bs: seq<bv8>)
    ensures |CString(bs)| <= |bs|
    ensures forall i :: 0 <= i < |CString(bs)| ==> bs[i] != 0 && CString(bs)[i] == ByteChar(bs[i])
    ensures |CString(bs)| < |bs| ==> bs[|CString(bs)|] == 0
    decreases |bs|
  {
    if bs != [] && bs[0] != 0 {
      CStringStopsAtNul(bs[1..]);
      var s := CString(bs);
      assert s == [ByteChar(bs[0])] + CString(bs[1..]);
      forall i | 0 <= i < |s|
        ensures bs[i] != 0 && s[i] == ByteChar(bs[i])
      {
        if i > 0 {
          assert s[i] == CString(bs[1..])[i - 1] && bs[i] == bs[1..][i - 1];
        }
      }
    }
  }

  /**
   * The registers cpuid leaf 0 returns on a CPU of each known vendor: ebx,
   * edx and ecx hold its string, four characters each, lowest byte first.
   */
  function VendorRegs(v: Vendor, maxLeaf: bv32): Regs
    requires v != Unknown
  {
    match v
    case Intel => Regs(maxLeaf, 0x756e6547, 0x6c65746e, 0x49656e69)
    case Umc => Regs(maxLeaf, 0x20434d55, 0x20434d55, 0x20434d55)
    case Amd => Regs(maxLeaf, 0x68747541, 0x444d4163, 0x69746e65)
    case Cyrix => Regs(maxLeaf, 0x69727943, 0x64616574, 0x736e4978)
    case NexGen => Regs(maxLeaf, 0x4778654e, 0x6e657669, 0x72446e65)
    case Centaur => Regs(maxLeaf, 0x746e6543, 0x736c7561, 0x48727561)
    case Rise => Regs(maxLeaf, 0x65736952, 0x65736952, 0x65736952)
    case Sis => Regs(maxLeaf, 0x20536953, 0x20536953, 0x20536953)
    case Transmeta => Regs(maxLeaf, 0x756e6547, 0x3638784d, 0x54656e69)
    case Nsc => Regs(maxLeaf, 0x646f6547, 0x43534e20, 0x79622065)
  }

  /** Bytes with no NUL before a final NUL hold the string of all the bytes before it. */
  lemma {:induction false} CStringUpToNul(bs: seq<bv8>, s: string)
    requires |bs| == |s| + 1 && bs[|s|] == 0
    requires forall i :: 0 <= i < |s| ==> bs[i] != 0 && ByteChar(bs[i]) == s[i]
    ensures CString(bs) == s
    decreases |s|
  {
    if s != [] {
      CStringUpToNul(bs[1..], s[1..]);
    }
  }

  /** The characters of a register's bytes, lowest first. */
  function RegChars(r: bv32): string
  {
    seq(4, k requires 0 <= k < 4 => ByteChar(RegBytes(r)[k]))
  }

  /** Registers whose bytes are the twelve characters of n, none of them NUL, hold n in the union. */
  lemma RegsHoldString(b: bv32, d: bv32, c: bv32, n: string)
    requires |n| == 12 && RegChars(b) + RegChars(d) + RegChars(c) == n
    requires 0 !in RegBytes(b) && 0 !in RegBytes(d) && 0 !in RegBytes(c)
    ensures CString(VendorBytes(b, d, c)) == n
  {
    var bs := VendorBytes(b, d, c);
    forall i | 0 <= i < 12
      ensures bs[i] != 0 && ByteChar(bs[i]) == n[i]
    {
      if i < 4 {
        assert bs[i] == RegBytes(b)[i] && n[i] == RegChars(b)[i];
      } else if i < 8 {
        assert bs[i] == RegBytes(d)[i - 4] && n[i] == RegChars(d)[i - 4];
      } else {
        assert bs[i] == RegBytes(c)[i - 8] && n[i] == RegChars(c)[i - 8];
      }
    }
    CStringUpToNul(bs, n);
  }

  /** The union read from a CPU of each known vendor holds that vendor's string, and is matched to it. */
  lemma DetectsEveryVendor(v: Vendor, maxLeaf: bv32)
    requires v != Unknown
    ensures var r := VendorRegs(v, maxLeaf);
            CString(VendorBytes(r.b, r.d, r.c)) == VendorString(v)
            && MatchVendor(CString(VendorBytes(r.b, r.d, r.c))) == v
  {
    MatchVendorString(v);
    match v
    case Intel => HoldsIntel();
    case Umc => HoldsUmc();
    case Amd => HoldsAmd();
    case Cyrix => HoldsCyrix();
    case NexGen => HoldsNexGen();
    case Centaur => HoldsCentaur();
    case Rise => HoldsRise();
    case Sis => HoldsSis();
    case Transmeta => HoldsTransmeta();
    case Nsc => HoldsNsc();
  }

  // The union of each known vendor's registers, one vendor at a time.

  lemma HoldsIntel()
    ensures CString(VendorBytes(0x756e6547, 0x49656e69, 0x6c65746e)) == "GenuineIntel"
  {
    RegsHoldString(0x756e6547, 0x49656e69, 0x6c65746e, "GenuineIntel");
  }

  lemma HoldsUmc()
    ensures CString(VendorBytes(0x20434d55, 0x20434d55, 0x20434d55)) == "UMC UMC UMC "
  {
    RegsHoldString(0x20434d55, 0x20434d55, 0x20434d55, "UMC UMC UMC ");
  }

  lemma HoldsAmd()
    ensures CString(VendorBytes(0x68747541, 0x69746e65, 0x444d4163)) == "AuthenticAMD"
  {
    RegsHoldString(0x68747541, 0x69746e65, 0x444d4163, "AuthenticAMD");
  }

  lemma HoldsCyrix()
    ensures CString(VendorBytes(0x69727943, 0x736e4978, 0x64616574)) == "CyrixInstead"
  {
    RegsHoldString(0x69727943, 0x736e4978, 0x64616574, "CyrixInstead");
  }

  lemma HoldsNexGen()
    ensures CString(VendorBytes(0x4778654e, 0x72446e65, 0x6e657669)) == "NexGenDriven"
  {
    RegsHoldString(0x4778654e, 0x72446e65, 0x6e657669, "NexGenDriven");
  }

  lemma HoldsCentaur()
    ensures CString(VendorBytes(0x746e6543, 0x48727561, 0x736c7561)) == "CentaurHauls"
  {
    RegsHoldString(0x746e6543, 0x48727561, 0x736c7561, "CentaurHauls");
  }

  lemma HoldsRise()
    ensures CString(VendorBytes(0x65736952, 0x65736952, 0x65736952)) == "RiseRiseRise"
  {
    RegsHoldString(0x65736952, 0x65736952, 0x65736952, "RiseRiseRise");
  }

  lemma HoldsSis()
    ensures CString(VendorBytes(0x20536953, 0x20536953, 0x20536953)) == "SiS SiS SiS "
  {
    RegsHoldString(0x20536953, 0x20536953, 0x20536953, "SiS SiS SiS ");
  }

  lemma HoldsTransmeta()
    ensures CString(VendorBytes(0x756e6547, 0x54656e69, 0x3638784d)) == "GenuineTMx86"
  {
    RegsHoldString(0x756e6547, 0x54656e69, 0x3638784d, "GenuineTMx86");
  }

  lemma HoldsNsc()
    ensures CString(VendorBytes(0x646f6547, 0x79622065, 0x43534e20)) == "Geode by NSC"
  {
    RegsHoldString(0x646f6547, 0x79622065, 0x43534e20, "Geode by NSC");
  }

  /** The vendor x86_cpu_detect reads from the union filled from cpuid leaf 0. */
  function VendorOf(leaf0: Regs): Vendor
  {
    MatchVendor(CString(VendorBytes(leaf0.b, leaf0.d, leaf0.c)))
  }

  // Family and model

  /** The fields of the cpuid leaf 1 signature in eax: BITS_SHIFT(a, hi, lo) is bits hi..lo of a. */
  function ModelField(a: bv32): (r: bv32)
    ensures r < 16
  {
    (a >> 4) & 0xf
  }

  function FamilyField(a: bv32): (r: bv32)
    ensures r < 16
  {
    (a >> 8) & 0xf
  }

  function ExtModelField(a: bv32): (r: bv32)
    ensures r < 16
  {
    (a >> 16) & 0xf
  }

  function ExtFamilyField(a: bv32): (r: bv32)
    ensures r < 256
  {
    (a >> 20) & 0xff
  }

  /** The CPU level, family and model x86_cpu_detect arrives at. */
  datatype Decoded = Decoded(level: CpuLevel, family: bv32, model: bv32)

  /**
   * The decode of the leaf 1 signature: family 4 is a 486 and 5 a Pentium,
   * anything else a Pentium Pro or later; family 6 on Intel takes the
   * extended model, family 0xf the extended model and the extended family.
   */
  function Decode(a: bv32, vendor: Vendor): Decoded
  {
    var family, model, extModel := FamilyField(a), ModelField(a), ExtModelField(a);
    if family == 4 then Decoded(Level486, family, model)
    else if family == 5 then Decoded(Pentium, family, model)
    else if family == 6 then
      Decoded(PentiumPro, family, if vendor == Intel then model | (extModel << 4) else model)
    else if family == 0xf then Decoded(PentiumPro, family + ExtFamilyField(a), model | (extModel << 4))
    else Decoded(PentiumPro, family, model)
  }

  /**
   * What the decode means: the level follows the family field alone; the
   * family is the family field, plus the extended family for family 0xf;
   * the low nibble of the model is the model field and the high nibble the
   * extended model where it extends the model, zero otherwise.
   */
  lemma DecodeRecoversFields(a: bv32, vendor: Vendor)
    ensures var r := Decode(a, vendor);
            (r.level == Level486 <==> FamilyField(a) == 4)
            && (r.level == Pentium <==> FamilyField(a) == 5)
            && (r.level == PentiumPro <==> FamilyField(a) != 4 && FamilyField(a) != 5)
            && r.family == FamilyField(a) + (if FamilyField(a) == 0xf then ExtFamilyField(a) else 0)
            && r.model & 0xf == ModelField(a)
            && r.model >> 4 == (if FamilyField(a) == 0xf || (FamilyField(a) == 6 && vendor == Intel)
                                then ExtModelField(a) else 0)
  {
    var m, e := ModelField(a), ExtModelField(a);
    assert (m | (e << 4)) & 0xf == m && (m | (e << 4)) >> 4 == e by {
      ModelNibbles(m, e);
    }
    assert m >> 4 == 0;
  }

  /** A model nibble and an extended model nibble side by side come apart again. */
  lemma ModelNibbles(m: bv32, e: bv32)
    requires m < 16 && e < 16
    ensures (m | (e << 4)) & 0xf == m && (m | (e << 4)) >> 4 == e
  {
  }

  /** The globals x86_cpu_detect sets: __x86_cpu_vendor, __x86_cpu_level, max_cpuid_leaf and max_cpuid_leaf_extended. */
  datatype Globals = Globals(vendor: Vendor, level: CpuLevel, maxLeaf: bv32, maxLeafExtended: bv32)

  /**
   * The first part of x86_cpu_detect: a Pentium at least, the highest basic
   * leaf, the vendor, and the highest extended leaf when leaf 0x80000000
   * reports one.
   */
  function ReadLeaves(g: Globals, leaf0: Regs, leafExt: Regs): Globals
  {
    Globals(VendorOf(leaf0), Pentium, leaf0.a, if leafExt.a >= 0x8000_0000 then leafExt.a else g.maxLeafExtended)
  }

  /** The second part: the level, family and model from leaf 1, when the highest basic leaf is at least 1. */
  function ReadSignature(g: Globals, leaf1: Regs): (Globals, Option<Decoded>)
  {
    if g.maxLeaf >= 1 then
      var d := Decode(leaf1.a, g.vendor);
      (g.(level := d.level), Some(d))
    else (g, None)
  }

  /** x86_cpu_detect on the globals, with leaf0, leafExt and leaf1 what cpuid returns for leaves 0, 0x80000000 and 1. */
  function Detected(g: Globals, leaf0: Regs, leafExt: Regs, leaf1: Regs): (Globals, Option<Decoded>)
  {
    ReadSignature(ReadLeaves(g, leaf0, leafExt), leaf1)
  }

  /**
   * What detection records: the highest basic leaf as reported; the vendor
   * matched from ebx, edx, ecx; the highest extended leaf only when it is
   * at least 0x80000000, the old value otherwise; and the level from leaf 1
   * when there is a leaf 1, Pentium otherwise.
   */
  lemma DetectedRecords(g: Globals, leaf0: Regs, leafExt: Regs, leaf1: Regs)
    ensures var (h, d) := Detected(g, leaf0, leafExt, leaf1);
            h.maxLeaf == leaf0.a
            && h.vendor == MatchVendor(CString(VendorBytes(leaf0.b, leaf0.d, leaf0.c)))
            && (leafExt.a >= 0x8000_0000 ==> h.maxLeafExtended == leafExt.a)
            && (leafExt.a < 0x8000_0000 ==> h.maxLeafExtended == g.maxLeafExtended)
            && (leaf0.a >= 1 <==> d.Some?)
            && (d.Some? ==> d.value == Decode(leaf1.a, h.vendor) && h.level == d.value.level)
            && (d.None? ==> h.level == Pentium)
  {
  }

  /** The driver's globals. */
  class CpuInfo {
    var vendor: Vendor
    var level: CpuLevel
    var maxLeaf: bv32
    var maxLeafExtended: bv32

    function State(): Globals
      reads this
    {
      Globals(vendor, level, maxLeaf, maxLeafExtended)
    }

    /** The globals before detection: Intel, a 386, no leaves. */
    constructor ()
      ensures State() == Globals(Intel, Level386, 0, 0)
    {
      vendor, level, maxLeaf, maxLeafExtended := Intel, Level386, 0, 0;
    }

    /**
     * x86_cpu_detect, with leaf0, leafExt and leaf1 what cpuid returns for
     * leaves 0, 0x80000000 and 1. The family and model are given back when
     * leaf 1 was read.
     */
    method Detect(leaf0: Regs, leafExt: Regs, leaf1: Regs) returns (decoded: Option<Decoded>)
      modifies this
      ensures (State(), decoded) == Detected(old(State()), leaf0, leafExt, leaf1)
    {
      DetectVendor(leaf0, leafExt);
      decoded := DetectLevel(leaf1);
    }

    /** The first part of x86_cpu_detect. */
    method DetectVendor(leaf0: Regs, leafExt: Regs)
      modifies this
      ensures State() == ReadLeaves(old(State()), leaf0, leafExt)
    {
      level := Pentium;
      maxLeaf := leaf0.a;
      vendor := VendorOf(leaf0);
      if leafExt.a >= 0x8000_0000 {
        maxLeafExtended := leafExt.a;
      }
    }

    /** The second part of x86_cpu_detect. */
    method DetectLevel(leaf1: Regs) returns (decoded: Option<Decoded>)
      modifies this
      ensures (State(), decoded) == ReadSignature(old(State()), leaf1)
    {
      decoded := None;
      if maxLeaf >= 1 {
        var d := DecodeSignature(leaf1.a, vendor);
        level := d.level;
        decoded := Some(d);
      }
    }
  }

  /** The level, family and model decode of x86_cpu_detect, step by step on its locals. */
  method DecodeSignature(a: bv32, vendor: Vendor) returns (d: Decoded)
    ensures d == Decode(a, vendor)
  {
    var level := PentiumPro;
    var extFamily, extModel := ExtFamilyField(a), ExtModelField(a);
    var family, model := FamilyField(a), ModelField(a);
    if family == 4 {
      level := Level486;
    } else if family == 5 {
      level := Pentium;
    } else if family == 6 {
      level := PentiumPro;
      if vendor == Intel {
        model := model | (extModel << 4);
      }
    } else if family == 0xf {
      level := PentiumPro;
      family := family + extFamily;
      model := model | (extModel << 4);
    } else {
      level := PentiumPro;
    }
    d := Decoded(level, family, model);
  }

}
