/**
 * The 68040 page tables of arch/m68k/mmu.c. The hardware walks three levels
 * of 128, 128 and 64 entries; the kernel presents them as 16, 64 and 1024
 * entries of 4 KiB tables by repeating each root entry 8 times and each L1
 * entry 16 times. A virtual address splits into bits 31..28 (L0), 27..22
 * (L1), 21..12 (L2) and a 4 KiB page offset.
 *
 * Addresses are 32 bits. The kernel root table is an array; the L1 and L2
 * tables live in physical memory and are modelled as maps from their
 * physical address to their entries. Page tables come from a pool of free
 * pages, which reads as zero.
 */
module M68kMmu {
  import opened Lk

  const W: nat := 0x1_0000_0000
  const PAGE_SIZE: nat := 0x1000
  /** The number of 4 KiB pages in the 32-bit space. */
  const PAGES: nat := 0x10_0000

  const L0_REPEATS: nat := 8
  const L1_REPEATS: nat := 16
  const L0_ENTRIES_RAW: nat := 128
  const L1_ENTRIES_RAW: nat := 1024
  const L2_ENTRIES_RAW: nat := 1024

  // get_l0_index, get_l1_index, get_l2_index

  function L0Index(v: nat): nat { (v / 0x1000_0000) % 16 }
  function L1Index(v: nat): nat { (v / 0x40_0000) % 64 }
  function L2Index(v: nat): nat { (v / 0x1000) % 1024 }

  /**
   * For a 32-bit address the three indices are below 16, 64 and 1024, and
   * together with the page offset they give the address back.
   */
  lemma IndicesDecompose(v: nat)
    requires v < W
    ensures L0Index(v) < 16 && L1Index(v) < 64 && L2Index(v) < 1024
    ensures v == L0Index(v) * 0x1000_0000 + L1Index(v) * 0x40_0000 + L2Index(v) * 0x1000 + v % PAGE_SIZE
  {
    var q := v / PAGE_SIZE;
    assert v == q * PAGE_SIZE + v % PAGE_SIZE;
    PageIndices(v);
    assert q == (q / 1024) * 1024 + q % 1024;
    assert q / 1024 == (q / 65536) * 64 + (q / 1024) % 64;
  }

  // The same indices on page numbers.

  function PageL0(q: nat): nat { q / 65536 }
  function PageL1(q: nat): nat { (q / 1024) % 64 }
  function PageL2(q: nat): nat { q % 1024 }

  lemma DivDiv(x: nat, a: nat, b: nat)
    requires a > 0 && b > 0
    ensures x / a / b == x / (a * b)
  {
    var q, r, s := x / a / b, (x / a) % b, x % a;
    assert x / a == q * b + r;
    assert x == q * (a * b) + (r * a + s) by {
      assert x == (x / a) * a + s;
      assert (q * b + r) * a == q * (a * b) + r * a;
    }
    assert r * a <= a * b - a by {
      if r < b - 1 {
        MulAtLeast(b - 1 - r, a);
      }
      assert (b - 1 - r) * a == a * b - a - r * a;
    }
    DivModUnique(x, a * b, q, r * a + s);
  }

  lemma PageIndices(v: nat)
    requires v < W
    ensures v / PAGE_SIZE < PAGES
    ensures L0Index(v) == PageL0(v / PAGE_SIZE) < 16
    ensures L1Index(v) == PageL1(v / PAGE_SIZE)
    ensures L2Index(v) == PageL2(v / PAGE_SIZE)
  {
    DivDiv(v, PAGE_SIZE, 65536);
    DivDiv(v, PAGE_SIZE, 1024);
  }

  /** 68040 root table entry (root_ptp_t); the reserved bits are zero. */
  datatype RootPtp = RootPtp(tableAddress: nat, u: nat, w: nat, udt: nat)
  /** 68040 pointer table entry (ptp_t). */
  datatype Ptp = Ptp(tableAddress: nat, u: nat, w: nat, udt: nat)
  /** 68040 page descriptor (pte_t). */
  datatype Pte = Pte(pageAddress: nat, ur: nat, g: nat, u1: nat, u0: nat, s: nat, cm: nat, m: nat, u: nat, w: nat, pdt: nat)

  /** is_l0_entry_valid: udt 2 and 3 mean resident, but only 3 is taken as valid. */
  predicate L0Valid(e: RootPtp) { e.udt > 2 }
  /** is_l1_entry_valid. */
  predicate L1Valid(e: Ptp) { e.udt > 2 }
  /** is_l2_entry_valid: pdt 1 or 2. */
  predicate L2Valid(e: Pte) { e.pdt == 1 || e.pdt == 2 }

  /** Repeat i of map_l0: the i-th 512-byte slice of the L1 table at paddr, resident. */
  function RootEntryFor(paddr: nat, i: nat): (e: RootPtp)
    requires paddr < W
    ensures e.tableAddress < 0x80_0000 && e.tableAddress * 512 <= (paddr + i * 512) % W < e.tableAddress * 512 + 512
  {
    RootPtp(((paddr + i * 512) % W) / 512, 0, 0, 3)
  }

  /** Repeat i of map_l1: the i-th 256-byte slice of the L2 table at paddr, resident. */
  function PtpFor(paddr: nat, i: nat): (e: Ptp)
    requires paddr < W
    ensures e.tableAddress < 0x100_0000 && e.tableAddress * 256 <= (paddr + i * 256) % W < e.tableAddress * 256 + 256
  {
    Ptp(((paddr + i * 256) % W) / 256, 0, 0, 3)
  }

  /** map_l2's descriptor: the page holding addr, supervisor only, resident. */
  function PteFor(addr: nat): (e: Pte)
    requires addr < W
    ensures e.pageAddress < 0x10_0000 && e.pageAddress * PAGE_SIZE <= addr < e.pageAddress * PAGE_SIZE + PAGE_SIZE
  {
    Pte(addr / PAGE_SIZE, 0, 0, 0, 0, 1, 0, 0, 0, 0, 1)
  }

  const ZeroRoot := RootPtp(0, 0, 0, 0)
  const ZeroPtp := Ptp(0, 0, 0, 0)
  const ZeroPte := Pte(0, 0, 0, 0, 0, 0, 0, 0, 0, 0, 0)

  /** Every entry this file writes is valid, and a table that reads as zero is invalid throughout. */
  lemma WrittenEntriesValid(paddr: nat, i: nat, addr: nat)
    requires paddr < W && addr < W
    ensures L0Valid(RootEntryFor(paddr, i)) && L1Valid(PtpFor(paddr, i)) && L2Valid(PteFor(addr))
    ensures !L0Valid(ZeroRoot) && !L1Valid(ZeroPtp) && !L2Valid(ZeroPte)
  {
  }

  /** The root table after map_l0(vaddr, paddr): the 8 entries of group L0Index(vaddr) point at the 8 slices of paddr. */
  function MapRoot(root: seq<RootPtp>, g0: nat, paddr: nat): seq<RootPtp>
    requires |root| == L0_ENTRIES_RAW && g0 < 16 && paddr < W
  {
    seq(L0_ENTRIES_RAW, r requires 0 <= r < L0_ENTRIES_RAW =>
      if g0 * 8 <= r < g0 * 8 + 8 then RootEntryFor(paddr, r - g0 * 8) else root[r])
  }

  /** An L1 table after map_l1(vaddr, paddr): the 16 entries of group L1Index(vaddr) point at the 16 slices of paddr. */
  function MapL1Table(tbl: seq<Ptp>, g1: nat, paddr: nat): seq<Ptp>
    requires |tbl| == L1_ENTRIES_RAW && g1 < 64 && paddr < W
  {
    seq(L1_ENTRIES_RAW, r requires 0 <= r < L1_ENTRIES_RAW =>
      if g1 * 16 <= r < g1 * 16 + 16 then PtpFor(paddr, r - g1 * 16) else tbl[r])
  }

  /** How bits 31..25 and 27..18 of an address relate to its L0 and L1 indices. */
  lemma RootSlices(v: nat)
    requires v < W
    ensures v / 0x200_0000 == L0Index(v) * 8 + (v / 0x200_0000) % 8
    ensures (v / 0x4_0000) % 1024 == ((v / 0x200_0000) % 8) * 128 + (v / 0x4_0000) % 128
    ensures ((v / 0x4_0000) % 1024) / 16 == L1Index(v)
  {
    var b := v / 0x4_0000;
    DivDiv(v, 0x4_0000, 128);
    DivDiv(v, 0x4_0000, 1024);
    DivDiv(v, 0x4_0000, 16);
    DivDiv(b, 128, 8);
    var m := b % 1024;
    assert b == (b / 1024) * 1024 + m;
    assert b == (b / 128) * 128 + b % 128;
    assert b / 128 == (b / 1024) * 8 + (b / 128) % 8;
    DivModUnique(b, 1024, b / 1024, ((b / 128) % 8) * 128 + b % 128);
    DivModUnique(b, 16, (b / 1024) * 64 + m / 16, m % 16);
    DivModUnique(b / 16, 64, b / 1024, m / 16);
  }

  /** How bits 27..18 and 21..12 of an address relate to its L1 and L2 indices. */
  lemma PointerSlices(v: nat)
    requires v < W
    ensures (v / 0x4_0000) % 1024 == L1Index(v) * 16 + (v / 0x4_0000) % 16
    ensures L2Index(v) == ((v / 0x4_0000) % 16) * 64 + (v / 0x1000) % 64
  {
    var b := v / 0x4_0000;
    var c := v / 0x1000;
    DivDiv(v, 0x4_0000, 16);
    DivDiv(b, 16, 64);
    DivDiv(v, 0x1000, 64);
    DivDiv(c, 64, 16);
    assert b == (b / 16) * 16 + b % 16;
    assert b / 16 == (b / 1024) * 64 + (b / 16) % 64;
    DivModUnique(b, 1024, b / 1024, ((b / 16) % 64) * 16 + b % 16);
    assert c == (c / 64) * 64 + c % 64;
    assert c / 64 == (c / 1024) * 16 + (c / 64) % 16;
    DivModUnique(c, 1024, c / 1024, ((c / 64) % 16) * 64 + c % 64);
  }

  /** Slice i of an aligned table: no wrap-around, and its address in 512- or 256-byte units. */
  lemma SliceAddress(paddr: nat, i: nat)
    requires paddr % PAGE_SIZE == 0 && paddr < W && i < 16
    ensures paddr / 512 * 512 == paddr && paddr / 256 * 256 == paddr
    ensures i < 8 ==> (paddr + i * 512) % W == paddr + i * 512 && (paddr + i * 512) / 512 == paddr / 512 + i
    ensures (paddr + i * 256) % W == paddr + i * 256 && (paddr + i * 256) / 256 == paddr / 256 + i
  {
    var k := paddr / PAGE_SIZE;
    assert paddr == k * 4096;
    assert paddr + 4096 <= W;
    DivModUnique(paddr, 512, k * 8, 0);
    DivModUnique(paddr, 256, k * 16, 0);
    if i < 8 {
      DivModUnique(paddr + i * 512, 512, k * 8 + i, 0);
    }
    DivModUnique(paddr + i * 256, 256, k * 16 + i, 0);
  }

  /**
   * What the hardware sees after map_l0: for any address in the group, the
   * root entry it indexes with bits 31..25, plus 4 times bits 24..18, is the
   * word of the 1024-entry L1 table at paddr that bits 27..18 select, which
   * lies among the 16 repeats of that address's L1 entry.
   */
  lemma HardwareSeesL1(root: seq<RootPtp>, vaddr: nat, paddr: nat, v: nat)
    requires |root| == L0_ENTRIES_RAW && vaddr < W && v < W && L0Index(v) == L0Index(vaddr)
    requires paddr % PAGE_SIZE == 0 && paddr < W
    ensures v / 0x200_0000 < L0_ENTRIES_RAW
    ensures var e := MapRoot(root, L0Index(vaddr), paddr)[v / 0x200_0000];
            e.tableAddress * 512 + 4 * ((v / 0x4_0000) % 128) == paddr + 4 * ((v / 0x4_0000) % 1024)
            && ((v / 0x4_0000) % 1024) / 16 == L1Index(v)
  {
    RootSlices(v);
    var i := (v / 0x200_0000) % 8;
    assert MapRoot(root, L0Index(vaddr), paddr)[v / 0x200_0000] == RootEntryFor(paddr, i);
    SliceAddress(paddr, i);
  }

  /**
   * What the hardware sees after map_l1: for any address in the group, the
   * repeat that bits 21..18 select, plus 4 times bits 17..12, is entry
   * L2Index of the 1024-entry L2 table at paddr.
   */
  lemma HardwareSeesL2(tbl: seq<Ptp>, vaddr: nat, paddr: nat, v: nat)
    requires |tbl| == L1_ENTRIES_RAW && vaddr < W && v < W && L1Index(v) == L1Index(vaddr)
    requires paddr % PAGE_SIZE == 0 && paddr < W
    ensures var e := MapL1Table(tbl, L1Index(vaddr), paddr)[(v / 0x4_0000) % 1024];
            e.tableAddress * 256 + 4 * ((v / 0x1000) % 64) == paddr + 4 * L2Index(v)
  {
    PointerSlices(v);
    var j := (v / 0x4_0000) % 16;
    assert MapL1Table(tbl, L1Index(vaddr), paddr)[(v / 0x4_0000) % 1024] == PtpFor(paddr, j);
    SliceAddress(paddr, j);
  }

  /** The page tables: the root table and the L1 and L2 tables by physical address. */
  datatype Tables = Tables(root: seq<RootPtp>, l1: map<nat, seq<Ptp>>, l2: map<nat, seq<Pte>>)

  /** The L1 table of L0 group g0, if its first root entry is valid. */
  function L1TableOf(root: seq<RootPtp>, g0: nat): Option<nat>
    requires |root| == L0_ENTRIES_RAW && g0 < 16
  {
    var e := root[g0 * 8];
    if L0Valid(e) then Some(e.tableAddress * 512) else None
  }

  /** The L2 table of L1 group g1 under L0 group g0. */
  function L2TableOf(root: seq<RootPtp>, l1: map<nat, seq<Ptp>>, g0: nat, g1: nat): Option<nat>
    requires |root| == L0_ENTRIES_RAW && g0 < 16 && g1 < 64
  {
    match L1TableOf(root, g0)
    case None => None
    case Some(t) =>
      if t in l1 && |l1[t]| == L1_ENTRIES_RAW && L1Valid(l1[t][g1 * 16])
      then Some(l1[t][g1 * 16].tableAddress * 256) else None
  }

  /** The valid descriptor of page q, following the first entry of every repeated group. */
  function LeafOf(ts: Tables, q: nat): Option<Pte>
    requires |ts.root| == L0_ENTRIES_RAW && q < PAGES
  {
    match L2TableOf(ts.root, ts.l1, PageL0(q), PageL1(q))
    case None => None
    case Some(t) =>
      if t in ts.l2 && |ts.l2[t]| == L2_ENTRIES_RAW && L2Valid(ts.l2[t][PageL2(q)])
      then Some(ts.l2[t][PageL2(q)]) else None
  }

  /** The physical address v translates to, if any. */
  function Translate(ts: Tables, v: nat): Option<nat>
    requires |ts.root| == L0_ENTRIES_RAW && v < W
  {
    match LeafOf(ts, v / PAGE_SIZE)
    case None => None
    case Some(e) => Some(e.pageAddress * PAGE_SIZE + v % PAGE_SIZE)
  }

  /**
   * Well-formed tables: every table has 1024 entries; every valid entry on
   * the walk points at a table; no two groups share a table; the free pool
   * holds distinct aligned pages that are no table yet.
   */
  predicate Wf(ts: Tables, pool: seq<nat>)
  {
    |ts.root| == L0_ENTRIES_RAW
    && (forall t :: t in ts.l1 ==> |ts.l1[t]| == L1_ENTRIES_RAW)
    && (forall t :: t in ts.l2 ==> |ts.l2[t]| == L2_ENTRIES_RAW)
    && (forall g0 :: g0 < 16 && L1TableOf(ts.root, g0).Some? ==> L1TableOf(ts.root, g0).value in ts.l1)
    && (forall g0, g1 :: g0 < 16 && g1 < 64 && L2TableOf(ts.root, ts.l1, g0, g1).Some? ==> L2TableOf(ts.root, ts.l1, g0, g1).value in ts.l2)
    && (forall g0, h0 :: g0 < 16 && h0 < 16 && L1TableOf(ts.root, g0).Some? && L1TableOf(ts.root, g0) == L1TableOf(ts.root, h0) ==> g0 == h0)
    && (forall g0, g1, h0, h1 ::
          (g0 < 16 && g1 < 64 && h0 < 16 && h1 < 64 && L2TableOf(ts.root, ts.l1, g0, g1).Some? && L2TableOf(ts.root, ts.l1, g0, g1) == L2TableOf(ts.root, ts.l1, h0, h1))
          ==> g0 == h0 && g1 == h1)
    && (forall i, j :: 0 <= i < j < |pool| ==> pool[i] != pool[j])
    && (forall i :: 0 <= i < |pool| ==> pool[i] !in ts.l1 && pool[i] !in ts.l2 && pool[i] % PAGE_SIZE == 0 && pool[i] < W)
  }

  /** The pool after its first page is taken keeps its properties. */
  lemma PoolTail(pool: seq<nat>, l1: map<nat, seq<Ptp>>, l2: map<nat, seq<Pte>>)
    requires pool != []
    requires forall i, j :: 0 <= i < j < |pool| ==> pool[i] != pool[j]
    requires forall i :: 0 <= i < |pool| ==> pool[i] !in l1 && pool[i] !in l2 && pool[i] % PAGE_SIZE == 0 && pool[i] < W
    ensures forall i, j :: 0 <= i < j < |pool[1..]| ==> pool[1..][i] != pool[1..][j]
    ensures forall i :: 0 <= i < |pool[1..]| ==>
              (pool[1..][i] != pool[0] && pool[1..][i] !in l1 && pool[1..][i] !in l2 && pool[1..][i] % PAGE_SIZE == 0 && pool[1..][i] < W)
  {
    forall i | 0 <= i < |pool[1..]|
      ensures pool[1..][i] == pool[i + 1] && pool[i + 1] != pool[0]
    {
    }
  }

  /** Taking page t for the L1 table of group g0: it reads as zero and map_l0 points the group at it. */
  function AllocL1(ts: Tables, g0: nat, t: nat): Tables
    requires |ts.root| == L0_ENTRIES_RAW && g0 < 16 && t < W
  {
    Tables(MapRoot(ts.root, g0, t), ts.l1[t := seq(L1_ENTRIES_RAW, _ => ZeroPtp)], ts.l2)
  }

  /** Taking page t for the L2 table of group g1 in the L1 table l1t: it reads as zero and map_l1 points the group at it. */
  function AllocL2(ts: Tables, l1t: nat, g1: nat, t: nat): Tables
    requires l1t in ts.l1 && |ts.l1[l1t]| == L1_ENTRIES_RAW && g1 < 64 && t < W
  {
    Tables(ts.root, ts.l1[l1t := MapL1Table(ts.l1[l1t], g1, t)], ts.l2[t := seq(L2_ENTRIES_RAW, _ => ZeroPte)])
  }

  /** map_l2: entry g2 of the L2 table l2t maps the page holding addr. */
  function SetLeaf(ts: Tables, l2t: nat, g2: nat, addr: nat): Tables
    requires l2t in ts.l2 && g2 < |ts.l2[l2t]| && addr < W
  {
    Tables(ts.root, ts.l1, ts.l2[l2t := ts.l2[l2t][g2 := PteFor(addr)]])
  }

  /** Giving a group with no L1 table a fresh one changes no translation and keeps the tables well formed. */
  lemma AllocL1Effect(ts: Tables, pool: seq<nat>, g0: nat)
    requires Wf(ts, pool) && pool != [] && g0 < 16 && L1TableOf(ts.root, g0).None?
    ensures var ts' := AllocL1(ts, g0, pool[0]);
            Wf(ts', pool[1..]) && L1TableOf(ts'.root, g0) == Some(pool[0])
            && (forall h0 :: h0 < 16 && h0 != g0 ==> L1TableOf(ts'.root, h0) == L1TableOf(ts.root, h0))
            && (forall q: nat :: q < PAGES ==> LeafOf(ts', q) == LeafOf(ts, q))
  {
    var t := pool[0];
    var ts' := AllocL1(ts, g0, t);
    PoolTail(pool, ts.l1, ts.l2);
    assert ts'.root[g0 * 8] == RootEntryFor(t, 0);
    SliceAddress(t, 0);
    assert L1TableOf(ts'.root, g0) == Some(t);
    forall h0 | h0 < 16 && h0 != g0
      ensures L1TableOf(ts'.root, h0) == L1TableOf(ts.root, h0)
    {
      assert ts'.root[h0 * 8] == ts.root[h0 * 8];
    }
    forall h0, h1 | h0 < 16 && h1 < 64
      ensures L2TableOf(ts'.root, ts'.l1, h0, h1) == if h0 == g0 then None else L2TableOf(ts.root, ts.l1, h0, h1)
    {
      if h0 == g0 {
        assert ts'.l1[t][h1 * 16] == ZeroPtp;
      } else if L1TableOf(ts.root, h0).Some? {
        assert L1TableOf(ts.root, h0).value != t;
      }
    }
    forall q: nat | q < PAGES
      ensures LeafOf(ts', q) == LeafOf(ts, q)
    {
      if PageL0(q) == g0 {
        assert L2TableOf(ts.root, ts.l1, g0, PageL1(q)).None?;
      }
    }
  }

  /** Giving an L1 group with no L2 table a fresh one changes no translation and keeps the tables well formed. */
  lemma AllocL2Effect(ts: Tables, pool: seq<nat>, g0: nat, g1: nat)
    requires Wf(ts, pool) && pool != [] && g0 < 16 && g1 < 64
    requires L1TableOf(ts.root, g0).Some? && L2TableOf(ts.root, ts.l1, g0, g1).None?
    ensures L1TableOf(ts.root, g0).value in ts.l1
    ensures var ts' := AllocL2(ts, L1TableOf(ts.root, g0).value, g1, pool[0]);
            Wf(ts', pool[1..]) && L2TableOf(ts'.root, ts'.l1, g0, g1) == Some(pool[0])
            && ts'.root == ts.root
            && (forall h0, h1 :: h0 < 16 && h1 < 64 && (h0, h1) != (g0, g1) ==> L2TableOf(ts'.root, ts'.l1, h0, h1) == L2TableOf(ts.root, ts.l1, h0, h1))
            && (forall q: nat :: q < PAGES ==> LeafOf(ts', q) == LeafOf(ts, q))
  {
    var l1t := L1TableOf(ts.root, g0).value;
    var t := pool[0];
    var ts' := AllocL2(ts, l1t, g1, t);
    PoolTail(pool, ts.l1, ts.l2);
    assert ts'.l1[l1t][g1 * 16] == PtpFor(t, 0);
    SliceAddress(t, 0);
    assert L2TableOf(ts'.root, ts'.l1, g0, g1) == Some(t);
    forall h0, h1 | h0 < 16 && h1 < 64 && (h0, h1) != (g0, g1)
      ensures L2TableOf(ts'.root, ts'.l1, h0, h1) == L2TableOf(ts.root, ts.l1, h0, h1)
    {
      if h0 == g0 {
        assert ts'.l1[l1t][h1 * 16] == ts.l1[l1t][h1 * 16];
      } else if L1TableOf(ts.root, h0).Some? {
        assert L1TableOf(ts.root, h0).value != l1t;
      }
    }
    forall q: nat | q < PAGES
      ensures LeafOf(ts', q) == LeafOf(ts, q)
    {
      if (PageL0(q), PageL1(q)) != (g0, g1) && L2TableOf(ts.root, ts.l1, PageL0(q), PageL1(q)).Some? {
        assert L2TableOf(ts.root, ts.l1, PageL0(q), PageL1(q)).value != t;
      }
    }
  }

  /** Two pages with the same three indices are the same page. */
  lemma PagesDiffer(q: nat, q0: nat)
    requires q < PAGES && q0 < PAGES && q != q0 && PageL0(q) == PageL0(q0) && PageL1(q) == PageL1(q0)
    ensures PageL2(q) != PageL2(q0)
  {
    DivDiv(q, 1024, 64);
    DivDiv(q0, 1024, 64);
    var a, a0 := q / 1024, q0 / 1024;
    assert a == (a / 64) * 64 + a % 64 && a0 == (a0 / 64) * 64 + a0 % 64;
    assert a == a0;
    assert q == a * 1024 + q % 1024 && q0 == a0 * 1024 + q0 % 1024;
  }

  /** map_l2 on the walk of page q0 maps q0 and changes no other page. */
  lemma SetLeafEffect(ts: Tables, pool: seq<nat>, q0: nat, addr: nat)
    requires Wf(ts, pool) && q0 < PAGES && addr < W && L2TableOf(ts.root, ts.l1, PageL0(q0), PageL1(q0)).Some?
    ensures L2TableOf(ts.root, ts.l1, PageL0(q0), PageL1(q0)).value in ts.l2
    ensures var ts' := SetLeaf(ts, L2TableOf(ts.root, ts.l1, PageL0(q0), PageL1(q0)).value, PageL2(q0), addr);
            Wf(ts', pool) && ts'.root == ts.root && ts'.l1 == ts.l1
            && LeafOf(ts', q0) == Some(PteFor(addr))
            && (forall q: nat :: q < PAGES && q != q0 ==> LeafOf(ts', q) == LeafOf(ts, q))
  {
    var t := L2TableOf(ts.root, ts.l1, PageL0(q0), PageL1(q0)).value;
    var ts' := SetLeaf(ts, t, PageL2(q0), addr);
    forall h0, h1 | h0 < 16 && h1 < 64
      ensures L2TableOf(ts'.root, ts'.l1, h0, h1) == L2TableOf(ts.root, ts.l1, h0, h1)
    {
    }
    forall q: nat | q < PAGES && q != q0
      ensures LeafOf(ts', q) == LeafOf(ts, q)
    {
      if (PageL0(q), PageL1(q)) == (PageL0(q0), PageL1(q0)) {
        PagesDiffer(q, q0);
      } else if L2TableOf(ts.root, ts.l1, PageL0(q), PageL1(q)).Some? {
        assert L2TableOf(ts.root, ts.l1, PageL0(q), PageL1(q)).value != t;
      }
    }
  }

  // Walking a range page by page

  /** The k-th page after an aligned address: its page number, and it stays aligned. */
  lemma PageStep(a: nat, k: nat)
    requires a < W && a % PAGE_SIZE == 0
    ensures ((a + k * PAGE_SIZE) % W) / PAGE_SIZE == (a / PAGE_SIZE + k) % PAGES
    ensures ((a + k * PAGE_SIZE) % W) % PAGE_SIZE == 0
  {
    var m := a / PAGE_SIZE + k;
    assert a + k * PAGE_SIZE == m * PAGE_SIZE;
    assert m * PAGE_SIZE == (m / PAGES) * W + (m % PAGES) * PAGE_SIZE by {
      assert m == (m / PAGES) * PAGES + m % PAGES;
    }
    DivModUnique(a + k * PAGE_SIZE, W, m / PAGES, (m % PAGES) * PAGE_SIZE);
    DivModUnique((m % PAGES) * PAGE_SIZE, PAGE_SIZE, m % PAGES, 0);
  }

  /** How far page q lies after page b, going up and wrapping at the top. */
  function Distance(b: nat, q: nat): nat
  {
    (q - b) % PAGES
  }

  lemma DistanceOfStep(b: nat, k: nat)
    requires b < PAGES && k < PAGES
    ensures Distance(b, (b + k) % PAGES) == k
  {
  }

  /** Moving to the next page: staying in an L2 table keeps both upper indices, staying in an L1 table keeps the L0 index. */
  lemma NextPageGroups(q: nat)
    requires q < PAGES
    ensures var q' := (q + 1) % PAGES;
            (PageL2(q') != 0 ==> PageL0(q') == PageL0(q) && PageL1(q') == PageL1(q))
            && (PageL1(q') != 0 ==> PageL0(q') == PageL0(q))
  {
  }

  /** The walk reaches the terminal address exactly after the last page. */
  lemma TerminalReached(a: nat, n: nat, k: nat)
    requires a < W && a % PAGE_SIZE == 0 && 1 <= k <= n <= PAGES
    ensures (a + k * PAGE_SIZE) % W == (a + n * PAGE_SIZE) % W <==> k == n
  {
    PageStep(a, k);
    PageStep(a, n);
    var x, y := (a + k * PAGE_SIZE) % W, (a + n * PAGE_SIZE) % W;
    assert x == (x / PAGE_SIZE) * PAGE_SIZE && y == (y / PAGE_SIZE) * PAGE_SIZE;
    if k < n {
      DistanceOfStep(a / PAGE_SIZE, k);
      if n < PAGES {
        DistanceOfStep(a / PAGE_SIZE, n);
      } else {
        assert (a / PAGE_SIZE + n) % PAGES == a / PAGE_SIZE;
      }
      assert x / PAGE_SIZE != y / PAGE_SIZE;
    }
  }

  /** The first d pages from page b map to the pages from pa on. */
  predicate MappedPrefix(ts: Tables, b: nat, pa: nat, d: nat)
    requires |ts.root| == L0_ENTRIES_RAW
  {
    forall k: nat :: k < d ==> LeafOf(ts, (b + k) % PAGES) == Some(PteFor((pa + k * PAGE_SIZE) % W))
  }

  /** Every page at distance d or more from page b is as in ts0. */
  predicate Outside(ts: Tables, ts0: Tables, b: nat, d: nat)
    requires |ts.root| == L0_ENTRIES_RAW && |ts0.root| == L0_ENTRIES_RAW
  {
    forall q: nat :: q < PAGES && Distance(b, q) >= d ==> LeafOf(ts, q) == LeafOf(ts0, q)
  }

  /** Every L1 and L2 table of ts0 is still in place in ts. */
  predicate KeepsTables(ts: Tables, ts0: Tables)
    requires |ts.root| == L0_ENTRIES_RAW && |ts0.root| == L0_ENTRIES_RAW
  {
    (forall g0 :: g0 < 16 && L1TableOf(ts0.root, g0).Some? ==> L1TableOf(ts.root, g0) == L1TableOf(ts0.root, g0))
    && (forall g0, g1 :: g0 < 16 && g1 < 64 && L2TableOf(ts0.root, ts0.l1, g0, g1).Some? ==>
          L2TableOf(ts.root, ts.l1, g0, g1) == L2TableOf(ts0.root, ts0.l1, g0, g1))
  }

  /** A step that changes no page keeps what the walk has established. */
  lemma SameLeaves(ts: Tables, ts': Tables, ts0: Tables, b: nat, pa: nat, d: nat)
    requires |ts.root| == L0_ENTRIES_RAW && |ts'.root| == L0_ENTRIES_RAW && |ts0.root| == L0_ENTRIES_RAW
    requires forall q: nat :: q < PAGES ==> LeafOf(ts', q) == LeafOf(ts, q)
    requires MappedPrefix(ts, b, pa, d) && Outside(ts, ts0, b, d)
    ensures MappedPrefix(ts', b, pa, d) && Outside(ts', ts0, b, d)
  {
  }

  /** Mapping the page at distance d extends the mapped prefix by one and leaves every page further out alone. */
  lemma MapStep(ts: Tables, ts': Tables, ts0: Tables, b: nat, pa: nat, d: nat)
    requires |ts.root| == L0_ENTRIES_RAW && |ts'.root| == L0_ENTRIES_RAW && |ts0.root| == L0_ENTRIES_RAW
    requires b < PAGES && d < PAGES && pa < W
    requires MappedPrefix(ts, b, pa, d) && Outside(ts, ts0, b, d)
    requires LeafOf(ts', (b + d) % PAGES) == Some(PteFor((pa + d * PAGE_SIZE) % W))
    requires forall q: nat :: q < PAGES && q != (b + d) % PAGES ==> LeafOf(ts', q) == LeafOf(ts, q)
    ensures MappedPrefix(ts', b, pa, d + 1) && Outside(ts', ts0, b, d + 1)
  {
    var q0 := (b + d) % PAGES;
    DistanceOfStep(b, d);
    forall k: nat | k < d + 1
      ensures LeafOf(ts', (b + k) % PAGES) == Some(PteFor((pa + k * PAGE_SIZE) % W))
    {
      if k < d {
        DistanceOfStep(b, k);
        assert (b + k) % PAGES != q0;
      }
    }
  }

  /** A mapped page translates every address in it to the same offset in the physical page. */
  lemma LeafTranslates(ts: Tables, v: nat, addr: nat)
    requires |ts.root| == L0_ENTRIES_RAW && v < W && addr < W && addr % PAGE_SIZE == 0
    requires LeafOf(ts, v / PAGE_SIZE) == Some(PteFor(addr))
    ensures Translate(ts, v) == Some(addr + v % PAGE_SIZE)
  {
    assert addr == (addr / PAGE_SIZE) * PAGE_SIZE;
  }

  /**
   * After map_range, every address at offset off of the k-th page of the
   * range translates to the same offset of the k-th physical page.
   */
  lemma MappedTranslates(ts: Tables, va: nat, pa: nat, n: nat, k: nat, off: nat)
    requires |ts.root| == L0_ENTRIES_RAW && va < W && va % PAGE_SIZE == 0 && pa < W && pa % PAGE_SIZE == 0
    requires MappedPrefix(ts, va / PAGE_SIZE, pa, n) && k < n && off < PAGE_SIZE
    ensures (va + k * PAGE_SIZE) % W + off < W
    ensures Translate(ts, (va + k * PAGE_SIZE) % W + off) == Some((pa + k * PAGE_SIZE) % W + off)
  {
    var x := (va + k * PAGE_SIZE) % W;
    PageStep(va, k);
    PageStep(pa, k);
    var v := x + off;
    assert x == (x / PAGE_SIZE) * PAGE_SIZE;
    DivModUnique(v, PAGE_SIZE, x / PAGE_SIZE, off);
    assert x / PAGE_SIZE < PAGES;
    LeafTranslates(ts, v, (pa + k * PAGE_SIZE) % W);
  }

  /**
   * The state of map_range after done pages: well-formed tables, the
   * cursors at the next virtual and physical page, the first done pages
   * mapped, every other page and every table of ts0 as they were.
   */
  predicate RangeInv(ts: Tables, pool: seq<nat>, ts0: Tables, va: nat, pa: nat, n: nat, done: nat, v: nat, p: nat)
  {
    Wf(ts, pool) && |ts0.root| == L0_ENTRIES_RAW
    && va < W && va % PAGE_SIZE == 0 && pa < W && pa % PAGE_SIZE == 0 && 1 <= n <= PAGES && done <= n
    && v == (va + done * PAGE_SIZE) % W && p == (pa + done * PAGE_SIZE) % W
    && MappedPrefix(ts, va / PAGE_SIZE, pa, done) && Outside(ts, ts0, va / PAGE_SIZE, done) && KeepsTables(ts, ts0)
  }

  /** Before the first page. */
  lemma RangeStart(ts: Tables, pool: seq<nat>, va: nat, pa: nat, n: nat)
    requires Wf(ts, pool) && va < W && va % PAGE_SIZE == 0 && pa < W && pa % PAGE_SIZE == 0 && 1 <= n <= PAGES
    ensures RangeInv(ts, pool, ts, va, pa, n, 0, va, pa)
  {
  }

  /** The root entry of the group of v is valid exactly when the group has an L1 table, which is then in place. */
  lemma ReadRoot(ts: Tables, pool: seq<nat>, v: nat)
    requires Wf(ts, pool) && v < W
    ensures L0Index(v) < 16
    ensures L0Valid(ts.root[L0Index(v) * 8]) <==> L1TableOf(ts.root, L0Index(v)).Some?
    ensures L0Valid(ts.root[L0Index(v) * 8]) ==> L1TableOf(ts.root, L0Index(v)) == Some(ts.root[L0Index(v) * 8].tableAddress * 512)
  {
  }

  /** The L1 entry of the group of v is valid exactly when the group has an L2 table, which is then in place. */
  lemma ReadPointer(ts: Tables, pool: seq<nat>, v: nat, l1t: nat)
    requires Wf(ts, pool) && v < W && L1TableOf(ts.root, L0Index(v)) == Some(l1t)
    ensures l1t in ts.l1 && |ts.l1[l1t]| == L1_ENTRIES_RAW && L1Index(v) < 64
    ensures L1Valid(ts.l1[l1t][L1Index(v) * 16]) <==> L2TableOf(ts.root, ts.l1, L0Index(v), L1Index(v)).Some?
    ensures L1Valid(ts.l1[l1t][L1Index(v) * 16]) ==>
              L2TableOf(ts.root, ts.l1, L0Index(v), L1Index(v)) == Some(ts.l1[l1t][L1Index(v) * 16].tableAddress * 256)
  {
  }

  /** Allocating and linking an L1 table for the group of v keeps the walk's state. */
  lemma RangeAllocL1(ts: Tables, pool: seq<nat>, ts0: Tables, va: nat, pa: nat, n: nat, done: nat, v: nat, p: nat)
    requires RangeInv(ts, pool, ts0, va, pa, n, done, v, p) && done < n && pool != []
    requires L1TableOf(ts.root, L0Index(v)).None?
    ensures L0Index(v) < 16 && pool[0] < W
    ensures RangeInv(AllocL1(ts, L0Index(v), pool[0]), pool[1..], ts0, va, pa, n, done, v, p)
    ensures L1TableOf(AllocL1(ts, L0Index(v), pool[0]).root, L0Index(v)) == Some(pool[0])
  {
    PageStep(va, done);
    var g0 := L0Index(v);
    var ts' := AllocL1(ts, g0, pool[0]);
    AllocL1Effect(ts, pool, g0);
    SameLeaves(ts, ts', ts0, va / PAGE_SIZE, pa, done);
    forall h0 | h0 < 16 && L1TableOf(ts0.root, h0).Some?
      ensures L1TableOf(ts'.root, h0) == L1TableOf(ts0.root, h0)
    {
      assert h0 != g0;
    }
    forall h0, h1 | h0 < 16 && h1 < 64 && L2TableOf(ts0.root, ts0.l1, h0, h1).Some?
      ensures L2TableOf(ts'.root, ts'.l1, h0, h1) == L2TableOf(ts0.root, ts0.l1, h0, h1)
    {
      assert h0 != g0;
      assert ts'.root[h0 * 8] == ts.root[h0 * 8];
      assert L1TableOf(ts.root, h0).value != pool[0];
    }
  }

  /** Allocating and linking an L2 table for the groups of v keeps the walk's state. */
  lemma RangeAllocL2(ts: Tables, pool: seq<nat>, ts0: Tables, va: nat, pa: nat, n: nat, done: nat, v: nat, p: nat, l1t: nat)
    requires RangeInv(ts, pool, ts0, va, pa, n, done, v, p) && done < n && pool != []
    requires L1TableOf(ts.root, L0Index(v)) == Some(l1t) && L2TableOf(ts.root, ts.l1, L0Index(v), L1Index(v)).None?
    ensures l1t in ts.l1 && |ts.l1[l1t]| == L1_ENTRIES_RAW && L1Index(v) < 64 && pool[0] < W
    ensures RangeInv(AllocL2(ts, l1t, L1Index(v), pool[0]), pool[1..], ts0, va, pa, n, done, v, p)
    ensures L2TableOf(ts.root, AllocL2(ts, l1t, L1Index(v), pool[0]).l1, L0Index(v), L1Index(v)) == Some(pool[0])
    ensures AllocL2(ts, l1t, L1Index(v), pool[0]).root == ts.root
  {
    PageStep(va, done);
    var g0, g1 := L0Index(v), L1Index(v);
    var ts' := AllocL2(ts, l1t, g1, pool[0]);
    AllocL2Effect(ts, pool, g0, g1);
    SameLeaves(ts, ts', ts0, va / PAGE_SIZE, pa, done);
    forall h0, h1 | h0 < 16 && h1 < 64 && L2TableOf(ts0.root, ts0.l1, h0, h1).Some?
      ensures L2TableOf(ts'.root, ts'.l1, h0, h1) == L2TableOf(ts0.root, ts0.l1, h0, h1)
    {
      assert (h0, h1) != (g0, g1);
    }
  }

  /** Advancing a cursor by one page keeps it at the page after the start. */
  lemma CursorStep(a: nat, k: nat)
    ensures ((a + k * PAGE_SIZE) % W + PAGE_SIZE) % W == (a + (k + 1) * PAGE_SIZE) % W
  {
    var x := a + k * PAGE_SIZE;
    DivModUnique(x + PAGE_SIZE, W, x / W + (x % W + PAGE_SIZE) / W, (x % W + PAGE_SIZE) % W);
  }

  /** Mapping the page at v moves the walk's state on by one page. */
  lemma RangeMapPage(ts: Tables, pool: seq<nat>, ts0: Tables, va: nat, pa: nat, n: nat, done: nat, v: nat, p: nat, l2t: nat)
    requires RangeInv(ts, pool, ts0, va, pa, n, done, v, p) && done < n
    requires L2TableOf(ts.root, ts.l1, L0Index(v), L1Index(v)) == Some(l2t)
    ensures l2t in ts.l2 && |ts.l2[l2t]| == L2_ENTRIES_RAW && L2Index(v) < 1024 && p < W && v < W
    ensures RangeInv(SetLeaf(ts, l2t, L2Index(v), p), pool, ts0, va, pa, n, done + 1, (v + PAGE_SIZE) % W, (p + PAGE_SIZE) % W)
  {
    var b := va / PAGE_SIZE;
    PageStep(va, done);
    PageStep(pa, done);
    PageIndices(v);
    SetLeafEffect(ts, pool, v / PAGE_SIZE, p);
    MapStep(ts, SetLeaf(ts, l2t, L2Index(v), p), ts0, b, pa, done);
    CursorStep(va, done);
    CursorStep(pa, done);
  }

  /** The cursor reaches the terminal address exactly after the last page. */
  lemma RangeTerminal(va: nat, n: nat, done: nat, v: nat)
    requires va < W && va % PAGE_SIZE == 0 && done < n <= PAGES && v == (va + done * PAGE_SIZE) % W
    ensures (v + PAGE_SIZE) % W == (va + n * PAGE_SIZE) % W <==> done + 1 == n
  {
    CursorStep(va, done);
    TerminalReached(va, n, done + 1);
  }

  /** Moving an aligned cursor on by one page: staying in the same L2 (or L1) table keeps the upper indices. */
  lemma CursorGroups(v: nat)
    requires v < W && v % PAGE_SIZE == 0
    ensures var v' := (v + PAGE_SIZE) % W;
            (L2Index(v') != 0 ==> L0Index(v') == L0Index(v) && L1Index(v') == L1Index(v))
            && (L1Index(v') != 0 ==> L0Index(v') == L0Index(v))
  {
    PageStep(v, 1);
    PageIndices(v);
    PageIndices((v + PAGE_SIZE) % W);
    NextPageGroups(v / PAGE_SIZE);
  }

  /** map_l0: the 8 repeats of the group of vaddr point at the slices of the L1 table at paddr. */
  method MapL0(table: array<RootPtp>, vaddr: nat, paddr: nat)
    requires table.Length == L0_ENTRIES_RAW && paddr < W
    modifies table
    ensures table[..] == MapRoot(old(table[..]), L0Index(vaddr), paddr)
  {
    var base := L0Index(vaddr) * L0_REPEATS;
    for i := 0 to L0_REPEATS
      invariant forall r :: 0 <= r < L0_ENTRIES_RAW ==>
                  table[r] == if base <= r < base + i then RootEntryFor(paddr, r - base) else old(table[r])
    {
      var pa := (paddr + i * 512) % W;
      table[base + i] := RootPtp(pa / 512, 0, 0, 3);
    }
    assert table[..] == MapRoot(old(table[..]), L0Index(vaddr), paddr);
  }

  /** The kernel's page tables and the free pages page tables are taken from. */
  class PageTables {
    /** kernel_pgtable. */
    const root: array<RootPtp>
    var l1: map<nat, seq<Ptp>>
    var l2: map<nat, seq<Pte>>
    var pool: seq<nat>

    function State(): Tables
      reads this, root
    {
      Tables(root[..], l1, l2)
    }

    predicate Valid()
      reads this, root
    {
      Wf(State(), pool)
    }

    /** An empty root table and the given free pages. */
    constructor (free: seq<nat>)
      requires forall i, j :: 0 <= i < j < |free| ==> free[i] != free[j]
      requires forall i :: 0 <= i < |free| ==> free[i] % PAGE_SIZE == 0 && free[i] < W
      ensures Valid() && fresh(root) && l1 == map[] && l2 == map[] && pool == free
      ensures forall q: nat :: q < PAGES ==> LeafOf(State(), q) == None
    {
      root := new RootPtp[L0_ENTRIES_RAW](_ => ZeroRoot);
      l1 := map[];
      l2 := map[];
      pool := free;
      new;
      forall g0 | g0 < 16
        ensures L1TableOf(root[..], g0) == None
      {
        assert root[..][g0 * 8] == ZeroRoot;
      }
    }

    /** map_l1 on the L1 table at t: the 16 repeats of the group of vaddr point at the slices of the L2 table at paddr. */
    method MapL1(t: nat, vaddr: nat, paddr: nat)
      requires t in l1 && |l1[t]| == L1_ENTRIES_RAW && paddr < W
      modifies this
      ensures l1 == old(l1)[t := MapL1Table(old(l1[t]), L1Index(vaddr), paddr)]
      ensures l2 == old(l2) && pool == old(pool) && root[..] == old(root[..])
    {
      var base := L1Index(vaddr) * L1_REPEATS;
      var tbl := l1[t];
      for i := 0 to L1_REPEATS
        invariant |tbl| == L1_ENTRIES_RAW
        invariant forall r :: 0 <= r < L1_ENTRIES_RAW ==>
                    tbl[r] == if base <= r < base + i then PtpFor(paddr, r - base) else old(l1[t])[r]
      {
        var pa := (paddr + i * 256) % W;
        tbl := tbl[base + i := Ptp(pa / 256, 0, 0, 3)];
      }
      assert tbl == MapL1Table(old(l1[t]), L1Index(vaddr), paddr);
      l1 := l1[t := tbl];
    }

    /** map_l2 on the L2 table at t: entry L2Index(vaddr) maps the page holding addr. */
    method MapL2(t: nat, vaddr: nat, addr: nat)
      requires t in l2 && |l2[t]| == L2_ENTRIES_RAW && addr < W
      modifies this
      ensures State() == SetLeaf(old(State()), t, L2Index(vaddr), addr) && pool == old(pool)
    {
      var idx := L2Index(vaddr);
      l2 := l2[t := l2[t][idx := Pte(addr / PAGE_SIZE, 0, 0, 0, 0, 1, 0, 0, 0, 0, 1)]];
    }

    /** alloc_pgtable: the next free page, or ERR_NO_MEMORY when there is none. */
    method AllocPgtable() returns (err: Status, t: nat)
      modifies this
      ensures old(pool) == [] ==> err == ErrNoMemory && pool == old(pool)
      ensures old(pool) != [] ==> err == NoError && t == old(pool[0]) && pool == old(pool[1..])
      ensures l1 == old(l1) && l2 == old(l2) && root[..] == old(root[..])
    {
      if pool == [] {
        return ErrNoMemory, 0;
      }
      t := pool[0];
      pool := pool[1..];
      err := NoError;
    }

    /**
     * The innermost loop of map_range: one page after another into the L2
     * table at l2t, until the terminal address (finished) or the end of
     * that table.
     */
    method MapRangeL2(ghost s0: Tables, ghost va: nat, ghost pa: nat, ghost n: nat, ghost done0: nat,
                      v0: nat, p0: nat, l2t: nat, terminal: nat)
      returns (v: nat, p: nat, finished: bool, ghost done: nat)
      requires RangeInv(State(), pool, s0, va, pa, n, done0, v0, p0) && done0 < n
      requires L2TableOf(root[..], l1, L0Index(v0), L1Index(v0)) == Some(l2t)
      requires terminal == (va + n * PAGE_SIZE) % W
      modifies this
      ensures RangeInv(State(), pool, s0, va, pa, n, done, v, p) && done0 < done <= n
      ensures finished <==> done == n
      ensures !finished ==> L2Index(v) == 0 && (L1Index(v) != 0 ==> L0Index(v) == L0Index(v0))
      ensures root[..] == old(root[..]) && l1 == old(l1)
    {
      v, p, done := v0, p0, done0;
      while true
        invariant RangeInv(State(), pool, s0, va, pa, n, done, v, p) && done0 <= done < n
        invariant L0Index(v) == L0Index(v0) && L1Index(v) == L1Index(v0)
        invariant root[..] == old(root[..]) && l1 == old(l1)
        decreases n - done
      {
        ghost var ts := State();
        RangeMapPage(ts, pool, s0, va, pa, n, done, v, p, l2t);
        RangeTerminal(va, n, done, v);
        PageStep(va, done);
        CursorGroups(v);
        MapL2(l2t, v, p);
        ghost var ts' := SetLeaf(ts, l2t, L2Index(v), p);
        v := (v + PAGE_SIZE) % W;
        p := (p + PAGE_SIZE) % W;
        done := done + 1;
        assert RangeInv(ts', pool, s0, va, pa, n, done, v, p);
        if v == terminal {
          return v, p, true, done;
        }
        if L2Index(v) == 0 {
          return v, p, false, done;
        }
      }
    }

    /**
     * The middle loop of map_range: in the L1 table at l1t, the L2 table of
     * each group (a fresh one when its entry is not valid), until the
     * terminal address, the end of the L1 table or ERR_NO_MEMORY.
     */
    method MapRangeL1(ghost s0: Tables, ghost va: nat, ghost pa: nat, ghost n: nat, ghost done0: nat,
                      v0: nat, p0: nat, l1t: nat, terminal: nat)
      returns (err: Status, v: nat, p: nat, finished: bool, ghost done: nat)
      requires RangeInv(State(), pool, s0, va, pa, n, done0, v0, p0) && done0 < n
      requires L1TableOf(root[..], L0Index(v0)) == Some(l1t)
      requires terminal == (va + n * PAGE_SIZE) % W
      modifies this
      ensures RangeInv(State(), pool, s0, va, pa, n, done, v, p) && done0 <= done <= n
      ensures err == NoError || (err == ErrNoMemory && pool == [])
      ensures err == NoError ==> (finished <==> done == n) && done0 < done
      ensures root[..] == old(root[..])
    {
      v, p, done := v0, p0, done0;
      while true
        invariant RangeInv(State(), pool, s0, va, pa, n, done, v, p) && done0 <= done < n
        invariant L0Index(v) == L0Index(v0) && L1TableOf(root[..], L0Index(v0)) == Some(l1t)
        invariant root[..] == old(root[..])
        decreases n - done
      {
        ReadPointer(State(), pool, v, l1t);
        var g1 := L1Index(v);
        var l1Entry := l1[l1t][g1 * L1_REPEATS];
        var l2t: nat;
        if !L1Valid(l1Entry) {
          ghost var ts := State();
          ghost var free := pool;
          var e, t := AllocPgtable();
          if e != NoError {
            return e, v, p, false, done;
          }
          RangeAllocL2(ts, free, s0, va, pa, n, done, v, p, l1t);
          l2 := l2[t := seq(L2_ENTRIES_RAW, _ => ZeroPte)];
          MapL1(l1t, v, t);
          l2t := t;
          assert State() == AllocL2(ts, l1t, g1, t);
        } else {
          l2t := l1Entry.tableAddress * 256;
        }
        v, p, finished, done := MapRangeL2(s0, va, pa, n, done, v, p, l2t, terminal);
        if finished {
          return NoError, v, p, true, done;
        }
        if L1Index(v) == 0 {
          return NoError, v, p, false, done;
        }
      }
    }

    /**
     * map_range: maps every page of [va, va + len_minus_one] to the page at
     * the same distance from pa. A root or L1 entry that is not valid gets a
     * fresh table; tables already in place are kept. Running out of pages
     * is ERR_NO_MEMORY. Pages outside the range never change.
     */
    method MapRange(va: nat, pa: nat, lenMinusOne: nat) returns (err: Status)
      requires Valid()
      requires va < W && pa < W && lenMinusOne < W
      requires va % PAGE_SIZE == 0 && pa % PAGE_SIZE == 0 && (lenMinusOne + 1) % PAGE_SIZE == 0
      modifies this, root
      ensures Valid()
      ensures err == NoError || (err == ErrNoMemory && pool == [])
      ensures err == NoError ==> MappedPrefix(State(), va / PAGE_SIZE, pa, (lenMinusOne + 1) / PAGE_SIZE)
      ensures Outside(State(), old(State()), va / PAGE_SIZE, (lenMinusOne + 1) / PAGE_SIZE)
      ensures KeepsTables(State(), old(State()))
    {
      ghost var n := (lenMinusOne + 1) / PAGE_SIZE;
      ghost var s0 := State();
      var terminal := (va + lenMinusOne + 1) % W;
      assert terminal == (va + n * PAGE_SIZE) % W;
      var v: nat := va;
      var p: nat := pa;
      ghost var done: nat := 0;
      RangeStart(State(), pool, va, pa, n);
      while true
        invariant RangeInv(State(), pool, s0, va, pa, n, done, v, p) && done < n
        decreases n - done
      {
        ReadRoot(State(), pool, v);
        var g0 := L0Index(v);
        var l0Entry := root[g0 * L0_REPEATS];
        var l1t: nat;
        if !L0Valid(l0Entry) {
          ghost var ts := State();
          ghost var free := pool;
          var e, t := AllocPgtable();
          if e != NoError {
            return e;
          }
          RangeAllocL1(ts, free, s0, va, pa, n, done, v, p);
          l1 := l1[t := seq(L1_ENTRIES_RAW, _ => ZeroPtp)];
          MapL0(root, v, t);
          l1t := t;
          assert State() == AllocL1(ts, g0, t);
        } else {
          l1t := l0Entry.tableAddress * 512;
        }
        var finished;
        err, v, p, finished, done := MapRangeL1(s0, va, pa, n, done, v, p, l1t, terminal);
        if err != NoError || finished {
          return err;
        }
      }
    }
  }
}
