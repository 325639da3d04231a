/** The page-table builder of mmu.c (and its copy in vs_mmu.c) over raw memory and the allocator. */
module Mapping {
  import opened Words
  import opened Sv39
  import PageAlloc

  const PGDIR_SIZE: nat := 0x4000_0000
  const PMD_SIZE: nat := 0x20_0000
  const ROOT_SIZE: nat := 0x80_0000_0000   // bytes below one root page, 2^39

  // ----- pgtable.h

  function PgdIndex(addr: u64): nat { addr / 0x4000_0000 % 512 }
  function PmdIndex(addr: u64): nat { addr / 0x20_0000 % 512 }
  function PteIndex(addr: u64): nat { addr / 4096 % 512 }
  function PfnDown(x: u64): (p: nat)
    ensures p < 0x10_0000_0000_0000
  {
    x / 4096
  }

  /** pfn_pgd, pfn_pmd and pfn_pte: shift the frame number left by ten and or in the flags. */
  function PfnEntry(pfn: nat, prot: nat): u64
    requires pfn < 0x10_0000_0000_0000 && prot < 1024
  {
    pfn * 1024 + prot
  }

  /** pgd_page_paddr and pmd_page_paddr; the left shift drops what does not fit in 64 bits. */
  function TablePaddr(e: u64): u64 {
    var pfn := e / 1024;
    if pfn < 0x10_0000_0000_0000 then pfn * 4096 else pfn % 0x10_0000_0000_0000 * 4096
  }

  function AddrEnd(boundary: u64, end: u64): u64 {
    if Wrap(boundary - 1) < Wrap(end - 1) then boundary else end
  }

  /** pgd_addr_end and pmd_addr_end, in unsigned 64-bit arithmetic. */
  function PgdAddrEnd(addr: u64, end: u64): u64 {
    var s := Wrap(addr + PGDIR_SIZE);
    AddrEnd(s - s % 0x4000_0000, end)
  }

  function PmdAddrEnd(addr: u64, end: u64): u64 {
    var s := Wrap(addr + PMD_SIZE);
    AddrEnd(s - s % 0x20_0000, end)
  }

  /** An end of 0 stands for 2^64. */
  function Top(end: u64): nat { if end == 0 then TWO_64 else end }

  function Min(a: nat, b: nat): nat { if a < b then a else b }

  /** The boundary macros return the end of the current entry's range or the end of the whole
      range, whichever comes first, also when the range ends at 2^64. */
  lemma PgdAddrEndMeaning(addr: u64, end: u64)
    requires addr < Top(end)
    ensures Top(PgdAddrEnd(addr, end)) == Min((addr / 0x4000_0000 + 1) * 0x4000_0000, Top(end))
  {
    if addr + PGDIR_SIZE < TWO_64 {
      assert (addr + 0x4000_0000) / 0x4000_0000 == addr / 0x4000_0000 + 1;
    } else {
      assert addr / 0x4000_0000 == 0x3_ffff_ffff;
    }
  }

  lemma PmdAddrEndMeaning(addr: u64, end: u64)
    requires addr < Top(end)
    ensures Top(PmdAddrEnd(addr, end)) == Min((addr / 0x20_0000 + 1) * 0x20_0000, Top(end))
  {
    if addr + PMD_SIZE < TWO_64 {
      assert (addr + 0x20_0000) / 0x20_0000 == addr / 0x20_0000 + 1;
    } else {
      assert addr / 0x20_0000 == 0x7ff_ffff_ffff;
    }
  }

  lemma SlotInPage(p: nat, k: nat)
    requires k < ENTRIES
    ensures SlotAt(p * 4096 + 8 * k) == Slot(p, k)
  {
  }

  // ----- what a mapping call does to the tables under one root

  /** The level-0 entry for the page d pages after physical address phys. */
  function PteAt(phys: u64, d: nat, prot: nat): u64
    requires prot < 1024 && d <= ROOT_PAGES
  {
    PfnEntry(PfnDown(Wrap(phys + d * 4096)), prot)
  }

  /** Pages lo up to hi translate to consecutive frames from phys; all others as before. */
  ghost predicate Maps(m: Memory, m': Memory, r: nat, lo: nat, hi: nat, phys: u64, prot: nat)
    requires prot < 1024
  {
    forall n | 0 <= n < ROOT_PAGES ::
      View(m', r, n) == if lo <= n < hi then LowResult(PteAt(phys, n - lo, prot)) else View(m, r, n)
  }

  /** Empty 2 MB slots in [a, b) now refer to tables; every other slot holds what it held. */
  ghost predicate FillsSlots(m: Memory, m': Memory, r: nat, a: nat, b: nat) {
    forall q | 0 <= q < ROOT_SLOTS ::
      if a <= q < b && Pmd(m, r, q) == 0 then Table(Pmd(m', r, q)) else Pmd(m', r, q) == Pmd(m, r, q)
  }

  ghost predicate FillsRoot(m: Memory, m': Memory, r: nat, a: nat, b: nat) {
    forall i | 0 <= i < ENTRIES ::
      if a <= i < b && Ent(m, r, i) == 0 then Table(Ent(m', r, i)) else Ent(m', r, i) == Ent(m, r, i)
  }

  /** One past the last 2 MB slot, and the last root entry, that pages lo up to hi fall in. */
  function SlotEnd(lo: nat, hi: nat): nat { if lo >= hi then lo / 512 else (hi - 1) / 512 + 1 }
  function RootEnd(lo: nat, hi: nat): nat { if lo >= hi then lo / 0x4_0000 else (hi - 1) / 0x4_0000 + 1 }

  /** No page from lo up to hi is covered by a leaf above level 0. */
  ghost predicate NoLeaf(m: Memory, r: nat, lo: nat, hi: nat) {
    forall q | lo / 512 <= q < SlotEnd(lo, hi) :: Pmd(m, r, q) == 0 || Table(Pmd(m, r, q))
  }

  /** How many 2 MB slots in [a, b) have no level-0 table. */
  ghost function EmptySlots(m: Memory, r: nat, a: nat, b: nat): nat
    decreases b - a
  {
    if a >= b then 0 else (if Pmd(m, r, a) == 0 then 1 else 0) + EmptySlots(m, r, a + 1, b)
  }

  /** How many root entries in [a, b) are empty. */
  ghost function EmptyRoot(m: Memory, r: nat, a: nat, b: nat): nat
    decreases b - a
  {
    if a >= b then 0 else (if Ent(m, r, a) == 0 then 1 else 0) + EmptyRoot(m, r, a + 1, b)
  }

  /** The table pages missing on the way to pages lo up to hi. */
  ghost function Cost(m: Memory, r: nat, lo: nat, hi: nat): nat {
    EmptyRoot(m, r, lo / 0x4_0000, RootEnd(lo, hi)) + EmptySlots(m, r, lo / 512, SlotEnd(lo, hi))
  }

  /** New table pages were added; the old ones keep their place. */
  ghost predicate Grown(own: Tables, own': Tables) {
    && (forall p <- own :: p in own' && own'[p] == own[p])
    && (forall p <- own' :: p !in own ==> own'[p].level < 2)
  }

  // ----- adding up the effects of consecutive steps

  lemma PteAtShift(phys: u64, d: nat, d': nat, prot: nat)
    requires prot < 1024 && d + d' <= ROOT_PAGES
    ensures PteAt(Wrap(phys + d * 4096), d', prot) == PteAt(phys, d + d', prot)
  {
    assert Wrap(Wrap(phys + d * 4096) + d' * 4096) == Wrap(phys + d * 4096 + d' * 4096);
  }

  lemma MapsThen(m0: Memory, m1: Memory, m2: Memory, r: nat, lo: nat, mid: nat, hi: nat, phys: u64, prot: nat)
    requires prot < 1024 && lo <= mid <= hi <= ROOT_PAGES
    requires Maps(m0, m1, r, lo, mid, phys, prot)
    requires Maps(m1, m2, r, mid, hi, Wrap(phys + (mid - lo) * 4096), prot)
    ensures Maps(m0, m2, r, lo, hi, phys, prot)
  {
    hide View, PteAt, LowResult;
    forall n | 0 <= n < ROOT_PAGES
      ensures View(m2, r, n) == if lo <= n < hi then LowResult(PteAt(phys, n - lo, prot)) else View(m0, r, n)
    {
      if mid <= n < hi {
        PteAtShift(phys, mid - lo, n - mid, prot);
      }
    }
  }

  /** Only level-0 entries were stored: those of pages lo up to hi under root r. */
  ghost predicate Wrote(m: Memory, m': Memory, own: Tables, r: nat, lo: nat, hi: nat, phys: u64, prot: nat)
    requires prot < 1024
  {
    var all := Maps(m, m', r, lo, hi, phys, prot) && SameDirs(m, m', r) && OthersSame(m, m', own, r);
    all
  }

  lemma WroteNothing(m: Memory, own: Tables, r: nat, n: nat, phys: u64, prot: nat)
    requires prot < 1024
    ensures Wrote(m, m, own, r, n, n, phys, prot)
  {
  }

  lemma WroteThen(m0: Memory, m1: Memory, m2: Memory, own: Tables, r: nat,
                  lo: nat, mid: nat, hi: nat, phys: u64, prot: nat)
    requires prot < 1024 && lo <= mid <= hi <= ROOT_PAGES
    requires Wrote(m0, m1, own, r, lo, mid, phys, prot)
    requires Wrote(m1, m2, own, r, mid, hi, Wrap(phys + (mid - lo) * 4096), prot)
    ensures Wrote(m0, m2, own, r, lo, hi, phys, prot)
  {
    MapsThen(m0, m1, m2, r, lo, mid, hi, phys, prot);
    SameThen(m0, m1, m2, own, own, r);
  }

  lemma SameThen(m0: Memory, m1: Memory, m2: Memory, own: Tables, own': Tables, r: nat)
    requires Grown(own, own') && OthersSame(m0, m1, own, r) && OthersSame(m1, m2, own', r)
    ensures OthersSame(m0, m2, own, r)
  {
    forall r' | IsRoot(own, r') && r' != r ensures SameDirs(m0, m2, r') && SameViews(m0, m2, r') {
      assert IsRoot(own', r');
    }
  }

  /** Memory together with the table pages in it. */
  datatype Tree = Tree(m: Memory, own: Tables)

  /** The whole effect of mapping pages lo up to hi under root r to the frames from phys. */
  ghost predicate Built(a: Tree, b: Tree, r: nat, lo: nat, hi: nat, phys: u64, prot: nat)
    requires prot < 1024
  {
    var all :=
      && Grown(a.own, b.own)
      && Maps(a.m, b.m, r, lo, hi, phys, prot)
      && FillsSlots(a.m, b.m, r, lo / 512, SlotEnd(lo, hi))
      && FillsRoot(a.m, b.m, r, lo / 0x4_0000, RootEnd(lo, hi))
      && OthersSame(a.m, b.m, a.own, r);
    all
  }

  lemma BuiltNothing(a: Tree, r: nat, n: nat, phys: u64, prot: nat)
    requires prot < 1024
    ensures Built(a, a, r, n, n, phys, prot) && Cost(a.m, r, n, n) == 0
  {
  }

  lemma {:induction false} EmptySlotsSplit(m: Memory, r: nat, a: nat, b: nat, c: nat)
    requires a <= b <= c
    ensures EmptySlots(m, r, a, c) == EmptySlots(m, r, a, b) + EmptySlots(m, r, b, c)
    decreases b - a
  {
    if a < b {
      EmptySlotsSplit(m, r, a + 1, b, c);
    }
  }

  lemma {:induction false} EmptySlotsSame(m: Memory, m': Memory, r: nat, a: nat, b: nat)
    requires forall q | a <= q < b :: Pmd(m', r, q) == Pmd(m, r, q)
    ensures EmptySlots(m', r, a, b) == EmptySlots(m, r, a, b)
    decreases b - a
  {
    if a < b {
      EmptySlotsSame(m, m', r, a + 1, b);
    }
  }

  lemma {:induction false} EmptyRootSplit(m: Memory, r: nat, a: nat, b: nat, c: nat)
    requires a <= b <= c
    ensures EmptyRoot(m, r, a, c) == EmptyRoot(m, r, a, b) + EmptyRoot(m, r, b, c)
    decreases b - a
  {
    if a < b {
      EmptyRootSplit(m, r, a + 1, b, c);
    }
  }

  lemma {:induction false} EmptyRootSame(m: Memory, m': Memory, r: nat, a: nat, b: nat)
    requires forall i | a <= i < b :: Ent(m', r, i) == Ent(m, r, i)
    ensures EmptyRoot(m', r, a, b) == EmptyRoot(m, r, a, b)
    decreases b - a
  {
    if a < b {
      EmptyRootSame(m, m', r, a + 1, b);
    }
  }

  /** What filling [a, b) costs and what then remains for [b', c), where b' may repeat slot b - 1. */
  lemma SlotCostThen(m: Memory, m': Memory, r: nat, a: nat, b: nat, b': nat, c: nat)
    requires a <= b && b' <= c && c <= ROOT_SLOTS && (b' == b || (a < b && b' == b - 1)) && b <= c
    requires FillsSlots(m, m', r, a, b)
    ensures EmptySlots(m, r, a, c) == EmptySlots(m, r, a, b) + EmptySlots(m', r, b', c)
  {
    EmptySlotsSplit(m, r, a, b, c);
    EmptySlotsSame(m, m', r, b, c);
    if b' < b {
      EmptySlotsSplit(m', r, b', b, c);
      assert EmptySlots(m', r, b, b) == 0;
    }
  }

  lemma RootCostThen(m: Memory, m': Memory, r: nat, a: nat, b: nat, b': nat, c: nat)
    requires a <= b && b' <= c && c <= ENTRIES && (b' == b || (a < b && b' == b - 1)) && b <= c
    requires FillsRoot(m, m', r, a, b)
    ensures EmptyRoot(m, r, a, c) == EmptyRoot(m, r, a, b) + EmptyRoot(m', r, b', c)
  {
    EmptyRootSplit(m, r, a, b, c);
    EmptyRootSame(m, m', r, b, c);
    if b' < b {
      EmptyRootSplit(m', r, b', b, c);
      assert EmptyRoot(m', r, b, b) == 0;
    }
  }

  /** The cost of a range is the cost of its first part plus what the rest costs afterwards. */
  lemma CostThen(m: Memory, m': Memory, r: nat, lo: nat, mid: nat, hi: nat)
    requires lo <= mid <= hi <= ROOT_PAGES
    requires FillsSlots(m, m', r, lo / 512, SlotEnd(lo, mid)) && FillsRoot(m, m', r, lo / 0x4_0000, RootEnd(lo, mid))
    ensures Cost(m, r, lo, hi) == Cost(m, r, lo, mid) + Cost(m', r, mid, hi)
  {
    if mid < hi {
      SlotCostThen(m, m', r, lo / 512, SlotEnd(lo, mid), mid / 512, SlotEnd(mid, hi));
      RootCostThen(m, m', r, lo / 0x4_0000, RootEnd(lo, mid), mid / 0x4_0000, RootEnd(mid, hi));
    }
  }

  lemma FillsThen(m0: Memory, m1: Memory, m2: Memory, r: nat, lo: nat, mid: nat, hi: nat)
    requires lo <= mid <= hi
    requires FillsSlots(m0, m1, r, lo / 512, SlotEnd(lo, mid)) && FillsRoot(m0, m1, r, lo / 0x4_0000, RootEnd(lo, mid))
    requires FillsSlots(m1, m2, r, mid / 512, SlotEnd(mid, hi))
    requires FillsRoot(m1, m2, r, mid / 0x4_0000, RootEnd(mid, hi))
    ensures FillsSlots(m0, m2, r, lo / 512, SlotEnd(lo, hi)) && FillsRoot(m0, m2, r, lo / 0x4_0000, RootEnd(lo, hi))
  {
    hide Pmd;
  }

  lemma BuiltThen(a: Tree, b: Tree, c: Tree, r: nat, lo: nat, mid: nat, hi: nat, phys: u64, prot: nat)
    requires prot < 1024 && lo <= mid <= hi <= ROOT_PAGES
    requires Built(a, b, r, lo, mid, phys, prot)
    requires Built(b, c, r, mid, hi, Wrap(phys + (mid - lo) * 4096), prot)
    ensures Built(a, c, r, lo, hi, phys, prot)
    ensures Cost(a.m, r, lo, hi) == Cost(a.m, r, lo, mid) + Cost(b.m, r, mid, hi)
  {
    hide Maps, OthersSame, FillsSlots, FillsRoot, Cost;
    MapsThen(a.m, b.m, c.m, r, lo, mid, hi, phys, prot);
    FillsThen(a.m, b.m, c.m, r, lo, mid, hi);
    SameThen(a.m, b.m, c.m, a.own, b.own, r);
    CostThen(a.m, b.m, r, lo, mid, hi);
  }

  /** Part of the way through a range, the next part still meets no leaf and what is left of the
      range's cost covers it. */
  lemma BuiltAhead(a: Tree, b: Tree, r: nat, lo: nat, mid: nat, next: nat, hi: nat, phys: u64, prot: nat)
    requires prot < 1024 && lo <= mid <= next <= hi <= ROOT_PAGES
    requires Built(a, b, r, lo, mid, phys, prot) && NoLeaf(a.m, r, lo, hi)
    ensures NoLeaf(b.m, r, mid, next)
    ensures Cost(a.m, r, lo, mid) + Cost(b.m, r, mid, next) <= Cost(a.m, r, lo, hi)
  {
    hide Pmd, Maps, OthersSame;
    CostThen(a.m, b.m, r, lo, mid, hi);
    if mid < next {
      EmptySlotsSplit(b.m, r, mid / 512, SlotEnd(mid, next), SlotEnd(mid, hi));
      EmptyRootSplit(b.m, r, mid / 0x4_0000, RootEnd(mid, next), RootEnd(mid, hi));
    }
  }

  /** Making sure root entry i has a level-1 table: nothing else changes. */
  ghost predicate HasMid(a: Tree, b: Tree, r: nat, i: nat) {
    var all :=
      && Grown(a.own, b.own) && SameViews(a.m, b.m, r) && OthersSame(a.m, b.m, a.own, r)
      && FillsSlots(a.m, b.m, r, 0, 0) && FillsRoot(a.m, b.m, r, i, i + 1);
    all
  }

  lemma HadMid(a: Tree, r: nat, i: nat)
    requires i < ENTRIES && Ent(a.m, r, i) != 0
    ensures HasMid(a, a, r, i)
  {
  }

  lemma GotMid(m: Memory, m': Memory, own: Tables, r: nat, i: nat, c: nat)
    requires IsTree(m, own) && IsRoot(own, r) && i < ENTRIES && Ent(m, r, i) == 0
    requires c !in own && c < PFN_LIMIT && Attached(m, m', r, i, c)
    ensures HasMid(Tree(m, own), Tree(m', own[c := Node(1, r, i)]), r, i)
  {
    hide View, Pmd;
    AttachMid(m, m', own, r, i, c);
  }

  /** With the level-1 table in place, building the range in b is building it in a. */
  lemma MidBuilt(a: Tree, b: Tree, c: Tree, r: nat, lo: nat, hi: nat, phys: u64, prot: nat)
    requires prot < 1024 && lo < hi <= ROOT_PAGES && lo / 0x4_0000 == (hi - 1) / 0x4_0000
    requires HasMid(a, b, r, lo / 0x4_0000) && Built(b, c, r, lo, hi, phys, prot)
    ensures Built(a, c, r, lo, hi, phys, prot)
  {
    hide Pmd, View, PteAt;
    SameThen(a.m, b.m, c.m, a.own, b.own, r);
  }

  lemma MidReady(a: Tree, b: Tree, r: nat, lo: nat, hi: nat)
    requires lo < hi <= ROOT_PAGES && lo / 0x4_0000 == (hi - 1) / 0x4_0000
    requires HasMid(a, b, r, lo / 0x4_0000)
    ensures Cost(a.m, r, lo, hi) == (if Ent(a.m, r, lo / 0x4_0000) == 0 then 1 else 0) + Cost(b.m, r, lo, hi)
    ensures NoLeaf(a.m, r, lo, hi) ==> NoLeaf(b.m, r, lo, hi)
  {
    hide Pmd, View;
    EmptySlotsSame(a.m, b.m, r, lo / 512, SlotEnd(lo, hi));
    var i := lo / 0x4_0000;
    assert EmptyRoot(a.m, r, i + 1, i + 1) == 0 && EmptyRoot(b.m, r, i + 1, i + 1) == 0;
  }

  lemma OneRootEntry(m: Memory, r: nat, lo: nat, cnt: nat)
    requires 0 < cnt && lo + cnt <= ROOT_PAGES && InRootEntry(lo, cnt) && NoLeaf(m, r, lo, lo + cnt)
    ensures lo / 0x4_0000 == (lo + cnt - 1) / 0x4_0000 < ENTRIES
    ensures Ent(m, r, RootField(lo)) == 0 || Table(Ent(m, r, RootField(lo)))
    ensures Ent(m, r, RootField(lo)) == 0 ==> Cost(m, r, lo, lo + cnt) > 0
  {
    assert lo / 512 / 512 == lo / 0x4_0000;
    assert Pmd(m, r, lo / 512) == 0 || Table(Pmd(m, r, lo / 512));
  }

  /** Making sure 2 MB slot q has a level-0 table: nothing else changes. */
  ghost predicate HasLow(a: Tree, b: Tree, r: nat, q: nat) {
    var all :=
      && Grown(a.own, b.own) && SameViews(a.m, b.m, r) && OthersSame(a.m, b.m, a.own, r)
      && FillsSlots(a.m, b.m, r, q, q + 1) && FillsRoot(a.m, b.m, r, 0, 0);
    all
  }

  lemma HadLow(a: Tree, r: nat, q: nat)
    requires q < ROOT_SLOTS && Pmd(a.m, r, q) != 0
    ensures HasLow(a, a, r, q)
  {
  }

  lemma GotLow(m: Memory, m': Memory, own: Tables, p: nat, j: nat, c: nat)
    requires IsTree(m, own) && p in own && own[p].level == 1 && j < ENTRIES && Ent(m, p, j) == 0
    requires c !in own && c < PFN_LIMIT && Attached(m, m', p, j, c)
    ensures HasLow(Tree(m, own), Tree(m', own[c := Node(0, p, j)]), own[p].parent, own[p].idx * 512 + j)
  {
    hide View, Pmd, IsTree, Attached;
    PmdOfTable(m, own, p, j);
    AttachLow(m, m', own, p, j, c);
  }

  /** Making sure of the level-0 table and then storing entries in it builds the range. */
  lemma LowBuilt(a: Tree, b: Tree, m: Memory, r: nat, lo: nat, hi: nat, phys: u64, prot: nat)
    requires prot < 1024 && lo < hi <= ROOT_PAGES && lo / 512 == (hi - 1) / 512
    requires HasLow(a, b, r, lo / 512) && Wrote(b.m, m, b.own, r, lo, hi, phys, prot)
    requires Ent(a.m, r, lo / 0x4_0000) != 0
    ensures Built(a, Tree(m, b.own), r, lo, hi, phys, prot)
  {
    hide Pmd, View, PteAt;
    SameThen(a.m, b.m, m, a.own, b.own, r);
    assert lo / 0x4_0000 == lo / 512 / 512 && (hi - 1) / 0x4_0000 == (hi - 1) / 512 / 512;
  }

  lemma LowCost(m: Memory, r: nat, lo: nat, hi: nat)
    requires lo < hi <= ROOT_PAGES && lo / 512 == (hi - 1) / 512 && Ent(m, r, lo / 0x4_0000) != 0
    ensures SlotEnd(lo, hi) == lo / 512 + 1
    ensures Cost(m, r, lo, hi) == if Pmd(m, r, lo / 512) == 0 then 1 else 0
  {
    assert lo / 0x4_0000 == lo / 512 / 512 && (hi - 1) / 0x4_0000 == (hi - 1) / 512 / 512;
    assert EmptySlots(m, r, lo / 512 + 1, lo / 512 + 1) == 0;
    assert EmptyRoot(m, r, lo / 0x4_0000 + 1, lo / 0x4_0000 + 1) == 0;
  }

  // ----- unsigned 64-bit address arithmetic

  lemma WrapAdd(x: nat, c: nat)
    requires x + c < 2 * TWO_64
    ensures Wrap(Wrap(x) + c) == Wrap(x + c)
  {
  }

  lemma WrapSmall(x: u64, y: u64)
    ensures Wrap(x) == x && Wrap(y) == y
  {
  }

  /** The loops stop at the right page although the addresses wrap. */
  lemma AtEnd(addr0: u64, d: nat, cnt: nat)
    requires 0 < d <= cnt && addr0 + cnt * 4096 <= TWO_64
    ensures Wrap(addr0 + d * 4096) == Wrap(addr0 + cnt * 4096) <==> d == cnt
    ensures d < cnt ==> Wrap(addr0 + d * 4096) == addr0 + d * 4096
  {
  }

  // The two upper index fields of a page number.
  function RootField(n: nat): nat { n / 0x4_0000 }
  function PmdField(n: nat): nat { n / 512 % 512 }

  /** Pages n up to n + cnt lie under one level-1 entry, or under one root entry. */
  predicate InSlot(n: nat, cnt: nat) { n % 512 + cnt <= 512 }
  predicate InRootEntry(n: nat, cnt: nat) { n % 0x4_0000 + cnt <= 0x4_0000 }

  lemma LowBits(h: nat, x: nat)
    requires x < 512
    ensures (h * 512 + x) % 512 == x
  {
  }

  lemma RootFieldBelow(h: nat, l: nat)
    requires l < ROOT_PAGES
    ensures (h * 0x800_0000 + l) / 0x4_0000 % 512 == l / 0x4_0000
  {
    assert l / 0x4_0000 < 512;
    assert (h * 0x800_0000 + l) / 0x4_0000 == h * 512 + l / 0x4_0000;
    LowBits(h, l / 0x4_0000);
  }

  lemma PmdFieldBelow(h: nat, l: nat)
    ensures (h * 0x800_0000 + l) / 512 % 512 == l / 512 % 512
  {
    var q, x := l / 512 / 512, l / 512 % 512;
    assert (h * 0x800_0000 + l) / 512 == h * 0x4_0000 + l / 512;
    assert h * 0x4_0000 + l / 512 == (h * 512 + q) * 512 + x;
    LowBits(h * 512 + q, x);
  }

  lemma PteFieldBelow(h: nat, l: nat)
    ensures (h * 0x800_0000 + l) % 512 == l % 512
  {
    var q, x := l / 512, l % 512;
    assert h * 0x800_0000 + l == (h * 0x4_0000 + q) * 512 + x;
    LowBits(h * 0x4_0000 + q, x);
  }

  lemma FieldSplit(n: nat)
    ensures n / 512 / 512 == n / 0x4_0000
    ensures n == n / 0x4_0000 * 0x4_0000 + n / 512 % 512 * 512 + n % 512
  {
  }

  /** The index macros read the three fields of the page number. */
  lemma Indices(addr: u64)
    ensures PgdIndex(addr) == PageNumber(addr) / 0x4_0000
    ensures PmdIndex(addr) == PageNumber(addr) / 512 % 512
    ensures PteIndex(addr) == PageNumber(addr) % 512
  {
    assert addr / 0x20_0000 == addr / 4096 / 512;
    assert addr / 0x4000_0000 == addr / 4096 / 0x4_0000;
    var h, l := addr / 4096 / 0x800_0000, PageNumber(addr);
    assert addr / 4096 == h * 0x800_0000 + l;
    RootFieldBelow(h, l);
    PmdFieldBelow(h, l);
    PteFieldBelow(h, l);
  }

  // ----- the boundary macros counted in pages

  lemma PmdBlock(addr: u64, end: u64)
    requires addr < Top(end) && addr % 4096 == 0 && end % 4096 == 0
    ensures var next := Top(PmdAddrEnd(addr, end));
            next == addr + 4096 * Min(512 - addr / 4096 % 512, (Top(end) - addr) / 4096)
  {
    PmdAddrEndMeaning(addr, end);
    BlockInPages(addr / 4096, Top(end) / 4096, 512);
    assert addr / 0x20_0000 == addr / 4096 / 512;
  }

  lemma PgdBlock(addr: u64, end: u64)
    requires addr < Top(end) && addr % 4096 == 0 && end % 4096 == 0
    ensures var next := Top(PgdAddrEnd(addr, end));
            next == addr + 4096 * Min(0x4_0000 - addr / 4096 % 0x4_0000, (Top(end) - addr) / 4096)
  {
    PgdAddrEndMeaning(addr, end);
    BlockInPages(addr / 4096, Top(end) / 4096, 0x4_0000);
    assert addr / 0x4000_0000 == addr / 4096 / 0x4_0000;
  }

  /** The next multiple of size after page a, or e, counted from a. */
  lemma BlockInPages(a: nat, e: nat, size: nat)
    requires a < e && (size == 512 || size == 0x4_0000)
    ensures Min((a / size + 1) * size, e) == a + Min(size - a % size, e - a)
  {
    if size == 512 {
      assert a == a / 512 * 512 + a % 512;
    } else {
      assert a == a / 0x4_0000 * 0x4_0000 + a % 0x4_0000;
    }
  }

  lemma PageNumberAdd(addr: u64, d: nat)
    requires addr + d * 4096 < TWO_64 && PageNumber(addr) + d < ROOT_PAGES
    ensures PageNumber(addr + d * 4096) == PageNumber(addr) + d
  {
    assert (addr + d * 4096) / 4096 == addr / 4096 + d;
  }

  /** Within one root entry, the next slot boundary is the next entry of the same table. */
  lemma SameRoot(lo: nat, cnt: nat, d: nat, c: nat)
    requires InRootEntry(lo, cnt) && d < d + c <= cnt
    ensures RootField(lo + d) == RootField(lo)
    ensures d + c < cnt && (lo + d) % 512 + c == 512 ==> PmdField(lo + d + c) == PmdField(lo + d) + 1
  {
    assert (lo + d) / 0x4_0000 == (lo + d) / 512 / 512;
    if d + c < cnt && (lo + d) % 512 + c == 512 {
      assert (lo + d + c) / 512 == (lo + d) / 512 + 1;
      assert (lo + d + c) / 0x4_0000 == (lo + d + c) / 512 / 512;
    }
  }

  /** Where a turn of either loop stands, d pages into a range of cnt. */
  lemma TurnBegins(addr0: u64, addr: u64, end: u64, cnt: nat, d: nat)
    requires d < cnt && addr0 % 4096 == 0 && addr0 + cnt * 4096 <= TWO_64
    requires end == Wrap(addr0 + cnt * 4096) && addr == Wrap(addr0 + d * 4096)
    ensures addr == addr0 + d * 4096 && Top(end) == addr0 + cnt * 4096
    ensures addr % 4096 == 0 && end % 4096 == 0 && addr < Top(end) && (Top(end) - addr) / 4096 == cnt - d
  {
  }

  /** And where it ends, when the boundary macro has stepped over c pages. */
  lemma TurnEnds(addr0: u64, addr: u64, next: u64, end: u64, cnt: nat, d: nat, c: nat)
    requires 0 < c && d + c <= cnt <= ROOT_PAGES && addr0 + cnt * 4096 <= TWO_64 && end == Wrap(addr0 + cnt * 4096)
    requires addr == addr0 + d * 4096 && Top(next) == addr + c * 4096
    ensures addr + c * 4096 <= TWO_64 && next == Wrap(addr + c * 4096) == Wrap(addr0 + (d + c) * 4096)
    ensures Wrap(next - addr) == c * 4096 && (next != end <==> d + c < cnt)
  {
    AtEnd(addr0, d + c, cnt);
  }

  lemma BlockPages(n: nat, left: nat, size: nat)
    requires (size == 512 || size == 0x4_0000) && 0 < left
    ensures var c := Min(size - n % size, left); 0 < c <= left && n % size + c <= size
  {
  }

  /** One turn of the loop over 2 MB slots: the c pages up to the next boundary or the end. */
  lemma PmdTurn(addr: u64, next: u64, end: u64, addr0: u64, lo: nat, cnt: nat, d: nat) returns (c: nat)
    requires next == PmdAddrEnd(addr, end)
    requires d < cnt && lo == PageNumber(addr0) && lo + cnt <= ROOT_PAGES && addr0 % 4096 == 0 && InRootEntry(lo, cnt)
    requires addr0 + cnt * 4096 <= TWO_64 && end == Wrap(addr0 + cnt * 4096) && addr == Wrap(addr0 + d * 4096)
    ensures PageNumber(addr) == lo + d && addr % 4096 == 0 && 0 < c <= cnt - d
    ensures addr + c * 4096 <= TWO_64 && next == Wrap(addr + c * 4096) == Wrap(addr0 + (d + c) * 4096)
    ensures Wrap(next - addr) == c * 4096 && (next != end <==> d + c < cnt)
    ensures c == Min(512 - (lo + d) % 512, cnt - d) && InSlot(lo + d, c) && RootField(lo + d) == RootField(lo)
    ensures d + c < cnt ==> PmdField(lo + d + c) == PmdField(lo + d) + 1
  {
    hide Wrap, PageNumber, PmdAddrEnd, InRootEntry, RootField, PmdField, Top;
    c := Min(512 - (lo + d) % 512, cnt - d);
    TurnBegins(addr0, addr, end, cnt, d);
    PageNumberAdd(addr0, d);
    LowField(addr);
    PmdBlock(addr, end);
    BlockPages(lo + d, cnt - d, 512);
    SameRoot(lo, cnt, d, c);
    TurnEnds(addr0, addr, next, end, cnt, d, c);
  }

  /** One turn of the loop over root entries. */
  lemma PgdTurn(addr: u64, next: u64, end: u64, addr0: u64, lo: nat, cnt: nat, d: nat) returns (c: nat)
    requires next == PgdAddrEnd(addr, end)
    requires d < cnt && lo == PageNumber(addr0) && lo + cnt <= ROOT_PAGES && addr0 % 4096 == 0
    requires addr0 + cnt * 4096 <= TWO_64 && end == Wrap(addr0 + cnt * 4096) && addr == Wrap(addr0 + d * 4096)
    ensures PageNumber(addr) == lo + d && addr % 4096 == 0 && 0 < c <= cnt - d
    ensures addr + c * 4096 <= TWO_64 && next == Wrap(addr + c * 4096) == Wrap(addr0 + (d + c) * 4096)
    ensures Wrap(next - addr) == c * 4096 && (next != end <==> d + c < cnt)
    ensures c == Min(0x4_0000 - (lo + d) % 0x4_0000, cnt - d) && InRootEntry(lo + d, c)
    ensures d + c < cnt ==> RootField(lo + d + c) == RootField(lo + d) + 1
  {
    hide Wrap, PageNumber, PgdAddrEnd, RootField, Top;
    c := Min(0x4_0000 - (lo + d) % 0x4_0000, cnt - d);
    TurnBegins(addr0, addr, end, cnt, d);
    PageNumberAdd(addr0, d);
    LowField(addr);
    PgdBlock(addr, end);
    BlockPages(lo + d, cnt - d, 0x4_0000);
    NextRoot(lo + d, c);
    TurnEnds(addr0, addr, next, end, cnt, d, c);
  }

  lemma NextRoot(n: nat, c: nat)
    ensures n % 0x4_0000 + c == 0x4_0000 ==> RootField(n + c) == RootField(n) + 1
  {
  }

  /** The page number keeps the low bits of the address in pages. */
  lemma LowField(addr: u64)
    ensures addr / 4096 % 512 == PageNumber(addr) % 512 && addr / 4096 % 0x4_0000 == PageNumber(addr) % 0x4_0000
  {
    var n := addr / 4096;
    assert n == n / 0x800_0000 * 0x800_0000 + n % 0x800_0000;
  }

  /** What one turn of either loop adds to the pages mapped so far. */
  lemma TurnDone(a: Tree, b: Tree, c: Tree, r: nat, lo: nat, d: nat, n: nat, phys: u64, prot: nat, addr: u64, next: u64)
    requires prot < 1024 && lo + d + n <= ROOT_PAGES && Wrap(next - addr) == n * 4096
    requires Built(a, b, r, lo, lo + d, phys, prot)
    requires Built(b, c, r, lo + d, lo + d + n, Wrap(phys + d * 4096), prot)
    ensures Built(a, c, r, lo, lo + (d + n), phys, prot)
    ensures Cost(a.m, r, lo, lo + (d + n)) == Cost(a.m, r, lo, lo + d) + Cost(b.m, r, lo + d, lo + d + n)
    ensures Wrap(Wrap(phys + d * 4096) + Wrap(next - addr)) == Wrap(phys + (d + n) * 4096)
  {
    hide Built, Cost, Wrap;
    BuiltThen(a, b, c, r, lo, lo + d, lo + d + n, phys, prot);
    WrapAdd(phys + d * 4096, n * 4096);
  }

  lemma FirstIndex(virt: u64)
    ensures PgdIndex(virt) == RootField(PageNumber(PageAlloc.AlignDown(virt)))
  {
    Indices(virt);
    assert PageAlloc.AlignDown(virt) / 4096 == virt / 4096;
  }

  class Machine {
    const alloc: PageAlloc.Allocator
    var mem: Memory
    ghost var own: Tables

    /** The static root directories start out empty and lie outside the allocator's pages. */
    constructor (a: PageAlloc.Allocator, m: Memory, ghost roots: set<nat>)
      requires a.Valid() && a.start / 4096 + PageAlloc.NR_PAGES <= PFN_LIMIT
      requires forall r, i: nat | r in roots && i < ENTRIES :: Ent(m, r, i) == 0
      requires forall r | r in roots :: r < a.start / 4096
      ensures Valid() && alloc == a && mem == m && own == map r | r in roots :: Node(2, r, 0)
    {
      alloc, mem, own := a, m, map r | r in roots :: Node(2, r, 0);
    }

    ghost predicate IsFree(p: nat)
      requires alloc.Valid()
      reads alloc, alloc.memMap
    {
      var b := alloc.start / 4096;
      b <= p < b + PageAlloc.NR_PAGES && alloc.memMap[p - b] == 0
    }

    /** The tables form a tree; none of its pages is free, and none lies past the managed frames. */
    ghost predicate Valid()
      reads this, alloc, alloc.memMap
    {
      var all :=
        && alloc.Valid() && alloc.start / 4096 + PageAlloc.NR_PAGES <= PFN_LIMIT
        && IsTree(mem, own)
        && forall p <- own :: !IsFree(p) && p < alloc.start / 4096 + PageAlloc.NR_PAGES;
      all
    }

    ghost function FreePages(): int
      reads alloc, alloc.memMap
    {
      PageAlloc.NR_PAGES - alloc.UsedCount()
    }

    function Load(pa: nat): u64
      reads this
    {
      if SlotAt(pa) in mem then mem[SlotAt(pa)] else 0
    }

    /** set_pgd, set_pmd, set_pte. */
    method Store(pa: nat, v: u64)
      modifies this`mem
      ensures mem == old(mem)[SlotAt(pa) := v]
      ensures forall p, k: nat :: Ent(mem, p, k) == if Slot(p, k) == SlotAt(pa) then v else Ent(old(mem), p, k)
    {
      mem := mem[SlotAt(pa) := v];
    }

    /** memset(phys, 0, PAGE_SIZE). */
    method ZeroPage(phys: nat)
      requires phys % 4096 == 0
      modifies this`mem
      ensures forall i: nat | i < ENTRIES :: Ent(mem, phys / 4096, i) == 0
      ensures forall p, i: nat | p != phys / 4096 :: Ent(mem, p, i) == Ent(old(mem), p, i)
    {
      var k := 0;
      ghost var c := phys / 4096;
      while k < ENTRIES
        invariant 0 <= k <= ENTRIES
        invariant forall i: nat | i < k :: Ent(mem, c, i) == 0
        invariant forall p, i: nat | p != c :: Ent(mem, p, i) == Ent(old(mem), p, i)
      {
        SlotInPage(c, k);
        Store(phys + 8 * k, 0);
        k := k + 1;
      }
    }

    /** Allocates a table and refers to it from the empty entry at entryp, which is slot k of table
        p: the first half of alloc_init_pte and alloc_init_pmd. */
    method AllocTable(entryp: nat, ghost p: nat, ghost k: nat)
      requires Valid() && FreePages() > 0
      requires p in own && own[p].level > 0 && k < ENTRIES && entryp == p * 4096 + 8 * k && Ent(mem, p, k) == 0
      modifies this`mem, this`own, alloc.memMap
      ensures Valid() && FreePages() == old(FreePages()) - 1
      ensures var c := PfnOf(Ent(mem, p, k));
              && c < PFN_LIMIT && c !in old(own) && old(IsFree(c)) && Attached(old(mem), mem, p, k, c)
              && own == old(own)[c := Node(old(own)[p].level - 1, p, k)]
    {
      hide IsTree, PageAlloc.Used;
      var phys := EarlyPgtableAlloc();
      ghost var c := phys / 4096;
      SlotInPage(p, k);
      EntryFields(c, PAGE_PRESENT);
      Store(entryp, PfnEntry(PfnDown(phys), PAGE_PRESENT));
      AttachKeepsTree(old(mem), mem, own, p, k, c);
      own := own[c := Node(own[p].level - 1, p, k)];
    }

    /** The get_free_page half of early_pgtable_alloc. */
    method TakePage() returns (phys: nat)
      requires Valid() && FreePages() > 0
      modifies alloc.memMap
      ensures Valid() && phys % 4096 == 0 && phys / 4096 < PFN_LIMIT
      ensures old(IsFree(phys / 4096)) && !IsFree(phys / 4096) && phys / 4096 !in own
      ensures forall p: nat | old(!IsFree(p)) :: !IsFree(p)
      ensures FreePages() == old(FreePages()) - 1
    {
      hide IsTree;
      ghost var s := alloc.memMap[..];
      ghost var k := PageAlloc.FirstFree(s);
      PageAlloc.FirstFitBound(s);
      PageAlloc.UsedUpdate(s, k, 1);
      phys := alloc.GetFreePage();
    }

    /** Takes a page and clears it. There is no check for an exhausted allocator. */
    method EarlyPgtableAlloc() returns (phys: nat)
      requires Valid() && FreePages() > 0
      modifies this`mem, alloc.memMap
      ensures Valid() && phys % 4096 == 0 && phys / 4096 < PFN_LIMIT
      ensures old(IsFree(phys / 4096)) && !IsFree(phys / 4096) && phys / 4096 !in own
      ensures forall p: nat | old(!IsFree(p)) :: !IsFree(p)
      ensures FreePages() == old(FreePages()) - 1
      ensures forall i: nat | i < ENTRIES :: Ent(mem, phys / 4096, i) == 0
      ensures forall p, i: nat | p != phys / 4096 :: Ent(mem, p, i) == Ent(old(mem), p, i)
    {
      hide IsTree, PageAlloc.Used, View, Pmd;
      phys := TakePage();
      ghost var m := mem;
      ZeroPage(phys);
      Frame(m, mem, own);
    }

    /** set_pte on slot k of the level-0 table in page low, continuing a run of stores that began in
        memory m0 with page lo and frame phys0. */
    method SetPte(ptep: nat, phys: u64, prot: nat, ghost low: nat, ghost k: nat,
                  ghost m0: Memory, ghost lo: nat, ghost phys0: u64)
      requires Valid() && low in own && own[low].level == 0 && own[low].parent in own
      requires k < ENTRIES && ptep == low * 4096 + 8 * k && prot < 1024
      requires lo <= LowPage(own, low, k) < ROOT_PAGES
      requires phys == Wrap(phys0 + (LowPage(own, low, k) - lo) * 4096)
      requires Wrote(m0, mem, own, LowRoot(own, low), lo, LowPage(own, low, k), phys0, prot)
      modifies this`mem
      ensures Valid() && Wrote(m0, mem, own, LowRoot(own, low), lo, LowPage(own, low, k) + 1, phys0, prot)
    {
      hide View, Stop;
      ghost var m1, r, n := mem, LowRoot(own, low), LowPage(own, low, k);
      SlotInPage(low, k);
      Store(ptep, PfnEntry(PfnDown(phys), prot));
      SetLow(m1, mem, own, low, k);
      assert PteAt(phys, 0, prot) == PfnEntry(PfnDown(phys), prot);
      WroteThen(m0, m1, mem, own, r, lo, n, n + 1, phys0, prot);
    }

    /** The loop of alloc_init_pte: cnt consecutive entries of one level-0 table. */
    method FillPtes(ptep0: nat, addr0: u64, end: u64, phys0: u64, prot: nat,
                    ghost low: nat, ghost k: nat, ghost cnt: nat, ghost r: nat, ghost n: nat)
      requires Valid() && prot < 1024
      requires low in own && own[low].level == 0 && 0 < cnt && k + cnt <= ENTRIES && ptep0 == low * 4096 + 8 * k
      requires addr0 + cnt * 4096 <= TWO_64 && end == Wrap(addr0 + cnt * 4096)
      requires own[low].parent in own && r == LowRoot(own, low)
      requires n == LowPage(own, low, k) && n + cnt <= ROOT_PAGES
      modifies this`mem
      ensures Valid() && Wrote(old(mem), mem, own, r, n, n + cnt, phys0, prot)
    {
      var ptep := ptep0;
      var addr: u64, phys: u64, more := addr0, phys0, true;
      ghost var d := 0;
      WroteNothing(mem, own, r, n, phys0, prot);
      while more
        invariant Valid()
        invariant 0 <= d <= cnt && more == (d < cnt)
        invariant addr == Wrap(addr0 + d * 4096) && phys == Wrap(phys0 + d * 4096)
        invariant ptep == low * 4096 + 8 * (k + d)
        invariant Wrote(old(mem), mem, own, r, n, n + d, phys0, prot)
        decreases cnt - d
      {
        SetPte(ptep, phys, prot, low, k + d, old(mem), n, phys0);
        WrapAdd(phys0 + d * 4096, 4096);
        WrapAdd(addr0 + d * 4096, 4096);
        AtEnd(addr0, d + 1, cnt);
        phys := Wrap(phys + 4096);
        ptep := ptep + 8;
        addr := Wrap(addr + 4096);
        more := addr != end;
        d := d + 1;
      }
    }

    /** The pages a mapping call on [addr, end) is about, and what it needs: the range is a whole
        number of pages, stays below one root page, meets no leaf above level 0, and enough free
        pages are left for the missing tables. */
    ghost predicate Ready(addr: u64, end: u64, r: nat, lo: nat, cnt: nat, prot: nat)
      reads this, alloc, alloc.memMap
    {
      var all :=
        && Valid() && IsRoot(own, r) && prot < 1024
        && 0 < cnt && lo == PageNumber(addr) && lo + cnt <= ROOT_PAGES && addr % 4096 == 0
        && addr + cnt * 4096 <= TWO_64 && end == Wrap(addr + cnt * 4096)
        && NoLeaf(mem, r, lo, lo + cnt) && Cost(mem, r, lo, lo + cnt) <= FreePages();
      all
    }

    /** The first half of alloc_init_pte: slot q of the directory gets a level-0 table if it has none. */
    method EnsureLow(pmdp: nat, ghost r: nat, ghost p: nat, ghost q: nat) returns (ghost low: nat)
      requires Valid() && q < ROOT_SLOTS && p in own && own[p] == Node(1, r, q / 512)
      requires pmdp == p * 4096 + 8 * (q % 512)
      requires Pmd(mem, r, q) == 0 || Table(Pmd(mem, r, q))
      requires Pmd(mem, r, q) == 0 ==> FreePages() > 0
      modifies this`mem, this`own, alloc.memMap
      ensures Valid() && HasLow(old(Tree(mem, own)), Tree(mem, own), r, q)
      ensures FreePages() == old(FreePages()) - if old(Pmd(mem, r, q)) == 0 then 1 else 0
      ensures IsRoot(own, r) && p in own && own[p] == old(own[p])
      ensures low in own && own[low].level == 0 && own[low].parent in own && LowRoot(own, low) == r
      ensures TablePaddr(Load(pmdp)) == low * 4096
      ensures forall k: nat :: LowPage(own, low, k) == q * 512 + k
    {
      ghost var j := q % 512;
      SlotInPage(p, j);
      PmdOfTable(mem, own, p, j);
      if Load(pmdp) == 0 {
        AllocTable(pmdp, p, j);
        GotLow(old(mem), mem, old(own), p, j, PfnOf(Ent(mem, p, j)));
      } else {
        HadLow(Tree(mem, own), r, q);
      }
      LowOfEntry(mem, own, p, j);
      low := PfnOf(Ent(mem, p, j));
    }

    /** Maps cnt pages below the level-1 entry at pmdp, slot j of table p, allocating the level-0
        table first when the entry is empty. */
    method AllocInitPte(pmdp: nat, addr: u64, end: u64, phys: u64, prot: nat,
                        ghost r: nat, ghost p: nat, ghost lo: nat, ghost cnt: nat)
      requires Ready(addr, end, r, lo, cnt, prot) && InSlot(lo, cnt)
      requires p in own && own[p] == Node(1, r, RootField(lo))
      requires pmdp == p * 4096 + 8 * PmdField(lo)
      modifies this`mem, this`own, alloc.memMap
      ensures Valid() && IsRoot(own, r) && p in own && own[p] == old(own[p])
      ensures Built(old(Tree(mem, own)), Tree(mem, own), r, lo, lo + cnt, phys, prot)
      ensures FreePages() == old(FreePages()) - old(Cost(mem, r, lo, lo + cnt))
    {
      hide Cost, Built, HasLow, Wrote, IsTree, LowRoot;
      PmdOfTable(mem, own, p, lo / 512 % 512);
      FieldSplit(lo);
      Indices(addr);
      LowCost(mem, r, lo, lo + cnt);
      ghost var low := EnsureLow(pmdp, r, p, lo / 512);
      ghost var b := Tree(mem, own);
      FillPtes(TablePaddr(Load(pmdp)) + 8 * PteIndex(addr), addr, end, phys, prot, low, lo % 512, cnt, r, lo);
      LowBuilt(old(Tree(mem, own)), b, mem, r, lo, lo + cnt, phys, prot);
    }

    /** The loop of alloc_init_pmd: cnt pages below the level-1 table in page p. */
    method FillPmds(pmdp0: nat, addr0: u64, end: u64, phys0: u64, prot: nat,
                    ghost r: nat, ghost p: nat, ghost lo: nat, ghost cnt: nat)
      requires Ready(addr0, end, r, lo, cnt, prot) && InRootEntry(lo, cnt)
      requires p in own && own[p] == Node(1, r, RootField(lo))
      requires pmdp0 == p * 4096 + 8 * PmdField(lo)
      modifies this`mem, this`own, alloc.memMap
      ensures Valid() && IsRoot(own, r)
      ensures Built(old(Tree(mem, own)), Tree(mem, own), r, lo, lo + cnt, phys0, prot)
      ensures FreePages() == old(FreePages()) - old(Cost(mem, r, lo, lo + cnt))
    {
      hide Built, Cost, NoLeaf, IsTree, PageNumber, PmdField, RootField, InSlot, InRootEntry, Wrap, PmdAddrEnd;
      var pmdp := pmdp0;
      var addr: u64, phys: u64, more := addr0, phys0, true;
      ghost var a, d := Tree(mem, own), 0;
      BuiltNothing(a, r, lo, phys0, prot);
      WrapSmall(addr0, phys0);
      while more
        invariant Valid() && d <= cnt && more == (d < cnt)
        invariant addr == Wrap(addr0 + d * 4096) && phys == Wrap(phys0 + d * 4096)
        invariant IsRoot(own, r) && p in own && own[p] == Node(1, r, RootField(lo))
        invariant more ==> pmdp == p * 4096 + 8 * PmdField(lo + d)
        invariant Built(a, Tree(mem, own), r, lo, lo + d, phys0, prot)
        invariant FreePages() == old(FreePages()) - Cost(a.m, r, lo, lo + d)
        decreases cnt - d
      {
        var next := PmdAddrEnd(addr, end);
        ghost var c := PmdTurn(addr, next, end, addr0, lo, cnt, d);
        ghost var b := Tree(mem, own);
        BuiltAhead(a, b, r, lo, lo + d, lo + d + c, lo + cnt, phys0, prot);
        AllocInitPte(pmdp, addr, next, phys, prot, r, p, lo + d, c);
        TurnDone(a, b, Tree(mem, own), r, lo, d, c, phys0, prot, addr, next);
        phys := Wrap(phys + Wrap(next - addr));
        pmdp := pmdp + 8;
        addr := next;
        more := addr != end;
        d := d + c;
      }
    }

    /** The first half of alloc_init_pmd: root entry i gets a level-1 table if it has none. */
    method EnsureMid(pgdp: nat, ghost r: nat, ghost i: nat) returns (ghost mid: nat)
      requires Valid() && IsRoot(own, r) && i < ENTRIES && pgdp == r * 4096 + 8 * i
      requires Ent(mem, r, i) == 0 || Table(Ent(mem, r, i))
      requires Ent(mem, r, i) == 0 ==> FreePages() > 0
      modifies this`mem, this`own, alloc.memMap
      ensures Valid() && IsRoot(own, r) && HasMid(old(Tree(mem, own)), Tree(mem, own), r, i)
      ensures FreePages() == old(FreePages()) - if old(Ent(mem, r, i)) == 0 then 1 else 0
      ensures mid in own && own[mid] == Node(1, r, i) && TablePaddr(Load(pgdp)) == mid * 4096
    {
      SlotInPage(r, i);
      if Load(pgdp) == 0 {
        AllocTable(pgdp, r, i);
        GotMid(old(mem), mem, old(own), r, i, PfnOf(Ent(mem, r, i)));
      } else {
        HadMid(Tree(mem, own), r, i);
      }
      assert GoodEntry(mem, own, r, i);
      mid := PfnOf(Ent(mem, r, i));
    }

    /** Maps cnt pages below the root entry at pgdp, allocating the level-1 table first when the
        entry is empty. */
    method AllocInitPmd(pgdp: nat, addr: u64, end: u64, phys: u64, prot: nat,
                        ghost r: nat, ghost lo: nat, ghost cnt: nat)
      requires Ready(addr, end, r, lo, cnt, prot) && InRootEntry(lo, cnt)
      requires pgdp == r * 4096 + 8 * RootField(lo)
      modifies this`mem, this`own, alloc.memMap
      ensures Valid() && IsRoot(own, r)
      ensures Built(old(Tree(mem, own)), Tree(mem, own), r, lo, lo + cnt, phys, prot)
      ensures FreePages() == old(FreePages()) - old(Cost(mem, r, lo, lo + cnt))
    {
      hide Built, Cost, HasMid, IsTree, PageNumber;
      ghost var a := Tree(mem, own);
      OneRootEntry(mem, r, lo, cnt);
      ghost var mid := EnsureMid(pgdp, r, RootField(lo));
      ghost var b := Tree(mem, own);
      MidReady(a, b, r, lo, lo + cnt);
      Indices(addr);
      FillPmds(TablePaddr(Load(pgdp)) + 8 * PmdIndex(addr), addr, end, phys, prot, r, mid, lo, cnt);
      MidBuilt(a, b, Tree(mem, own), r, lo, lo + cnt, phys, prot);
    }

    /** __create_pgd_mapping and its copy __create_vs_pgd_mapping: maps every page of
        [PAGE_ALIGN_DOWN(virt), PAGE_ALIGN_UP(virt + size)) to consecutive frames from
        PAGE_ALIGN_DOWN(phys). */
    method CreatePgdMapping(pgdir: nat, phys0: u64, virt: u64, size: u64, prot: nat,
                            ghost r: nat, ghost lo: nat, ghost cnt: nat)
      requires virt + size <= TWO_64 && pgdir == r * 4096
      requires PageAlloc.AlignDown(virt) + cnt * 4096 == PageAlloc.AlignUp(virt + size)
      requires Ready(PageAlloc.AlignDown(virt), Wrap(PageAlloc.AlignUp(virt + size)), r, lo, cnt, prot)
      modifies this`mem, this`own, alloc.memMap
      ensures Valid() && IsRoot(own, r)
      ensures Built(old(Tree(mem, own)), Tree(mem, own), r, lo, lo + cnt, PageAlloc.AlignDown(phys0), prot)
      ensures FreePages() == old(FreePages()) - old(Cost(mem, r, lo, lo + cnt))
    {
      hide Built, Cost, NoLeaf, IsTree, PageNumber, RootField, InRootEntry, Wrap, PgdAddrEnd;
      var pgdp := pgdir + 8 * PgdIndex(virt);
      var phys: u64, addr: u64, end: u64 :=
        PageAlloc.AlignDown(phys0), PageAlloc.AlignDown(virt), Wrap(PageAlloc.AlignUp(virt + size));
      ghost var addr0, phys1, a, d := addr, phys, Tree(mem, own), 0;
      FirstIndex(virt);
      BuiltNothing(a, r, lo, phys, prot);
      WrapSmall(addr, phys);
      var more := true;
      while more
        invariant Valid() && d <= cnt && more == (d < cnt) && IsRoot(own, r)
        invariant addr == Wrap(addr0 + d * 4096) && phys == Wrap(phys1 + d * 4096)
        invariant more ==> pgdp == r * 4096 + 8 * RootField(lo + d)
        invariant Built(a, Tree(mem, own), r, lo, lo + d, phys1, prot)
        invariant FreePages() == old(FreePages()) - Cost(a.m, r, lo, lo + d)
        decreases cnt - d
      {
        var next := PgdAddrEnd(addr, end);
        ghost var c := PgdTurn(addr, next, end, addr0, lo, cnt, d);
        ghost var b := Tree(mem, own);
        BuiltAhead(a, b, r, lo, lo + d, lo + d + c, lo + cnt, phys1, prot);
        AllocInitPmd(pgdp, addr, next, phys, prot, r, lo + d, c);
        TurnDone(a, b, Tree(mem, own), r, lo, d, c, phys1, prot, addr, next);
        phys := Wrap(phys + Wrap(next - addr));
        pgdp := pgdp + 8;
        addr := next;
        more := addr != end;
        d := d + c;
      }
    }
  }
}
