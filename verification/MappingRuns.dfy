/** Runs of mapping calls on one root: what any sequence of ranges adds up to. */
module MappingRuns {
  import opened Words
  import opened Sv39
  import opened Mapping
  import opened Translation
  import PageAlloc

  /** One call of __create_pgd_mapping. */
  datatype Request = Request(virt: u64, size: u64, phys: u64, prot: nat)

  function First(q: Request): nat { PageNumber(PageAlloc.AlignDown(q.virt)) }

  function Count(q: Request): int
    requires q.virt + q.size <= TWO_64
  {
    (PageAlloc.AlignUp(q.virt + q.size) - PageAlloc.AlignDown(q.virt)) / 4096
  }

  /** A non-empty range that stays below one root page. */
  predicate Acceptable(q: Request) {
    q.virt + q.size <= TWO_64 && q.prot < 1024 && Count(q) > 0 && First(q) + Count(q) <= ROOT_PAGES
  }

  type Call = q: Request | Acceptable(q) witness Request(0, 4096, 0, 0)

  function Last(q: Call): nat { First(q) + Count(q) }

  predicate HasPage(q: Call, n: nat) { First(q) <= n < Last(q) }
  predicate HasSlot(q: Call, s: nat) { First(q) / 512 <= s < SlotEnd(First(q), Last(q)) }
  predicate HasEntry(q: Call, i: nat) { First(q) / 0x4_0000 <= i < RootEnd(First(q), Last(q)) }

  /** The translation of page n after the calls: the last one that covers it decides. */
  ghost function ViewAfter(m: Memory, r: nat, calls: seq<Call>, n: nat): Result {
    if calls == [] then View(m, r, n)
    else
      var q := calls[|calls| - 1];
      if HasPage(q, n) && n - First(q) <= ROOT_PAGES
      then LowResult(PteAt(PageAlloc.AlignDown(q.phys), n - First(q), q.prot))
      else ViewAfter(m, r, calls[..|calls| - 1], n)
  }

  ghost predicate SlotCovered(calls: seq<Call>, s: nat) { exists q :: q in calls && HasSlot(q, s) }
  ghost predicate EntryCovered(calls: seq<Call>, i: nat) { exists q :: q in calls && HasEntry(q, i) }

  /** The empty 2 MB slots and root entries on the way to any of the ranges. */
  ghost function NeededSlots(m: Memory, r: nat, calls: seq<Call>): set<nat> {
    set s: nat | s < ROOT_SLOTS && Pmd(m, r, s) == 0 && SlotCovered(calls, s)
  }

  ghost function NeededEntries(m: Memory, r: nat, calls: seq<Call>): set<nat> {
    set i: nat | i < ENTRIES && Ent(m, r, i) == 0 && EntryCovered(calls, i)
  }

  /** The table pages that the whole run takes. */
  ghost function RunCost(m: Memory, r: nat, calls: seq<Call>): nat {
    |NeededSlots(m, r, calls)| + |NeededEntries(m, r, calls)|
  }

  /** The effect of a run on the tree. */
  ghost predicate Ran(a: Tree, b: Tree, r: nat, calls: seq<Call>) {
    var all :=
      && Grown(a.own, b.own) && OthersSame(a.m, b.m, a.own, r)
      && (forall n | 0 <= n < ROOT_PAGES :: View(b.m, r, n) == ViewAfter(a.m, r, calls, n))
      && (forall s: nat | s < ROOT_SLOTS && !(Pmd(a.m, r, s) == 0 && SlotCovered(calls, s)) ::
            Pmd(b.m, r, s) == Pmd(a.m, r, s))
      && (forall s: nat | s < ROOT_SLOTS && Pmd(a.m, r, s) == 0 && SlotCovered(calls, s) :: Table(Pmd(b.m, r, s)))
      && (forall i: nat | i < ENTRIES && !(Ent(a.m, r, i) == 0 && EntryCovered(calls, i)) ::
            Ent(b.m, r, i) == Ent(a.m, r, i))
      && (forall i: nat | i < ENTRIES && Ent(a.m, r, i) == 0 && EntryCovered(calls, i) :: Table(Ent(b.m, r, i)));
    all
  }

  ghost predicate NoLeaves(m: Memory, r: nat, calls: seq<Call>) {
    forall q | q in calls :: NoLeaf(m, r, First(q), Last(q))
  }

  // ----- counting

  ghost function SlotsOf(m: Memory, r: nat, a: nat, b: nat): set<nat> {
    set s: nat | a <= s < b && Pmd(m, r, s) == 0
  }

  ghost function EntriesOf(m: Memory, r: nat, a: nat, b: nat): set<nat> {
    set i: nat | a <= i < b && Ent(m, r, i) == 0
  }

  lemma {:induction false} SlotsCounted(m: Memory, r: nat, a: nat, b: nat)
    ensures EmptySlots(m, r, a, b) == |SlotsOf(m, r, a, b)|
    decreases b - a
  {
    hide Pmd, SlotsOf;
    SlotsFrom(m, r, a, b);
    if a < b {
      SlotsCounted(m, r, a + 1, b);
    }
  }

  lemma SlotsFrom(m: Memory, r: nat, a: nat, b: nat)
    ensures a >= b ==> SlotsOf(m, r, a, b) == {}
    ensures a < b ==> a !in SlotsOf(m, r, a + 1, b)
    ensures a < b ==> SlotsOf(m, r, a, b) == SlotsOf(m, r, a + 1, b) + if Pmd(m, r, a) == 0 then {a} else {}
  {
    hide Pmd;
  }

  lemma {:induction false} EntriesCounted(m: Memory, r: nat, a: nat, b: nat)
    ensures EmptyRoot(m, r, a, b) == |EntriesOf(m, r, a, b)|
    decreases b - a
  {
    hide Ent, EntriesOf;
    EntriesFrom(m, r, a, b);
    if a < b {
      EntriesCounted(m, r, a + 1, b);
    }
  }

  lemma EntriesFrom(m: Memory, r: nat, a: nat, b: nat)
    ensures a >= b ==> EntriesOf(m, r, a, b) == {}
    ensures a < b ==> a !in EntriesOf(m, r, a + 1, b)
    ensures a < b ==> EntriesOf(m, r, a, b) == EntriesOf(m, r, a + 1, b) + if Ent(m, r, a) == 0 then {a} else {}
  {
    hide Ent;
  }

  lemma SlotBounds(q: Call)
    ensures SlotEnd(First(q), Last(q)) <= ROOT_SLOTS && RootEnd(First(q), Last(q)) <= ENTRIES
  {
    hide PageNumber, PageAlloc.AlignDown, PageAlloc.AlignUp;
  }

  /** What a call costs after a run is what it adds to the run's cost. */
  lemma CostAdds(a: Tree, b: Tree, r: nat, calls: seq<Call>, q: Call)
    requires Ran(a, b, r, calls)
    ensures RunCost(a.m, r, calls + [q]) == RunCost(a.m, r, calls) + Cost(b.m, r, First(q), Last(q))
  {
    hide Pmd, View, First, Last, SlotEnd, RootEnd, OthersSame;
    SlotBounds(q);
    SlotsAdd(a, b, r, calls, q);
    EntriesAdd(a, b, r, calls, q);
  }

  lemma SlotAdds(a: Tree, b: Tree, r: nat, calls: seq<Call>, q: Call, x: nat)
    requires Ran(a, b, r, calls) && SlotEnd(First(q), Last(q)) <= ROOT_SLOTS
    ensures var was, add := NeededSlots(a.m, r, calls), SlotsOf(b.m, r, First(q) / 512, SlotEnd(First(q), Last(q)));
            (x in NeededSlots(a.m, r, calls + [q]) <==> x in was || x in add) && !(x in was && x in add)
  {
    hide Pmd, View, First, Last, SlotEnd, RootEnd, OthersSame;
    SlotCoveredSnoc(calls, q, x);
  }

  lemma SlotsAdd(a: Tree, b: Tree, r: nat, calls: seq<Call>, q: Call)
    requires Ran(a, b, r, calls) && SlotEnd(First(q), Last(q)) <= ROOT_SLOTS
    ensures |NeededSlots(a.m, r, calls + [q])|
            == |NeededSlots(a.m, r, calls)| + EmptySlots(b.m, r, First(q) / 512, SlotEnd(First(q), Last(q)))
  {
    hide Ran, NeededSlots, SlotsOf, First, Last, SlotEnd, RootEnd;
    var x, y := First(q) / 512, SlotEnd(First(q), Last(q));
    SlotsCounted(b.m, r, x, y);
    var was, add := NeededSlots(a.m, r, calls), SlotsOf(b.m, r, x, y);
    forall z: nat ensures (z in NeededSlots(a.m, r, calls + [q]) <==> z in was || z in add) && !(z in was && z in add) {
      SlotAdds(a, b, r, calls, q, z);
    }
    assert NeededSlots(a.m, r, calls + [q]) == was + add && was !! add;
  }

  lemma EntryAdds(a: Tree, b: Tree, r: nat, calls: seq<Call>, q: Call, x: nat)
    requires Ran(a, b, r, calls) && RootEnd(First(q), Last(q)) <= ENTRIES
    ensures var was := NeededEntries(a.m, r, calls);
            var add := EntriesOf(b.m, r, First(q) / 0x4_0000, RootEnd(First(q), Last(q)));
            (x in NeededEntries(a.m, r, calls + [q]) <==> x in was || x in add) && !(x in was && x in add)
  {
    hide Pmd, View, First, Last, SlotEnd, RootEnd, OthersSame;
    EntryCoveredSnoc(calls, q, x);
  }

  lemma EntriesAdd(a: Tree, b: Tree, r: nat, calls: seq<Call>, q: Call)
    requires Ran(a, b, r, calls) && RootEnd(First(q), Last(q)) <= ENTRIES
    ensures |NeededEntries(a.m, r, calls + [q])|
            == |NeededEntries(a.m, r, calls)| + EmptyRoot(b.m, r, First(q) / 0x4_0000, RootEnd(First(q), Last(q)))
  {
    hide Ran, NeededEntries, EntriesOf, First, Last, SlotEnd, RootEnd;
    var x, y := First(q) / 0x4_0000, RootEnd(First(q), Last(q));
    EntriesCounted(b.m, r, x, y);
    var was, add := NeededEntries(a.m, r, calls), EntriesOf(b.m, r, x, y);
    forall z: nat
      ensures (z in NeededEntries(a.m, r, calls + [q]) <==> z in was || z in add) && !(z in was && z in add)
    {
      EntryAdds(a, b, r, calls, q, z);
    }
    assert NeededEntries(a.m, r, calls + [q]) == was + add && was !! add;
  }

  lemma SlotCoveredSnoc(calls: seq<Call>, q: Call, s: nat)
    ensures SlotCovered(calls + [q], s) <==> SlotCovered(calls, s) || HasSlot(q, s)
  {
    assert q in calls + [q];
  }

  lemma EntryCoveredSnoc(calls: seq<Call>, q: Call, i: nat)
    ensures EntryCovered(calls + [q], i) <==> EntryCovered(calls, i) || HasEntry(q, i)
  {
    assert q in calls + [q];
  }

  lemma CostGrows(m: Memory, r: nat, calls: seq<Call>, i: nat)
    requires i <= |calls|
    ensures RunCost(m, r, calls[..i]) <= RunCost(m, r, calls)
  {
    hide Pmd, HasSlot, HasEntry;
    forall s | SlotCovered(calls[..i], s) ensures SlotCovered(calls, s) {
    }
    forall e | EntryCovered(calls[..i], e) ensures EntryCovered(calls, e) {
    }
    PageAlloc.SubsetCard(NeededSlots(m, r, calls[..i]), NeededSlots(m, r, calls));
    PageAlloc.SubsetCard(NeededEntries(m, r, calls[..i]), NeededEntries(m, r, calls));
  }

  // ----- the run itself

  lemma RanNothing(a: Tree, r: nat)
    ensures Ran(a, a, r, []) && RunCost(a.m, r, []) == 0
  {
    assert NeededSlots(a.m, r, []) == {} && NeededEntries(a.m, r, []) == {};
  }

  lemma RanThen(a: Tree, b: Tree, c: Tree, r: nat, calls: seq<Call>, q: Call)
    requires Ran(a, b, r, calls) && Built(b, c, r, First(q), Last(q), PageAlloc.AlignDown(q.phys), q.prot)
    ensures Ran(a, c, r, calls + [q])
  {
    hide Pmd, View, First, Last, SlotEnd, RootEnd, OthersSame, SlotCovered, EntryCovered, LowResult, PteAt;
    SameThen(a.m, b.m, c.m, a.own, b.own, r);
    assert (calls + [q])[..|calls|] == calls;
    CallShort(q);
    forall s: nat ensures SlotCovered(calls + [q], s) <==> SlotCovered(calls, s) || HasSlot(q, s) {
      SlotCoveredSnoc(calls, q, s);
    }
    forall i: nat ensures EntryCovered(calls + [q], i) <==> EntryCovered(calls, i) || HasEntry(q, i) {
      EntryCoveredSnoc(calls, q, i);
    }
  }

  lemma CallShort(q: Call)
    ensures forall n: nat | HasPage(q, n) :: n - First(q) <= ROOT_PAGES
  {
    hide PageNumber, PageAlloc.AlignDown, PageAlloc.AlignUp;
  }

  /** A run makes no new leaf above level 0. */
  lemma RanNoLeaf(a: Tree, b: Tree, r: nat, calls: seq<Call>, lo: nat, hi: nat)
    requires Ran(a, b, r, calls) && hi <= ROOT_PAGES && NoLeaf(a.m, r, lo, hi)
    ensures NoLeaf(b.m, r, lo, hi)
  {
    hide Pmd, View, OthersSame, SlotCovered;
  }

  lemma CallIsReady(q: Call)
    ensures var start := PageAlloc.AlignDown(q.virt);
            && start % 4096 == 0 && Count(q) > 0 && q.prot < 1024
            && First(q) == PageNumber(start) && Last(q) <= ROOT_PAGES
            && start + Count(q) * 4096 == PageAlloc.AlignUp(q.virt + q.size) <= TWO_64
  {
  }

  /** One call, after any run. */
  method MapOne(k: Machine, r: nat, q: Call)
    requires k.Valid() && IsRoot(k.own, r) && NoLeaf(k.mem, r, First(q), Last(q))
    requires k.FreePages() >= Cost(k.mem, r, First(q), Last(q))
    modifies k`mem, k`own, k.alloc.memMap
    ensures k.Valid() && IsRoot(k.own, r)
    ensures Built(old(Tree(k.mem, k.own)), Tree(k.mem, k.own), r, First(q), Last(q),
                  PageAlloc.AlignDown(q.phys), q.prot)
    ensures k.FreePages() == old(k.FreePages()) - old(Cost(k.mem, r, First(q), Last(q)))
  {
    hide Built, Cost, NoLeaf, IsTree, PageNumber, Wrap, PageAlloc.AlignDown, PageAlloc.AlignUp;
    CallIsReady(q);
    k.CreatePgdMapping(r * 4096, q.phys, q.virt, q.size, q.prot, r, First(q), Count(q));
  }

  /** Any sequence of calls whose ranges meet no leaf, with a free page for every empty entry on the way:
      the tables stay a tree, every page translates as the last call covering it says (or as before),
      and exactly those pages are taken. */
  method MapAll(k: Machine, r: nat, calls: seq<Call>)
    requires k.Valid() && IsRoot(k.own, r) && NoLeaves(k.mem, r, calls)
    requires k.FreePages() >= RunCost(k.mem, r, calls)
    modifies k`mem, k`own, k.alloc.memMap
    ensures k.Valid() && IsRoot(k.own, r) && Ran(old(Tree(k.mem, k.own)), Tree(k.mem, k.own), r, calls)
    ensures k.FreePages() == old(k.FreePages()) - old(RunCost(k.mem, r, calls))
  {
    hide Ran, RunCost, Built, Cost, NoLeaf, IsTree, First, Last;
    ghost var a := Tree(k.mem, k.own);
    var i := 0;
    RanNothing(a, r);
    assert calls[..0] == [];
    while i < |calls|
      invariant 0 <= i <= |calls| && k.Valid() && IsRoot(k.own, r) && Ran(a, Tree(k.mem, k.own), r, calls[..i])
      invariant k.FreePages() == old(k.FreePages()) - RunCost(a.m, r, calls[..i])
    {
      ghost var b := Tree(k.mem, k.own);
      assert calls[..i + 1] == calls[..i] + [calls[i]];
      CallInRun(a, b, r, calls, i);
      MapOne(k, r, calls[i]);
      RanThen(a, b, Tree(k.mem, k.own), r, calls[..i], calls[i]);
      i := i + 1;
    }
    assert calls[..|calls|] == calls;
  }

  lemma CallInRun(a: Tree, b: Tree, r: nat, calls: seq<Call>, i: nat)
    requires i < |calls| && Ran(a, b, r, calls[..i]) && NoLeaves(a.m, r, calls)
    ensures NoLeaf(b.m, r, First(calls[i]), Last(calls[i]))
    ensures RunCost(a.m, r, calls[..i]) + Cost(b.m, r, First(calls[i]), Last(calls[i]))
            == RunCost(a.m, r, calls[..i] + [calls[i]]) <= RunCost(a.m, r, calls)
  {
    hide Ran, RunCost, NoLeaf, Cost, First, Last;
    CallIsReady(calls[i]);
    RanNoLeaf(a, b, r, calls[..i], First(calls[i]), Last(calls[i]));
    CostAdds(a, b, r, calls[..i], calls[i]);
    assert calls[..i + 1] == calls[..i] + [calls[i]];
    CostGrows(a.m, r, calls, i + 1);
  }

  // ----- in terms of addresses

  /** The address lies in the call's aligned range. */
  predicate HasAddress(q: Call, va: u64) {
    PageAlloc.AlignDown(q.virt) <= va < PageAlloc.AlignUp(q.virt + q.size)
  }

  lemma {:induction false} ViewAfterLast(m: Memory, r: nat, calls: seq<Call>, k: nat, n: nat)
    requires k < |calls| && HasPage(calls[k], n) && forall j | k < j < |calls| :: !HasPage(calls[j], n)
    ensures n - First(calls[k]) <= ROOT_PAGES
    ensures ViewAfter(m, r, calls, n)
            == LowResult(PteAt(PageAlloc.AlignDown(calls[k].phys), n - First(calls[k]), calls[k].prot))
  {
    hide First, Last, LowResult, PteAt;
    CallShort(calls[k]);
    var z := |calls| - 1;
    if k < z {
      assert calls[..z][k] == calls[k];
      ViewAfterLast(m, r, calls[..z], k, n);
    }
  }

  lemma {:induction false} ViewAfterNone(m: Memory, r: nat, calls: seq<Call>, n: nat)
    requires forall q | q in calls :: !HasPage(q, n)
    ensures ViewAfter(m, r, calls, n) == View(m, r, n)
  {
    if calls != [] {
      ViewAfterNone(m, r, calls[..|calls| - 1], n);
    }
  }

  /** After a run, an address translates as the last call whose range holds its page says. */
  lemma LastCoverDecides(a: Tree, b: Tree, r: nat, calls: seq<Call>, k: nat, va: u64)
    requires IsTree(b.m, b.own) && IsRoot(b.own, r) && Ran(a, b, r, calls) && Canonical(va)
    requires k < |calls| && HasAddress(calls[k], va) && Physical(PageAlloc.AlignDown(calls[k].phys), Count(calls[k]))
    requires forall j | k < j < |calls| :: !HasPage(calls[j], PageNumber(va))
    ensures var q := calls[k];
            Translate(b.m, r, va) ==
            if LeafProt(q.prot) then Reach(PageAlloc.AlignDown(q.phys) + (va - PageAlloc.AlignDown(q.virt)), q.prot)
            else PageFault
  {
    hide IsTree, View, Walk, PageNumber, LowResult, PteAt, LeafProt, PageAlloc.AlignDown, PageAlloc.AlignUp, ViewAfter;
    var q := calls[k];
    var p, v := PageAlloc.AlignDown(q.phys), PageAlloc.AlignDown(q.virt);
    CallIsReady(q);
    PageInRange(q.virt, q.size, First(q), Count(q), va);
    ViewAfterLast(a.m, r, calls, k, PageNumber(va));
    WalkIsView(b.m, b.own, r, PageNumber(va));
    PteResult(p, (va - v) / 4096, q.prot);
    SameOffset(p, va, v);
  }

  /** And one that no range holds translates as before the run. */
  lemma OtherAddresses(a: Tree, b: Tree, r: nat, calls: seq<Call>, va: u64)
    requires IsTree(a.m, a.own) && IsRoot(a.own, r) && IsTree(b.m, b.own) && IsRoot(b.own, r) && Ran(a, b, r, calls)
    requires forall q | q in calls :: !HasPage(q, PageNumber(va))
    ensures Translate(b.m, r, va) == Translate(a.m, r, va)
  {
    hide IsTree, View, Walk, ViewAfter;
    ViewAfterNone(a.m, r, calls, PageNumber(va));
    WalkIsView(a.m, a.own, r, PageNumber(va));
    WalkIsView(b.m, b.own, r, PageNumber(va));
  }
}
