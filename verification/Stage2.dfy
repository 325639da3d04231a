/** Demand mapping of guest-physical pages (stage2_mmu.c): what one guest-page fault does to the
    Sv39x4 translation, and what any run of faults adds up to. */
module Stage2 {
  import opened Words
  import opened Sv39
  import opened Mapping
  import opened Translation
  import PageAlloc

  const PAGE_BASE: nat := PAGE_PRESENT + PAGE_ACCESSED + PAGE_USER
  const PAGE_READ_EXEC: nat := PAGE_BASE + PAGE_READ + PAGE_EXEC
  const PAGE_WRITE_EXEC: nat := PAGE_BASE + PAGE_READ + PAGE_EXEC + PAGE_WRITE
  const CAUSE_FETCH: nat := 0x14   // CAUSE_FETCH_GUEST_PAGE_FAULT
  const CAUSE_LOAD: nat := 0x15    // CAUSE_LOAD_GUEST_PAGE_FAULT
  const CAUSE_STORE: nat := 0x17   // CAUSE_STORE_GUEST_PAGE_FAULT

  /** The 16 KB root hs_pg_dir: four consecutive root pages, and no leaf above level 0. */
  ghost predicate GuestTables(m: Memory, own: Tables, r: nat) {
    && IsRoot(own, r) && IsRoot(own, r + 1) && IsRoot(own, r + 2) && IsRoot(own, r + 3)
    && NoLeaf(m, r, 0, ROOT_PAGES)
  }

  /** The guest-physical address of a fault: htval holds it shifted right by two. */
  function FaultAddr(htval: u64, stval: u64): (fa: u64)
    requires htval < 0x4000_0000_0000_0000
  {
    PageAlloc.AlignDown(htval * 4 + stval % 4)
  }

  function FaultProt(scause: u64): nat { if scause == CAUSE_STORE then PAGE_WRITE_EXEC else PAGE_READ_EXEC }

  /** What a fault's entry grants in hardware terms: loads and fetches by the guest, and stores exactly when
      the cause was 23, the store guest-page fault. */
  lemma FaultFlags(scause: u64)
    ensures var p := FaultProt(scause); V(p) && R(p) && X(p) && U(p) && (W(p) <==> scause == 23) && p < 1024
  {
  }

  lemma FaultRange(htval: u64, stval: u64)
    requires htval < 0x4000_0000_0000_0000
    ensures var fa := FaultAddr(htval, stval);
            && fa % 4096 == 0 && fa + 4096 <= TWO_64
            && PageAlloc.AlignDown(fa) == fa && PageAlloc.AlignUp(fa + 4096) == fa + 4096
  {
  }

  lemma OnePageCost(m: Memory, r: nat, n: nat)
    requires NoLeaf(m, r, 0, ROOT_PAGES) && n < ROOT_PAGES
    ensures NoLeaf(m, r, n, n + 1) && Cost(m, r, n, n + 1) <= 2
  {
    assert EmptySlots(m, r, n / 512 + 1, n / 512 + 1) == 0;
    assert EmptyRoot(m, r, n / 0x4_0000 + 1, n / 0x4_0000 + 1) == 0;
  }

  lemma StillNoLeaf(m: Memory, m': Memory, r: nat, a: nat, b: nat)
    requires NoLeaf(m, r, 0, ROOT_PAGES) && FillsSlots(m, m', r, a, b)
    ensures NoLeaf(m', r, 0, ROOT_PAGES)
  {
    hide Pmd;
  }

  /** stage2_page_fault. The whole effect on guest translation: among the guest-physical addresses
      below 2^39 the page whose number has the same low 27 bits as the faulting page goes to the
      host page with the faulting page's own address; every other guest address, in particular
      every one from 2^39 up, translates as before. */
  method HandlePageFault(k: Machine, r: nat, htval: u64, stval: u64, scause: u64)
    requires k.Valid() && GuestTables(k.mem, k.own, r) && k.FreePages() >= 2
    requires htval < 0x4000_0000_0000_0000
    modifies k`mem, k`own, k.alloc.memMap
    ensures k.Valid() && GuestTables(k.mem, k.own, r) && k.FreePages() >= old(k.FreePages()) - 2
    ensures var n := PageNumber(FaultAddr(htval, stval));
            Built(old(Tree(k.mem, k.own)), Tree(k.mem, k.own), r, n, n + 1, FaultAddr(htval, stval), FaultProt(scause))
  {
    hide Built, Cost, NoLeaf, IsTree, PageNumber, FaultAddr, PageAlloc.AlignDown, PageAlloc.AlignUp, Wrap;
    var faultAddr := FaultAddr(htval, stval);
    ghost var a, n := Tree(k.mem, k.own), PageNumber(faultAddr);
    FaultRange(htval, stval);
    OnePageCost(k.mem, r, n);
    k.CreatePgdMapping(r * 4096, faultAddr, faultAddr, 4096,
                       if scause == CAUSE_STORE then PAGE_WRITE_EXEC else PAGE_READ_EXEC, r, n, 1);
    BuiltKeeps(a, Tree(k.mem, k.own), r, n, n + 1, faultAddr, FaultProt(scause));
  }

  lemma BuiltKeeps(a: Tree, b: Tree, r: nat, lo: nat, hi: nat, phys: u64, prot: nat)
    requires prot < 1024 && Built(a, b, r, lo, hi, phys, prot) && GuestTables(a.m, a.own, r)
    ensures GuestTables(b.m, b.own, r)
  {
    hide NoLeaf, FillsSlots;
    StillNoLeaf(a.m, b.m, r, lo / 512, SlotEnd(lo, hi));
  }

  /** Guest translation after a fault, for every guest-physical address. */
  lemma GuestAfterFault(a: Tree, b: Tree, r: nat, fa: u64, prot: nat, gpa: u64)
    requires IsTree(a.m, a.own) && IsTree(b.m, b.own) && GuestTables(a.m, a.own, r) && GuestTables(b.m, b.own, r)
    requires fa % 4096 == 0 && Physical(fa, 1) && prot < 1024 && LeafProt(prot)
    requires Built(a, b, r, PageNumber(fa), PageNumber(fa) + 1, fa, prot)
    ensures TranslateGuest(b.m, r, gpa) ==
            if gpa < ROOT_SIZE && PageNumber(gpa) == PageNumber(fa) then Reach(fa + gpa % 4096, prot)
            else TranslateGuest(a.m, r, gpa)
  {
    hide IsTree, View, Walk, NoLeaf;
    if gpa / 4096 < 4 * ROOT_PAGES {
      var r' := r + gpa / 4096 / 0x800_0000;
      assert IsRoot(a.own, r') && IsRoot(b.own, r');
      var n := PageNumber(gpa);
      WalkIsView(a.m, a.own, r', n);
      WalkIsView(b.m, b.own, r', n);
      PteResult(fa, 0, prot);
    }
  }

  /** The fault is resolved, with the page mapped to itself, exactly when the guest-physical address
      is below 2^39: pgd_index keeps nine of the eleven index bits that Sv39x4 has. At and above 2^39
      the faulting address translates as it did before the fault. */
  lemma FaultResolved(a: Tree, b: Tree, r: nat, fa: u64, prot: nat)
    requires IsTree(a.m, a.own) && IsTree(b.m, b.own) && GuestTables(a.m, a.own, r) && GuestTables(b.m, b.own, r)
    requires fa % 4096 == 0 && Physical(fa, 1) && prot < 1024 && LeafProt(prot)
    requires Built(a, b, r, PageNumber(fa), PageNumber(fa) + 1, fa, prot)
    requires TranslateGuest(a.m, r, fa) != Reach(fa, prot)
    ensures TranslateGuest(b.m, r, fa) == Reach(fa, prot) <==> fa < ROOT_SIZE
    ensures fa >= ROOT_SIZE ==> TranslateGuest(b.m, r, fa) == TranslateGuest(a.m, r, fa)
  {
    hide TranslateGuest, IsTree, GuestTables, Built, PageNumber;
    GuestAfterFault(a, b, r, fa, prot, fa);
  }

  // ----- runs of faults

  datatype Kind = Fetch | Load | Store
  datatype Guest = Unmapped | ReadExec | ReadWriteExec

  /** What the hardware lets a guest access of each kind do with a page. */
  predicate Allowed(g: Guest, k: Kind) {
    g == ReadWriteExec || (g == ReadExec && k != Store)
  }

  function Cause(k: Kind): u64 {
    match k case Fetch => CAUSE_FETCH case Load => CAUSE_LOAD case Store => CAUSE_STORE
  }

  /** The exception codes of the hypervisor extension: 20, 21 and 23. */
  lemma Causes(k: Kind)
    ensures Cause(k) == 20 <==> k == Fetch
    ensures Cause(k) == 21 <==> k == Load
    ensures Cause(k) == 23 <==> k == Store
  {
  }

  function AfterFault(k: Kind): Guest { if k == Store then ReadWriteExec else ReadExec }

  /** A fault on any guest-physical page, below 2^39 or not. */
  datatype Event = Event(page: Gpn, kind: Kind)

  /** The number of a 4 KB page of the 64-bit guest-physical address space. */
  type Gpn = n: nat | n < 0x10_0000_0000_0000

  /** What a fault stores for the low page it lands on: the host page of the entry, and what the entry
      grants (nothing when the host page number does not fit the entry). */
  datatype Target = Target(page: nat, guest: Guest)

  /** The page of the tables that a fault lands on: pgd_index keeps 27 bits of the page number. */
  function Low(page: nat): nat { page % ROOT_PAGES }

  function Stored(e: Event): Target {
    Target(e.page, if e.page < PFN_LIMIT then AfterFault(e.kind) else Unmapped)
  }

  /** What the tables hold after a run of faults. */
  function Held(run: seq<Event>): (st: map<nat, Target>)
    ensures forall n <- st :: n < ROOT_PAGES
  {
    if run == [] then map[]
    else Held(run[..|run| - 1])[Low(run[|run| - 1].page) := Stored(run[|run| - 1])]
  }

  /** What an access to guest page n may do: no page from 2^27 on is ever mapped. */
  function Granted(st: map<nat, Target>, n: nat): Guest { if n in st then st[n].guest else Unmapped }

  /** A fault is raised only by an access the page's present mapping does not allow. */
  predicate Possible(run: seq<Event>) {
    run == [] ||
    (var last := run[|run| - 1];
     && Possible(run[..|run| - 1])
     && !Allowed(Granted(Held(run[..|run| - 1]), last.page), last.kind))
  }

  function Faults(run: seq<Event>, page: nat): nat {
    if run == [] then 0
    else Faults(run[..|run| - 1], page) + if run[|run| - 1].page == page then 1 else 0
  }

  /** The faults of other pages that land on this one. */
  function Aliases(run: seq<Event>, page: nat): nat {
    if run == [] then 0
    else
      var last := run[|run| - 1].page;
      Aliases(run[..|run| - 1], page) + if Low(last) == page && last != page then 1 else 0
  }

  ghost function ForeignTurns(run: seq<Event>, page: nat): set<nat> {
    set i: nat | i < |run| && Low(run[i].page) == page && run[i].page != page
  }

  ghost function OwnTurns(run: seq<Event>, page: nat): set<nat> { set i: nat | i < |run| && run[i].page == page }

  /** Both numbers count positions of the run. */
  lemma {:induction false} FaultCounts(run: seq<Event>, page: nat)
    ensures Aliases(run, page) == |ForeignTurns(run, page)| && Faults(run, page) == |OwnTurns(run, page)|
  {
    hide Low, ForeignTurns, OwnTurns;
    NoTurns(page);
    if run != [] {
      FaultCounts(run[..|run| - 1], page);
      ForeignGrows(run, page);
      OwnGrows(run, page);
    }
  }

  lemma NoTurns(page: nat)
    ensures ForeignTurns([], page) == {} && OwnTurns([], page) == {}
  {
  }

  lemma ForeignGrows(run: seq<Event>, page: nat)
    requires run != []
    ensures var n := |run| - 1;
            var f := ForeignTurns(run[..n], page);
            n !in f && ForeignTurns(run, page) == if Low(run[n].page) == page && run[n].page != page then f + {n} else f
  {
    hide Low;
    var n := |run| - 1;
    assert forall i | 0 <= i < n :: run[..n][i] == run[i];
  }

  lemma OwnGrows(run: seq<Event>, page: nat)
    requires run != []
    ensures var n := |run| - 1;
            var o := OwnTurns(run[..n], page);
            n !in o && OwnTurns(run, page) == if run[n].page == page then o + {n} else o
  {
    var n := |run| - 1;
    assert forall i | 0 <= i < n :: run[..n][i] == run[i];
  }

  function Rank(g: Guest): nat { match g case Unmapped => 0 case ReadExec => 1 case ReadWriteExec => 2 }

  /** A page below 2^39 faults at most twice, and twice more for each fault of another page that lands on
      it. Without such faults it is mapped exactly when it has faulted. */
  lemma {:induction false} FaultsBound(run: seq<Event>, page: nat)
    requires Possible(run) && page < ROOT_PAGES
    ensures Faults(run, page) <= Rank(Granted(Held(run), page)) + 2 * Aliases(run, page) <= 2 + 2 * Aliases(run, page)
    ensures Aliases(run, page) == 0 ==> (Granted(Held(run), page) != Unmapped <==> Faults(run, page) > 0)
  {
    if run != [] {
      FaultsBound(run[..|run| - 1], page);
    }
  }

  /** A fault takes permissions away from a page exactly when it is one of another page landing on it that
      grants less. */
  lemma ShrinksIff(run: seq<Event>, page: nat)
    requires Possible(run) && run != [] && page < ROOT_PAGES
    ensures var before, last := Granted(Held(run[..|run| - 1]), page), run[|run| - 1];
            Rank(Granted(Held(run), page)) < Rank(before) <==>
              Low(last.page) == page && last.page != page && Rank(Stored(last).guest) < Rank(before)
  {
    assert Possible(run[..|run| - 1]);
  }

  /** So permissions only grow along any part of a run in which no other page lands on this one. */
  lemma {:induction false} PermissionsGrow(run: seq<Event>, k: nat, page: nat)
    requires Possible(run) && k <= |run| && page < ROOT_PAGES && Aliases(run, page) == Aliases(run[..k], page)
    ensures Possible(run[..k]) && Rank(Granted(Held(run[..k]), page)) <= Rank(Granted(Held(run), page))
    decreases |run|
  {
    if k == |run| {
      assert run[..k] == run;
    } else {
      var n := |run| - 1;
      assert run[..n][..k] == run[..k];
      AliasesGrow(run[..n], k, page);
      PermissionsGrow(run[..n], k, page);
      ShrinksIff(run, page);
    }
  }

  lemma {:induction false} AliasesGrow(run: seq<Event>, k: nat, page: nat)
    requires k <= |run|
    ensures Aliases(run[..k], page) <= Aliases(run, page)
    decreases |run|
  {
    if k == |run| {
      assert run[..k] == run;
    } else {
      assert run[..|run| - 1][..k] == run[..k];
      AliasesGrow(run[..|run| - 1], k, page);
    }
  }

  /** The last fault that lands on a page decides what it holds; so the page goes to itself exactly when
      that fault was its own. */
  lemma {:induction false} LastFaultDecides(run: seq<Event>, k: nat, page: nat)
    requires k < |run| && Low(run[k].page) == page
    requires forall j | k < j < |run| :: Low(run[j].page) != page
    ensures page in Held(run) && Held(run)[page] == Stored(run[k])
    ensures Held(run)[page].page == page <==> run[k].page < ROOT_PAGES
  {
    var n := |run| - 1;
    if k < n {
      assert run[..n][k] == run[k];
      LastFaultDecides(run[..n], k, page);
    }
  }

  // ----- the tables along a run

  /** The four roots under r show st and nothing else. */
  ghost predicate Shows(m: Memory, r: nat, st: map<nat, Target>) {
    && (forall n | 0 <= n < ROOT_PAGES ::
          View(m, r, n) == match Granted(st, n)
                           case Unmapped => Fault
                           case ReadExec => Page(st[n].page, PAGE_READ_EXEC)
                           case ReadWriteExec => Page(st[n].page, PAGE_WRITE_EXEC))
    && (forall q, n: nat | r + 1 <= q <= r + 3 && n < ROOT_PAGES :: View(m, q, n) == Fault)
  }

  /** In hardware terms, for every 64-bit guest-physical address. */
  lemma GuestAfterRun(m: Memory, own: Tables, r: nat, st: map<nat, Target>, gpa: u64)
    requires IsTree(m, own) && GuestTables(m, own, r) && Shows(m, r, st) && forall n <- st :: n < ROOT_PAGES
    ensures TranslateGuest(m, r, gpa) ==
            match Granted(st, gpa / 4096)
            case Unmapped => PageFault
            case ReadExec => Reach(st[gpa / 4096].page * 4096 + gpa % 4096, PAGE_READ_EXEC)
            case ReadWriteExec => Reach(st[gpa / 4096].page * 4096 + gpa % 4096, PAGE_WRITE_EXEC)
  {
    hide IsTree, View, Walk, NoLeaf;
    if gpa / 4096 < 4 * ROOT_PAGES {
      WalkIsView(m, own, r + gpa / 4096 / 0x800_0000, PageNumber(gpa));
    }
  }

  /** What HandlePageFault stores for a page. */
  lemma StoredEntry(e: Event)
    ensures LowResult(PteAt(e.page * 4096, 0, FaultProt(Cause(e.kind)))) ==
            match Stored(e).guest
            case Unmapped => Fault
            case ReadExec => Page(e.page, PAGE_READ_EXEC)
            case ReadWriteExec => Page(e.page, PAGE_WRITE_EXEC)
  {
    if e.page < PFN_LIMIT {
      PteResult(e.page * 4096, 0, FaultProt(Cause(e.kind)));
    } else {
      assert PteAt(e.page * 4096, 0, FaultProt(Cause(e.kind))) == e.page * 1024 + FaultProt(Cause(e.kind));
    }
  }

  lemma ShowsAfter(a: Tree, b: Tree, r: nat, st: map<nat, Target>, e: Event)
    requires GuestTables(a.m, a.own, r) && Shows(a.m, r, st)
    requires Built(a, b, r, Low(e.page), Low(e.page) + 1, e.page * 4096, FaultProt(Cause(e.kind)))
    ensures Shows(b.m, r, st[Low(e.page) := Stored(e)])
  {
    hide View, LowResult, PteAt, NoLeaf, Pmd;
    StoredEntry(e);
    assert forall q | r + 1 <= q <= r + 3 :: IsRoot(a.own, q) && SameViews(a.m, b.m, q);
  }

  /** Serving a whole run of faults on any guest-physical pages, each at any offset in its page:
      afterwards the tables hold exactly what the run left on each low page. */
  method ServeFaults(k: Machine, r: nat, run: seq<Event>, offsets: seq<nat>)
    requires k.Valid() && GuestTables(k.mem, k.own, r) && Shows(k.mem, r, map[])
    requires |offsets| == |run| && forall i | 0 <= i < |run| :: offsets[i] < 4096
    requires k.FreePages() >= 2 * |run|
    modifies k`mem, k`own, k.alloc.memMap
    ensures k.Valid() && GuestTables(k.mem, k.own, r) && Shows(k.mem, r, Held(run))
  {
    hide View, NoLeaf, IsTree, Built, Shows, PageNumber, FaultAddr, Held, GuestTables, FaultProt, Cause, Low, Stored;
    var i := 0;
    HeldNothing(run);
    while i < |run|
      invariant 0 <= i <= |run| && k.Valid() && GuestTables(k.mem, k.own, r)
      invariant Shows(k.mem, r, Held(run[..i])) && k.FreePages() >= 2 * (|run| - i)
    {
      ghost var a := Tree(k.mem, k.own);
      var gpa := run[i].page * 4096 + offsets[i];
      AddrOfPage(run[i].page, offsets[i]);
      HandlePageFault(k, r, gpa / 4, gpa % 4, Cause(run[i].kind));
      ShowsAfter(a, Tree(k.mem, k.own), r, Held(run[..i]), run[i]);
      HeldStep(run, i);
      i := i + 1;
    }
    assert run[..i] == run;
  }

  lemma HeldNothing(run: seq<Event>)
    ensures Held(run[..0]) == map[]
  {
  }

  lemma HeldStep(run: seq<Event>, i: nat)
    requires i < |run|
    ensures Held(run[..i + 1]) == Held(run[..i])[Low(run[i].page) := Stored(run[i])]
  {
    assert run[..i + 1][..i] == run[..i];
  }

  lemma AddrOfPage(n: Gpn, off: nat)
    requires off < 4096
    ensures (n * 4096 + off) / 4 < 0x4000_0000_0000_0000
    ensures FaultAddr((n * 4096 + off) / 4, (n * 4096 + off) % 4) == n * 4096 && PageNumber(n * 4096) == Low(n)
  {
  }
}
