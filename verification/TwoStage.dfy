/** Two-stage translation (RISC-V Privileged Architecture 20211203, section 8.5): the guest's Sv39
    tables built by vs_mmu.c, read through the stage-2 tables of stage2_mmu.c. */
module TwoStage {
  import opened Words
  import opened Sv39
  import opened Mapping
  import opened Translation
  import opened Stage2
  import Boot
  import PageAlloc

  /** Where a guest access ends: refused by the guest's own tables, a guest-page fault on a guest
      page, or a host page with the flags of both stages. MXR is clear, and the U flag of the guest's
      own leaf, which depends on the guest's privilege mode, is not judged. */
  datatype GuestAccess = StageOneFault | GuestFault(page: nat) | Access(pfn: nat, prot1: nat, prot2: nat)

  /** The stage-2 translation of guest page t under the root hs_pg_dir in page g. */
  function HostPage(m: Memory, g: nat, t: nat): Result {
    if t >= 4 * ROOT_PAGES then Fault else Walk(m, g + t / 0x800_0000, t % 0x800_0000)
  }

  /** The flag a leaf must have for an access of this kind. */
  predicate Grants(prot: nat, kind: Kind) {
    match kind case Fetch => X(prot) case Load => R(prot) case Store => W(prot)
  }

  /** The stage-1 walk of page n from the table in guest page t, for an access of some kind. Reading an
      entry is itself a guest access, which stage 2 must let a user-mode load do. */
  function GuestWalk(m: Memory, g: nat, t: nat, level: nat, n: nat, kind: Kind): GuestAccess
    requires level <= 2
    decreases level
  {
    match HostPage(m, g, t)
    case Fault => GuestFault(t)
    case Page(h, prot) =>
      var e := Ent(m, h, Vpn(n, level));
      if !(R(prot) && U(prot)) then GuestFault(t)
      else if Invalid(e) then StageOneFault
      else if R(Prot(e)) || X(Prot(e)) then
        match LeafPage(e, level, n)
        case Fault => StageOneFault
        case Page(p, prot1) => Final(m, g, p, prot1, kind)
      else if level == 0 then StageOneFault
      else GuestWalk(m, g, PfnOf(e), level - 1, n, kind)
  }

  /** The access itself, at guest page p: stage 1 and then stage 2 must allow its kind. */
  function Final(m: Memory, g: nat, p: nat, prot1: nat, kind: Kind): GuestAccess {
    if !Grants(prot1, kind) then StageOneFault
    else
      match HostPage(m, g, p)
      case Fault => GuestFault(p)
      case Page(h, prot2) => if U(prot2) && Grants(prot2, kind) then Access(h, prot1, prot2) else GuestFault(p)
  }

  function ProtOf(x: Guest): nat
    requires x != Unmapped
  {
    if x == ReadExec then PAGE_READ_EXEC else PAGE_WRITE_EXEC
  }

  function At(st: map<nat, Guest>, n: nat): Guest { if n in st then st[n] else Unmapped }

  /** What the tables hold when every page goes to itself. */
  function ToItself(st: map<nat, Guest>): map<nat, Target> { map n | n in st :: Target(n, st[n]) }

  /** The stage-2 tables under g show st: identity on the pages of st, faults elsewhere. */
  ghost predicate Guests(m: Memory, own: Tables, g: nat, st: map<nat, Guest>) {
    && IsTree(m, own) && GuestTables(m, own, g) && Shows(m, g, ToItself(st))
    && forall t <- st :: t < ROOT_PAGES
  }

  /** That is what any run of faults below 2^39 leaves. */
  lemma {:induction false} LowRun(run: seq<Event>) returns (st: map<nat, Guest>)
    requires forall e <- run :: e.page < ROOT_PAGES
    ensures Held(run) == ToItself(st) && forall t <- st :: t < ROOT_PAGES
  {
    if run == [] {
      st := map[];
    } else {
      var last := run[|run| - 1];
      st := LowRun(run[..|run| - 1]);
      st := st[last.page := AfterFault(last.kind)];
    }
  }

  lemma HostPageShows(m: Memory, own: Tables, g: nat, st: map<nat, Guest>, t: nat)
    requires Guests(m, own, g, st)
    ensures HostPage(m, g, t) == if At(st, t) == Unmapped then Fault else Page(t, ProtOf(At(st, t)))
    ensures At(st, t) != Unmapped ==> R(ProtOf(At(st, t))) && U(ProtOf(At(st, t)))
  {
    hide IsTree, View, Walk, NoLeaf;
    if t < 4 * ROOT_PAGES {
      WalkIsView(m, own, g + t / 0x800_0000, t % 0x800_0000);
    }
  }

  /** Stage 2 refuses an access of this kind to page p exactly when st does not allow it. */
  lemma FinalShows(m: Memory, own: Tables, g: nat, st: map<nat, Guest>, p: nat, prot1: nat, kind: Kind)
    requires Guests(m, own, g, st)
    ensures Final(m, g, p, prot1, kind) ==
            if !Grants(prot1, kind) then StageOneFault
            else if !Allowed(At(st, p), kind) then GuestFault(p)
            else Access(p, prot1, ProtOf(At(st, p)))
  {
    hide Guests, HostPage;
    HostPageShows(m, own, g, st, p);
  }

  /** Reading an entry of guest page t either faults on t or gives the entry itself. */
  lemma GuestStep(m: Memory, own: Tables, g: nat, st: map<nat, Guest>, t: nat, level: nat, n: nat, kind: Kind)
    requires Guests(m, own, g, st) && level <= 2
    ensures var e := Ent(m, t, Vpn(n, level));
            && (At(st, t) == Unmapped ==> GuestWalk(m, g, t, level, n, kind) == GuestFault(t))
            && (At(st, t) != Unmapped && level > 0 && Table(e) && PfnOf(e) < PFN_LIMIT ==>
                  GuestWalk(m, g, t, level, n, kind) == GuestWalk(m, g, PfnOf(e), level - 1, n, kind))
            && (At(st, t) != Unmapped && (level == 0 || e == 0 || Leaf(e)) ==>
                  GuestWalk(m, g, t, level, n, kind) == AfterStageOne(m, g, Stop(e, level, n), kind))
  {
    hide Guests, HostPage, LeafPage, Vpn, Final, ProtOf;
    HostPageShows(m, own, g, st, t);
  }

  function AfterStageOne(m: Memory, g: nat, w: Result, kind: Kind): GuestAccess {
    match w case Fault => StageOneFault case Page(p, prot1) => Final(m, g, p, prot1, kind)
  }

  /** Composition: the two-stage walk faults on the first table page that stage 2 does not map, and
      when it maps them all it is the stage-1 walk followed by stage 2. */
  lemma TwoStages(m: Memory, own: Tables, g: nat, vs: nat, st: map<nat, Guest>, n: nat, kind: Kind)
    requires Guests(m, own, g, st) && IsRoot(own, vs) && n < ROOT_PAGES
    ensures GuestWalk(m, g, vs, 2, n, kind) ==
            if At(st, vs) == Unmapped then GuestFault(vs)
            else if Table(Entry2(m, vs, n)) && At(st, PfnOf(Entry2(m, vs, n))) == Unmapped then
              GuestFault(PfnOf(Entry2(m, vs, n)))
            else if Table(Entry1(m, vs, n)) && At(st, PfnOf(Entry1(m, vs, n))) == Unmapped then
              GuestFault(PfnOf(Entry1(m, vs, n)))
            else AfterStageOne(m, g, Walk(m, vs, n), kind)
  {
    hide IsTree, Walk, Stop, Guests, GuestWalk, AfterStageOne, At;
    GuestTree(m, own, g, st);
    WalkIsView(m, own, vs, n);
    PathTables(m, own, vs, n);
    PathEntriesGood(m, own, vs, n);
    GuestStep(m, own, g, st, vs, 2, n, kind);
    var e2, e1 := Entry2(m, vs, n), Entry1(m, vs, n);
    if Table(e2) {
      GuestStep(m, own, g, st, PfnOf(e2), 1, n, kind);
      if Table(e1) {
        GuestStep(m, own, g, st, PfnOf(e1), 0, n, kind);
      }
    }
  }

  lemma GuestTree(m: Memory, own: Tables, g: nat, st: map<nat, Guest>)
    requires Guests(m, own, g, st)
    ensures IsTree(m, own)
  {
  }

  lemma PathEntriesGood(m: Memory, own: Tables, r: nat, n: nat)
    requires IsTree(m, own) && IsRoot(own, r) && n < ROOT_PAGES
    ensures Vpn(n, 2) == n / 0x4_0000 && Vpn(n, 1) == n / 512 % 512 && Vpn(n, 0) == n % 512
    ensures var e2, e1 := Entry2(m, r, n), Entry1(m, r, n);
            && (e2 == 0 || Leaf(e2) || (Table(e2) && PfnOf(e2) < PFN_LIMIT))
            && (e1 == 0 || Leaf(e1) || (Table(e1) && PfnOf(e1) < PFN_LIMIT))
  {
    assert GoodEntry(m, own, r, n / 0x4_0000);
    if Table(Entry2(m, r, n)) {
      assert GoodEntry(m, own, PfnOf(Entry2(m, r, n)), n / 512 % 512);
    }
  }

  // ----- a guest access that is retried after each fault

  /** Stage 2 does not give the access what it needs of the page it ends at. */
  predicate Short(m: Memory, st: map<nat, Guest>, vs: nat, n: nat, kind: Kind) {
    match View(m, vs, n)
    case Fault => false
    case Page(p, prot1) => Grants(prot1, kind) && !Allowed(At(st, p), kind)
  }

  /** How many of the guest pages an access to page n needs are insufficient in stage 2: the tables on
      its path must be mapped, and the page it ends at must allow its kind. */
  function Missing(m: Memory, st: map<nat, Guest>, vs: nat, n: nat, kind: Kind): nat {
    var e2, e1 := Entry2(m, vs, n), Entry1(m, vs, n);
    (if At(st, vs) == Unmapped then 1 else 0)
    + (if Table(e2) && At(st, PfnOf(e2)) == Unmapped then 1 else 0)
    + (if Table(e1) && At(st, PfnOf(e1)) == Unmapped then 1 else 0)
    + (if Short(m, st, vs, n, kind) then 1 else 0)
  }

  /** Every guest page the access needs lies where stage 2 can map it (FaultResolved). */
  ghost predicate Reachable(m: Memory, vs: nat, n: nat, kind: Kind) {
    var e2, e1 := Entry2(m, vs, n), Entry1(m, vs, n);
    && vs < ROOT_PAGES
    && (Table(e2) ==> PfnOf(e2) < ROOT_PAGES)
    && (Table(e1) ==> PfnOf(e1) < ROOT_PAGES)
    && (match View(m, vs, n) case Fault => true case Page(p, prot1) => Grants(prot1, kind) ==> p < ROOT_PAGES)
  }

  /** What the access finds when nothing is missing: the guest's own refusal, or the host page. */
  function Complete(m: Memory, st: map<nat, Guest>, vs: nat, n: nat, kind: Kind): GuestAccess
    requires Missing(m, st, vs, n, kind) == 0
  {
    match View(m, vs, n)
    case Fault => StageOneFault
    case Page(p, prot1) =>
      if Grants(prot1, kind) then Access(p, prot1, ProtOf(At(st, p))) else StageOneFault
  }

  /** The same stage-1 path before and after. */
  predicate SamePath(m: Memory, m': Memory, vs: nat, n: nat) {
    Entry2(m', vs, n) == Entry2(m, vs, n) && Entry1(m', vs, n) == Entry1(m, vs, n) && View(m', vs, n) == View(m, vs, n)
  }

  /** The access to page n uses guest page t and finds it insufficient. */
  predicate Lacks(m: Memory, st: map<nat, Guest>, vs: nat, n: nat, kind: Kind, t: nat) {
    || (At(st, t) == Unmapped && t == vs)
    || (At(st, t) == Unmapped && Table(Entry2(m, vs, n)) && t == PfnOf(Entry2(m, vs, n)))
    || (At(st, t) == Unmapped && Table(Entry1(m, vs, n)) && t == PfnOf(Entry1(m, vs, n)))
    || (Short(m, st, vs, n, kind) && t == View(m, vs, n).pfn)
  }

  /** All of them. */
  function Lacking(m: Memory, st: map<nat, Guest>, vs: nat, n: nat, kind: Kind): set<nat> {
    var e2, e1 := Entry2(m, vs, n), Entry1(m, vs, n);
    (if At(st, vs) == Unmapped then {vs} else {})
    + (if Table(e2) && At(st, PfnOf(e2)) == Unmapped then {PfnOf(e2)} else {})
    + (if Table(e1) && At(st, PfnOf(e1)) == Unmapped then {PfnOf(e1)} else {})
    + (if Short(m, st, vs, n, kind) then {View(m, vs, n).pfn} else {})
  }

  lemma LackingIs(m: Memory, st: map<nat, Guest>, vs: nat, n: nat, kind: Kind)
    ensures forall t: nat :: t in Lacking(m, st, vs, n, kind) <==> Lacks(m, st, vs, n, kind, t)
    ensures Missing(m, st, vs, n, kind) == 0 <==> Lacking(m, st, vs, n, kind) == {}
  {
    hide View, Entry1, Entry2;
    var s, e2, e1 := Lacking(m, st, vs, n, kind), Entry2(m, vs, n), Entry1(m, vs, n);
    if Missing(m, st, vs, n, kind) > 0 {
      assert vs in s || PfnOf(e2) in s || PfnOf(e1) in s || Short(m, st, vs, n, kind);
      if Short(m, st, vs, n, kind) {
        assert View(m, vs, n).pfn in s;
      }
    }
  }

  /** A fault of this kind on one of them leaves exactly the others. */
  lemma OneLess(m: Memory, m': Memory, st: map<nat, Guest>, vs: nat, n: nat, kind: Kind, t: nat)
    requires SamePath(m, m', vs, n) && Lacks(m, st, vs, n, kind, t)
    ensures t in Lacking(m, st, vs, n, kind)
    ensures Lacking(m', st[t := AfterFault(kind)], vs, n, kind) == Lacking(m, st, vs, n, kind) - {t}
  {
    hide View, Entry1, Entry2, Grants, Lacking, Missing;
    var st' := st[t := AfterFault(kind)];
    LackingIs(m, st, vs, n, kind);
    LackingIs(m', st', vs, n, kind);
    forall p: nat ensures Lacks(m', st', vs, n, kind, p) <==> p != t && Lacks(m, st, vs, n, kind, p) {
    }
  }

  /** Mapping an insufficient page as a fault of this kind does leaves strictly fewer of them. */
  lemma FewerMissing(m: Memory, m': Memory, st: map<nat, Guest>, vs: nat, n: nat, kind: Kind, t: nat)
    requires SamePath(m, m', vs, n) && Lacks(m, st, vs, n, kind, t)
    ensures Missing(m', st[t := AfterFault(kind)], vs, n, kind) < Missing(m, st, vs, n, kind)
    ensures Reachable(m, vs, n, kind) ==> Reachable(m', vs, n, kind)
  {
    hide View, Entry1, Entry2, Grants;
    assert Allowed(AfterFault(kind), kind);
  }

  /** The two-stage walk completes exactly when nothing is missing; otherwise it faults on a page the
      access lacks. What lies out of reach is always missing. */
  lemma AccessOrFewer(m: Memory, own: Tables, g: nat, vs: nat, st: map<nat, Guest>, n: nat, kind: Kind)
    requires Guests(m, own, g, st) && IsRoot(own, vs) && n < ROOT_PAGES
    ensures Missing(m, st, vs, n, kind) <= 4
    ensures Missing(m, st, vs, n, kind) == 0 ==>
              GuestWalk(m, g, vs, 2, n, kind) == Complete(m, st, vs, n, kind)
    ensures GuestWalk(m, g, vs, 2, n, kind).GuestFault? <==> Missing(m, st, vs, n, kind) > 0
    ensures var w := GuestWalk(m, g, vs, 2, n, kind);
            w.GuestFault? ==>
              && Lacks(m, st, vs, n, kind, w.page)
              && (Reachable(m, vs, n, kind) ==> w.page < ROOT_PAGES)
    ensures !Reachable(m, vs, n, kind) ==> Missing(m, st, vs, n, kind) > 0
  {
    hide Guests, GuestWalk, IsTree, Walk, View, Entry1, Entry2, HostPage, Final, Grants, ProtOf;
    GuestTree(m, own, g, st);
    TwoStages(m, own, g, vs, st, n, kind);
    WalkIsView(m, own, vs, n);
    MappedBelow(m, own, g, st);
    if View(m, vs, n).Page? {
      FinalShows(m, own, g, st, View(m, vs, n).pfn, View(m, vs, n).prot, kind);
    }
  }

  lemma MappedBelow(m: Memory, own: Tables, g: nat, st: map<nat, Guest>)
    requires Guests(m, own, g, st)
    ensures forall t: nat | t >= ROOT_PAGES :: At(st, t) == Unmapped
  {
  }

  lemma PathKept(a: Tree, b: Tree, vs: nat, n: nat)
    requires IsTree(a.m, a.own) && IsRoot(a.own, vs) && n < ROOT_PAGES
    requires SameDirs(a.m, b.m, vs) && SameViews(a.m, b.m, vs)
    ensures SamePath(a.m, b.m, vs, n)
  {
    hide View;
    assert n / 0x4_0000 == n / 512 / 512;
    assert Pmd(b.m, vs, n / 512) == Pmd(a.m, vs, n / 512);
  }

  lemma ToItselfAfter(st: map<nat, Guest>, t: nat, kind: Kind)
    requires t < ROOT_PAGES
    ensures Low(t) == t && ToItself(st)[t := Stored(Event(t, kind))] == ToItself(st[t := AfterFault(kind)])
  {
  }

  lemma GuestsAfter(a: Tree, b: Tree, g: nat, st: map<nat, Guest>, t: nat, kind: Kind)
    requires t < ROOT_PAGES && Guests(a.m, a.own, g, st) && IsTree(b.m, b.own) && GuestTables(b.m, b.own, g)
    requires Built(a, b, g, t, t + 1, t * 4096, FaultProt(Cause(kind)))
    ensures Guests(b.m, b.own, g, st[t := AfterFault(kind)])
  {
    hide IsTree, GuestTables, Built, FaultProt, Cause, Low, Stored, ToItself, Shows;
    ToItselfAfter(st, t, kind);
    ShowsAfter(a, b, g, ToItself(st), Event(t, kind));
  }

  /** A guest access of any kind to page n, retried after each guest-page fault: it takes exactly one
      fault for each insufficient page (four at the most), and then completes as stage 1 followed by
      stage 2, with the stage-1 path unchanged throughout. */
  method Touch(k: Machine, g: nat, vs: nat, n: nat, kind: Kind, ghost st0: map<nat, Guest>)
    returns (w: GuestAccess, faults: nat, ghost st: map<nat, Guest>)
    requires k.Valid() && Guests(k.mem, k.own, g, st0) && IsRoot(k.own, vs) && !(g <= vs <= g + 3)
    requires n < ROOT_PAGES && Reachable(k.mem, vs, n, kind)
    requires k.FreePages() >= 2 * Missing(k.mem, st0, vs, n, kind)
    modifies k`mem, k`own, k.alloc.memMap
    ensures k.Valid() && Guests(k.mem, k.own, g, st) && SamePath(old(k.mem), k.mem, vs, n)
    ensures faults == |old(Lacking(k.mem, st0, vs, n, kind))| && Missing(k.mem, st, vs, n, kind) == 0
    ensures faults <= old(Missing(k.mem, st0, vs, n, kind))
    ensures w == Complete(k.mem, st, vs, n, kind) && !w.GuestFault?
  {
    hide Guests, GuestWalk, IsTree, View, Entry1, Entry2, Missing, Reachable, Lacks, Lacking, Built, NoLeaf,
      FaultAddr, FaultProt, Complete;
    st := st0;
    faults := 0;
    w := GuestWalk(k.mem, g, vs, 2, n, kind);
    AccessOrFewer(k.mem, k.own, g, vs, st, n, kind);
    while w.GuestFault?
      invariant k.Valid() && Guests(k.mem, k.own, g, st) && IsRoot(k.own, vs)
      invariant SamePath(old(k.mem), k.mem, vs, n) && Reachable(k.mem, vs, n, kind)
      invariant w == GuestWalk(k.mem, g, vs, 2, n, kind)
      invariant faults + |Lacking(k.mem, st, vs, n, kind)| == |old(Lacking(k.mem, st0, vs, n, kind))|
      invariant faults + Missing(k.mem, st, vs, n, kind) <= old(Missing(k.mem, st0, vs, n, kind))
      invariant k.FreePages() >= 2 * Missing(k.mem, st, vs, n, kind)
      decreases Missing(k.mem, st, vs, n, kind)
    {
      AccessOrFewer(k.mem, k.own, g, vs, st, n, kind);
      ghost var m, was := k.mem, st;
      st := ServeOne(k, g, vs, n, kind, w.page, st);
      FewerMissing(m, k.mem, was, vs, n, kind, w.page);
      OneLess(m, k.mem, was, vs, n, kind, w.page);
      w := GuestWalk(k.mem, g, vs, 2, n, kind);
      faults := faults + 1;
    }
    AccessOrFewer(k.mem, k.own, g, vs, st, n, kind);
    LackingIs(k.mem, st, vs, n, kind);
  }

  /** One fault of such an access, on page t. The cause is that of the access itself, also when the
      walk faulted while reading a table. */
  method ServeOne(k: Machine, g: nat, ghost vs: nat, ghost n: nat, kind: Kind, t: nat, ghost st: map<nat, Guest>)
    returns (ghost st': map<nat, Guest>)
    requires k.Valid() && Guests(k.mem, k.own, g, st) && IsRoot(k.own, vs) && !(g <= vs <= g + 3)
    requires n < ROOT_PAGES && t < ROOT_PAGES && k.FreePages() >= 2
    modifies k`mem, k`own, k.alloc.memMap
    ensures k.Valid() && Guests(k.mem, k.own, g, st') && IsRoot(k.own, vs) && k.FreePages() >= old(k.FreePages()) - 2
    ensures st' == st[t := AfterFault(kind)] && SamePath(old(k.mem), k.mem, vs, n)
  {
    hide IsTree, GuestTables, Guests, FaultAddr, FaultProt, Built, Cause, AfterFault, SamePath, SameDirs, SameViews,
      PageNumber, V, R, W, X, U;
    ghost var a := Tree(k.mem, k.own);
    GuestParts(k.mem, k.own, g, st);
    AddrOfPage(t, 0);
    LowPage(t);
    HandlePageFault(k, g, t * 4096 / 4, 0, Cause(kind));
    ghost var b := Tree(k.mem, k.own);
    GuestsAfter(a, b, g, st, t, kind);
    FaultFlags(Cause(kind));
    OtherRootKept(a, b, g, t, FaultProt(Cause(kind)), vs);
    PathKept(a, b, vs, n);
    st' := st[t := AfterFault(kind)];
  }

  lemma GuestParts(m: Memory, own: Tables, g: nat, st: map<nat, Guest>)
    requires Guests(m, own, g, st)
    ensures IsTree(m, own) && GuestTables(m, own, g)
  {
  }

  lemma LowPage(t: nat)
    requires t < ROOT_PAGES
    ensures Low(t) == t
  {
  }

  lemma OtherRootKept(a: Tree, b: Tree, g: nat, t: nat, prot: nat, vs: nat)
    requires prot < 1024 && t < ROOT_PAGES && Built(a, b, g, t, t + 1, t * 4096, prot) && IsRoot(a.own, vs) && vs != g
    ensures IsRoot(b.own, vs) && SameDirs(a.m, b.m, vs) && SameViews(a.m, b.m, vs)
  {
    hide SameDirs, SameViews;
  }

  // ----- set_vs_mapping_page

  /** set_vs_mapping_page: maps the guest-virtual page of gva to the guest page of gpa in the guest's
      own tables (two pages when gva is not page aligned). The stage-2 tables are untouched. */
  method SetVsMappingPage(k: Machine, vs: nat, gva: u64, gpa: u64,
                          ghost cnt: nat, ghost g: nat, ghost st: map<nat, Guest>)
    requires gva + 4096 <= TWO_64 && PageAlloc.AlignDown(gva) + cnt * 4096 == PageAlloc.AlignUp(gva + 4096)
    requires k.Ready(PageAlloc.AlignDown(gva), Wrap(PageAlloc.AlignUp(gva + 4096)), vs, PageNumber(gva), cnt,
                     Boot.PAGE_KERNEL)
    requires gpa < 0x100_0000_0000_0000 && Guests(k.mem, k.own, g, st) && !(g <= vs <= g + 3)
    modifies k`mem, k`own, k.alloc.memMap
    ensures k.Valid() && IsRoot(k.own, vs) && Guests(k.mem, k.own, g, st)
    ensures k.FreePages() == old(k.FreePages()) - old(Cost(k.mem, vs, PageNumber(gva), PageNumber(gva) + cnt))
    ensures Built(old(Tree(k.mem, k.own)), Tree(k.mem, k.own), vs, PageNumber(gva), PageNumber(gva) + cnt,
                  PageAlloc.AlignDown(gpa), Boot.PAGE_KERNEL)
    ensures View(k.mem, vs, PageNumber(gva)) == Page(gpa / 4096, Boot.PAGE_KERNEL)
  {
    hide Guests, View, IsTree, Built, PageNumber, Wrap, NoLeaf, Cost;
    ghost var a, lo := Tree(k.mem, k.own), PageNumber(gva);
    k.CreatePgdMapping(vs * 4096, gpa, gva, 4096, Boot.PAGE_KERNEL, vs, lo, cnt);
    ghost var b := Tree(k.mem, k.own);
    GuestsKept(a, b, vs, g, st, lo, lo + cnt, PageAlloc.AlignDown(gpa));
    FirstPage(a, b, vs, lo, cnt, gpa);
  }

  lemma GuestsKept(a: Tree, b: Tree, vs: nat, g: nat, st: map<nat, Guest>, lo: nat, hi: nat, phys: u64)
    requires Guests(a.m, a.own, g, st) && IsTree(b.m, b.own) && !(g <= vs <= g + 3)
    requires Built(a, b, vs, lo, hi, phys, Boot.PAGE_KERNEL)
    ensures Guests(b.m, b.own, g, st)
  {
    hide IsTree, View, Pmd, Maps, FillsSlots, FillsRoot;
    assert SameDirs(a.m, b.m, g) && SameViews(a.m, b.m, g);
    assert forall r | g + 1 <= r <= g + 3 :: IsRoot(a.own, r) && SameViews(a.m, b.m, r);
  }

  lemma FirstPage(a: Tree, b: Tree, vs: nat, lo: nat, cnt: nat, gpa: u64)
    requires 0 < cnt && lo + cnt <= ROOT_PAGES && gpa < 0x100_0000_0000_0000
    requires Built(a, b, vs, lo, lo + cnt, PageAlloc.AlignDown(gpa), Boot.PAGE_KERNEL)
    ensures View(b.m, vs, lo) == Page(gpa / 4096, Boot.PAGE_KERNEL)
  {
    hide View;
    PteResult(PageAlloc.AlignDown(gpa), 0, Boot.PAGE_KERNEL);
  }

  /** After set_vs_mapping_page, loads and stores of the guest-virtual page, once stage 2 maps what they
      need, reach exactly the chosen guest page's host page, which is the page with the same number;
      fetches are refused by the guest's own entry, PAGE_KERNEL, and not by stage 2. */
  method MapAndTouch(k: Machine, vs: nat, gva: u64, gpa: u64, kind: Kind,
                     ghost cnt: nat, g: nat, ghost st: map<nat, Guest>)
    returns (w: GuestAccess, faults: nat)
    requires gva + 4096 <= TWO_64 && PageAlloc.AlignDown(gva) + cnt * 4096 == PageAlloc.AlignUp(gva + 4096)
    requires k.Ready(PageAlloc.AlignDown(gva), Wrap(PageAlloc.AlignUp(gva + 4096)), vs, PageNumber(gva), cnt,
                     Boot.PAGE_KERNEL)
    requires gpa < ROOT_SIZE && Guests(k.mem, k.own, g, st) && !(g <= vs <= g + 3)
    requires k.alloc.start / 4096 + PageAlloc.NR_PAGES <= ROOT_PAGES
    requires k.FreePages() >= Cost(k.mem, vs, PageNumber(gva), PageNumber(gva) + cnt) + 8
    modifies k`mem, k`own, k.alloc.memMap
    ensures k.Valid() && faults <= 4
    ensures kind == Fetch ==> w == StageOneFault
    ensures kind != Fetch ==> w.Access? && w.pfn == gpa / 4096 && w.prot1 == Boot.PAGE_KERNEL
    ensures kind != Fetch ==> Grants(w.prot2, kind)
  {
    hide Guests, View, IsTree, Built, PageNumber, Wrap, NoLeaf, Cost, Reachable, Missing, Complete, Grants, ProtOf,
      SamePath;
    SetVsMappingPage(k, vs, gva, gpa, cnt, g, st);
    ghost var n := PageNumber(gva);
    TreeReachable(k.mem, k.own, vs, n, kind, k.alloc.start / 4096 + PageAlloc.NR_PAGES);
    AccessOrFewer(k.mem, k.own, g, vs, st, n, kind);
    ghost var st';
    ghost var m := k.mem;
    w, faults, st' := Touch(k, g, vs, PageNumber(gva), kind, st);
    KernelPage(m, k.mem, st', vs, n, gpa / 4096, kind);
  }

  lemma KernelPage(m: Memory, m': Memory, st: map<nat, Guest>, vs: nat, n: nat, p: nat, kind: Kind)
    requires View(m, vs, n) == Page(p, Boot.PAGE_KERNEL) && SamePath(m, m', vs, n)
    requires Missing(m', st, vs, n, kind) == 0
    ensures var w := Complete(m', st, vs, n, kind);
            if kind == Fetch then w == StageOneFault
            else w.Access? && w.pfn == p && w.prot1 == Boot.PAGE_KERNEL && Grants(w.prot2, kind)
  {
    hide View, Entry1, Entry2;
  }

  /** In a tree whose pages lie below 2^39, stage 2 can map every table the access needs. */
  lemma TreeReachable(m: Memory, own: Tables, vs: nat, n: nat, kind: Kind, top: nat)
    requires IsTree(m, own) && IsRoot(own, vs) && n < ROOT_PAGES && top <= ROOT_PAGES
    requires forall p <- own :: p < top
    requires View(m, vs, n).Page? ==> View(m, vs, n).pfn < ROOT_PAGES
    ensures Reachable(m, vs, n, kind)
  {
    hide View;
    PathTables(m, own, vs, n);
  }
}
