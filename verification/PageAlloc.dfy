/** The physical page allocator of page_alloc.c: one flag per page frame, first fit. */
module PageAlloc {
  const PAGE: nat := 4096
  const NR_PAGES: nat := 4096   // TOTAL_MEMORY / PAGE_SIZE, 16 MB

  function AlignDown(x: nat): (r: nat)
    ensures r <= x < r + PAGE && r % PAGE == 0
  {
    x - x % 4096
  }

  function AlignUp(x: nat): (r: nat)
    ensures x <= r < x + PAGE && r % PAGE == 0
  {
    AlignDown(x + 4095)
  }

  /** The frames marked in use. */
  ghost function Used(s: seq<int>): set<nat> { set i: nat | i < |s| && s[i] != 0 }

  /** The first unmarked frame, or the length when every frame is marked. */
  function FirstFree(s: seq<int>): (k: nat)
    ensures k <= |s| && (k < |s| ==> s[k] == 0) && forall i | 0 <= i < k :: s[i] != 0
  {
    if s == [] || s[0] == 0 then 0 else 1 + FirstFree(s[1..])
  }

  /** Marking or clearing one frame. */
  lemma UsedUpdate(s: seq<int>, k: nat, v: int)
    requires k < |s|
    ensures Used(s[k := v]) == if v != 0 then Used(s) + {k} else Used(s) - {k}
  {
  }

  ghost function Below(k: nat): (s: set<nat>)
    ensures forall i: nat :: i in s <==> i < k
    ensures |s| == k
  {
    if k == 0 then {} else Below(k - 1) + {k - 1}
  }

  /** Pigeonhole: first fit never goes past the number of frames in use. */
  lemma FirstFitBound(s: seq<int>)
    ensures FirstFree(s) <= |Used(s)| <= |s|
  {
    SubsetCard(Below(FirstFree(s)), Used(s));
    SubsetCard(Used(s), Below(|s|));
  }

  lemma SubsetCard(a: set<nat>, b: set<nat>)
    requires a <= b
    ensures |a| <= |b|
  {
    assert b == a + (b - a);
  }

  class Allocator {
    const memMap: array<int>          // mem_map
    var start: nat                    // phy_start_address

    ghost predicate Valid()
      reads this
    {
      memMap.Length == NR_PAGES && start % PAGE == 0
    }

    ghost function UsedCount(): nat
      reads this, memMap
    {
      |Used(memMap[..])|
    }

    constructor ()
      ensures Valid() && fresh(memMap) && start == 0
      ensures forall i | 0 <= i < 4096 :: memMap[i] == 0
    {
      memMap := new int[NR_PAGES](_ => 0);
      start := 0;
    }

    /** Sets the base of the managed range and counts the pages the range holds. The flags are not
        touched and NR_PAGES is not limited by the range. */
    method MemInit(startMem: nat, endMem: nat) returns (pages: nat)
      requires memMap.Length == NR_PAGES
      modifies this`start
      ensures Valid() && start == AlignUp(startMem)
      ensures AlignUp(startMem) <= AlignDown(endMem) ==> pages * PAGE == AlignDown(endMem) - AlignUp(startMem)
      ensures AlignUp(startMem) > AlignDown(endMem) ==> pages == 0
    {
      var s, e := AlignUp(startMem), AlignDown(endMem);
      start := s;
      pages := 0;
      while s < e
        invariant s == AlignUp(startMem) + pages * PAGE
        invariant s <= e || pages == 0
        invariant start == AlignUp(startMem)
      {
        pages := pages + 1;
        s := s + PAGE;
      }
    }

    /** First fit; 0 when every frame is marked. */
    method GetFreePage() returns (p: nat)
      requires Valid()
      modifies memMap
      ensures var k := FirstFree(old(memMap[..]));
              if k == NR_PAGES then p == 0 && memMap[..] == old(memMap[..])
              else p == start + k * PAGE && memMap[..] == old(memMap[..])[k := 1]
    {
      var i := 0;
      while i < NR_PAGES
        invariant 0 <= i <= NR_PAGES
        invariant i <= FirstFree(old(memMap[..]))
        invariant memMap[..] == old(memMap[..])
      {
        if memMap[i] == 0 {
          memMap[i] := 1;
          return start + i * PAGE;
        }
        i := i + 1;
      }
      return 0;
    }

    /** Clears the flag of a page of this allocator. */
    method FreePage(p: nat)
      requires Valid() && start <= p < start + NR_PAGES * PAGE
      modifies memMap
      ensures memMap[..] == old(memMap[..])[(p - start) / PAGE := 0]
    {
      memMap[(p - start) / PAGE] := 0;
    }
  }

  // ----- runs of get_free_page and free_page

  datatype Call = Get | Free(p: nat)

  /** mem_map together with the pages handed out and not yet freed. */
  datatype State = State(flags: seq<int>, live: set<nat>)

  function PageAt(base: nat, k: nat): nat { base + k * PAGE }

  /** What get_free_page returns. */
  function Returned(base: nat, flags: seq<int>): nat {
    if FirstFree(flags) == |flags| then 0 else PageAt(base, FirstFree(flags))
  }

  function Step(base: nat, s: State, c: Call): State {
    match c
    case Get =>
      var k := FirstFree(s.flags);
      if k == |s.flags| then s else State(s.flags[k := 1], s.live + {PageAt(base, k)})
    case Free(p) =>
      var k := (p - base) / PAGE;
      if 0 <= k < |s.flags| then State(s.flags[k := 0], s.live - {p}) else s
  }

  /** The state after a run from the cleared mem_map. */
  function After(base: nat, calls: seq<Call>): State {
    if calls == [] then State(seq(NR_PAGES, i => 0), {})
    else Step(base, After(base, calls[..|calls| - 1]), calls[|calls| - 1])
  }

  /** Every free names a page that is live when it is freed. */
  predicate Legal(base: nat, calls: seq<Call>) {
    calls != [] ==>
      var before, c := calls[..|calls| - 1], calls[|calls| - 1];
      Legal(base, before) && (c.Free? ==> c.p in After(base, before).live)
  }

  ghost function Addresses(base: nat, frames: set<nat>): set<nat> { set k | k in frames :: PageAt(base, k) }

  /** The marked frames are exactly the live pages. */
  ghost predicate Sound(base: nat, s: State) {
    |s.flags| == NR_PAGES && s.live == Addresses(base, Used(s.flags))
  }

  lemma AddressUpdate(base: nat, frames: set<nat>, k: nat)
    ensures Addresses(base, frames + {k}) == Addresses(base, frames) + {PageAt(base, k)}
    ensures Addresses(base, frames - {k}) == Addresses(base, frames) - {PageAt(base, k)}
    ensures PageAt(base, k) in Addresses(base, frames) <==> k in frames
  {
    assert PageAt(base, k) in Addresses(base, frames) ==> exists j :: j in frames && PageAt(base, j) == PageAt(base, k);
    forall j | j in frames + {k} ensures PageAt(base, j) in Addresses(base, frames + {k}) {
    }
    forall j | j in frames ensures PageAt(base, j) in Addresses(base, frames) {
    }
    forall j | j in frames - {k}
      ensures PageAt(base, j) in Addresses(base, frames - {k}) && PageAt(base, j) != PageAt(base, k)
    {
    }
  }

  lemma {:induction false} AddressCount(base: nat, frames: set<nat>)
    ensures |Addresses(base, frames)| == |frames|
  {
    if frames != {} {
      var k :| k in frames;
      AddressCount(base, frames - {k});
      AddressUpdate(base, frames - {k}, k);
      assert frames == frames - {k} + {k};
    }
  }

  lemma StepKeepsSound(base: nat, s: State, c: Call)
    requires Sound(base, s) && (c.Free? ==> c.p in s.live)
    ensures Sound(base, Step(base, s, c))
  {
    hide Addresses, Used;
    match c
    case Get =>
      var k := FirstFree(s.flags);
      if k < |s.flags| {
        UsedUpdate(s.flags, k, 1);
        AddressUpdate(base, Used(s.flags), k);
      }
    case Free(p) =>
      var k := LiveFrame(base, s, p);
      UsedUpdate(s.flags, k, 0);
      AddressUpdate(base, Used(s.flags), k);
  }

  lemma LiveFrame(base: nat, s: State, p: nat) returns (k: nat)
    requires Sound(base, s) && p in s.live
    ensures k < NR_PAGES && k in Used(s.flags) && p == PageAt(base, k) && (p - base) / PAGE == k
    ensures base <= p < base + NR_PAGES * PAGE
  {
    k :| k in Used(s.flags) && p == PageAt(base, k);
  }

  lemma {:induction false} RunKeepsSound(base: nat, calls: seq<Call>)
    requires Legal(base, calls)
    ensures Sound(base, After(base, calls))
  {
    if calls != [] {
      RunKeepsSound(base, calls[..|calls| - 1]);
      StepKeepsSound(base, After(base, calls[..|calls| - 1]), calls[|calls| - 1]);
    }
  }

  /** In a sound state get_free_page fails exactly when NR_PAGES pages are live; otherwise it returns
      an aligned page that is not live, and while fewer pages are live than the managed range holds,
      the page lies inside that range. */
  ghost predicate GetIsGood(base: nat, endMem: nat, s: State) {
    var p := Returned(base, s.flags);
    && |s.live| <= 4096
    && (|s.live| == 4096 ==> p == 0 && Step(base, s, Get) == s)
    && (|s.live| < 4096 ==> p !in s.live && p % PAGE == 0 && base <= p && Step(base, s, Get).live == s.live + {p})
    && (|s.live| < 4096 && PageAt(base, |s.live| + 1) <= endMem ==> p + PAGE <= endMem)
  }

  lemma FreeFrame(s: seq<int>)
    ensures FirstFree(s) == |s| <==> |Used(s)| == |s|
    ensures FirstFree(s) <= |Used(s)| <= |s|
  {
    FirstFitBound(s);
    if FirstFree(s) < |s| {
      SubsetCard(Used(s), Below(|s|) - {FirstFree(s)});
    }
  }

  lemma GetFromSound(base: nat, endMem: nat, s: State)
    requires Sound(base, s) && base % PAGE == 0
    ensures GetIsGood(base, endMem, s)
  {
    hide Used, Addresses, FirstFree, PageAt;
    AddressCount(base, Used(s.flags));
    FreeFrame(s.flags);
    PageFacts(base, FirstFree(s.flags), |s.live|, endMem);
    NotUsed(s.flags);
    AddressUpdate(base, Used(s.flags), FirstFree(s.flags));
  }

  lemma PageFacts(base: nat, k: nat, n: nat, endMem: nat)
    requires base % PAGE == 0 && k <= n
    ensures base <= PageAt(base, k) && PageAt(base, k) % PAGE == 0
    ensures PageAt(base, n + 1) <= endMem ==> PageAt(base, k) + PAGE <= endMem
  {
  }

  lemma NotUsed(s: seq<int>)
    ensures FirstFree(s) !in Used(s)
  {
  }

  lemma GetAfterRun(base: nat, endMem: nat, calls: seq<Call>)
    requires Legal(base, calls) && base % PAGE == 0
    ensures GetIsGood(base, endMem, After(base, calls))
  {
    hide GetIsGood, Sound;
    RunKeepsSound(base, calls);
    GetFromSound(base, endMem, After(base, calls));
  }

  /** One call on the allocator itself does what the model's step does. */
  method ServeCall(a: Allocator, c: Call, ghost s: State) returns (p: nat)
    requires a.Valid() && a.memMap[..] == s.flags && Sound(a.start, s) && (c.Free? ==> c.p in s.live)
    modifies a.memMap
    ensures a.memMap[..] == Step(a.start, s, c).flags
    ensures c.Get? ==> p == Returned(a.start, s.flags)
  {
    hide Addresses, Used;
    p := 0;
    match c {
      case Get => p := a.GetFreePage();
      case Free(q) =>
        ghost var k := LiveFrame(a.start, s, q);
        a.FreePage(q);
    }
  }

  /** A run of calls on the allocator itself. */
  method Serve(a: Allocator, calls: seq<Call>) returns (pages: seq<nat>)
    requires a.Valid() && a.memMap[..] == After(a.start, []).flags && Legal(a.start, calls)
    modifies a.memMap
    ensures a.memMap[..] == After(a.start, calls).flags && |pages| == |calls|
    ensures forall i | 0 <= i < |calls| && calls[i].Get? ::
              pages[i] == Returned(a.start, After(a.start, calls[..i]).flags)
  {
    hide Sound, Legal, Used, Addresses, After, Step, Returned;
    var i := 0;
    pages := [];
    assert calls[..0] == [];
    while i < |calls|
      invariant 0 <= i <= |calls| && |pages| == i
      invariant a.memMap[..] == After(a.start, calls[..i]).flags && a.start == old(a.start)
      invariant forall j | 0 <= j < i && calls[j].Get? ::
                  pages[j] == Returned(a.start, After(a.start, calls[..j]).flags)
    {
      NextCall(a.start, calls, i);
      var p := ServeCall(a, calls[i], After(a.start, calls[..i]));
      pages := pages + [p];
      i := i + 1;
    }
    assert calls[..|calls|] == calls;
  }

  lemma NextCall(base: nat, calls: seq<Call>, i: nat)
    requires Legal(base, calls) && i < |calls|
    ensures Sound(base, After(base, calls[..i])) && (calls[i].Free? ==> calls[i].p in After(base, calls[..i]).live)
    ensures After(base, calls[..i + 1]) == Step(base, After(base, calls[..i]), calls[i])
  {
    LegalPrefix(base, calls, i + 1);
    assert calls[..i + 1][..i] == calls[..i];
    RunKeepsSound(base, calls[..i]);
  }

  lemma {:induction false} LegalPrefix(base: nat, calls: seq<Call>, n: nat)
    requires Legal(base, calls) && n <= |calls|
    ensures Legal(base, calls[..n])
  {
    if n == |calls| {
      assert calls[..n] == calls;
    } else {
      LegalPrefix(base, calls[..|calls| - 1], n);
      assert calls[..|calls| - 1][..n] == calls[..n];
    }
  }
}
