/** The lock-free list of example_14_10_free_lock_list.c with only add_node running, in any number of
    threads. One step of a thread is one memory access; cmpxchg is one step, as LrSc shows. */
module CasList {
  datatype Ptr = Null | At(addr: nat)

  /** Where a thread is in add_node. The thread is Stuck once it dereferences a null cursor. */
  datatype Pc =
    | Idle                                          // before new_node
    | ReadHead(node: nat)                          // next = head->next
    | CasHead(node: nat, cursor: Ptr)              // cmpxchg(&head->next, NULL, new)
    | ReadNext(node: nat, cursor: Ptr)             // next->next == NULL
    | CasTail(node: nat, cursor: Ptr, seen: nat)   // cmpxchg(&next->next, NULL, new)
    | Advance(node: nat, cursor: Ptr)              // next = next->next
    | Stuck

  /** next holds the link of each node ever allocated, node 0 being the list head; log lists the nodes in
      the order in which their add_node calls took effect. */
  datatype State = State(next: seq<Ptr>, log: seq<nat>, threads: seq<Pc>)

  function To(s: State, k: nat, pc: Pc): State
    requires k < |s.threads|
  {
    s.(threads := s.threads[k := pc])
  }

  /** cmpxchg(&next[at], NULL, node). */
  function Cas(s: State, at: nat, node: nat): State
    requires at < |s.next|
  {
    if s.next[at] == Null then s.(next := s.next[at := At(node)], log := s.log + [node]) else s
  }

  function Step(s: State, k: nat): State {
    if k >= |s.threads| || s.next == [] then s
    else
      match s.threads[k]
      case Idle => To(s.(next := s.next + [Null]), k, ReadHead(|s.next|))
      case ReadHead(n) => To(s, k, CasHead(n, s.next[0]))
      case CasHead(n, c) => To(Cas(s, 0, n), k, if s.next[0] == Null then Idle else ReadNext(n, c))
      case ReadNext(n, c) =>
        if c == Null || c.addr >= |s.next| then To(s, k, Stuck)
        else if s.next[c.addr] == Null then To(s, k, CasTail(n, c, |s.log|))
        else To(s, k, Advance(n, c))
      case CasTail(n, c, seen) =>
        if c == Null || c.addr >= |s.next| then To(s, k, Stuck)
        else To(Cas(s, c.addr, n), k, if s.next[c.addr] == Null then Idle else Advance(n, c))
      case Advance(n, c) =>
        if c == Null || c.addr >= |s.next| then To(s, k, Stuck) else To(s, k, ReadNext(n, s.next[c.addr]))
      case Stuck => s
  }

  function Run(s: State, schedule: seq<nat>): State
    decreases |schedule|
  {
    if schedule == [] then s else Run(Step(s, schedule[0]), schedule[1..])
  }

  /** The nodes reached from the head in this order; the last one's link is null, and no node repeats. */
  ghost predicate IsChain(next: seq<Ptr>, chain: seq<nat>) {
    && chain != [] && chain[0] == 0 && (forall i | 0 <= i < |chain| :: chain[i] < |next|)
    && (forall i, j | 0 <= i < j < |chain| :: chain[i] != chain[j])
    && next[chain[|chain| - 1]] == Null && (forall i | 0 <= i < |chain| - 1 :: next[chain[i]] == At(chain[i + 1]))
  }

  /** A node a thread has allocated but not yet linked. */
  ghost predicate Unlinked(next: seq<Ptr>, chain: seq<nat>, n: nat) {
    n < |next| && n !in chain && next[n] == Null
  }

  function Fresh(pc: Pc): Ptr { if pc.Idle? || pc.Stuck? then Null else At(pc.node) }

  /** A cursor is never null: it points to a node of the chain other than the head. */
  ghost predicate GoodCursor(chain: seq<nat>, c: Ptr) { chain != [] && c.At? && c.addr in chain[1..] }

  ghost predicate GoodThread(s: State, chain: seq<nat>, pc: Pc)
    requires chain != []
  {
    && !pc.Stuck?
    && (Fresh(pc).At? ==> Unlinked(s.next, chain, Fresh(pc).addr))
    && (pc.CasHead? || pc.ReadNext? || pc.CasTail? || pc.Advance? ==> GoodCursor(chain, pc.cursor))
    && (pc.Advance? ==> pc.cursor.addr != chain[|chain| - 1])
    && (pc.CasTail? ==> pc.seen <= |s.log| && (pc.seen == |s.log| ==> pc.cursor.addr == chain[|chain| - 1]))
  }

  /** The list holds base followed by the nodes of all completed calls in order, and is not empty. */
  ghost predicate Inv(s: State, base: seq<nat>) {
    && base != [] && |base + s.log| >= 2 && IsChain(s.next, base + s.log)
    && (forall k: nat | k < |s.threads| :: GoodThread(s, base + s.log, s.threads[k]))
    && (forall j: nat, k: nat | j < k < |s.threads| && Fresh(s.threads[j]).At? ::
          Fresh(s.threads[j]) != Fresh(s.threads[k]))
  }

  /** A node of the chain has a null link exactly when it is the last. */
  lemma OnlyLastIsNull(next: seq<Ptr>, chain: seq<nat>, c: nat)
    requires IsChain(next, chain) && c in chain
    ensures c < |next| && (next[c] == Null <==> c == chain[|chain| - 1])
    ensures next[c] != Null ==> next[c].addr in chain[1..]
  {
    var i :| 0 <= i < |chain| && chain[i] == c;
    if i + 1 < |chain| {
      assert chain[i] != chain[|chain| - 1];
      assert chain[1..][i] == chain[i + 1];
    }
  }

  lemma ChainGrows(next: seq<Ptr>, chain: seq<nat>, n: nat)
    requires IsChain(next, chain) && Unlinked(next, chain, n)
    ensures IsChain(next[chain[|chain| - 1] := At(n)], chain + [n])
  {
    var last := chain[|chain| - 1];
    var next', chain' := next[last := At(n)], chain + [n];
    forall i | 0 <= i < |chain'| - 1 ensures next'[chain'[i]] == At(chain'[i + 1]) {
      if i < |chain| - 1 {
        assert chain[i] != last;
      }
    }
  }

  /** The steps that only move the thread along. */
  lemma MoveKeepsInv(s: State, base: seq<nat>, k: nat, pc: Pc)
    requires Inv(s, base) && k < |s.threads| && GoodThread(s, base + s.log, pc)
    requires Fresh(pc).At? ==> Fresh(pc) == Fresh(s.threads[k])
    ensures Inv(To(s, k, pc), base)
  {
  }

  lemma AllocKeepsInv(s: State, base: seq<nat>, k: nat)
    requires Inv(s, base) && k < |s.threads| && s.threads[k].Idle?
    ensures Inv(Step(s, k), base)
  {
    var s' := Step(s, k);
    assert s'.next[..|s.next|] == s.next;
    forall j: nat | j < |s.threads| && j != k ensures GoodThread(s', base + s.log, s'.threads[j]) {
      assert GoodThread(s, base + s.log, s.threads[j]);
    }
  }

  /** A successful compare-and-swap on the last node. */
  lemma LinkKeepsInv(s: State, base: seq<nat>, k: nat, n: nat)
    requires Inv(s, base) && k < |s.threads| && Fresh(s.threads[k]) == At(n)
    ensures var chain := base + s.log;
            chain[|chain| - 1] < |s.next| && Inv(To(Cas(s, chain[|chain| - 1], n), k, Idle), base)
  {
    var chain := base + s.log;
    var last := chain[|chain| - 1];
    assert GoodThread(s, chain, s.threads[k]);
    ChainGrows(s.next, chain, n);
    assert base + (s.log + [n]) == chain + [n];
    var s' := To(Cas(s, last, n), k, Idle);
    forall j: nat | j < |s.threads| ensures GoodThread(s', base + s'.log, s'.threads[j]) {
      assert GoodThread(s, chain, s.threads[j]);
      if j != k {
        assert Fresh(s.threads[j]).At? ==> Fresh(s.threads[j]) != At(n);
        assert chain[1..] + [n] == (chain + [n])[1..];
      }
    }
  }

  /** Any step of any thread keeps the list a chain that only grows, by one node at its end, and leaves no
      cursor null. */
  lemma StepKeepsInv(s: State, base: seq<nat>, k: nat)
    requires Inv(s, base)
    ensures var s' := Step(s, k);
            Inv(s', base) && (s'.log == s.log || exists n :: s'.log == s.log + [n])
  {
    hide IsChain;
    if k < |s.threads| {
      var chain, pc := base + s.log, s.threads[k];
      assert GoodThread(s, chain, pc);
      HeadLinked(s, base);
      match pc
      case Idle => AllocKeepsInv(s, base, k);
      case ReadHead(n) => MoveKeepsInv(s, base, k, CasHead(n, s.next[0]));
      case CasHead(n, c) => MoveKeepsInv(s, base, k, ReadNext(n, c));
      case ReadNext(n, c) =>
        OnlyLastIsNull(s.next, chain, c.addr);
        MoveKeepsInv(s, base, k, if s.next[c.addr] == Null then CasTail(n, c, |s.log|) else Advance(n, c));
      case CasTail(n, c, seen) =>
        OnlyLastIsNull(s.next, chain, c.addr);
        if s.next[c.addr] == Null {
          LinkKeepsInv(s, base, k, n);
        } else {
          MoveKeepsInv(s, base, k, Advance(n, c));
        }
      case Advance(n, c) =>
        OnlyLastIsNull(s.next, chain, c.addr);
        MoveKeepsInv(s, base, k, ReadNext(n, s.next[c.addr]));
    }
  }

  lemma HeadLinked(s: State, base: seq<nat>)
    requires Inv(s, base)
    ensures s.next != [] && s.next[0] != Null && GoodCursor(base + s.log, s.next[0])
  {
    var chain := base + s.log;
    assert s.next[chain[0]] == At(chain[1]) && chain[1..][0] == chain[1];
  }

  lemma {:induction false} RunKeepsInv(s: State, base: seq<nat>, schedule: seq<nat>)
    requires Inv(s, base)
    ensures Inv(Run(s, schedule), base) && s.log <= Run(s, schedule).log
    decreases |schedule|
  {
    if schedule != [] {
      StepKeepsInv(s, base, schedule[0]);
      RunKeepsInv(Step(s, schedule[0]), base, schedule[1..]);
    }
  }

  function Started(next: seq<Ptr>, threads: nat): State { State(next, [], seq(threads, i => Idle)) }

  /** No thread has dereferenced a null cursor. */
  ghost predicate NoneStuck(s: State) { forall pc <- s.threads :: !pc.Stuck? }

  /** From any non-empty list, any interleaving of any number of threads leaves the old list followed by
      the added nodes, each once, in the order of their calls; no thread ever holds a null cursor. */
  lemma NonEmptyIsSafe(next: seq<Ptr>, base: seq<nat>, threads: nat, schedule: seq<nat>)
    requires IsChain(next, base) && |base| >= 2
    ensures var s := Run(Started(next, threads), schedule);
            && IsChain(s.next, base + s.log) && NoneStuck(s)
            && (forall pc <- s.threads :: pc.ReadNext? ==> pc.cursor.At?)
  {
    var s := Started(next, threads);
    assert base + s.log == base;
    RunKeepsInv(s, base, schedule);
  }

  /** A compare-and-swap at the tail that fails means another call took effect since this thread saw the
      null link. */
  lemma FailedCasMeansProgress(s: State, base: seq<nat>, k: nat)
    requires Inv(s, base) && k < |s.threads| && s.threads[k].CasTail? && Step(s, k).threads[k].Advance?
    ensures |s.log| > s.threads[k].seen
  {
    assert GoodThread(s, base + s.log, s.threads[k]);
    OnlyLastIsNull(s.next, base + s.log, s.threads[k].cursor.addr);
  }

  // ----- calls and nodes

  /** The node of the thread's call: a call is over exactly when its node is in the log. Nothing else is
      ever logged. */
  lemma CallEndsWithItsNode(s: State, k: nat)
    requires k < |s.threads| && s.next != []
    ensures var pc, s' := s.threads[k], Step(s, k);
            && (!pc.Idle? && s'.threads[k].Idle? <==> !pc.Idle? && !pc.Stuck? && s'.log == s.log + [pc.node])
            && (!(!pc.Idle? && s'.threads[k].Idle?) ==> s'.log == s.log)
  {
  }

  /** A call starts by allocating its node, and keeps it until it ends or gets stuck; no step of another
      thread touches it. */
  lemma CallKeepsItsNode(s: State, k: nat, j: nat)
    requires k < |s.threads| && j < |s.threads| && s.next != []
    ensures var s' := Step(s, k);
            && (j != k ==> s'.threads[j] == s.threads[j])
            && (s.threads[k].Idle? ==> s'.threads[k] == ReadHead(|s.next|) && |s'.next| == |s.next| + 1)
            && (!s.threads[k].Idle? ==> |s'.next| == |s.next|)
            && (Fresh(s.threads[k]).At? && Fresh(s'.threads[k]).At? ==> Fresh(s'.threads[k]) == Fresh(s.threads[k]))
  {
  }

  /** Every node allocated since there were first nodes is in the log or held by the thread that
      allocated it; and only such nodes are logged. */
  ghost predicate Accounted(s: State, first: nat) {
    && (forall n: nat | first <= n < |s.next| :: n in s.log || Held(s, n))
    && (forall n | n in s.log :: first <= n < |s.next|)
    && (forall k: nat | k < |s.threads| && Fresh(s.threads[k]).At? :: first <= Fresh(s.threads[k]).addr < |s.next|)
  }

  ghost predicate Held(s: State, n: nat) { exists k: nat :: k < |s.threads| && Fresh(s.threads[k]) == At(n) }

  lemma StepAccounted(s: State, first: nat, k: nat)
    requires Accounted(s, first) && first <= |s.next| && (k < |s.threads| ==> !Step(s, k).threads[k].Stuck?)
    ensures Accounted(Step(s, k), first) && first <= |Step(s, k).next|
  {
    var s' := Step(s, k);
    if k < |s.threads| && s.next != [] {
      CallEndsWithItsNode(s, k);
      CallKeepsItsNode(s, k, k);
      forall n: nat | first <= n < |s'.next| ensures n in s'.log || Held(s', n) {
        if n == |s.next| {
          assert Fresh(s'.threads[k]) == At(n);
        } else if n !in s.log {
          var j: nat :| j < |s.threads| && Fresh(s.threads[j]) == At(n);
          CallKeepsItsNode(s, k, j);
          assert n in s'.log || Fresh(s'.threads[j]) == At(n);
        }
      }
    }
  }

  lemma {:induction false} RunAccounted(s: State, base: seq<nat>, first: nat, schedule: seq<nat>)
    requires Inv(s, base) && Accounted(s, first) && first <= |s.next|
    ensures Accounted(Run(s, schedule), first)
    decreases |schedule|
  {
    hide Inv, Accounted, Step;
    if schedule != [] {
      var k := schedule[0];
      StepKeepsInv(s, base, k);
      NotStuck(Step(s, k), base);
      SameThreads(s, k);
      StepAccounted(s, first, k);
      RunAccounted(Step(s, k), base, first, schedule[1..]);
    }
  }

  lemma NotStuck(s: State, base: seq<nat>)
    requires Inv(s, base)
    ensures NoneStuck(s)
  {
    forall pc | pc in s.threads ensures !pc.Stuck? {
      var k: nat :| k < |s.threads| && s.threads[k] == pc;
      assert GoodThread(s, base + s.log, s.threads[k]);
    }
  }

  lemma SameThreads(s: State, k: nat)
    ensures |Step(s, k).threads| == |s.threads|
  {
  }

  lemma NoneHeld(s: State, n: nat)
    requires forall pc <- s.threads :: pc.Idle?
    ensures !Held(s, n)
  {
    forall k: nat | k < |s.threads| ensures Fresh(s.threads[k]) == Null {
      assert s.threads[k] in s.threads;
    }
  }

  /** No add is lost and none counts twice: after any run from a non-empty list, every node allocated on the
      way is either on the chain behind the old list, exactly once, or held by a thread whose call is not
      over. When no call is pending, the added nodes are exactly the allocated ones. */
  lemma NoAddLost(next: seq<Ptr>, base: seq<nat>, threads: nat, schedule: seq<nat>)
    requires IsChain(next, base) && |base| >= 2
    ensures var s := Run(Started(next, threads), schedule);
            && IsChain(s.next, base + s.log)
            && (forall n: nat | |next| <= n < |s.next| :: n in s.log <==> !Held(s, n))
            && (forall n | n in s.log :: |next| <= n < |s.next|)
            && ((forall pc <- s.threads :: pc.Idle?) ==> forall n: nat | |next| <= n < |s.next| :: n in s.log)
  {
    var s0 := Started(next, threads);
    assert base + s0.log == base;
    RunKeepsInv(s0, base, schedule);
    RunAccounted(s0, base, |next|, schedule);
    var s := Run(s0, schedule);
    forall n: nat | |next| <= n < |s.next| ensures n in s.log <==> !Held(s, n) {
      if Held(s, n) {
        var k: nat :| k < |s.threads| && Fresh(s.threads[k]) == At(n);
        assert GoodThread(s, base + s.log, s.threads[k]);
        assert n in s.log ==> n in base + s.log;
      }
    }
    if forall pc <- s.threads :: pc.Idle? {
      forall n: nat | |next| <= n < |s.next| ensures n in s.log {
        NoneHeld(s, n);
      }
    }
  }

  // ----- a thread running alone

  function Alone(k: nat, n: nat): (r: seq<nat>)
    ensures |r| == n && forall i | 0 <= i < n :: r[i] == k
  {
    seq(n, i => k)
  }

  lemma AloneNext(s: State, k: nat, n: nat)
    requires n > 0
    ensures Run(s, Alone(k, n)) == Run(Step(s, k), Alone(k, n - 1))
  {
    assert Alone(k, n)[1..] == Alone(k, n - 1);
  }

  lemma ChainStep(next: seq<Ptr>, chain: seq<nat>, i: nat)
    requires IsChain(next, chain) && i < |chain|
    ensures chain[i] < |next| && next[chain[i]] == if i + 1 < |chain| then At(chain[i + 1]) else Null
  {
  }

  /** From the i-th node of the list, a thread that runs alone reaches the end in two steps a node, and
      returns with its node linked behind the last one. */
  lemma {:induction false} AloneReturns(s: State, base: seq<nat>, k: nat, n: nat, i: nat)
    requires Inv(s, base) && k < |s.threads| && i < |base + s.log|
    requires s.threads[k] == ReadNext(n, At((base + s.log)[i]))
    ensures var chain := base + s.log;
            var s' := Run(s, Alone(k, 2 * (|chain| - i)));
            && s'.threads == s.threads[k := Idle] && s'.log == s.log + [n]
            && s'.next == s.next[chain[|chain| - 1] := At(n)]
    decreases |base + s.log| - i
  {
    hide Inv, IsChain, Run, GoodThread;
    var chain, steps := base + s.log, 2 * (|base + s.log| - i);
    InvChain(s, base);
    ChainStep(s.next, chain, i);
    AloneNext(s, k, steps);
    StepKeepsInv(s, base, k);
    var s1 := Step(s, k);
    InvChain(s1, base);
    AloneNext(s1, k, steps - 1);
    if i + 1 < |chain| {
      StepKeepsInv(s1, base, k);
      AloneReturns(Step(s1, k), base, k, n, i + 1);
    } else {
      assert Alone(k, 0) == [];
      RunNone(Step(s1, k));
    }
  }

  lemma InvChain(s: State, base: seq<nat>)
    requires Inv(s, base)
    ensures IsChain(s.next, base + s.log) && |base + s.log| >= 2 && s.next != []
  {
  }

  /** A whole add_node that runs alone on a non-empty list: it allocates a node, links it behind the last
      one, and leaves every other link as it was. */
  lemma AddAlone(s: State, base: seq<nat>, k: nat)
    requires Inv(s, base) && k < |s.threads| && s.threads[k] == Idle
    ensures var chain, n := base + s.log, |s.next|;
            var s' := Run(s, Alone(k, 2 * |chain| + 1));
            && s'.threads == s.threads && s'.log == s.log + [n]
            && chain[|chain| - 1] < n && s'.next == s.next[chain[|chain| - 1] := At(n)] + [Null]
  {
    hide Inv, IsChain, Run;
    var chain, n := base + s.log, |s.next|;
    InvChain(s, base);
    ChainStep(s.next, chain, 0);
    ChainStep(s.next, chain, |chain| - 1);
    HeadFirst(s, base);
    var steps := 2 * |chain| + 1;
    AloneNext(s, k, steps);
    StepKeepsInv(s, base, k);
    var s1 := Step(s, k);
    AloneNext(s1, k, steps - 1);
    StepKeepsInv(s1, base, k);
    var s2 := Step(s1, k);
    AloneNext(s2, k, steps - 2);
    StepKeepsInv(s2, base, k);
    var s3 := Step(s2, k);
    AloneReturns(s3, base, k, n, 1);
    assert s3.threads[k := Idle] == s.threads;
  }

  lemma HeadFirst(s: State, base: seq<nat>)
    requires Inv(s, base)
    ensures (base + s.log)[0] == 0
  {
  }

  /** And on the empty list: the node becomes the first. */
  lemma AddAloneFirst(s: State, k: nat)
    requires IsChain(s.next, [0]) && k < |s.threads| && s.threads[k] == Idle
    ensures var s', n := Run(s, Alone(k, 3)), |s.next|;
            s'.threads == s.threads && s'.log == s.log + [n] && s'.next == s.next[0 := At(n)] + [Null]
  {
    hide Run;
    AloneNext(s, k, 3);
    var s1 := Step(s, k);
    AloneNext(s1, k, 2);
    var s2 := Step(s1, k);
    AloneNext(s2, k, 1);
    assert Alone(k, 0) == [];
    RunNone(Step(s2, k));
  }

  // ----- the empty list

  /** A single thread on the empty list, before its first call takes effect. */
  ghost predicate BeforeFirst(s: State) {
    && IsChain(s.next, [0]) && s.log == [] && |s.threads| <= 1
    && forall pc <- s.threads ::
         && (pc.Idle? || pc.ReadHead? || (pc.CasHead? && pc.cursor == Null))
         && (Fresh(pc).At? ==> Unlinked(s.next, [0], Fresh(pc).addr))
  }

  /** The first call of a single thread always links at the head, and from then on the list is not empty. */
  lemma FirstStep(s: State, k: nat)
    requires BeforeFirst(s)
    ensures BeforeFirst(Step(s, k)) || (Inv(Step(s, k), [0]) && NoneStuck(Step(s, k)))
  {
    if k < |s.threads| {
      var pc, s' := s.threads[k], Step(s, k);
      assert pc in s.threads && s.threads == [pc];
      if pc.CasHead? {
        ChainGrows(s.next, [0], pc.node);
        assert [0] + s'.log == [0, pc.node];
      } else {
        assert s'.next[..|s.next|] == s.next;
      }
    }
  }

  lemma {:induction false} OneThreadRun(s: State, schedule: seq<nat>)
    requires BeforeFirst(s)
    ensures var s' := Run(s, schedule); IsChain(s'.next, [0] + s'.log) && NoneStuck(s')
    decreases |schedule|
  {
    if schedule == [] {
      assert [0] + s.log == [0];
    } else {
      var s' := Step(s, schedule[0]);
      FirstStep(s, schedule[0]);
      if BeforeFirst(s') {
        OneThreadRun(s', schedule[1..]);
      } else {
        RunKeepsInv(s', [0], schedule[1..]);
      }
    }
  }

  /** A single thread is safe from the empty list too. */
  lemma OneThreadIsSafe(next: seq<Ptr>, threads: nat, schedule: seq<nat>)
    requires IsChain(next, [0]) && threads <= 1
    ensures var s := Run(Started(next, threads), schedule); IsChain(s.next, [0] + s.log) && NoneStuck(s)
  {
    OneThreadRun(Started(next, threads), schedule);
  }

  /** From the empty list two threads suffice for a null cursor: the second reads the head before the
      first links its node, and then fails to link its own. */
  lemma EmptyIsUnsafe(next: seq<Ptr>, threads: nat)
    requires IsChain(next, [0]) && threads >= 2
    ensures var s := Run(Started(next, threads), [1, 1, 0, 0, 0, 1, 1]);
            |s.threads| == threads && s.threads[1].Stuck?
  {
    hide Run;
    var s := Started(next, threads);
    RunOne(s, [1, 1, 0, 0, 0, 1, 1]);
    s := Step(s, 1);
    RunOne(s, [1, 0, 0, 0, 1, 1]);
    s := Step(s, 1);
    RunOne(s, [0, 0, 0, 1, 1]);
    s := Step(s, 0);
    RunOne(s, [0, 0, 1, 1]);
    s := Step(s, 0);
    RunOne(s, [0, 1, 1]);
    s := Step(s, 0);
    RunOne(s, [1, 1]);
    s := Step(s, 1);
    RunOne(s, [1]);
    assert Run(Step(s, 1), []) == Step(s, 1) by { RunNone(Step(s, 1)); }
  }

  /** Exactly when add_node is safe: no schedule makes any thread dereference a null cursor if and only if
      the list starts with a node behind its head or at most one thread runs. */
  lemma SafeIff(next: seq<Ptr>, base: seq<nat>, threads: nat)
    requires IsChain(next, base)
    ensures (forall schedule: seq<nat> :: NoneStuck(Run(Started(next, threads), schedule)))
            <==> |base| >= 2 || threads <= 1
  {
    if |base| == 1 {
      assert base == [0];
    }
    if |base| >= 2 || threads <= 1 {
      forall schedule: seq<nat> ensures NoneStuck(Run(Started(next, threads), schedule)) {
        if |base| >= 2 {
          NonEmptyIsSafe(next, base, threads, schedule);
        } else {
          OneThreadIsSafe(next, threads, schedule);
        }
      }
    } else {
      EmptyIsUnsafe(next, threads);
      var s := Run(Started(next, threads), [1, 1, 0, 0, 0, 1, 1]);
      assert s.threads[1] in s.threads;
    }
  }

  lemma RunOne(s: State, schedule: seq<nat>)
    requires schedule != []
    ensures Run(s, schedule) == Run(Step(s, schedule[0]), schedule[1..])
  {
  }

  lemma RunNone(s: State)
    ensures Run(s, []) == s
  {
  }
}
