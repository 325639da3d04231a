/** The scheduler as a machine on values: what each operation does to the whole state, and what any run of
    operations conserves. SchedLedger shows that the kernel's objects follow it. */
module SchedMachine {
  import opened Sched
  import PageAlloc

  datatype Op = Fork | Tick | Yield | Sleep | Wake(pid: nat)

  /** The kernel at one moment: g_task, the page flags, the PCB ring, the run queue, the current task, and
      for each task of the ring the counter left and the slice a reset gives. */
  datatype Moment = Moment(init: Task, base: nat, table: seq<Task?>, flags: seq<int>, ring: seq<Task>,
                           queue: seq<Task>, current: Task, left: map<Task, int>, share: map<Task, int>)

  function LeftOf(c: map<Task, int>, t: Task): int { if t in c then c[t] else 0 }

  function Lefts(c: map<Task, int>, q: seq<Task>): (r: seq<int>)
    ensures |r| == |q| && forall i | 0 <= i < |q| :: r[i] == LeftOf(c, q[i])
  {
    seq(|q|, i requires 0 <= i < |q| => LeftOf(c, q[i]))
  }

  /** The sum of the counters of all tasks. */
  function Total(c: map<Task, int>, ring: seq<Task>): int { Sum(Lefts(c, ring)) }

  function Without(q: seq<Task>, t: Task): seq<Task> {
    if q == [] then [] else if q[0] == t then q[1..] else [q[0]] + Without(q[1..], t)
  }

  function FirstNull(table: seq<Task?>): (k: nat)
    ensures k <= |table| && (k < |table| ==> table[k] == null) && forall i | 0 <= i < k :: table[i] != null
  {
    if table == [] || table[0] == null then 0 else 1 + FirstNull(table[1..])
  }

  // ----- one operation

  /** All time of these tasks is spent. */
  predicate Out(m: Moment, q: seq<Task>) {
    q != [] && Lefts(m.left, q)[FirstMax(Lefts(m.left, q))] == 0
  }

  /** What a reset gives out: a slice to every task, and init_task keeps its counter. */
  function Handed(m: Moment): map<Task, int> {
    map t | t in m.left :: if t == m.init then m.left[t] else LeftOf(m.share, t)
  }

  /** schedule, when it finds these tasks in the queue: a reset if all their time is spent, and then the
      first one with most time left becomes current. */
  function Scheduled(m: Moment, q: seq<Task>): Moment
    requires q != []
  {
    var left := if Out(m, q) then Handed(m) else m.left;
    m.(queue := q, left := left, current := q[FirstMax(Lefts(left, q))])
  }

  function FlagsAfter(m: Moment): seq<int> {
    PageAlloc.Step(m.base, PageAlloc.State(m.flags, {}), PageAlloc.Get).flags
  }

  /** A page and a pid are free. */
  predicate CanFork(m: Moment) { PageAlloc.Returned(m.base, m.flags) != 0 && FirstNull(m.table) < |m.table| }

  /** do_fork; p is the new task. The page is taken even when no pid is free. */
  function Forking(m: Moment, p: Task): Moment {
    if !CanFork(m) then m.(flags := FlagsAfter(m))
    else
      var c := LeftOf(m.left, m.current);
      m.(flags := FlagsAfter(m), table := m.table[FirstNull(m.table) := p], ring := m.ring + [p],
         queue := [p] + m.queue, left := m.left[m.current := c / 2][p := (c + 1) / 2], share := m.share[p := Slice(2)])
  }

  predicate Asleep(m: Moment, t: Task?) { t != null && t != m.init && t !in m.queue }

  predicate CanSleep(m: Moment) { m.current != m.init && |m.queue| > 1 && m.current in m.queue }

  /** The whole effect of one operation; one that cannot be done at this point does nothing. */
  function Apply(m: Moment, op: Op, p: Task): Moment {
    match op
    case Fork => Forking(m, p)
    case Tick =>
      var c := LeftOf(m.left, m.current);
      m.(left := m.left[m.current := if c > 0 then c - 1 else 0])
    case Yield => if m.queue == [] then m else Scheduled(m, m.queue)
    case Sleep =>
      if CanSleep(m) && Without(m.queue, m.current) != [] then Scheduled(m, Without(m.queue, m.current)) else m
    case Wake(pid) =>
      if pid < |m.table| && Asleep(m, m.table[pid]) then m.(queue := [m.table[pid]] + m.queue) else m
  }

  /** The tasks schedule would choose from, if the operation calls it. */
  function Waiting(m: Moment, op: Op): seq<Task> {
    match op
    case Yield => m.queue
    case Sleep => if CanSleep(m) then Without(m.queue, m.current) else []
    case _ => []
  }

  // ----- what holds at every moment

  ghost predicate Distinct(s: seq<Task>) { forall i, j | 0 <= i < j < |s| :: s[i] != s[j] }

  /** The counters are those of the ring and not negative, the slices positive; only tasks of the ring other
      than init_task are queued, each once; the current task is queued or init_task. */
  ghost predicate Sane(m: Moment) {
    && Distinct(m.ring) && Distinct(m.queue) && m.init in m.ring
    && (m.current == m.init || m.current in m.queue)
    && (forall t | t in m.queue :: t in m.ring && t != m.init)
    && (forall t | t in m.table && t != null :: t in m.ring)
    && (forall t | t in m.ring :: t in m.left && t in m.share && m.left[t] >= 0 && m.share[t] > 0)
    && (forall t | t in m.left :: t in m.ring)
  }

  lemma {:induction false} WithoutMembers(q: seq<Task>, t: Task)
    requires Distinct(q)
    ensures Distinct(Without(q, t)) && forall x | x in Without(q, t) :: x in q && x != t
    ensures forall x | x in q && x != t :: x in Without(q, t)
    ensures t in q ==> |Without(q, t)| == |q| - 1
  {
    if q != [] {
      TailDistinct(q);
      WithoutMembers(q[1..], t);
      if q[0] != t {
        ConsDistinct(q[0], Without(q[1..], t));
      }
    }
  }

  lemma TailDistinct(q: seq<Task>)
    requires q != [] && Distinct(q)
    ensures Distinct(q[1..]) && q[0] !in q[1..] && forall x :: x in q <==> x == q[0] || x in q[1..]
  {
    assert forall i | 0 <= i < |q| - 1 :: q[1..][i] == q[i + 1];
    assert q == [q[0]] + q[1..];
  }

  lemma ConsDistinct(t: Task, q: seq<Task>)
    requires Distinct(q) && t !in q
    ensures Distinct([t] + q)
  {
  }

  lemma ScheduledSane(m: Moment, q: seq<Task>)
    requires Sane(m) && q != [] && Distinct(q) && forall t | t in q :: t in m.queue
    ensures Sane(Scheduled(m, q))
  {
  }

  /** Every operation keeps a moment sane. */
  lemma ApplySane(m: Moment, op: Op, p: Task)
    requires Sane(m) && (op == Fork && CanFork(m) ==> p !in m.ring)
    ensures Sane(Apply(m, op, p))
  {
    hide FirstMax, PageAlloc.Returned, PageAlloc.Step;
    match op
    case Fork => ForkSane(m, p);
    case Tick =>
    case Yield =>
      if m.queue != [] {
        ScheduledSane(m, m.queue);
      }
    case Sleep =>
      WithoutMembers(m.queue, m.current);
      if CanSleep(m) && Without(m.queue, m.current) != [] {
        ScheduledSane(m, Without(m.queue, m.current));
      }
    case Wake(pid) =>
  }

  lemma ForkSane(m: Moment, p: Task)
    requires Sane(m) && (CanFork(m) ==> p !in m.ring)
    ensures Sane(Forking(m, p))
  {
    hide PageAlloc.Returned, PageAlloc.Step;
    if CanFork(m) {
      var m' := Forking(m, p);
      forall t | t in m'.table && t != null ensures t in m'.ring {
        assert t == p || t in m.table;
      }
    }
  }

  // ----- the ledger of one operation

  /** What an operation did to the counters: nothing as a whole, one tick charged, or a reset. */
  datatype Entry = Kept | Charged | Reset(handed: int)

  /** A tick is charged exactly when the current task has time left; schedule resets exactly when all tasks
      it chooses from have spent theirs. */
  function EntryOf(m: Moment, op: Op): Entry {
    if op == Tick && LeftOf(m.left, m.current) > 0 then Charged
    else if Out(m, Waiting(m, op)) then Reset(Total(Handed(m), m.ring))
    else Kept
  }

  lemma TotalChanged(c: map<Task, int>, ring: seq<Task>, t: Task, v: int)
    requires Distinct(ring) && t in ring && t in c
    ensures Total(c[t := v], ring) == Total(c, ring) - c[t] + v
  {
    hide Sum;
    var k :| 0 <= k < |ring| && ring[k] == t;
    SumUpdate(Lefts(c, ring), k, v);
    assert Lefts(c[t := v], ring) == Lefts(c, ring)[k := v];
  }

  lemma TotalNew(c: map<Task, int>, ring: seq<Task>, p: Task, v: int)
    requires p !in ring
    ensures Total(c[p := v], ring + [p]) == Total(c, ring) + v
  {
    assert Lefts(c[p := v], ring + [p])[..|ring|] == Lefts(c, ring);
  }

  /** The books balance: fork and wake-up keep the sum of the counters, a tick takes what it charges, and
      after a reset the sum is what was handed out. */
  lemma StepBooked(m: Moment, op: Op, p: Task)
    requires Sane(m) && (op == Fork && CanFork(m) ==> p !in m.ring)
    ensures var m' := Apply(m, op, p);
            Total(m'.left, m'.ring) ==
            match EntryOf(m, op)
            case Kept => Total(m.left, m.ring)
            case Charged => Total(m.left, m.ring) - 1
            case Reset(h) => h
  {
    hide Total, FirstMax, PageAlloc.Returned, PageAlloc.Step;
    CurrentCounted(m);
    var c := LeftOf(m.left, m.current);
    match op
    case Fork =>
      if CanFork(m) {
        TotalChanged(m.left, m.ring, m.current, c / 2);
        TotalNew(m.left[m.current := c / 2], m.ring, p, (c + 1) / 2);
      }
    case Tick =>
      TotalChanged(m.left, m.ring, m.current, if c > 0 then c - 1 else 0);
    case Yield =>
    case Sleep =>
    case Wake(pid) =>
  }

  lemma CurrentCounted(m: Moment)
    requires Sane(m)
    ensures m.current in m.ring && m.current in m.left && LeftOf(m.left, m.current) >= 0
  {
  }

  // ----- runs

  /** The state after a run; ps names the new task of each fork. */
  function Run(m: Moment, ops: seq<Op>, ps: seq<Task>): Moment
    requires |ps| == |ops|
  {
    if ops == [] then m
    else Apply(Run(m, ops[..|ops| - 1], ps[..|ps| - 1]), ops[|ops| - 1], ps[|ps| - 1])
  }

  /** The task of each fork that succeeds is new. */
  ghost predicate AllNew(m: Moment, ops: seq<Op>, ps: seq<Task>)
    requires |ps| == |ops|
  {
    forall i | 0 <= i < |ops| && ops[i] == Fork :: NewAt(Run(m, ops[..i], ps[..i]), ps[i])
  }

  ghost predicate NewAt(m: Moment, p: Task) { CanFork(m) ==> p !in m.ring }

  function Ledger(m: Moment, ops: seq<Op>, ps: seq<Task>): (log: seq<Entry>)
    requires |ps| == |ops|
    ensures |log| == |ops|
  {
    seq(|ops|, i requires 0 <= i < |ops| => EntryOf(Run(m, ops[..i], ps[..i]), ops[i]))
  }

  lemma Prefix(m: Moment, ops: seq<Op>, ps: seq<Task>, n: nat)
    requires |ps| == |ops| && n <= |ops| && AllNew(m, ops, ps)
    ensures AllNew(m, ops[..n], ps[..n]) && Ledger(m, ops[..n], ps[..n]) == Ledger(m, ops, ps)[..n]
  {
    hide Run, EntryOf;
    forall i | 0 <= i < n && ops[i] == Fork ensures NewAt(Run(m, ops[..n][..i], ps[..n][..i]), ps[..n][i]) {
      assert ops[..n][..i] == ops[..i] && ps[..n][..i] == ps[..i];
    }
    var a, b := Ledger(m, ops[..n], ps[..n]), Ledger(m, ops, ps)[..n];
    forall i | 0 <= i < n ensures a[i] == b[i] {
      assert ops[..n][..i] == ops[..i] && ps[..n][..i] == ps[..i];
    }
  }

  lemma {:induction false} RunSane(m: Moment, ops: seq<Op>, ps: seq<Task>)
    requires |ps| == |ops| && Sane(m) && AllNew(m, ops, ps)
    ensures Sane(Run(m, ops, ps))
  {
    hide Sane, Apply, AllNew, NewAt;
    if ops != [] {
      var n := |ops| - 1;
      Prefix(m, ops, ps, n);
      RunSane(m, ops[..n], ps[..n]);
      LastStep(m, ops, ps);
      ApplySane(Run(m, ops[..n], ps[..n]), ops[n], ps[n]);
    }
  }

  function Charges(log: seq<Entry>): nat {
    if log == [] then 0 else Charges(log[..|log| - 1]) + if log[|log| - 1] == Charged then 1 else 0
  }

  /** Over a stretch of a run without a reset, exactly the ticks charged are gone. */
  lemma {:induction false} NoReset(m: Moment, ops: seq<Op>, ps: seq<Task>, k: nat)
    requires |ps| == |ops| && Sane(m) && AllNew(m, ops, ps) && k <= |ops|
    requires forall i | k <= i < |ops| :: !Ledger(m, ops, ps)[i].Reset?
    ensures var a, b := Run(m, ops[..k], ps[..k]), Run(m, ops, ps);
            Total(b.left, b.ring) + Charges(Ledger(m, ops, ps)[k..]) == Total(a.left, a.ring)
    decreases |ops|
  {
    hide Sane, Apply, Total, EntryOf, Run, Ledger, AllNew, NewAt;
    var log := Ledger(m, ops, ps);
    if k == |ops| {
      assert ops[..k] == ops && ps[..k] == ps;
    } else {
      var n := |ops| - 1;
      Prefix(m, ops, ps, n);
      assert ops[..n][..k] == ops[..k] && ps[..n][..k] == ps[..k];
      NoReset(m, ops[..n], ps[..n], k);
      RunSane(m, ops[..n], ps[..n]);
      LastStep(m, ops, ps);
      StepBooked(Run(m, ops[..n], ps[..n]), ops[n], ps[n]);
      assert log[k..][..n - k] == log[..n][k..];
    }
  }

  lemma LastStep(m: Moment, ops: seq<Op>, ps: seq<Task>)
    requires |ps| == |ops| > 0 && AllNew(m, ops, ps)
    ensures var n := |ops| - 1;
            var before := Run(m, ops[..n], ps[..n]);
            && Run(m, ops, ps) == Apply(before, ops[n], ps[n])
            && Ledger(m, ops, ps)[n] == EntryOf(before, ops[n])
            && (ops[n] == Fork && CanFork(before) ==> ps[n] !in before.ring)
  {
    hide Apply, EntryOf, CanFork;
  }

  /** No operation changes what a reset gives a task of the ring. */
  lemma {:induction false} SharesKept(m: Moment, ops: seq<Op>, ps: seq<Task>, k: nat, t: Task)
    requires |ps| == |ops| && Sane(m) && AllNew(m, ops, ps) && k <= |ops| && t in Run(m, ops[..k], ps[..k]).ring
    ensures var a, b := Run(m, ops[..k], ps[..k]), Run(m, ops, ps);
            t in a.share && t in b.ring && t in b.share && b.share[t] == a.share[t] && a.init == b.init
    decreases |ops|
  {
    hide Apply, Run, AllNew, NewAt, Ledger;
    if k == |ops| {
      assert ops[..k] == ops && ps[..k] == ps;
      RunSane(m, ops, ps);
    } else {
      var n := |ops| - 1;
      Prefix(m, ops, ps, n);
      assert ops[..n][..k] == ops[..k] && ps[..n][..k] == ps[..k];
      SharesKept(m, ops[..n], ps[..n], k, t);
      LastStep(m, ops, ps);
      ShareKept(Run(m, ops[..n], ps[..n]), ops[n], ps[n], t);
    }
  }

  lemma ShareKept(m: Moment, op: Op, p: Task, t: Task)
    requires t in m.ring && t in m.share && (op == Fork && CanFork(m) ==> p !in m.ring)
    ensures var m' := Apply(m, op, p);
            t in m'.ring && t in m'.share && m'.share[t] == m.share[t] && m'.init == m.init
  {
    hide FirstMax, PageAlloc.Returned, PageAlloc.Step, Out, Lefts;
  }

  /** A forked task, whose priority is 2, is given 12 ticks by every later reset. */
  lemma ForkedGetsTwelve(m: Moment, ops: seq<Op>, ps: seq<Task>, k: nat)
    requires |ps| == |ops| && Sane(m) && AllNew(m, ops, ps) && k < |ops|
    requires ops[k] == Fork && CanFork(Run(m, ops[..k], ps[..k]))
    ensures var end := Run(m, ops, ps); ps[k] in end.left && Handed(end)[ps[k]] == 12
  {
    hide Apply, Run, AllNew, NewAt, Ledger, Sane, CanFork;
    var at := Run(m, ops[..k], ps[..k]);
    RunNext(m, ops, ps, k);
    Prefix(m, ops, ps, k);
    RunSane(m, ops[..k], ps[..k]);
    NewOne(m, ops, ps, k);
    ForkedShare(at, ps[k]);
    SharesKept(m, ops, ps, k + 1, ps[k]);
    InitKept(m, ops, ps, k);
    RunSane(m, ops, ps);
    TwelveAtReset(Run(m, ops, ps), ps[k]);
  }

  lemma NewOne(m: Moment, ops: seq<Op>, ps: seq<Task>, k: nat)
    requires |ps| == |ops| && AllNew(m, ops, ps) && k < |ops| && ops[k] == Fork && CanFork(Run(m, ops[..k], ps[..k]))
    ensures ps[k] !in Run(m, ops[..k], ps[..k]).ring
  {
    hide Run, CanFork;
    assert NewAt(Run(m, ops[..k], ps[..k]), ps[k]);
  }

  lemma ForkedShare(m: Moment, p: Task)
    requires Sane(m) && CanFork(m) && p !in m.ring
    ensures var m' := Apply(m, Fork, p); p in m'.ring && p in m'.share && m'.share[p] == 12 && p != m'.init
  {
    hide PageAlloc.Returned, PageAlloc.Step, FirstNull;
  }

  lemma InitKept(m: Moment, ops: seq<Op>, ps: seq<Task>, k: nat)
    requires |ps| == |ops| && Sane(m) && AllNew(m, ops, ps) && k < |ops|
    ensures Run(m, ops[..k + 1], ps[..k + 1]).init == Run(m, ops, ps).init
  {
    hide Run, Apply, AllNew, Ledger;
    Prefix(m, ops, ps, k + 1);
    RunSane(m, ops[..k + 1], ps[..k + 1]);
    var at := Run(m, ops[..k + 1], ps[..k + 1]);
    SharesKept(m, ops, ps, k + 1, at.init);
  }

  lemma TwelveAtReset(m: Moment, t: Task)
    requires Sane(m) && t in m.ring && t != m.init && m.share[t] == 12
    ensures t in m.left && Handed(m)[t] == 12
  {
  }

  /** Conservation. After a run, the counters left and the ticks charged since the last reset add up to
      what that reset handed out: a slice for each task of the ring then, and init_task's counter. */
  lemma SinceReset(m: Moment, ops: seq<Op>, ps: seq<Task>, k: nat)
    requires |ps| == |ops| && Sane(m) && AllNew(m, ops, ps) && k < |ops|
    requires Out(Run(m, ops[..k], ps[..k]), Waiting(Run(m, ops[..k], ps[..k]), ops[k]))
    requires forall i | k < i < |ops| :: !Ledger(m, ops, ps)[i].Reset?
    ensures var at, end := Run(m, ops[..k], ps[..k]), Run(m, ops, ps);
            Total(end.left, end.ring) + Charges(Ledger(m, ops, ps)[k + 1..]) == Total(Handed(at), at.ring)
  {
    hide Sane, Apply, Total, Out, Waiting, Handed, Run, Ledger, EntryOf;
    NoReset(m, ops, ps, k + 1);
    Prefix(m, ops, ps, k);
    RunSane(m, ops[..k], ps[..k]);
    StepBooked(Run(m, ops[..k], ps[..k]), ops[k], ps[k]);
    RunNext(m, ops, ps, k);
    ResetEntry(Run(m, ops[..k], ps[..k]), ops[k]);
  }

  /** So an epoch has no more charged ticks than it handed out. */
  lemma EpochBound(m: Moment, ops: seq<Op>, ps: seq<Task>, k: nat)
    requires |ps| == |ops| && Sane(m) && AllNew(m, ops, ps) && k < |ops|
    requires Out(Run(m, ops[..k], ps[..k]), Waiting(Run(m, ops[..k], ps[..k]), ops[k]))
    requires forall i | k < i < |ops| :: !Ledger(m, ops, ps)[i].Reset?
    ensures var at := Run(m, ops[..k], ps[..k]); Charges(Ledger(m, ops, ps)[k + 1..]) <= Total(Handed(at), at.ring)
  {
    hide Sane, Total, Out, Waiting, Handed, Run, Ledger;
    SinceReset(m, ops, ps, k);
    RunSane(m, ops, ps);
    NothingOwed(Run(m, ops, ps));
  }

  lemma NothingOwed(m: Moment)
    requires Sane(m)
    ensures Total(m.left, m.ring) >= 0
  {
    SumNotNegative(Lefts(m.left, m.ring));
  }

  lemma {:induction false} SumNotNegative(s: seq<int>)
    requires forall i | 0 <= i < |s| :: s[i] >= 0
    ensures Sum(s) >= 0
  {
    if s != [] {
      SumNotNegative(s[..|s| - 1]);
    }
  }

  lemma RunNext(m: Moment, ops: seq<Op>, ps: seq<Task>, k: nat)
    requires |ps| == |ops| && k < |ops|
    ensures Run(m, ops[..k + 1], ps[..k + 1]) == Apply(Run(m, ops[..k], ps[..k]), ops[k], ps[k])
  {
    hide Apply;
    assert ops[..k + 1][..k] == ops[..k] && ps[..k + 1][..k] == ps[..k];
  }

  lemma ResetEntry(m: Moment, op: Op)
    ensures EntryOf(m, op).Reset? <==> Out(m, Waiting(m, op))
    ensures EntryOf(m, op).Reset? ==> EntryOf(m, op).handed == Total(Handed(m), m.ring)
  {
  }
}
