/** The kernel's objects follow the scheduler machine over any run of operations, from boot on. */
module SchedLedger {
  import opened List
  import opened Sched
  import opened SchedMachine
  import SchedRuns
  import PageAlloc

  // ----- the kernel as a value

  ghost function CountersOf(ring: seq<Task>): map<Task, int>
    reads ring`counter
  {
    map t | t in ring :: t.counter
  }

  ghost function SlicesOf(ring: seq<Task>): map<Task, int>
    reads ring`priority
  {
    map t | t in ring :: Slice(t.priority)
  }

  ghost function MomentOf(k: Kernel): Moment
    reads k`ring, k`queue, k`current, k.gTask, k.alloc, k.alloc.memMap, k.ring`counter, k.ring`priority
  {
    Moment(k.initTask, k.alloc.start, k.gTask[..], k.alloc.memMap[..], k.ring, k.queue, k.current,
           CountersOf(k.ring), SlicesOf(k.ring))
  }

  /** No counter is negative, and every slice is positive. */
  ghost predicate Fair(ring: seq<Task>)
    reads ring`counter, ring`priority
  {
    forall t | t in ring :: t.counter >= 0 && t.priority > -DEF_COUNTER
  }

  /** The ready tasks are the queued ones; init_task is always ready and never queued. */
  ghost predicate Ready(ring: seq<Task>, queue: seq<Task>, initTask: Task)
    reads ring`state, initTask`state
  {
    (forall t | t in ring && t != initTask :: t in queue <==> t.state == 0) && initTask.state == 0
  }

  /** Only the current task can be waiting to be rescheduled. */
  ghost predicate Calm(ring: seq<Task>, current: Task)
    reads ring`needResched
  {
    forall t | t in ring && t != current :: t.needResched == 0
  }

  /** What holds between operations. */
  ghost predicate Settled(k: Kernel)
    reads k, k.gTask, k.alloc, k.head, k.RunLists(), k.ring, k.initTask
  {
    && k.Valid() && Fair(k.ring) && Ready(k.ring, k.queue, k.initTask) && Calm(k.ring, k.current)
    && (k.current == k.initTask || k.current in k.queue)
  }

  /** A settled kernel is a sane moment of the machine. */
  lemma SettledIsSane(k: Kernel)
    requires Settled(k)
    ensures Sane(MomentOf(k))
  {
    k.QueueDistinct();
    forall t | t in k.gTask[..] && t != null ensures t in k.ring {
      var i :| 0 <= i < k.gTask.Length && k.gTask[..][i] == t;
    }
  }

  /** The state at boot: init_task alone, current, with an empty queue. */
  method Boot(alloc: PageAlloc.Allocator) returns (k: Kernel)
    requires alloc.Valid()
    ensures Settled(k) && fresh(k) && fresh(k.ring) && fresh(k.gTask) && fresh(k.head) && fresh(k.RunLists())
    ensures k.alloc == alloc && alloc.Valid()
    ensures var m := MomentOf(k);
            && m.ring == [m.init] && m.queue == [] && m.current == m.init
            && m.left == map[m.init := DEF_COUNTER] && m.share == map[m.init := 20]
            && |m.table| == NR_TASK && m.table[0] == m.init && forall i | 0 < i < NR_TASK :: m.table[i] == null
  {
    k := new Kernel(alloc);
  }

  /** What a moment of a kernel says, task by task. */
  lemma MomentParts(k: Kernel, m: Moment)
    requires m == MomentOf(k)
    ensures SameLists(k, m)
    ensures forall t | t in k.ring :: t in m.left && m.left[t] == t.counter
    ensures forall t | t in k.ring :: t in m.share && m.share[t] == Slice(t.priority)
    ensures (forall t | t in m.left :: t in k.ring) && (forall t | t in m.share :: t in k.ring)
  {
  }

  /** The kernel has the moment's lists, table and flags. */
  ghost predicate SameLists(k: Kernel, m: Moment)
    reads k`ring, k`queue, k`current, k.gTask, k.alloc, k.alloc.memMap
  {
    && m.init == k.initTask && m.base == k.alloc.start && m.table == k.gTask[..] && m.flags == k.alloc.memMap[..]
    && m.ring == k.ring && m.queue == k.queue && m.current == k.current
  }

  lemma IsMoment(k: Kernel, m: Moment)
    requires SameLists(k, m)
    requires forall t | t in k.ring :: t in m.left && m.left[t] == t.counter
    requires forall t | t in k.ring :: t in m.share && m.share[t] == Slice(t.priority)
    requires (forall t | t in m.left :: t in k.ring) && (forall t | t in m.share :: t in k.ring)
    ensures MomentOf(k) == m
  {
    assert CountersOf(k.ring) == m.left;
    assert SlicesOf(k.ring) == m.share;
  }

  // ----- the operations

  method DoTick(k: Kernel, ghost p: Task)
    requires Settled(k)
    modifies k.current`counter, k.current`needResched
    ensures Settled(k) && MomentOf(k) == Apply(old(MomentOf(k)), Tick, p)
  {
    hide Kernel.Tasks, Kernel.Queued, Kernel.Left, MomentOf, Apply, Calm, Ready, Settled, SameLists;
    Parts(k);
    ghost var m := MomentOf(k);
    MomentParts(k, m);
    CalmOthers(k);
    k.TickHandlePeriodic();
    AllCalmBut(k);
    IsSettled(k);
    Ticked(k, m, p);
  }

  lemma AllCalmBut(k: Kernel)
    requires forall t | t in k.ring && t != k.current :: t.needResched == 0
    ensures Calm(k.ring, k.current)
  {
  }

  /** The moment after a tick. */
  lemma Ticked(k: Kernel, m: Moment, p: Task)
    requires SameLists(k, m) && k.current in k.ring
    requires forall t | t in k.ring :: t in m.left && t in m.share && m.share[t] == Slice(t.priority)
    requires (forall t | t in m.left :: t in k.ring) && (forall t | t in m.share :: t in k.ring)
    requires forall t | t in k.ring && t != k.current :: t.counter == m.left[t]
    requires k.current.counter == if m.left[k.current] > 0 then m.left[k.current] - 1 else 0
    ensures MomentOf(k) == Apply(m, Tick, p)
  {
    hide MomentOf;
    IsMoment(k, Apply(m, Tick, p));
  }

  /** What a settled kernel gives without its invariants. */
  lemma Parts(k: Kernel)
    requires Settled(k)
    ensures k.Valid() && Fair(k.ring) && Ready(k.ring, k.queue, k.initTask) && Calm(k.ring, k.current)
    ensures (k.current == k.initTask || k.current in k.queue) && k.current in k.ring && k.initTask in k.ring
    ensures k.current.state == 0 && |k.queue| == k.nrRunning && k.gTask.Length == NR_TASK
    ensures k.Remaining(0) == k.queue && forall t | t in k.queue :: t in k.ring && t != k.initTask
  {
  }

  lemma QueueIndex(k: Kernel) returns (i: nat)
    requires k.Valid() && k.current in k.queue
    ensures i < |k.queue| && k.queue[i] == k.current
  {
    i :| 0 <= i < |k.queue| && k.queue[i] == k.current;
  }

  lemma FairPickable(k: Kernel, q: seq<Task>)
    requires k.Valid() && Fair(k.ring) && q != [] && forall t | t in q :: t in k.queue
    ensures k.Pickable(q)
  {
    assert forall i | 0 <= i < |q| :: q[i] in q;
    RepeatPicks(Counters(q), Slices(q));
  }

  /** A queue's counters, as the moment has them. */
  lemma QueueLefts(k: Kernel, c: map<Task, int>, q: seq<Task>)
    requires forall t | t in q :: t in c && c[t] == t.counter
    ensures Counters(q) == Lefts(c, q)
    ensures q != [] ==> k.Best(q) == q[FirstMax(Lefts(c, q))] && k.Best(q).counter == Lefts(c, q)[FirstMax(Lefts(c, q))]
  {
    assert forall i | 0 <= i < |q| :: q[i] in q;
    assert Counters(q) == Lefts(c, q);
  }

  /** The counters after a schedule are those of the machine. */
  lemma PricedMoment(k: Kernel, m: Moment, was: seq<int>, resets: nat)
    requires k.Priced(was, resets) && m.ring == k.ring && m.init == k.initTask && k.initTask in k.ring
    requires forall t | t in m.left :: t in k.ring
    requires forall i | 0 <= i < |was| && i < |k.ring| :: k.ring[i] in m.left && m.left[k.ring[i]] == was[i]
    requires forall t | t in k.ring :: t in m.share && m.share[t] == Slice(t.priority)
    ensures var c := if resets == 1 then Handed(m) else m.left;
            (forall t | t in k.ring :: t in c && c[t] == t.counter) && forall t | t in c :: t in k.ring
  {
    forall t | t in k.ring ensures t in m.left && t.counter == (if resets == 1 then Handed(m) else m.left)[t] {
      var i :| 0 <= i < |k.ring| && k.ring[i] == t;
    }
  }

  /** The moment after a schedule that chose from q. */
  lemma ScheduledMoment(k: Kernel, m: Moment, q: seq<Task>, was: seq<int>, resets: nat)
    requires q != [] && k.Priced(was, resets) && k.initTask in k.ring && k.queue == q && k.current == k.Best(q)
    requires SameLists(k, m.(queue := q, current := k.current)) && forall t | t in q :: t in k.ring
    requires resets == if Out(m, q) then 1 else 0
    requires (forall t | t in m.left :: t in k.ring) && (forall t | t in m.share :: t in k.ring)
    requires forall i | 0 <= i < |was| && i < |k.ring| :: k.ring[i] in m.left && m.left[k.ring[i]] == was[i]
    requires forall t | t in k.ring :: t in m.share && m.share[t] == Slice(t.priority)
    ensures MomentOf(k) == Scheduled(m, q)
  {
    hide FirstMax, Out, Handed, MomentOf, Kernel.Priced, Kernel.Best, Counters;
    PricedMoment(k, m, was, resets);
    QueueLefts(k, Scheduled(m, q).left, q);
    IsMoment(k, Scheduled(m, q));
  }

  /** schedule does what the machine does. */
  method Schedule(k: Kernel, ghost i: nat)
    requires k.Valid() && Fair(k.ring) && (k.current.state != 0 ==> i < |k.queue| && k.queue[i] == k.current)
    requires k.Remaining(i) != [] && k.Pickable(k.Remaining(i)) && k.initTask in k.ring
    requires forall t | t in k.Remaining(i) :: t in k.ring
    modifies k`current, k`nrSwitches, k`nrRunning, k`queue, k.current`needResched, k.ring`counter
    modifies k.head`next, k.head`prev, k.RunLists()`next, k.RunLists()`prev
    ensures k.Valid() && MomentOf(k) == old(Scheduled(MomentOf(k), k.Remaining(i)))
    ensures Fair(k.ring) && k.current in k.queue && old(k.current).needResched == 0
    ensures k.queue == old(k.Remaining(i)) && k.queue != [] && k.current == k.Best(k.queue)
  {
    hide Kernel.Valid, Counters, Removed, MomentOf, Out, Fair, Kernel.Pickable, Kernel.Priced, Kernel.Best, Scheduled,
      SlicesMatch, SameTables, WasCounters;
    ghost var m, q, was := MomentOf(k), k.Remaining(i), Counters(k.ring);
    BeforeSchedule(k, m, q, was);
    ghost var resets := k.Schedule(i);
    AfterSchedule(k, m, q, was, resets);
  }

  /** What schedule does not change of a moment. */
  ghost predicate SlicesMatch(ring: seq<Task>, m: Moment)
    reads ring`priority
  {
    && (forall t | t in ring :: t in m.share && m.share[t] == Slice(t.priority) > 0)
    && forall t | t in m.share :: t in ring
  }

  ghost predicate SameTables(k: Kernel, m: Moment)
    reads k`ring, k.gTask, k.alloc, k.alloc.memMap
  {
    && m.init == k.initTask && m.base == k.alloc.start && m.table == k.gTask[..] && m.flags == k.alloc.memMap[..]
    && m.ring == k.ring
  }

  ghost predicate WasCounters(m: Moment, was: seq<int>) {
    && |was| == |m.ring| && (forall i | 0 <= i < |was| :: was[i] >= 0)
    && (forall i | 0 <= i < |was| :: m.ring[i] in m.left && m.left[m.ring[i]] == was[i])
    && forall t | t in m.left :: t in m.ring
  }

  lemma BeforeSchedule(k: Kernel, m: Moment, q: seq<Task>, was: seq<int>)
    requires m == MomentOf(k) && was == Counters(k.ring) && Fair(k.ring) && q != [] && forall t | t in q :: t in k.ring
    ensures SlicesMatch(k.ring, m) && SameTables(k, m) && WasCounters(m, was)
    ensures Out(m, q) <==> k.Best(q).counter == 0
  {
    hide MomentOf, FirstMax, Lefts;
    MomentParts(k, m);
    QueueLefts(k, m.left, q);
    assert forall i | 0 <= i < |k.ring| :: k.ring[i] in k.ring;
  }

  lemma AfterSchedule(k: Kernel, m: Moment, q: seq<Task>, was: seq<int>, resets: nat)
    requires k.Valid() && SlicesMatch(k.ring, m) && SameTables(k, m) && WasCounters(m, was) && k.Priced(was, resets)
    requires q != [] && k.queue == q && k.current == k.Best(q) && resets == if Out(m, q) then 1 else 0
    ensures MomentOf(k) == Scheduled(m, q) && Fair(k.ring) && k.current in k.queue
  {
    hide Kernel.Tasks, Kernel.Queued, MomentOf, Out, Kernel.Best, Scheduled;
    k.InRing();
    k.BestQueued();
    FairAfter(k, was, resets);
    ScheduledMoment(k, m, q, was, resets);
  }

  /** schedule, once the run queue without a sleeping current task holds exactly the ready tasks. */
  method Reschedule(k: Kernel, ghost i: nat)
    requires k.Valid() && Fair(k.ring) && (k.current.state != 0 ==> i < |k.queue| && k.queue[i] == k.current)
    requires Ready(k.ring, k.Remaining(i), k.initTask) && Calm(k.ring, k.current) && k.initTask in k.ring
    requires k.Remaining(i) != [] && k.Pickable(k.Remaining(i))
    requires forall t | t in k.Remaining(i) :: t in k.ring
    modifies k`current, k`nrSwitches, k`nrRunning, k`queue, k.current`needResched, k.ring`counter
    modifies k.head`next, k.head`prev, k.RunLists()`next, k.RunLists()`prev
    ensures Settled(k) && MomentOf(k) == old(Scheduled(MomentOf(k), k.Remaining(i))) && k.ring == old(k.ring)
    ensures k.queue == old(k.Remaining(i)) && k.queue != [] && k.current == k.Best(k.queue)
    ensures forall t | t in k.ring :: t.needResched == 0
  {
    hide Kernel.Valid, Removed, MomentOf, Fair, Ready, Kernel.Pickable, Kernel.Best, Scheduled, Settled, Calm;
    ghost var prev := k.current;
    CalmOthers(k);
    Schedule(k, i);
    AllCalm(k, prev);
    IsSettled(k);
  }

  lemma CalmOthers(k: Kernel)
    requires Calm(k.ring, k.current)
    ensures forall t | t in k.ring && t != k.current :: t.needResched == 0
  {
  }

  lemma AllCalm(k: Kernel, prev: Task)
    requires prev.needResched == 0 && forall t | t in k.ring && t != prev :: t.needResched == 0
    ensures Calm(k.ring, k.current)
  {
  }

  lemma IsSettled(k: Kernel)
    requires k.Valid() && Fair(k.ring) && Ready(k.ring, k.queue, k.initTask) && Calm(k.ring, k.current)
    requires k.current == k.initTask || k.current in k.queue
    ensures Settled(k)
  {
  }

  lemma FairAfter(k: Kernel, was: seq<int>, resets: nat)
    requires k.Priced(was, resets) && forall i | 0 <= i < |was| :: was[i] >= 0
    requires forall t | t in k.ring :: Slice(t.priority) > 0
    ensures Fair(k.ring)
  {
    forall t | t in k.ring ensures t.counter >= 0 {
      var i :| 0 <= i < |k.ring| && k.ring[i] == t;
    }
  }

  /** schedule called by a task that goes on running; the queue must not be empty. */
  method DoYield(k: Kernel, ghost p: Task)
    requires Settled(k) && k.nrRunning > 0
    modifies k`current, k`nrSwitches, k`nrRunning, k`queue, k.current`needResched, k.ring`counter
    modifies k.head`next, k.head`prev, k.RunLists()`next, k.RunLists()`prev
    ensures Settled(k) && MomentOf(k) == Apply(old(MomentOf(k)), Yield, p) && k.ring == old(k.ring)
    ensures k.queue == old(k.queue) != [] && k.current == k.Best(k.queue)
    ensures forall t | t in k.ring :: t.needResched == 0
  {
    hide Kernel.Valid, Kernel.Pickable, Fair, Ready, Calm, Settled, Scheduled;
    Parts(k);
    FairPickable(k, k.queue);
    Reschedule(k, 0);
  }

  lemma {:induction false} WithoutRemoved(q: seq<Task>, i: nat)
    requires i < |q| && Distinct(q)
    ensures Removed(q, i) == Without(q, q[i])
  {
    if i > 0 {
      TailDistinct(q);
      WithoutRemoved(q[1..], i - 1);
      assert Removed(q, i) == [q[0]] + Removed(q[1..], i - 1);
    } else {
      assert Removed(q, i) == q[1..];
    }
  }

  /** The current task is marked as sleeping; schedule will take it off the queue. */
  method FallAsleep(k: Kernel, ghost i: nat)
    requires Settled(k) && k.current != k.initTask && i < |k.queue| && k.queue[i] == k.current
    modifies k.current`state
    ensures k.Valid() && Fair(k.ring) && k.current.state != 0 && Calm(k.ring, k.current)
    ensures Ready(k.ring, Removed(k.queue, i), k.initTask) && MomentOf(k) == old(MomentOf(k))
    ensures Removed(k.queue, i) == Without(k.queue, k.current)
    ensures forall t | t in Removed(k.queue, i) :: t in k.queue && t != k.current
  {
    hide Kernel.Tasks, Kernel.Queued, Removed, MomentOf, Fair, Calm;
    k.QueueDistinct();
    WithoutRemoved(k.queue, i);
    WithoutMembers(k.queue, k.current);
    k.current.state := 1;
  }

  /** The current task goes to sleep and calls schedule; another task must be queued. */
  method DoSleep(k: Kernel, ghost p: Task)
    requires Settled(k) && k.current != k.initTask && k.nrRunning > 1
    modifies k`current, k`nrSwitches, k`nrRunning, k`queue, k.current`needResched, k.current`state, k.ring`counter
    modifies k.head`next, k.head`prev, k.RunLists()`next, k.RunLists()`prev
    ensures Settled(k) && MomentOf(k) == Apply(old(MomentOf(k)), Sleep, p) && k.ring == old(k.ring)
    ensures old(k.current) !in k.queue && k.queue != [] && k.current == k.Best(k.queue)
  {
    hide Kernel.Valid, Kernel.Pickable, Kernel.Best, Removed, Ready, Fair, Calm, Settled, Scheduled, Without, MomentOf,
      Apply;
    Parts(k);
    ghost var i := QueueIndex(k);
    ghost var m := MomentOf(k);
    MomentParts(k, m);
    FallAsleep(k, i);
    ghost var q := Removed(k.queue, i);
    FairPickable(k, q);
    Reschedule(k, i);
    Slept(m, q, p);
  }

  lemma Slept(m: Moment, q: seq<Task>, p: Task)
    requires CanSleep(m) && q == Without(m.queue, m.current) && q != []
    ensures Apply(m, Sleep, p) == Scheduled(m, q)
  {
    hide Scheduled;
  }

  /** wake_up_process of a sleeping task. */
  method DoWake(k: Kernel, pid: nat, t: Task, ghost p: Task)
    requires Settled(k) && pid < k.gTask.Length && k.gTask[pid] == t && t.state != 0
    modifies t`state, k`nrRunning, k`queue, k.head`next, k.head`prev, k.RunLists()`next, k.RunLists()`prev
    ensures Settled(k) && MomentOf(k) == Apply(old(MomentOf(k)), Wake(pid), p) && k.ring == old(k.ring)
  {
    hide Kernel.Valid, MomentOf, Fair, Calm, Settled, Asleep, CountersOf, SlicesOf, Apply;
    Parts(k);
    TableEntry(k, pid);
    ghost var m := MomentOf(k);
    k.WakeUpProcess(t);
    IsSettled(k);
    Woken(k, m, pid, p);
  }

  lemma Woken(k: Kernel, m: Moment, pid: nat, p: Task)
    requires SameTables(k, m) && k.current == m.current && m.left == CountersOf(k.ring) && m.share == SlicesOf(k.ring)
    requires pid < |m.table| && Asleep(m, m.table[pid]) && k.queue == [m.table[pid]] + m.queue
    ensures MomentOf(k) == Apply(m, Wake(pid), p)
  {
    hide CountersOf, SlicesOf;
  }

  /** A task of the table is in the ring, and it is asleep in the machine exactly when it is not ready. */
  lemma TableEntry(k: Kernel, pid: nat)
    requires Settled(k) && pid < k.gTask.Length && k.gTask[pid] != null
    ensures k.gTask[pid] in k.ring && MomentOf(k).table[pid] == k.gTask[pid]
    ensures k.gTask[pid].state != 0 ==> k.gTask[pid] !in k.queue && k.gTask[pid] != k.initTask
    ensures SameTables(k, MomentOf(k)) && MomentOf(k).queue == k.queue && MomentOf(k).current == k.current
    ensures MomentOf(k).left == CountersOf(k.ring) && MomentOf(k).share == SlicesOf(k.ring)
    ensures k.gTask[pid].state != 0 <==> Asleep(MomentOf(k), k.gTask[pid])
  {
    assert k.gTask[..][pid] in k.ring;
  }

  // ----- fork

  /** The two ways of writing the old state down agree. */
  ghost predicate Agree(was: Shot, m: Moment) {
    && was.gTask == m.table && was.ring == m.ring && was.queue == m.queue && was.current == m.current
    && WasCounters(m, was.counters)
  }

  lemma BeforeFork(k: Kernel, was: Shot, m: Moment)
    requires Settled(k) && was == k.Now() && m == MomentOf(k)
    ensures Agree(was, m) && SlicesMatch(k.ring, m) && k.gTask.Length == NR_TASK
    ensures CanFork(m) <==> !(PageAlloc.Returned(k.alloc.start, k.alloc.memMap[..]) == 0
                              || forall i | 0 <= i < NR_TASK :: k.gTask[i] != null)
  {
    hide Kernel.Valid, MomentOf, PageAlloc.Returned;
    Parts(k);
    MomentParts(k, m);
    assert forall i | 0 <= i < |k.ring| :: k.ring[i] in k.ring;
    assert FirstNull(m.table) < |m.table| ==> k.gTask[FirstNull(m.table)] == null;
  }

  lemma FirstNullUnique(table: seq<Task?>, pid: nat)
    requires pid < |table| && table[pid] == null && forall i | 0 <= i < pid :: table[i] != null
    ensures FirstNull(table) == pid
  {
  }

  /** The counters after a fork are those of the machine. */
  lemma ChildCounters(k: Kernel, was: Shot, m: Moment, p: Task, pid: int)
    requires k.Forked(was, p, pid) && Agree(was, m) && p !in was.ring
    ensures forall t | t in k.ring && t != p ::
              t in m.left && t.counter == if t == k.current then m.left[t] / 2 else m.left[t]
    ensures m.current in m.left && p.counter == (m.left[m.current] + 1) / 2
    ensures forall t | t in k.ring :: t.counter >= 0
  {
    hide FirstNull;
    var j :| 0 <= j < |was.ring| && was.ring[j] == k.current;
    assert k.ring[j] == k.current;
    forall t | t in k.ring && t != p
      ensures t in m.left && t.counter == if t == k.current then m.left[t] / 2 else m.left[t]
    {
      var i :| 0 <= i < |k.ring| && k.ring[i] == t;
    }
  }

  lemma Child(k: Kernel, was: Shot, m: Moment, p: Task, pid: int)
    requires k.Forked(was, p, pid) && Agree(was, m) && p !in was.ring && SlicesMatch(was.ring, m) && CanFork(m)
    requires k.initTask == m.init && k.alloc.start == m.base && k.alloc.memMap[..] == FlagsAfter(m)
    ensures MomentOf(k) == Apply(m, Fork, p)
  {
    hide FirstNull, PageAlloc.Returned, PageAlloc.Step, MomentOf, CanFork;
    ChildCounters(k, was, m, p, pid);
    FirstNullUnique(m.table, pid);
    IsMoment(k, Forking(m, p));
  }

  lemma ChildSettles(k: Kernel, was: Shot, p: Task, pid: int)
    requires k.Valid() && k.Forked(was, p, pid) && p != k.initTask && p !in was.ring
    requires forall t | t in k.ring :: t.counter >= 0
    requires forall t | t in was.ring :: t.priority > -DEF_COUNTER
    requires Ready(was.ring, was.queue, k.initTask) && (was.current == k.initTask || was.current in was.queue)
    requires Calm(was.ring, was.current)
    ensures Settled(k) && forall t | t in k.ring :: t in was.ring || t == p
  {
    hide Kernel.Valid;
  }

  lemma NoChild(k: Kernel, was: Shot, m: Moment, p: Task)
    requires k.Now() == was && Agree(was, m) && SlicesMatch(k.ring, m) && !CanFork(m)
    requires k.initTask == m.init && k.alloc.start == m.base && k.alloc.memMap[..] == FlagsAfter(m)
    ensures MomentOf(k) == Apply(m, Fork, p) && Fair(k.ring)
  {
    hide PageAlloc.Returned, PageAlloc.Step, MomentOf, CanFork;
    forall t | t in k.ring ensures t in m.left && m.left[t] == t.counter >= 0 {
      var i :| 0 <= i < |k.ring| && k.ring[i] == t;
      assert was.counters[i] == t.counter;
    }
    IsMoment(k, m.(flags := FlagsAfter(m)));
  }

  method DoFork(k: Kernel) returns (ghost p: Task)
    requires Settled(k)
    modifies k`nrRunning, k`queue, k`ring, k`totalForks, k.gTask, k.alloc.memMap, k.current`counter
    modifies k.head`next, k.head`prev, k.RunLists()`next, k.RunLists()`prev, k.ring`nextTask, k.ring`prevTask
    ensures Settled(k) && MomentOf(k) == Apply(old(MomentOf(k)), Fork, p) && NewAt(old(MomentOf(k)), p)
    ensures forall t | t in k.ring :: t in old(k.ring) || (fresh(t) && fresh(t.runList))
  {
    hide Kernel.Valid, Kernel.Left, Kernel.Forked, MomentOf, Settled, Agree, Calm, Ready, SlicesMatch, CanFork, Apply,
      PageAlloc.Returned, PageAlloc.Step;
    Parts(k);
    ghost var was, m := k.Now(), MomentOf(k);
    BeforeFork(k, was, m);
    MomentBase(k, m);
    var r := k.DoFork();
    p := k.initTask;
    if r != -1 {
      p := k.gTask[r];
      Child(k, was, m, p, r);
      ChildCounters(k, was, m, p, r);
      ChildSettles(k, was, p, r);
    } else {
      NoChild(k, was, m, p);
      IsSettled(k);
    }
  }

  lemma MomentBase(k: Kernel, m: Moment)
    requires m == MomentOf(k)
    ensures k.initTask == m.init && k.alloc.start == m.base && m.ring == k.ring && m.flags == k.alloc.memMap[..]
  {
  }

  // ----- runs

  /** An operation that cannot be done at this point does nothing in the machine either. */
  lemma Skipped(k: Kernel, op: Op, p: Task)
    requires Settled(k)
    ensures op == Yield && k.nrRunning == 0 ==> Apply(MomentOf(k), op, p) == MomentOf(k)
    ensures op == Sleep && (k.current == k.initTask || k.nrRunning <= 1) ==> Apply(MomentOf(k), op, p) == MomentOf(k)
    ensures op.Wake? && (op.pid >= k.gTask.Length || k.gTask[op.pid] == null) ==>
              Apply(MomentOf(k), op, p) == MomentOf(k)
  {
    hide Kernel.Valid;
    Parts(k);
  }

  lemma SkippedWake(k: Kernel, pid: nat, p: Task)
    requires Settled(k) && pid < k.gTask.Length && k.gTask[pid] != null && k.gTask[pid].state == 0
    ensures Apply(MomentOf(k), Wake(pid), p) == MomentOf(k)
  {
    hide Settled, MomentOf;
    TableEntry(k, pid);
  }

  /** One operation of the kernel does to its state what the machine does. */
  method Do(k: Kernel, op: Op) returns (ghost p: Task)
    requires Settled(k)
    modifies k, k.gTask, k.alloc.memMap, k.head, k.RunLists(), set t | t in k.ring
    ensures Settled(k) && MomentOf(k) == Apply(old(MomentOf(k)), op, p)
    ensures op == Fork ==> NewAt(old(MomentOf(k)), p)
    ensures forall t | t in k.ring :: t in old(k.ring) || fresh(t)
    ensures forall n | n in k.RunLists() :: n in old(k.RunLists()) || fresh(n)
  {
    hide Settled, MomentOf, Apply, NewAt;
    Parts(k);
    p := k.initTask;
    Skipped(k, op, p);
    match op {
      case Fork => p := DoFork(k);
      case Tick => DoTick(k, p);
      case Yield =>
        if k.nrRunning > 0 {
          DoYield(k, p);
        }
      case Sleep =>
        if k.current != k.initTask && k.nrRunning > 1 {
          DoSleep(k, p);
        }
      case Wake(pid) =>
        if pid < k.gTask.Length {
          var t := k.gTask[pid];
          if t != null {
            WakeOne(k, pid, t, p);
          }
        }
    }
  }

  method WakeOne(k: Kernel, pid: nat, t: Task, ghost p: Task)
    requires Settled(k) && pid < k.gTask.Length && k.gTask[pid] == t
    modifies t`state, k`nrRunning, k`queue, k.head`next, k.head`prev, k.RunLists()`next, k.RunLists()`prev
    ensures Settled(k) && MomentOf(k) == Apply(old(MomentOf(k)), Wake(pid), p) && k.ring == old(k.ring)
  {
    hide Settled, MomentOf, Apply;
    if t.state != 0 {
      DoWake(k, pid, t, p);
    } else {
      SkippedWake(k, pid, p);
    }
  }

  lemma RunSnoc(m: Moment, ops: seq<Op>, ps: seq<Task>, p: Task)
    requires |ps| + 1 == |ops| && AllNew(m, ops[..|ps|], ps)
    requires ops[|ps|] == Fork ==> NewAt(Run(m, ops[..|ps|], ps), p)
    ensures Run(m, ops, ps + [p]) == Apply(Run(m, ops[..|ps|], ps), ops[|ps|], p) && AllNew(m, ops, ps + [p])
  {
    hide Apply, NewAt;
    var n, ps' := |ps|, ps + [p];
    assert ps'[..n] == ps;
    forall i | 0 <= i < |ops| && ops[i] == Fork ensures NewAt(Run(m, ops[..i], ps'[..i]), ps'[i]) {
      if i < n {
        assert ops[..n][..i] == ops[..i] && ps'[..i] == ps[..i] && ops[..n][i] == Fork;
      }
    }
  }

  /** Any run of operations on the kernel's objects is the machine's run from the same state: the whole
      state at the end is determined, up to which objects the new tasks are. */
  method Operate(k: Kernel, ops: seq<Op>) returns (ghost ps: seq<Task>)
    requires Settled(k)
    modifies k, k.gTask, k.alloc.memMap, k.head, k.RunLists(), set t | t in k.ring
    ensures Settled(k) && |ps| == |ops| && AllNew(old(MomentOf(k)), ops, ps)
    ensures MomentOf(k) == Run(old(MomentOf(k)), ops, ps)
    ensures forall t | t in k.ring :: t in old(k.ring) || fresh(t)
    ensures forall n | n in k.RunLists() :: n in old(k.RunLists()) || fresh(n)
  {
    hide Settled, MomentOf, Apply, Run, AllNew, NewAt;
    ps := [];
    ghost var m := MomentOf(k);
    if ops == [] {
      RunNothing(m);
      return;
    }
    var n := |ops| - 1;
    ps := Operate(k, ops[..n]);
    ghost var p := Do(k, ops[n]);
    RunSnoc(m, ops, ps, p);
    ps := ps + [p];
  }

  lemma RunNothing(m: Moment)
    ensures Run(m, [], []) == m && AllNew(m, [], [])
  {
  }

  /** Conservation on the objects: when the k-th operation of a run was the last to reset, the counters of
      all tasks at the end and the ticks charged since add up to what that reset handed out. */
  method OperateSince(k: Kernel, ops: seq<Op>, ghost j: nat) returns (ghost ps: seq<Task>)
    requires Settled(k) && j < |ops|
    modifies k, k.gTask, k.alloc.memMap, k.head, k.RunLists(), set t | t in k.ring
    ensures Settled(k) && |ps| == |ops| && AllNew(old(MomentOf(k)), ops, ps)
    ensures MomentOf(k) == Run(old(MomentOf(k)), ops, ps)
    ensures var log, at := Ledger(old(MomentOf(k)), ops, ps), Run(old(MomentOf(k)), ops[..j], ps[..j]);
            Out(at, Waiting(at, ops[j])) && (forall i | j < i < |ops| :: !log[i].Reset?) ==>
              k.Left() + Charges(log[j + 1..]) == Total(Handed(at), at.ring)
  {
    hide Settled, MomentOf, Run, AllNew, Ledger, Out, Waiting, Handed, Total, Sane;
    ghost var m := MomentOf(k);
    SettledIsSane(k);
    ps := Operate(k, ops);
    LeftIsTotal(k);
    ghost var at := Run(m, ops[..j], ps[..j]);
    if Out(at, Waiting(at, ops[j])) && forall i | j < i < |ops| :: !Ledger(m, ops, ps)[i].Reset? {
      SinceReset(m, ops, ps, j);
    }
  }

  lemma LeftIsTotal(k: Kernel)
    ensures k.Left() == Total(MomentOf(k).left, MomentOf(k).ring)
  {
    var m := MomentOf(k);
    assert forall i | 0 <= i < |k.ring| :: k.ring[i] in k.ring;
    assert Lefts(m.left, m.ring) == Counters(k.ring);
  }

  /** So from boot on, with any allocator, the kernel is always at the machine's state. */
  method FromBoot(alloc: PageAlloc.Allocator, ops: seq<Op>) returns (k: Kernel, ghost ps: seq<Task>, ghost m: Moment)
    requires alloc.Valid()
    modifies alloc.memMap
    ensures Settled(k) && |ps| == |ops| && AllNew(m, ops, ps) && MomentOf(k) == Run(m, ops, ps)
    ensures m.ring == [m.init] && m.queue == [] && m.current == m.init
    ensures m.left == map[m.init := DEF_COUNTER] && m.share == map[m.init := 20]
    ensures |m.table| == NR_TASK && m.table[0] == m.init && forall i | 0 < i < NR_TASK :: m.table[i] == null
  {
    hide Settled, Run, AllNew;
    k := Boot(alloc);
    m := MomentOf(k);
    ps := Operate(k, ops);
  }

  // ----- epochs

  /** Where an epoch of SchedRuns begins: a schedule that finds all queued tasks out of time. */
  method StartEpoch(k: Kernel) returns (ghost slices: seq<int>)
    requires Settled(k) && k.nrRunning > 0 && Out(MomentOf(k), k.queue)
    modifies k`current, k`nrSwitches, k`nrRunning, k`queue, k.current`needResched, k.ring`counter
    modifies k.head`next, k.head`prev, k.RunLists()`next, k.RunLists()`prev
    ensures slices == Slices(k.queue) != [] && k.queue == old(k.queue) && k.ring == old(k.ring)
    ensures SchedRuns.Mirrors(k, slices, SchedRuns.Fresh(slices, 0))
  {
    hide Settled, MomentOf, Out, SchedRuns.Mirrors, Kernel.Valid, Kernel.Best, Apply, Scheduled, SlicesMatch, Slices;
    ghost var m := MomentOf(k);
    BeforeEpoch(k, m);
    DoYield(k, k.initTask);
    Yielded(m, k.initTask);
    slices := Slices(k.queue);
    EpochBegins(k, m);
  }

  lemma Yielded(m: Moment, p: Task)
    requires m.queue != []
    ensures Apply(m, Yield, p) == Scheduled(m, m.queue)
  {
  }

  lemma BeforeEpoch(k: Kernel, m: Moment)
    requires Settled(k) && m == MomentOf(k)
    ensures m.queue == k.queue && m.ring == k.ring && m.init == k.initTask && SlicesMatch(k.ring, m)
    ensures |k.queue| == k.nrRunning && k.current in k.ring && forall t | t in m.ring :: t in m.left
  {
    hide MomentOf;
    MomentParts(k, m);
    Parts(k);
  }

  lemma EpochBegins(k: Kernel, m: Moment)
    requires Settled(k) && k.queue != [] && k.queue == m.queue && Out(m, m.queue) && k.initTask == m.init
    requires MomentOf(k) == Scheduled(m, m.queue) && k.current == k.Best(k.queue)
    requires SlicesMatch(k.ring, m) && k.ring == m.ring && forall t | t in m.ring :: t in m.left
    requires forall t | t in k.ring :: t.needResched == 0
    ensures SchedRuns.Mirrors(k, Slices(k.queue), SchedRuns.Fresh(Slices(k.queue), 0))
  {
    hide Kernel.Valid, Out, FirstMax, MomentOf, Scheduled, SlicesMatch;
    Parts(k);
    CountersReset(k, m);
    var q := k.queue;
    assert forall i | 0 <= i < |q| :: q[i] in q;
  }

  lemma CountersReset(k: Kernel, m: Moment)
    requires k.queue != [] && MomentOf(k) == Scheduled(m, k.queue) && Out(m, k.queue) && k.initTask == m.init
    requires SlicesMatch(k.ring, m) && k.ring == m.ring && forall t | t in m.ring :: t in m.left
    requires forall t | t in k.queue :: t in k.ring && t != k.initTask
    ensures Counters(k.queue) == Slices(k.queue)
    ensures forall i | 0 <= i < |k.queue| :: Slice(k.queue[i].priority) > 0
  {
    hide Out, FirstMax;
    var q := k.queue;
    forall i | 0 <= i < |q| ensures q[i].counter == Slice(q[i].priority) > 0 {
      assert q[i] in q;
      assert MomentOf(k).left[q[i]] == q[i].counter;
    }
    assert Counters(q) == Slices(q);
  }

  /** And from there the objects follow that epoch machine, tick by tick. */
  method ServeEpochs(k: Kernel, events: seq<SchedRuns.Event>) returns (ghost slices: seq<int>)
    requires Settled(k) && k.nrRunning > 0 && Out(MomentOf(k), k.queue)
    modifies k`current, k`nrSwitches, k`nrRunning, k`queue, k.ring`counter, k.ring`needResched
    modifies k.head`next, k.head`prev, k.RunLists()`next, k.RunLists()`prev
    ensures slices == old(Slices(k.queue)) != [] && k.queue == old(k.queue)
    ensures SchedRuns.Mirrors(k, slices, SchedRuns.Run(slices, events))
  {
    hide Settled, MomentOf, Out, SchedRuns.Mirrors, Kernel.Valid, Slices;
    BeforeEpoch(k, MomentOf(k));
    slices := StartEpoch(k);
    SchedRuns.Serve(k, events, slices);
  }
}
