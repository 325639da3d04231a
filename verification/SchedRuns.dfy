/** Whole runs of the scheduler on a fixed run queue: time slices over epochs. */
module SchedRuns {
  import opened List
  import opened Sched

  // ----- epochs of a fixed run queue

  /** What happens to a fixed queue: timer ticks, with need_resched served before the next event, and
      calls of schedule by the running task. */
  datatype Event = Tick | Yield

  /** Counters and index of the current task, ticks charged since the last reset, resets so far. */
  datatype Epoch = Epoch(c: seq<int>, cur: nat, got: seq<int>, resets: nat)

  function Zeros(n: nat): seq<int> { seq(n, i => 0) }

  /** The state after a reset that gave out the slices. */
  function Fresh(slices: seq<int>, resets: nat): Epoch
    requires slices != []
  {
    Epoch(slices, FirstMax(slices), Zeros(|slices|), resets)
  }

  function Pick(slices: seq<int>, s: Epoch): Epoch
    requires s.c != [] && slices != []
  {
    if s.c[FirstMax(s.c)] == 0 then Fresh(slices, s.resets + 1) else s.(cur := FirstMax(s.c))
  }

  /** The current task is charged one tick. */
  function Charge(s: Epoch): Epoch
    requires s.cur < |s.c| == |s.got|
  {
    if s.c[s.cur] > 0 then s.(c := s.c[s.cur := s.c[s.cur] - 1], got := s.got[s.cur := s.got[s.cur] + 1])
    else s.(c := s.c[s.cur := 0])
  }

  function Step(slices: seq<int>, s: Epoch, e: Event): Epoch
    requires s.cur < |s.c| == |s.got| && slices != []
  {
    match e
    case Yield => Pick(slices, s)
    case Tick => if Charge(s).c[s.cur] == 0 then Pick(slices, Charge(s)) else Charge(s)
  }

  /** Between events: every task has used part of its slice, and the current one has some left. */
  ghost predicate Running(slices: seq<int>, s: Epoch) {
    && |s.c| == |s.got| == |slices| && s.cur < |slices| && s.c[s.cur] > 0
    && forall k | 0 <= k < |slices| :: slices[k] > 0 && s.c[k] >= 0 && s.got[k] >= 0 && s.c[k] + s.got[k] == slices[k]
  }

  lemma FreshRunning(slices: seq<int>, resets: nat)
    requires slices != [] && forall k | 0 <= k < |slices| :: slices[k] > 0
    ensures Running(slices, Fresh(slices, resets)) && Sum(Fresh(slices, resets).got) == 0
  {
    SumZeros(|slices|);
  }

  lemma {:induction false} SumZeros(n: nat)
    ensures Sum(Zeros(n)) == 0
  {
    if n > 0 {
      SumZeros(n - 1);
      assert Zeros(n)[..n - 1] == Zeros(n - 1);
    }
  }

  lemma {:induction false} SumSame(a: seq<int>, b: seq<int>)
    requires |a| == |b| && forall k | 0 <= k < |a| :: a[k] <= b[k]
    ensures Sum(a) <= Sum(b)
    ensures (exists k :: 0 <= k < |a| && a[k] < b[k]) ==> Sum(a) < Sum(b)
  {
    if a != [] {
      var n := |a| - 1;
      SumSame(a[..n], b[..n]);
      if k :| 0 <= k < |a| && a[k] < b[k] {
        assert k < n ==> a[..n][k] < b[..n][k];
      }
    }
  }

  /** One event keeps the shares, counts one tick for a Tick, and resets only when every task has had
      exactly its slice. */
  lemma StepKeepsRunning(slices: seq<int>, s: Epoch, e: Event)
    requires Running(slices, s)
    ensures var s' := Step(slices, s, e);
            && Running(slices, s')
            && (s'.resets == s.resets || s'.resets == s.resets + 1)
            && (s'.resets == s.resets ==> Sum(s'.got) == Sum(s.got) + if e.Tick? then 1 else 0)
            && (s'.resets > s.resets ==>
                  e.Tick? && Charge(s).got == slices && Sum(s'.got) == 0 && Sum(slices) == Sum(s.got) + 1)
  {
    hide FirstMax, Sum;
    match e
    case Yield =>
      MaxPositive(s.c, s.cur);
    case Tick =>
      SumUpdate(s.got, s.cur, s.got[s.cur] + 1);
      var t := Charge(s);
      if t.c[s.cur] == 0 {
        AllSpent(slices, t.c, t.got);
        FreshRunning(slices, s.resets + 1);
      }
  }

  lemma MaxPositive(c: seq<int>, k: nat)
    requires k < |c| && c[k] > 0
    ensures c[FirstMax(c)] > 0
  {
  }

  lemma AllSpent(slices: seq<int>, c: seq<int>, got: seq<int>)
    requires |c| == |got| == |slices| > 0
    requires forall k | 0 <= k < |slices| :: c[k] >= 0 && c[k] + got[k] == slices[k]
    ensures if c[FirstMax(c)] == 0 then got == slices else c[FirstMax(c)] > 0
  {
  }

  function Run(slices: seq<int>, events: seq<Event>): (s: Epoch)
    requires slices != []
    ensures s.cur < |s.c| == |s.got| == |slices|
  {
    if events == [] then Fresh(slices, 0) else Step(slices, Run(slices, events[..|events| - 1]), events[|events| - 1])
  }

  function Ticks(events: seq<Event>): nat {
    if events == [] then 0 else Ticks(events[..|events| - 1]) + if events[|events| - 1].Tick? then 1 else 0
  }

  /** The ticks a task was charged in the whole run. */
  function Received(slices: seq<int>, events: seq<Event>, k: nat): int
    requires k < |slices|
  {
    var s := Run(slices, events);
    s.resets * slices[k] + s.got[k]
  }

  /** After any run from a reset: the number of further resets is the number of ticks divided by the sum
      of the slices, and the ticks since the last one are the remainder. */
  lemma {:induction false} RunCounts(slices: seq<int>, events: seq<Event>)
    requires slices != [] && forall k | 0 <= k < |slices| :: slices[k] > 0
    ensures var s := Run(slices, events);
            && Running(slices, s) && 0 <= Sum(s.got) < Sum(slices)
            && Ticks(events) == s.resets * Sum(slices) + Sum(s.got)
  {
    hide Sum, FirstMax, Step;
    if events == [] {
      FreshRunning(slices, 0);
    } else {
      var before := Run(slices, events[..|events| - 1]);
      RunCounts(slices, events[..|events| - 1]);
      StepKeepsRunning(slices, before, events[|events| - 1]);
    }
    PartSpent(slices, Run(slices, events));
  }

  lemma PartSpent(slices: seq<int>, s: Epoch)
    requires Running(slices, s)
    ensures 0 <= Sum(s.got) < Sum(slices)
  {
    assert s.got[s.cur] < slices[s.cur];
    SumSame(s.got, slices);
    SumZeros(|slices|);
    SumSame(Zeros(|slices|), s.got);
  }

  /** Bounded wait: in any further run of as many ticks as the slices add up to, a task that still has
      time left is charged all of it; in twice as many ticks every task is charged at least its slice. */
  lemma BoundedWait(slices: seq<int>, events: seq<Event>, more: seq<Event>, k: nat)
    requires k < |slices| && forall k | 0 <= k < |slices| :: slices[k] > 0
    ensures var s, n := Run(slices, events), Ticks(events + more) - Ticks(events);
            && (n >= Sum(slices) ==> Received(slices, events + more, k) >= Received(slices, events, k) + s.c[k])
            && (n >= 2 * Sum(slices) ==> Received(slices, events + more, k) >= Received(slices, events, k) + slices[k])
  {
    hide Sum, Run, Ticks;
    RunCounts(slices, events);
    RunCounts(slices, events + more);
    var s, t, total := Run(slices, events), Run(slices, events + more), Sum(slices);
    if Ticks(events + more) - Ticks(events) >= total {
      Quotients(s.resets, Sum(s.got), t.resets, Sum(t.got), total);
      MoreResets(s.resets, t.resets, slices[k]);
    }
  }

  lemma Quotients(a: int, x: int, b: int, y: int, total: int)
    requires 0 <= x < total && 0 <= y < total
    ensures b * total + y - (a * total + x) >= total ==> b >= a + 1
    ensures b * total + y - (a * total + x) >= 2 * total ==> b >= a + 2
  {
    if b <= a {
      assert b * total <= a * total;
    }
    if b <= a + 1 {
      assert b * total <= (a + 1) * total;
    }
  }

  lemma MoreResets(a: int, b: int, slice: int)
    requires slice > 0
    ensures b >= a + 1 ==> b * slice >= a * slice + slice
    ensures b >= a + 2 ==> b * slice >= a * slice + 2 * slice
  {
    if b >= a + 1 {
      assert b * slice >= (a + 1) * slice;
    }
    if b >= a + 2 {
      assert b * slice >= (a + 2) * slice;
    }
  }

  // ----- the kernel itself

  /** The kernel is in the given epoch state: the queue's counters and the current task are those of s,
      every queued task is running, and none waits to be rescheduled. */
  ghost predicate Mirrors(k: Kernel, slices: seq<int>, s: Epoch)
    reads k, k.gTask, k.alloc, k.head, k.RunLists(), k.ring, k.queue
  {
    && k.Valid() && |k.queue| == |slices| > 0 && Counters(k.queue) == s.c
    && s.cur < |slices| && k.queue[s.cur] == k.current
    && (forall i | 0 <= i < |slices| :: k.queue[i].state == 0 && k.queue[i].needResched == 0)
    && (forall i | 0 <= i < |slices| :: slices[i] == Slice(k.queue[i].priority) > 0)
  }

  /** schedule called by a running task does what Pick does. */
  method Reschedule(k: Kernel, ghost slices: seq<int>, ghost s: Epoch)
    requires k.Valid() && |k.queue| == |slices| > 0 && Counters(k.queue) == s.c
    requires s.cur < |slices| && k.queue[s.cur] == k.current
    requires forall i | 0 <= i < |slices| :: k.queue[i].state == 0 && (i != s.cur ==> k.queue[i].needResched == 0)
    requires forall i | 0 <= i < |slices| :: slices[i] == Slice(k.queue[i].priority) > 0 && s.c[i] >= 0
    modifies k`current, k`nrSwitches, k`nrRunning, k`queue, k.current`needResched, k.ring`counter
    modifies k.head`next, k.head`prev, k.RunLists()`next, k.RunLists()`prev
    ensures Mirrors(k, slices, Pick(slices, s)) && k.queue == old(k.queue) && k.ring == old(k.ring)
  {
    hide FirstMax, Counters, Kernel.Tasks, Kernel.Queued, Kernel.Priced, Mirrors, Slice;
    ghost var q, was := k.queue, Counters(k.ring);
    QueueCounters(k, was, s.c);
    EpochPickable(k, slices, s.c);
    ghost var resets := k.Schedule(0);
    QueuePriced(k, was, resets, s.c);
    Picked(k, slices, s, resets);
  }

  lemma EpochPickable(k: Kernel, slices: seq<int>, c: seq<int>)
    requires |k.queue| == |slices| > 0 && Counters(k.queue) == c && k.current.state == 0
    requires forall i | 0 <= i < |slices| :: slices[i] == Slice(k.queue[i].priority) > 0 && c[i] >= 0
    ensures k.Pickable(k.Remaining(0))
  {
    assert Slices(k.queue) == slices;
    RepeatPicks(c, slices);
  }

  lemma QueueCounters(k: Kernel, was: seq<int>, c: seq<int>)
    requires k.Valid() && was == Counters(k.ring) && c == Counters(k.queue)
    ensures k.ring != [] && forall i, j | 0 <= i < |c| && 0 <= j < |k.ring| && k.ring[j] == k.queue[i] :: c[i] == was[j]
  {
  }

  lemma Picked(k: Kernel, slices: seq<int>, s: Epoch, resets: nat)
    requires k.Valid() && |k.queue| == |slices| == |s.c| > 0 && k.current == k.Best(k.queue)
    requires resets == if s.c[FirstMax(s.c)] == 0 then 1 else 0
    requires forall i | 0 <= i < |slices| ::
               k.queue[i].counter == if resets == 0 then s.c[i] else Slice(k.queue[i].priority)
    requires forall i | 0 <= i < |slices| :: k.queue[i].state == 0 && k.queue[i].needResched == 0
    requires forall i | 0 <= i < |slices| :: slices[i] == Slice(k.queue[i].priority) > 0
    ensures Mirrors(k, slices, Pick(slices, s))
  {
    hide FirstMax, Kernel.Valid;
    assert Counters(k.queue) == Pick(slices, s).c;
  }

  lemma QueuePriced(k: Kernel, was: seq<int>, resets: nat, c: seq<int>)
    requires k.Valid() && k.Priced(was, resets) && |c| == |k.queue|
    requires forall i, j | 0 <= i < |c| && 0 <= j < |k.ring| && k.ring[j] == k.queue[i] :: c[i] == was[j]
    ensures forall i | 0 <= i < |c| :: k.queue[i].counter == if resets == 0 then c[i] else Slice(k.queue[i].priority)
  {
    forall i | 0 <= i < |c| ensures k.queue[i].counter == if resets == 0 then c[i] else Slice(k.queue[i].priority) {
      assert k.queue[i] in k.queue;
      var j :| 0 <= j < |k.ring| && k.ring[j] == k.queue[i];
    }
  }

  /** One timer tick, and schedule when it asks for it. */
  method ServeTick(k: Kernel, ghost slices: seq<int>, ghost s: Epoch)
    requires Mirrors(k, slices, s) && Running(slices, s)
    modifies k`current, k`nrSwitches, k`nrRunning, k`queue, k.current`needResched, k.ring`counter
    modifies k.head`next, k.head`prev, k.RunLists()`next, k.RunLists()`prev
    ensures Mirrors(k, slices, Step(slices, s, Tick)) && k.queue == old(k.queue) && k.ring == old(k.ring)
  {
    hide Kernel.Tasks, Kernel.Queued, Kernel.Left, FirstMax, Slice, Counters;
    k.QueueDistinct();
    ghost var c := Counters(k.queue);
    CurrentQueued(k, slices, s);
    k.TickHandlePeriodic();
    Charged(k, s);
    if k.current.needResched == 1 {
      Reschedule(k, slices, Charge(s));
    }
  }

  lemma CurrentQueued(k: Kernel, slices: seq<int>, s: Epoch)
    requires Mirrors(k, slices, s)
    ensures k.current in k.queue && k.current in k.ring
  {
    assert k.queue[s.cur] in k.queue;
  }

  lemma Charged(k: Kernel, s: Epoch)
    requires s.cur < |s.c| == |s.got| == |k.queue| && k.queue[s.cur] == k.current
    requires forall i, j | 0 <= i < j < |k.queue| :: k.queue[i] != k.queue[j]
    requires forall i | 0 <= i < |s.c| && k.queue[i] != k.current :: k.queue[i].counter == s.c[i]
    requires s.c[s.cur] > 0 && k.current.counter == s.c[s.cur] - 1
    ensures Counters(k.queue) == Charge(s).c
  {
  }

  /** A whole run of the kernel with a fixed queue, from right after a reset, follows Run. */
  method Serve(k: Kernel, events: seq<Event>, ghost slices: seq<int>)
    requires slices != [] && Mirrors(k, slices, Fresh(slices, 0))
    modifies k`current, k`nrSwitches, k`nrRunning, k`queue, k.ring`counter, k.ring`needResched
    modifies k.head`next, k.head`prev, k.RunLists()`next, k.RunLists()`prev
    ensures Mirrors(k, slices, Run(slices, events)) && k.queue == old(k.queue)
  {
    hide Mirrors, Running, Step, FirstMax, Kernel.Tasks, Kernel.Queued;
    var i := 0;
    AllPositive(k, slices);
    assert events[..0] == [];
    while i < |events|
      invariant 0 <= i <= |events| && k.queue == old(k.queue) && k.ring == old(k.ring)
      invariant Mirrors(k, slices, Run(slices, events[..i]))
    {
      ghost var s := Run(slices, events[..i]);
      assert events[..i + 1][..i] == events[..i];
      RunCounts(slices, events[..i]);
      CurrentQueued(k, slices, s);
      match events[i] {
        case Tick => ServeTick(k, slices, s);
        case Yield => ServeYield(k, slices, s);
      }
      i := i + 1;
    }
    assert events[..|events|] == events;
  }

  method ServeYield(k: Kernel, ghost slices: seq<int>, ghost s: Epoch)
    requires Mirrors(k, slices, s) && Running(slices, s)
    modifies k`current, k`nrSwitches, k`nrRunning, k`queue, k.current`needResched, k.ring`counter
    modifies k.head`next, k.head`prev, k.RunLists()`next, k.RunLists()`prev
    ensures Mirrors(k, slices, Step(slices, s, Yield)) && k.queue == old(k.queue) && k.ring == old(k.ring)
  {
    Reschedule(k, slices, s);
  }

  lemma AllPositive(k: Kernel, slices: seq<int>)
    requires slices != [] && Mirrors(k, slices, Fresh(slices, 0))
    ensures forall i | 0 <= i < |slices| :: slices[i] > 0
  {
  }
}
