/** Tasks, the run queue and fork: sched.h, sched_simple.c, sched.c and fork.c. */
module Sched {
  import opened List
  import PageAlloc

  const NR_TASK: nat := 128
  const DEF_COUNTER: int := 10

  type Node = ListHead<Task?>

  /** struct task_struct, as far as scheduling goes. */
  class Task {
    const runList: Node
    var state: int
    var pid: int
    var counter: int
    var priority: int
    var needResched: int
    var nextTask: Task?
    var prevTask: Task?

    constructor ()
      ensures fresh(runList) && runList.entry == this
      ensures state == 0 && pid == 0 && counter == 0 && priority == 0 && needResched == 0
    {
      runList := new ListHead<Task?>(null);
      state, pid, counter, priority, needResched := 0, 0, 0, 0, 0;
      nextTask, prevTask := null, null;
      new;
      runList.entry := this;
    }
  }

  /** The PCB ring in this order. */
  ghost predicate TaskRing(s: seq<Task>)
    reads s`nextTask, s`prevTask
  {
    && s != [] && (forall i, j | 0 <= i < j < |s| :: s[i] != s[j])
    && (forall i | 0 <= i < |s| :: s[i].nextTask == s[After(i, |s|)])
    && (forall i | 0 <= i < |s| :: s[After(i, |s|)].prevTask == s[i])
  }

  /** The nodes of the run queue, its head first. */
  ghost function Nodes(head: Node, q: seq<Task>): (r: seq<Node>)
    ensures |r| == |q| + 1 && r[0] == head && forall i | 1 <= i <= |q| :: r[i] == q[i - 1].runList
  {
    [head] + seq(|q|, i requires 0 <= i < |q| => q[i].runList)
  }

  ghost function Counters(q: seq<Task>): (r: seq<int>)
    reads q
    ensures |r| == |q| && forall i | 0 <= i < |q| :: r[i] == q[i].counter
  {
    seq(|q|, i requires 0 <= i < |q| reads q => q[i].counter)
  }

  /** The first index of the largest counter. */
  function FirstMax(c: seq<int>): (k: nat)
    requires c != []
    ensures k < |c| && (forall j | 0 <= j < |c| :: c[j] <= c[k]) && forall j | 0 <= j < k :: c[j] < c[k]
  {
    var n := |c| - 1;
    if n == 0 then 0
    else
      var k := FirstMax(c[..n]);
      assert forall j | 0 <= j < n :: c[..n][j] == c[j];
      if c[n] > c[k] then n else k
  }

  lemma FirstMaxUnique(c: seq<int>, k: nat)
    requires k < |c| && (forall j | 0 <= j < |c| :: c[j] <= c[k]) && forall j | 0 <= j < k :: c[j] < c[k]
    ensures k == FirstMax(c)
  {
  }

  /** What the counters of a reset queue are. */
  ghost function Slices(q: seq<Task>): (r: seq<int>)
    reads q`priority
    ensures |r| == |q| && forall i | 0 <= i < |q| :: r[i] == Slice(q[i].priority)
  {
    if q == [] then [] else Slices(q[..|q| - 1]) + [Slice(q[|q| - 1].priority)]
  }

  /** What one scan of the queue finds: the task to run, no task at all (then the code goes on with an
      unset pointer), or that all time is spent and the loop must repeat after a reset. */
  datatype Scan = Picks(k: nat) | NoTask | Spent

  function ScanOf(c: seq<int>): Scan {
    if c == [] || c[FirstMax(c)] <= -1000 then NoTask
    else if c[FirstMax(c)] == 0 then Spent
    else Picks(FirstMax(c))
  }

  /** The last of at most n + 1 scans of the repeat loop, for a queue with counters c that a reset turns
      into slices. */
  function Repeat(c: seq<int>, slices: seq<int>, n: nat): Scan
    decreases n
  {
    if n == 0 || ScanOf(c) != Spent then ScanOf(c) else Repeat(slices, slices, n - 1)
  }

  /** The repeat loop ends within two scans or never. It ends if and only if the largest counter is not
      0 or the largest slice is not 0. */
  lemma {:induction false} RepeatEndsIff(c: seq<int>, slices: seq<int>)
    ensures (exists n: nat :: Repeat(c, slices, n) != Spent) <==> ScanOf(c) != Spent || ScanOf(slices) != Spent
    ensures forall n: nat | n >= 1 :: Repeat(c, slices, n) == Repeat(c, slices, 1)
  {
    forall n: nat | n >= 1 ensures Repeat(c, slices, n) == Repeat(c, slices, 1) {
      RepeatSame(slices, n - 1);
    }
    assert Repeat(c, slices, 0) == ScanOf(c);
    assert Repeat(c, slices, 1) == if ScanOf(c) != Spent then ScanOf(c) else ScanOf(slices);
  }

  /** With no counter negative and all slices positive, two scans suffice. */
  lemma RepeatPicks(c: seq<int>, slices: seq<int>)
    requires |c| == |slices| > 0 && forall i | 0 <= i < |c| :: c[i] >= 0 && slices[i] > 0
    ensures Repeat(c, slices, 1).Picks?
  {
    assert c[0] <= c[FirstMax(c)] && slices[0] <= slices[FirstMax(slices)];
  }

  lemma {:induction false} RepeatSame(slices: seq<int>, n: nat)
    ensures Repeat(slices, slices, n) == ScanOf(slices)
  {
    if n > 0 {
      RepeatSame(slices, n - 1);
    }
  }

  /** The ring holds exactly the tasks of the table, each at the index that is its pid. */
  ghost predicate Pids(ring: seq<Task>, g: seq<Task?>)
    reads ring`pid
  {
    && (forall t | t in ring :: 0 <= t.pid < |g| && g[t.pid] == t)
    && (forall i | 0 <= i < |g| && g[i] != null :: g[i] in ring && g[i].pid == i)
  }

  lemma PidsAdd(ring: seq<Task>, g: seq<Task?>, p: Task)
    requires Pids(ring, g) && 0 <= p.pid < |g| && g[p.pid] == null
    ensures Pids(ring + [p], g[p.pid := p])
  {
  }

  /** A task's share of an epoch. */
  function Slice(priority: int): (ticks: int)
    ensures ticks == 10 + priority
  {
    DEF_COUNTER + priority
  }

  function Sum(s: seq<int>): int {
    if s == [] then 0 else Sum(s[..|s| - 1]) + s[|s| - 1]
  }

  lemma {:induction false} SumUpdate(s: seq<int>, k: nat, v: int)
    requires k < |s|
    ensures Sum(s[k := v]) == Sum(s) - s[k] + v
  {
    var n := |s| - 1;
    if k < n {
      SumUpdate(s[..n], k, v);
      assert s[k := v][..n] == s[..n][k := v];
    } else {
      assert s[k := v][..n] == s[..n];
    }
  }

  /** Splitting one of the counters for a new task keeps the sum. */
  lemma SumSplit(s: seq<int>, k: nat)
    requires k < |s|
    ensures Sum(s[k := s[k] / 2] + [(s[k] + 1) / 2]) == Sum(s)
  {
    SumUpdate(s, k, s[k] / 2);
    var t := s[k := s[k] / 2];
    assert (t + [(s[k] + 1) / 2])[..|s|] == t;
  }

  /** The global scheduler state: the run queue, the PCB ring with init_task, g_task, the current task and
      the page allocator. */
  class Kernel {
    const head: Node
    const initTask: Task
    const gTask: array<Task?>
    const alloc: PageAlloc.Allocator
    var nrRunning: nat
    var totalForks: nat
    var nrSwitches: nat
    var current: Task
    ghost var queue: seq<Task>
    ghost var ring: seq<Task>

    /** INIT_TASK, the static g_task and sched_init. */
    constructor (alloc: PageAlloc.Allocator)
      requires alloc.Valid()
      ensures Valid() && queue == [] && ring == [initTask] && current == initTask && this.alloc == alloc
      ensures gTask.Length == 128 && totalForks == 0 && nrSwitches == 0
      ensures initTask.counter == DEF_COUNTER && initTask.priority == 10 && initTask.pid == 0
      ensures initTask.state == 0 && initTask.needResched == 0 && gTask[0] == initTask
      ensures forall i | 0 < i < 128 :: gTask[i] == null
      ensures fresh(head) && fresh(initTask) && fresh(gTask) && fresh(RunLists())
    {
      hide Valid, Tasks, Queued, Ring, Nodes;
      var task := new Task();
      initTask, current := task, task;
      head := new ListHead<Task?>(null);
      gTask := new Task?[NR_TASK](_ => null);
      this.alloc := alloc;
      nrRunning, totalForks, nrSwitches := 0, 0, 0;
      queue, ring := [], [task];
      new;
      task.priority, task.counter := 10, DEF_COUNTER;
      task.nextTask, task.prevTask := task, task;
      gTask[0] := task;
      InitListHead(head);
      AtBoot();
    }

    lemma AtBoot()
      requires gTask.Length == NR_TASK && alloc.Valid() && ring == [initTask] && current == initTask
      requires initTask.nextTask == initTask && initTask.prevTask == initTask && initTask.pid == 0
      requires head.entry == null && initTask.runList.entry == initTask
      requires gTask[0] == initTask && forall i | 0 < i < NR_TASK :: gTask[i] == null
      requires Ring([head]) && queue == [] && nrRunning == 0
      ensures Valid()
    {
      assert Nodes(head, queue) == [head];
    }

    ghost function RunLists(): set<Node>
      reads this`ring
    {
      set t | t in ring :: t.runList
    }

    /** The PCB ring holds exactly the tasks of g_task, each at the index that is its pid. */
    ghost predicate Tasks()
      reads this`ring, this`current, gTask, alloc, head`entry, RunLists()`entry
      reads ring`nextTask, ring`prevTask, ring`pid
    {
      var all :=
      && gTask.Length == NR_TASK && alloc.Valid()
      && TaskRing(ring) && ring[0] == initTask && current in ring
      && head.entry == null && (forall t | t in ring :: t.runList.entry == t)
      && Pids(ring, gTask[..]);
      all
    }

    /** The run queue, with nr_running its length. */
    ghost predicate Queued()
      reads this`queue, this`nrRunning, head, set t | t in queue :: t.runList
    {
      Ring(Nodes(head, queue)) && nrRunning == |queue|
    }

    /** What every operation keeps. Only tasks of the PCB ring are queued, and init_task is not. */
    ghost predicate Valid()
      reads this, gTask, alloc, head, RunLists(), ring`nextTask, ring`prevTask, ring`pid
    {
      Tasks() && (forall t | t in queue :: t in ring && t != initTask) && Queued()
    }

    /** enqueue_task_simple. */
    method EnqueueTask(p: Task)
      requires Valid() && p in ring && p !in queue && p != initTask
      modifies this`nrRunning, this`queue, head`next, head`prev, RunLists()`next, RunLists()`prev
      ensures Valid() && queue == [p] + old(queue)
    {
      hide Ring, Nodes, Tasks;
      NotLinked(p);
      ListAdd(p.runList, head, Nodes(head, queue));
      NodesAdd(head, queue, p);
      nrRunning := nrRunning + 1;
      queue := [p] + queue;
    }

    lemma NotLinked(p: Task)
      requires Valid() && p in ring && p !in queue
      ensures p.runList !in Nodes(head, queue)
    {
      forall i | 0 <= i <= |queue| ensures Nodes(head, queue)[i] != p.runList {
        assert i > 0 ==> queue[i - 1] in queue;
      }
    }

    lemma QueueDistinct()
      requires Valid()
      ensures forall i, j | 0 <= i < j < |queue| :: queue[i] != queue[j]
    {
      var n := Nodes(head, queue);
      forall i, j | 0 <= i < j < |queue| ensures queue[i] != queue[j] {
        assert n[i + 1] != n[j + 1];
      }
    }

    /** dequeue_task_simple. */
    method DequeueTask(p: Task, ghost k: nat)
      requires Valid() && k < |queue| && queue[k] == p
      modifies this`nrRunning, this`queue, head`next, head`prev, RunLists()`next, RunLists()`prev
      ensures Valid() && queue == Removed(old(queue), k)
      ensures p.runList.next == null && p.runList.prev == null
    {
      hide Ring, Nodes, Tasks, Removed;
      nrRunning := nrRunning - 1;
      ListDel(p.runList, Nodes(head, queue), k + 1);
      NodesRemove(head, queue, k);
      queue := Removed(queue, k);
    }

    /** next, the b-th queued task, is the first of maximal counter among the first k; or none of them is
        above -1000. */
    ghost predicate SoFar(next: Task?, c: int, b: nat, k: nat)
      reads this`queue, queue
    {
      var all :=
        k <= |queue| &&
        if next == null then c == -1000 && forall i | 0 <= i < k :: queue[i].counter <= -1000
        else b < k && next == queue[b] && c == next.counter > -1000
             && (forall i | 0 <= i < k :: queue[i].counter <= c) && forall i | 0 <= i < b :: queue[i].counter < c;
      all
    }

    lemma SoFarStep(next: Task?, c: int, b: nat, k: nat)
      requires SoFar(next, c, b, k) && k < |queue|
      ensures if queue[k].counter > c then SoFar(queue[k], queue[k].counter, k, k + 1) else SoFar(next, c, b, k + 1)
    {
    }

    lemma SoFarEnd(next: Task?, c: int, b: nat)
      requires SoFar(next, c, b, |queue|)
      ensures if ScanOf(Counters(queue)) != NoTask
              then next == Best(queue) && c == next.counter
              else next == null && c == -1000
    {
      if next != null {
        FirstMaxUnique(Counters(queue), b);
        assert Counters(queue)[b] == c;
      }
    }

    /** The list_for_each of pick_next_task_simple: the first queued task of maximal counter, or none when
        no counter is above -1000. */
    method BestTask() returns (next: Task?, c: int)
      requires Valid()
      ensures Valid()
      ensures if ScanOf(Counters(queue)) != NoTask
              then next == Best(queue) && c == next.counter
              else next == null && c == -1000
    {
      hide Tasks, Queued, FirstMax, Counters, SoFar, Nodes;
      c, next := -1000, null;
      NodeStep(0);
      var tmp := head.next;
      ghost var k, b := 0, 0;
      NoneYet();
      while tmp != head
        invariant Valid() && 0 <= k <= |queue| && tmp == Nodes(head, queue)[After(k, |queue| + 1)]
        invariant SoFar(next, c, b, k)
        decreases |queue| - k
      {
        EntryOf(k);
        var p := tmp.entry;
        SoFarStep(next, c, b, k);
        if p.counter > c {
          c, next, b := p.counter, p, k;
        }
        NodeStep(k + 1);
        tmp := tmp.next;
        k := k + 1;
      }
      if k < |queue| {
        NotHead(k);
      }
      SoFarEnd(next, c, b);
    }

    lemma NoneYet()
      ensures SoFar(null, -1000, 0, 0)
    {
    }

    lemma NodeStep(k: nat)
      requires Valid() && k <= |queue|
      ensures Nodes(head, queue)[k].next == Nodes(head, queue)[After(k, |queue| + 1)]
      ensures k == 0 ==> Nodes(head, queue)[k] == head
      ensures After(k, |queue| + 1) == if k == |queue| then 0 else k + 1
    {
    }

    lemma EntryOf(k: nat)
      requires Valid() && k <= |queue| && Nodes(head, queue)[After(k, |queue| + 1)] != head
      ensures k < |queue| && Nodes(head, queue)[After(k, |queue| + 1)].entry == queue[k]
    {
    }

    lemma NotHead(k: nat)
      requires Valid() && k < |queue|
      ensures Nodes(head, queue)[After(k, |queue| + 1)] != head
    {
      assert queue[k] in queue;
    }

    /** reset_score: every task but init_task gets a full slice. */
    method ResetScore()
      requires Valid()
      modifies ring`counter
      ensures Valid()
      ensures forall t | t in ring && t != initTask :: t.counter == 10 + t.priority
      ensures initTask.counter == old(initTask.counter)
    {
      hide Queued;
      var p := initTask.nextTask;
      ghost var k := 0;
      while p != initTask
        invariant 0 <= k < |ring| && p == ring[After(k, |ring|)]
        invariant forall i | 1 <= i <= k :: ring[i].counter == 10 + ring[i].priority
        invariant initTask.counter == old(initTask.counter)
        decreases |ring| - k
      {
        p.counter := DEF_COUNTER + p.priority;
        k := k + 1;
        p := p.nextTask;
      }
      assert k == |ring| - 1;
    }

    /** pick_next_task_simple: at most one reset, and the first queued task of maximal counter. */
    method PickNextTask() returns (next: Task, ghost resets: nat)
      requires Valid()
      requires Pickable(queue)
      modifies ring`counter
      ensures Valid()
      ensures resets == (if old(Best(queue).counter) == 0 then 1 else 0) && Priced(old(Counters(ring)), resets)
      ensures next == Best(queue) && next in ring && next.counter != 0
    {
      hide Kernel.Valid, FirstMax, Counters, ScanOf, Best, Priced, Pickable, Round;
      resets := 0;
      var best: Task?, c := null, 0;
      FirstRound();
      ghost var was, top := Counters(ring), Best(queue).counter;
      AsBefore();
      while true
        invariant Valid() && Priced(was, resets) && Round(top, resets)
        decreases 1 - resets
      {
        best, c := BestTask();
        RoundScan(top, resets);
        if c != 0 {
          break;
        }
        GiveSlices(was, top);
        resets := resets + 1;
      }
      next := best;
      BestQueued();
    }

    /** Where the repeat loop stands after so many resets, when the largest counter was top at first. */
    ghost predicate Round(top: int, resets: nat)
      reads this`queue, queue
    {
      var all := queue != [] && if resets == 0 then Pickable(queue) && Best(queue).counter == top
                                else resets == 1 && top == 0 && ScanOf(Counters(queue)).Picks?;
      all
    }

    lemma FirstRound()
      requires Pickable(queue)
      ensures queue != [] && Round(Best(queue).counter, 0)
    {
    }

    lemma RoundScan(top: int, resets: nat)
      requires Round(top, resets)
      ensures queue != [] && ScanOf(Counters(queue)) != NoTask && resets <= 1
      ensures Best(queue).counter == 0 ==> resets == 0
      ensures if resets == 0 then Best(queue).counter == top else top == 0
    {
      ScanBest();
    }

    /** One scan, in terms of the tasks. */
    lemma ScanBest()
      requires queue != []
      ensures ScanOf(Counters(queue)) == Spent <==> Best(queue).counter == 0
      ensures ScanOf(Counters(queue)) == NoTask <==> forall i | 0 <= i < |queue| :: queue[i].counter <= -1000
    {
      assert Counters(queue)[FirstMax(Counters(queue))] == Best(queue).counter;
    }

    lemma AsBefore()
      ensures Priced(Counters(ring), 0)
    {
    }

    lemma BestQueued()
      requires Valid() && queue != []
      ensures Best(queue) in queue && Best(queue) in ring
    {
    }

    /** The reset of a repeat loop that goes on. */
    method GiveSlices(ghost was: seq<int>, ghost top: int)
      requires Valid() && Priced(was, 0) && Round(top, 0) && top == 0
      modifies ring`counter
      ensures Valid() && Priced(was, 1) && Round(top, 1)
    {
      hide Kernel.Valid, Priced, Round, FirstMax, Counters, ScanOf, Slice, Slices;
      BeforeReset(was, top);
      ghost var c := initTask.counter;
      ResetScore();
      AfterReset(was, c);
    }

    lemma BeforeReset(was: seq<int>, top: int)
      requires Priced(was, 0) && Round(top, 0) && top == 0
      ensures |was| == |ring| && forall i | 0 <= i < |ring| && ring[i] == initTask :: was[i] == initTask.counter
      ensures queue != [] && ScanOf(Slices(queue)).Picks?
    {
      hide FirstMax, Counters, Slices;
      ScanBest();
    }

    lemma AfterReset(was: seq<int>, c: int)
      requires Valid() && forall t | t in ring && t != initTask :: t.counter == Slice(t.priority)
      requires |was| == |ring| && forall i | 0 <= i < |ring| && ring[i] == initTask :: was[i] == c == initTask.counter
      requires queue != [] && ScanOf(Slices(queue)).Picks?
      ensures Priced(was, 1) && Round(0, 1)
    {
      hide FirstMax;
      assert forall i | 0 <= i < |queue| :: queue[i] in queue;
      assert Counters(queue) == Slices(queue);
    }

    /** task_tick_simple. */
    method TaskTick(p: Task)
      requires Valid()
      modifies p`counter, p`needResched
      ensures Valid()
      ensures p.counter == (if old(p.counter) > 0 then old(p.counter) - 1 else 0)
      ensures p.needResched == if p.counter == 0 then 1 else old(p.needResched)
    {
      hide Tasks, Queued;
      p.counter := p.counter - 1;
      if p.counter <= 0 {
        p.counter := 0;
        p.needResched := 1;
      }
    }

    /** find_empty_task: the first free pid, or -1. */
    method FindEmptyTask() returns (pid: int)
      requires gTask.Length == NR_TASK
      ensures pid == -1 ==> forall i | 0 <= i < 128 :: gTask[i] != null
      ensures pid != -1 ==> 0 <= pid < 128 && gTask[pid] == null && forall i | 0 <= i < pid :: gTask[i] != null
    {
      var i := 0;
      while i < NR_TASK
        invariant 0 <= i <= NR_TASK && forall j | 0 <= j < i :: gTask[j] != null
      {
        if gTask[i] == null {
          return i;
        }
        i := i + 1;
      }
      return -1;
    }

    /** SET_LINKS: p joins the PCB ring right before init_task. */
    method SetLinks(p: Task)
      requires TaskRing(ring) && ring[0] == initTask && p !in ring
      modifies p`nextTask, p`prevTask, ring`nextTask, ring`prevTask
      ensures TaskRing(ring + [p])
    {
      ghost var n, s := |ring|, ring + [p];
      assert After(n - 1, n) == 0;
      p.nextTask := initTask;
      p.prevTask := initTask.prevTask;
      initTask.prevTask.nextTask := p;
      initTask.prevTask := p;
      forall i | 0 <= i <= n ensures s[i].nextTask == s[After(i, n + 1)] && s[After(i, n + 1)].prevTask == s[i] {
        if i + 1 < n {
          assert After(i, n) == i + 1;
        }
      }
    }

    lemma InRing()
      requires Tasks()
      ensures TaskRing(ring) && current in ring && initTask in ring && gTask.Length == NR_TASK && alloc.Valid()
    {
    }

    /** The new task enters g_task and the PCB ring. */
    method LinkTask(p: Task)
      requires Valid() && p !in ring && p.runList.entry == p
      requires 0 <= p.pid < NR_TASK && gTask[p.pid] == null
      modifies this`ring, gTask, p`nextTask, p`prevTask, ring`nextTask, ring`prevTask
      ensures Valid() && ring == old(ring) + [p] && gTask[..] == old(gTask[..])[p.pid := p]
    {
      hide Ring, Nodes, TaskRing, Pids;
      PidsAdd(ring, gTask[..], p);
      gTask[p.pid] := p;
      SetLinks(p);
      ring := ring + [p];
    }

    /** The child's fields, and the parent's share of the counter. */
    method FillTask(p: Task, pid: int)
      requires p != current
      modifies p`state, p`pid, p`counter, p`needResched, p`priority, current`counter
      ensures p.pid == pid && p.priority == 2 && p.state == 0 && p.needResched == 0
      ensures p.counter == (old(current.counter) + 1) / 2 && current.counter == old(current.counter) / 2
    {
      p.state := 0;
      p.pid := pid;
      p.counter := (current.counter + 1) / 2;
      current.counter := current.counter / 2;
      p.needResched := 0;
      p.priority := 2;
    }

    /** The child's part of do_fork once page and pid are there. */
    method AddTask(p: Task, pid: int)
      requires Valid() && p !in ring && p.runList !in RunLists() + {head} && p.runList.entry == p
      requires 0 <= pid < NR_TASK && gTask[pid] == null
      modifies this`nrRunning, this`queue, this`ring, gTask, current`counter, p
      modifies p.runList`next, p.runList`prev, head`next, head`prev, RunLists()`next, RunLists()`prev
      modifies ring`nextTask, ring`prevTask
      ensures Valid() && ring == old(ring) + [p] && queue == [p] + old(queue) && gTask[..] == old(gTask[..])[pid := p]
      ensures p.pid == pid && p.priority == 2 && p.state == 0 && p.needResched == 0
      ensures p.counter == (old(current.counter) + 1) / 2 && current.counter == old(current.counter) / 2
    {
      hide Tasks, Queued, Sum;
      InRing();
      FillTask(p, pid);
      LinkTask(p);
      WakeUpProcess(p);
    }

    /** wake_up_process. */
    method WakeUpProcess(p: Task)
      requires Valid() && p in ring && p !in queue && p != initTask
      modifies p`state, this`nrRunning, this`queue, head`next, head`prev, RunLists()`next, RunLists()`prev
      ensures Valid() && queue == [p] + old(queue) && p.state == 0
    {
      p.state := 0;
      EnqueueTask(p);
    }

    /** The counters left on all tasks, init_task included. */
    ghost function Left(): int
      reads this`ring, ring
    {
      Sum(Counters(ring))
    }

    /** The state that fork changes, as a value. */
    ghost function Now(): Shot
      reads this`ring, this`queue, this`current, gTask, ring
    {
      Shot(gTask[..], ring, queue, current, Counters(ring))
    }

    /** p is a new task with the first free pid; it shares its parent's counter, is the last of the PCB
        ring and the first of the run queue; all else is as it was. */
    ghost predicate Forked(was: Shot, p: Task, pid: int)
      reads this`ring, this`queue, this`current, gTask, ring, p
    {
      var all :=
        && 0 <= pid < NR_TASK == gTask.Length == |was.gTask|
        && was.gTask[pid] == null && (forall i | 0 <= i < pid :: was.gTask[i] != null)
        && gTask[..] == was.gTask[pid := p]
        && ring == was.ring + [p] && queue == [p] + was.queue && current == was.current && current in was.ring
        && |was.counters| == |was.ring| && (forall i, j | 0 <= i < j < |was.ring| :: was.ring[i] != was.ring[j])
        && p.pid == pid && p.priority == 2 && p.state == 0 && p.needResched == 0
        && (forall i | 0 <= i < |was.ring| && ring[i] != current :: ring[i].counter == was.counters[i])
        && (forall i | 0 <= i < |was.ring| && ring[i] == current ::
              ring[i].counter == was.counters[i] / 2 && p.counter == (was.counters[i] + 1) / 2);
      all
    }

    /** The counters of parent and child add up to the parent's old one. */
    lemma ForkSplits(was: Shot, p: Task, pid: int)
      requires Forked(was, p, pid)
      ensures Left() == Sum(was.counters)
    {
      var k :| 0 <= k < |was.ring| && was.ring[k] == current;
      var s := was.counters;
      SumSplit(s, k);
      forall i | 0 <= i <= |s| ensures Counters(ring)[i] == (s[k := s[k] / 2] + [(s[k] + 1) / 2])[i] {
        assert i < |s| ==> ring[i] == was.ring[i];
        assert ring[k] == was.ring[k];
      }
      assert Counters(ring) == s[k := s[k] / 2] + [(s[k] + 1) / 2];
    }

    method NewTask(pid: int) returns (p: Task)
      requires Valid() && 0 <= pid < NR_TASK && gTask[pid] == null && forall i | 0 <= i < pid :: gTask[i] != null
      modifies this`nrRunning, this`queue, this`ring, gTask, current`counter
      modifies head`next, head`prev, RunLists()`next, RunLists()`prev, ring`nextTask, ring`prevTask
      ensures Valid() && Forked(old(Now()), p, pid) && fresh(p) && fresh(p.runList)
    {
      hide Tasks, Queued, Forked;
      InRing();
      ghost var was, c := Now(), current.counter;
      NowParts(was);
      p := new Task();
      AddTask(p, pid);
      assert forall i | 0 <= i < |was.ring| && was.ring[i] != current :: was.ring[i].counter == was.counters[i];
      IsForked(was, p, pid, c);
    }

    lemma NowParts(was: Shot)
      requires Valid() && was == Now()
      ensures gTask.Length == |was.gTask| == NR_TASK && current in was.ring && |was.counters| == |was.ring|
      ensures forall i, j | 0 <= i < j < |was.ring| :: was.ring[i] != was.ring[j]
      ensures forall i | 0 <= i < |was.ring| :: was.ring[i].counter == was.counters[i]
    {
    }

    lemma IsForked(was: Shot, p: Task, pid: int, c: int)
      requires 0 <= pid < NR_TASK == gTask.Length == |was.gTask| && gTask[..] == was.gTask[pid := p]
      requires was.gTask[pid] == null && forall i | 0 <= i < pid :: was.gTask[i] != null
      requires ring == was.ring + [p] && queue == [p] + was.queue && current == was.current && current in was.ring
      requires |was.counters| == |was.ring| && forall i, j | 0 <= i < j < |was.ring| :: was.ring[i] != was.ring[j]
      requires p.pid == pid && p.priority == 2 && p.state == 0 && p.needResched == 0
      requires forall i | 0 <= i < |was.ring| && was.ring[i] == current :: was.counters[i] == c
      requires forall i | 0 <= i < |was.ring| && was.ring[i] != current :: was.ring[i].counter == was.counters[i]
      requires current.counter == c / 2 && p.counter == (c + 1) / 2
      ensures Forked(was, p, pid)
    {
    }

    method TakePage() returns (page: nat)
      requires Valid()
      modifies alloc.memMap
      ensures Valid() && Now() == old(Now())
      ensures page == old(PageAlloc.Returned(alloc.start, alloc.memMap[..]))
      ensures alloc.memMap[..]
              == PageAlloc.Step(alloc.start, PageAlloc.State(old(alloc.memMap[..]), {}), PageAlloc.Get).flags
    {
      hide PageAlloc.FirstFree;
      page := alloc.GetFreePage();
    }

    /** do_fork: -1 without a free page or a free pid; the page is not given back then. */
    method DoFork() returns (r: int)
      requires Valid()
      modifies this`nrRunning, this`queue, this`ring, this`totalForks, gTask, alloc.memMap, current`counter
      modifies head`next, head`prev, RunLists()`next, RunLists()`prev, ring`nextTask, ring`prevTask
      ensures Valid() && Left() == old(Left()) && totalForks == old(totalForks) + if r == -1 then 0 else 1
      ensures alloc.memMap[..]
              == PageAlloc.Step(alloc.start, PageAlloc.State(old(alloc.memMap[..]), {}), PageAlloc.Get).flags
      ensures r == -1 <==> old(PageAlloc.Returned(alloc.start, alloc.memMap[..]) == 0
                               || forall i | 0 <= i < 128 :: gTask[i] != null)
      ensures if r == -1 then Now() == old(Now())
              else 0 <= r < 128 && gTask[r] != null && Forked(old(Now()), gTask[r], r)
                   && fresh(gTask[r]) && fresh(gTask[r].runList)
    {
      hide Queued, Tasks, Counters, Forked, Left;
      InRing();
      var page := TakePage();
      if page == 0 {
        return -1;
      }
      var pid := FindEmptyTask();
      if pid < 0 {
        return -1;
      }
      var _ := ForkChild(pid);
      return pid;
    }

    /** do_fork once page and pid are there. */
    method ForkChild(pid: int) returns (p: Task)
      requires Valid() && 0 <= pid < NR_TASK && gTask[pid] == null && forall i | 0 <= i < pid :: gTask[i] != null
      modifies this`nrRunning, this`queue, this`ring, this`totalForks, gTask, current`counter
      modifies head`next, head`prev, RunLists()`next, RunLists()`prev, ring`nextTask, ring`prevTask
      ensures Valid() && Left() == old(Left()) && Forked(old(Now()), p, pid) && totalForks == old(totalForks) + 1
      ensures gTask.Length == NR_TASK && gTask[pid] == p && fresh(p) && fresh(p.runList)
    {
      hide Queued, Tasks, Counters, Sum, Forked;
      ghost var was := Now();
      p := NewTask(pid);
      ForkSplits(was, p, pid);
      ForkedAt(was, p, pid);
      totalForks := totalForks + 1;
    }

    lemma ForkedAt(was: Shot, p: Task, pid: int)
      requires Forked(was, p, pid)
      ensures 0 <= pid < NR_TASK == gTask.Length && gTask[pid] == p
    {
      assert gTask[..][pid] == p;
    }

    /** No reset: the counters are as they were. After a reset every task but init_task has its slice. */
    ghost predicate Priced(was: seq<int>, resets: nat)
      reads this`ring, ring
    {
      var all :=
        && |was| == |ring| && resets <= 1
        && forall i | 0 <= i < |ring| ::
             ring[i].counter == if resets == 0 || ring[i] == initTask then was[i] else Slice(ring[i].priority);
      all
    }

    /** The repeat loop ends with a task: the largest counter of the queue is above -1000, and if it is 0
        then the largest slice is above -1000 and not 0 either. */
    ghost predicate Pickable(q: seq<Task>)
      reads q
    {
      Repeat(Counters(q), Slices(q), 1).Picks?
    }

    /** The run queue once a current task that is not running any more has left it. */
    ghost function Remaining(k: nat): seq<Task>
      requires current.state != 0 ==> k < |queue|
      reads this`current, this`queue, current
    {
      if current.state == 0 then queue else Removed(queue, k)
    }

    /** switch_to, seen from the kernel's state. */
    method SwitchTo(next: Task, ghost was: seq<int>, ghost resets: nat)
      requires Valid() && next in ring && queue != [] && Priced(was, resets)
      modifies this`current
      ensures Valid() && current == next && Best(queue) == old(Best(queue)) && Priced(was, resets)
    {
      hide Queued, TaskRing, Best, Priced;
      current := next;
    }

    /** The first half of __schedule. */
    method LeaveIfBlocked(ghost k: nat)
      requires Valid() && (current.state != 0 ==> k < |queue| && queue[k] == current)
      modifies this`nrRunning, this`queue, head`next, head`prev, RunLists()`next, RunLists()`prev
      ensures Valid() && queue == old(Remaining(k)) && Pickable(queue) == old(Pickable(Remaining(k)))
      ensures Counters(ring) == old(Counters(ring))
      ensures queue != [] ==> Best(queue) == old(Best(Remaining(k)))
    {
      hide Kernel.Valid, Pickable, Best, Counters, Removed;
      if current.state != 0 {
        DequeueTask(current, k);
      }
    }

    /** The first task of maximal counter. */
    ghost function Best(q: seq<Task>): Task
      requires q != []
      reads q
    {
      q[FirstMax(Counters(q))]
    }

    /** schedule: a current task that is not running leaves the run queue, the next one is picked and
        becomes current. k is the current task's place in the queue. */
    method Schedule(ghost k: nat) returns (ghost resets: nat)
      requires Valid() && (current.state != 0 ==> k < |queue| && queue[k] == current)
      requires Pickable(Remaining(k))
      modifies this`current, this`nrSwitches, this`nrRunning, this`queue, current`needResched, ring`counter
      modifies head`next, head`prev, RunLists()`next, RunLists()`prev
      ensures Valid() && queue == old(Remaining(k)) && queue != []
      ensures current == Best(queue) && current.counter != 0 && old(current).needResched == 0
      ensures nrSwitches == old(nrSwitches) + if current != old(current) then 1 else 0
      ensures resets == (if old(Best(Remaining(k)).counter) == 0 then 1 else 0) && Priced(old(Counters(ring)), resets)
    {
      hide Kernel.Valid, FirstMax, Counters, Removed, Slice, Pickable, Priced;
      var prev := current;
      ghost var was := Counters(ring);
      LeaveIfBlocked(k);
      var next: Task;
      next, resets := PickNextTask();
      FinishSchedule(prev, next, was, resets);
    }

    method ClearTaskResched(p: Task, ghost was: seq<int>, ghost resets: nat)
      requires Valid() && queue != [] && Priced(was, resets)
      modifies p`needResched
      ensures Valid() && Best(queue) == old(Best(queue)) && Priced(was, resets) && p.needResched == 0
    {
      hide Tasks, Queued, FirstMax, Slice;
      p.needResched := 0;
    }

    /** The second half of __schedule. */
    method FinishSchedule(prev: Task, next: Task, ghost was: seq<int>, ghost resets: nat)
      requires Valid() && prev == current && next in ring && queue != [] && next == Best(queue) && Priced(was, resets)
      modifies this`current, this`nrSwitches, prev`needResched
      ensures Valid() && current == next == Best(queue) && next.counter == old(next.counter) && Priced(was, resets)
      ensures prev.needResched == 0 && nrSwitches == old(nrSwitches) + if next != prev then 1 else 0
    {
      hide Tasks, Queued, Best, Priced;
      ClearTaskResched(prev, was, resets);
      if next != prev {
        nrSwitches := nrSwitches + 1;
        SwitchTo(next, was, resets);
      }
    }

    /** tick_handle_periodic. */
    method TickHandlePeriodic()
      requires Valid()
      modifies current`counter, current`needResched
      ensures Valid()
      ensures current.counter == (if old(current.counter) > 0 then old(current.counter) - 1 else 0)
      ensures current.needResched == if current.counter == 0 then 1 else old(current.needResched)
      ensures old(current.counter) >= 0 ==> Left() == old(Left()) - if old(current.counter) > 0 then 1 else 0
    {
      hide Tasks, Queued, Sum, FirstMax;
      InRing();
      ghost var s := Counters(ring);
      TaskTick(current);
      InRing();
      OneChanged(s);
    }

    lemma OneChanged(s: seq<int>)
      requires TaskRing(ring) && current in ring && |s| == |ring|
      requires forall i | 0 <= i < |ring| && ring[i] != current :: ring[i].counter == s[i]
      ensures exists k :: 0 <= k < |ring| && ring[k] == current && Left() == Sum(s) - s[k] + current.counter
    {
      hide Sum;
      var k :| 0 <= k < |ring| && ring[k] == current;
      SumUpdate(s, k, current.counter);
      assert Counters(ring) == s[k := current.counter];
    }
  }

  /** The tasks and counters of a kernel at one moment. */
  datatype Shot = Shot(gTask: seq<Task?>, ring: seq<Task>, queue: seq<Task>, current: Task, counters: seq<int>)

  lemma NodesAdd(head: Node, q: seq<Task>, p: Task)
    ensures [head, p.runList] + Nodes(head, q)[1..] == Nodes(head, [p] + q)
  {
  }

  lemma NodesRemove(head: Node, q: seq<Task>, k: nat)
    requires k < |q|
    ensures Removed(Nodes(head, q), k + 1) == Nodes(head, Removed(q, k))
    ensures forall t | t in Removed(q, k) :: t in q
  {
  }
}
