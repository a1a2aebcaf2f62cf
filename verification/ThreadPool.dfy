/**
 The monitor of the bundled thread pool: libndnpaxos/threadpool/detail/pool_core.hpp. Whatever a
 worker or a client does between taking and releasing the lock is one step. A wait releases the
 lock, so it ends one step and, whenever the worker wakes up, begins another; a worker may wake
 up for no reason. Tasks are numbered in the order in which they are scheduled.
 */
module ThreadPool {
  import opened Counting

  /** Where a worker is: about to take the lock, waiting for work, running a task, or on its way out. */
  datatype Phase = Fetching | Waiting | Running(task: nat) | Leaving

  /** The last four fields are histories. */
  datatype PoolState = PoolState(
    workerCount: int,
    target: nat,
    active: int,
    terminating: bool,
    queue: seq<nat>,
    workers: map<nat, Phase>,
    created: nat,
    terminated: seq<nat>,
    scheduled: nat,
    started: seq<nat>,
    ended: set<nat>,
    cleared: set<nat>)

  const EMPTY_POOL := PoolState(0, 0, 0, false, [], map[], 0, [], 0, [], {}, {})

  // ---------------------------------------------------------------- clients

  function Schedule(s: PoolState): PoolState {
    s.(queue := s.queue + [s.scheduled], scheduled := s.scheduled + 1)
  }

  function Clear(s: PoolState): PoolState {
    s.(queue := [], cleared := s.cleared + set t | t in s.queue)
  }

  function AddWorkers(s: PoolState, k: nat): PoolState {
    if k == 0 then s else
      var r := AddWorkers(s, k - 1);
      r.(workerCount := r.workerCount + 1, active := r.active + 1,
         workers := r.workers[r.created := Fetching], created := r.created + 1)
  }

  /** The pool grows at once, by as many threads as the system grants; it shrinks as workers notice. */
  function Resize(s: PoolState, n: nat, granted: nat): PoolState {
    if s.terminating then s
    else
      var r := s.(target := n);
      var missing := n - s.workerCount;
      if missing >= 0 then AddWorkers(r, if granted < missing then granted else missing) else r
  }

  function TerminateAll(s: PoolState): PoolState {
    s.(terminating := true, target := 0)
  }

  /** `wait` returns: no more tasks than the threshold are waiting or in the hands of active workers. */
  predicate WaitReturns(s: PoolState, threshold: nat) {
    if threshold == 0 then s.active == 0 && s.queue == [] else s.active + |s.queue| <= threshold
  }

  // ---------------------------------------------------------------- workers

  /** The worker takes the oldest task. */
  function Take(s: PoolState, w: nat): PoolState
    requires s.queue != []
  {
    s.(queue := s.queue[1..], workers := s.workers[w := Running(s.queue[0])], started := s.started + [s.queue[0]])
  }

  /** The first section of `execute_task`. */
  function Fetch(s: PoolState, w: nat): PoolState {
    if s.workerCount > s.target then s.(workers := s.workers[w := Leaving])
    else if s.queue == [] then s.(active := s.active - 1, workers := s.workers[w := Waiting])
    else Take(s, w)
  }

  /** The section after a wait; a worker that finds a task takes it even if the pool is to shrink. */
  function Wake(s: PoolState, w: nat): PoolState {
    var r := s.(active := s.active + 1);
    if r.queue != [] then Take(r, w)
    else if r.workerCount > r.target then r.(workers := r.workers[w := Leaving])
    else s
  }

  /** The task returns. */
  function Finish(s: PoolState, w: nat): PoolState
    requires w in s.workers && s.workers[w].Running?
  {
    s.(workers := s.workers[w := Fetching], ended := s.ended + {s.workers[w].task})
  }

  function Remove(s: PoolState, w: nat): PoolState {
    s.(workerCount := s.workerCount - 1, active := s.active - 1, workers := s.workers - {w},
       terminated := if s.terminating then s.terminated + [w] else s.terminated)
  }

  /** The task throws: the worker is lost, and a running pool asks for one worker more than are left. */
  function Die(s: PoolState, w: nat, granted: nat): PoolState
    requires w in s.workers && s.workers[w].Running? && s.workerCount >= 0
  {
    Resize(Remove(s, w).(ended := s.ended + {s.workers[w].task}), s.workerCount, granted)
  }

  // ---------------------------------------------------------------- runs

  datatype Step =
    | Schedules
    | Clears
    | Resizes(n: nat, granted: nat)
    | Terminates
    | Fetches(w: nat)
    | Wakes(w: nat)
    | Finishes(w: nat)
    | Dies(w: nat, granted: nat)
    | Leaves(w: nat)

  predicate Enabled(s: PoolState, step: Step) {
    match step
    case Fetches(w) => w in s.workers && s.workers[w].Fetching?
    case Wakes(w) => w in s.workers && s.workers[w].Waiting?
    case Finishes(w) => w in s.workers && s.workers[w].Running?
    case Dies(w, _) => w in s.workers && s.workers[w].Running? && s.workerCount >= 0
    case Leaves(w) => w in s.workers && s.workers[w].Leaving?
    case _ => true
  }

  function Next(s: PoolState, step: Step): PoolState
    requires Enabled(s, step)
  {
    match step
    case Schedules => Schedule(s)
    case Clears => Clear(s)
    case Resizes(n, granted) => Resize(s, n, granted)
    case Terminates => TerminateAll(s)
    case Fetches(w) => Fetch(s, w)
    case Wakes(w) => Wake(s, w)
    case Finishes(w) => Finish(s, w)
    case Dies(w, granted) => Die(s, w, granted)
    case Leaves(w) => Remove(s, w)
  }

  /** Any interleaving, from the empty pool on. */
  ghost predicate Run(states: seq<PoolState>, steps: seq<Step>) {
    |states| == |steps| + 1 && states[0] == EMPTY_POOL &&
    forall k :: 0 <= k < |steps| ==> Enabled(states[k], steps[k]) && states[k + 1] == Next(states[k], steps[k])
  }

  ghost predicate Reachable(s: PoolState) {
    exists states, steps :: Run(states, steps) && states[|states| - 1] == s
  }

  // ---------------------------------------------------------------- the invariant

  ghost function WaitingOnes(s: PoolState): set<nat> {
    set w | w in s.workers && s.workers[w].Waiting?
  }

  /** Active workers plus waiting workers are all workers. */
  ghost predicate CountsOk(s: PoolState) {
    s.workerCount == |s.workers| && s.active + |WaitingOnes(s)| == s.workerCount &&
    forall w :: w in s.workers ==> w < s.created
  }

  predicate Ascending(ts: seq<nat>) {
    forall a, b :: 0 <= a < b < |ts| ==> ts[a] < ts[b]
  }

  /** Tasks leave the queue in the order they entered it, each of them once. */
  ghost predicate OrderOk(s: PoolState) {
    Ascending(s.started + s.queue) && (forall t :: t in s.started + s.queue ==> t < s.scheduled && t !in s.cleared)
  }

  /** No task is lost: it waits, was started, or was cleared. */
  ghost predicate NoneLost(s: PoolState) {
    (forall t: nat :: t < s.scheduled ==> t in s.queue || t in s.started || t in s.cleared) &&
    (forall t :: t in s.cleared ==> t < s.scheduled)
  }

  predicate Holds(s: PoolState, w: nat, t: nat) {
    w in s.workers && s.workers[w] == Running(t)
  }

  /** A started task is in the hands of one worker until it ends. */
  ghost predicate HandsOk(s: PoolState) {
    (forall w, t :: Holds(s, w, t) ==> t in s.started && t !in s.ended) &&
    (forall w, x, t :: Holds(s, w, t) && Holds(s, x, t) ==> w == x) &&
    (forall t :: t in s.started && t !in s.ended ==> exists w :: Holds(s, w, t)) &&
    (forall t :: t in s.ended ==> t in s.started)
  }

  ghost predicate Inv(s: PoolState) {
    CountsOk(s) && OrderOk(s) && NoneLost(s) && HandsOk(s)
  }

  lemma InitInv()
    ensures Inv(EMPTY_POOL)
  {}

  lemma ScheduleInv(s: PoolState)
    requires Inv(s)
    ensures Inv(Schedule(s))
  {
    hide OrderOk, NoneLost, HandsOk, CountsOk;
    SameCounts(s, Schedule(s));
    ScheduleTasks(s);
    SameHands(s, Schedule(s));
  }

  lemma LateTask(ts: seq<nat>, t: nat)
    requires Ascending(ts) && forall u :: u in ts ==> u < t
    ensures Ascending(ts + [t])
  {
    forall a, b | 0 <= a < b < |ts + [t]|
      ensures (ts + [t])[a] < (ts + [t])[b]
    {
      if b == |ts| { assert ts[a] in ts; }
    }
  }

  lemma ScheduleTasks(s: PoolState)
    requires OrderOk(s) && NoneLost(s)
    ensures OrderOk(Schedule(s)) && NoneLost(Schedule(s))
  {
    LateTask(s.started + s.queue, s.scheduled);
    assert Schedule(s).started + Schedule(s).queue == (s.started + s.queue) + [s.scheduled];
  }

  lemma SameHands(s: PoolState, r: PoolState)
    requires HandsOk(s) && r.workers == s.workers && r.started == s.started && r.ended == s.ended
    ensures HandsOk(r)
  {
    forall t | t in r.started && t !in r.ended
      ensures exists w :: Holds(r, w, t)
    {
      var w :| Holds(s, w, t);
      assert Holds(r, w, t);
    }
    assert forall w, t :: Holds(r, w, t) ==> Holds(s, w, t);
  }

  /** A worker that holds no task changes to a phase without one. */
  lemma IdleHands(s: PoolState, r: PoolState, w: nat)
    requires HandsOk(s) && r.started == s.started && r.ended == s.ended
    requires forall x :: x != w ==>
      (x in r.workers <==> x in s.workers) && (x in s.workers ==> r.workers[x] == s.workers[x])
    requires w in s.workers ==> !s.workers[w].Running?
    requires w in r.workers ==> !r.workers[w].Running?
    ensures HandsOk(r)
  {
    assert forall x, t :: Holds(r, x, t) <==> Holds(s, x, t);
    forall t | t in r.started && t !in r.ended
      ensures exists x :: Holds(r, x, t)
    {
      var x :| Holds(s, x, t);
      assert Holds(r, x, t);
    }
  }

  lemma ClearInv(s: PoolState)
    requires Inv(s)
    ensures Inv(Clear(s))
  {
    hide OrderOk, NoneLost, HandsOk, CountsOk;
    SameCounts(s, Clear(s));
    ClearTasks(s);
    SameHands(s, Clear(s));
  }

  lemma ClearTasks(s: PoolState)
    requires OrderOk(s) && NoneLost(s)
    ensures OrderOk(Clear(s)) && NoneLost(Clear(s))
  {
    var r := Clear(s);
    StartedFirst(s);
    assert r.started + r.queue == s.started;
    forall t | t in s.started
      ensures t < r.scheduled && t !in r.cleared
    {
      assert t in s.started + s.queue;
      assert t in s.queue ==> t < t;
    }
    forall t | t in r.cleared
      ensures t < r.scheduled
    {
      assert t in s.queue ==> t in s.started + s.queue;
    }
  }

  lemma StartedFirst(s: PoolState)
    requires OrderOk(s)
    ensures Ascending(s.started) && Ascending(s.queue)
    ensures forall t, u :: t in s.started && u in s.queue ==> t < u
  {
    var all := s.started + s.queue;
    forall t, u | t in s.started && u in s.queue
      ensures t < u
    {
      var a :| 0 <= a < |s.started| && s.started[a] == t;
      var b :| 0 <= b < |s.queue| && s.queue[b] == u;
      assert all[a] == t && all[|s.started| + b] == u;
    }
    assert forall a :: 0 <= a < |s.started| ==> s.started[a] == all[a];
    assert forall b :: 0 <= b < |s.queue| ==> s.queue[b] == all[|s.started| + b];
  }

  lemma SameTasks(r: PoolState, r': PoolState)
    requires r'.queue == r.queue && r'.started == r.started && r'.cleared == r.cleared && r'.scheduled == r.scheduled
    ensures OrderOk(r) ==> OrderOk(r')
    ensures NoneLost(r) ==> NoneLost(r')
  {}

  lemma {:induction false} AddWorkersInv(s: PoolState, k: nat)
    requires Inv(s)
    ensures Inv(AddWorkers(s, k)) && AddWorkers(s, k).workerCount == s.workerCount + k
  {
    hide OrderOk, NoneLost, HandsOk;
    if k > 0 {
      AddWorkersInv(s, k - 1);
      var r, r' := AddWorkers(s, k - 1), AddWorkers(s, k);
      assert WaitingOnes(r') == WaitingOnes(r);
      SameTasks(r, r');
      IdleHands(r, r', r.created);
    }
  }

  lemma ResizeInv(s: PoolState, n: nat, granted: nat)
    requires Inv(s)
    ensures Inv(Resize(s, n, granted))
  {
    hide OrderOk, NoneLost, HandsOk, AddWorkers;
    var r := s.(target := n);
    assert WaitingOnes(r) == WaitingOnes(s);
    SameTasks(s, r);
    SameHands(s, r);
    if s.workerCount <= n {
      AddWorkersInv(r, if granted < n - s.workerCount then granted else n - s.workerCount);
    }
  }

  lemma TakeTasks(s: PoolState, w: nat)
    requires OrderOk(s) && NoneLost(s) && s.queue != []
    ensures OrderOk(Take(s, w)) && NoneLost(Take(s, w))
  {
    var r := Take(s, w);
    assert r.started + r.queue == s.started + s.queue;
    assert s.queue == [s.queue[0]] + s.queue[1..];
  }

  lemma TakeHands(s: PoolState, w: nat)
    requires OrderOk(s) && HandsOk(s) && s.queue != [] && w in s.workers && !s.workers[w].Running?
    ensures HandsOk(Take(s, w))
  {
    hide OrderOk;
    var r := Take(s, w);
    StartedFirst(s);
    assert s.queue[0] in s.queue;
    assert forall x, t :: x != w ==> (Holds(r, x, t) <==> Holds(s, x, t));
    forall t | t in r.started && t !in r.ended
      ensures exists x :: Holds(r, x, t)
    {
      if t == s.queue[0] {
        assert Holds(r, w, t);
      } else {
        var x :| Holds(s, x, t);
        assert Holds(r, x, t);
      }
    }
  }

  lemma FetchInv(s: PoolState, w: nat)
    requires Inv(s) && w in s.workers && s.workers[w].Fetching?
    ensures Inv(Fetch(s, w))
  {
    hide OrderOk, NoneLost, HandsOk;
    var r := Fetch(s, w);
    assert r.workers.Keys == s.workers.Keys;
    if s.workerCount <= s.target && s.queue == [] {
      assert WaitingOnes(r) == WaitingOnes(s) + {w};
      SameTasks(s, r);
      IdleHands(s, r, w);
    } else {
      assert WaitingOnes(r) == WaitingOnes(s);
      if s.workerCount > s.target {
        SameTasks(s, r);
        IdleHands(s, r, w);
      } else {
        TakeTasks(s, w);
        TakeHands(s, w);
      }
    }
  }

  lemma WakeInv(s: PoolState, w: nat)
    requires Inv(s) && w in s.workers && s.workers[w].Waiting?
    ensures Inv(Wake(s, w))
  {
    hide OrderOk, NoneLost, HandsOk;
    var r, a := Wake(s, w), s.(active := s.active + 1);
    assert r.workers.Keys == s.workers.Keys;
    if r != s {
      assert WaitingOnes(r) == WaitingOnes(s) - {w};
      SameTasks(s, a);
      SameHands(s, a);
      if s.queue != [] {
        TakeTasks(a, w);
        TakeHands(a, w);
      } else {
        SameTasks(s, r);
        IdleHands(s, r, w);
      }
    }
  }

  /** The task of the worker ends. */
  lemma EndHands(s: PoolState, r: PoolState, w: nat)
    requires HandsOk(s) && w in s.workers && s.workers[w].Running? && r.started == s.started
    requires r.ended == s.ended + {s.workers[w].task}
    requires forall x :: x != w ==>
      (x in r.workers <==> x in s.workers) && (x in s.workers ==> r.workers[x] == s.workers[x])
    requires w in r.workers ==> !r.workers[w].Running?
    ensures HandsOk(r)
  {
    assert Holds(s, w, s.workers[w].task);
    assert forall x, t :: Holds(r, x, t) <==> Holds(s, x, t) && x != w;
    forall t | t in r.started && t !in r.ended
      ensures exists x :: Holds(r, x, t)
    {
      var x :| Holds(s, x, t);
      assert Holds(r, x, t);
    }
  }

  lemma FinishInv(s: PoolState, w: nat)
    requires Inv(s) && w in s.workers && s.workers[w].Running?
    ensures Inv(Finish(s, w))
  {
    hide OrderOk, NoneLost, HandsOk;
    var r := Finish(s, w);
    assert r.workers.Keys == s.workers.Keys && WaitingOnes(r) == WaitingOnes(s);
    SameTasks(s, r);
    EndHands(s, r, w);
  }

  lemma RemoveCounts(s: PoolState, w: nat)
    requires CountsOk(s) && w in s.workers && !s.workers[w].Waiting?
    ensures CountsOk(Remove(s, w))
  {
    var r := Remove(s, w);
    assert WaitingOnes(r) == WaitingOnes(s);
    assert r.workers.Keys == s.workers.Keys - {w};
    assert |r.workers| == |r.workers.Keys| && |s.workers| == |s.workers.Keys|;
  }

  lemma LeaveInv(s: PoolState, w: nat)
    requires Inv(s) && w in s.workers && s.workers[w].Leaving?
    ensures Inv(Remove(s, w))
  {
    hide OrderOk, NoneLost, HandsOk, CountsOk;
    RemoveCounts(s, w);
    SameTasks(s, Remove(s, w));
    IdleHands(s, Remove(s, w), w);
  }

  lemma DieInv(s: PoolState, w: nat, granted: nat)
    requires Inv(s) && w in s.workers && s.workers[w].Running? && s.workerCount >= 0
    ensures Inv(Die(s, w, granted))
  {
    hide OrderOk, NoneLost, HandsOk, CountsOk, Resize;
    var r := Remove(s, w).(ended := s.ended + {s.workers[w].task});
    RemoveCounts(s, w);
    assert CountsOk(r) by { SameCounts(Remove(s, w), r); }
    SameTasks(s, r);
    EndHands(s, r, w);
    ResizeInv(r, s.workerCount, granted);
  }

  lemma SameCounts(s: PoolState, r: PoolState)
    requires CountsOk(s) && r.workers == s.workers && r.workerCount == s.workerCount && r.active == s.active
    requires r.created == s.created
    ensures CountsOk(r)
  {
    assert WaitingOnes(r) == WaitingOnes(s);
  }

  lemma NextInv(s: PoolState, step: Step)
    requires Inv(s) && Enabled(s, step)
    ensures Inv(Next(s, step))
  {
    hide OrderOk, NoneLost, HandsOk, CountsOk, Fetch, Wake, Finish, Remove, Die, Resize, Schedule, Clear;
    match step
    case Schedules => ScheduleInv(s);
    case Clears => ClearInv(s);
    case Resizes(n, granted) => ResizeInv(s, n, granted);
    case Terminates =>
      SameCounts(s, TerminateAll(s));
      SameTasks(s, TerminateAll(s));
      SameHands(s, TerminateAll(s));
    case Fetches(w) => FetchInv(s, w);
    case Wakes(w) => WakeInv(s, w);
    case Finishes(w) => FinishInv(s, w);
    case Dies(w, granted) => DieInv(s, w, granted);
    case Leaves(w) => LeaveInv(s, w);
  }

  lemma {:induction false} RunInv(states: seq<PoolState>, steps: seq<Step>, k: nat)
    requires Run(states, steps) && k < |states|
    ensures Inv(states[k])
  {
    hide Inv, Next, Enabled;
    if k == 0 {
      InitInv();
    } else {
      RunInv(states, steps, k - 1);
      NextInv(states[k - 1], steps[k - 1]);
    }
  }

  lemma ReachableInv(s: PoolState)
    requires Reachable(s)
    ensures Inv(s)
  {
    hide Inv, Next, Enabled;
    var states, steps :| Run(states, steps) && states[|states| - 1] == s;
    RunInv(states, steps, |states| - 1);
  }

  // ---------------------------------------------------------------- what a client can rely on

  /** Over every interleaving, active workers plus waiting workers are the workers of the pool. */
  lemma ActivePlusWaiting(s: PoolState)
    requires Reachable(s)
    ensures s.workerCount == |s.workers| && s.active + |WaitingOnes(s)| == s.workerCount
    ensures 0 <= s.active <= s.workerCount
  {
    ReachableInv(s);
    assert WaitingOnes(s) <= s.workers.Keys;
    SubsetSize(WaitingOnes(s), s.workers.Keys);
    assert |s.workers| == |s.workers.Keys|;
  }

  /** Tasks are started in the order they were scheduled, each at most once, and never after being cleared. */
  lemma FirstInFirstOut(s: PoolState)
    requires Reachable(s)
    ensures Ascending(s.started)
    ensures forall t: nat :: t < s.scheduled ==>
      (t in s.queue || t in s.started || t in s.cleared) &&
      !(t in s.queue && t in s.started) && !(t in s.cleared && (t in s.queue || t in s.started))
  {
    ReachableInv(s);
    StartedFirst(s);
  }

  /** The tasks that were scheduled, not cleared, and have not ended. */
  ghost function Unfinished(s: PoolState): set<nat> {
    set t: nat | t < s.scheduled && t !in s.cleared && t !in s.ended
  }

  /** `wait(0)` returns only when every task scheduled so far and not cleared has ended. */
  lemma WaitForAll(s: PoolState)
    requires Reachable(s) && WaitReturns(s, 0)
    ensures Unfinished(s) == {}
  {
    ReachableInv(s);
    assert |WaitingOnes(s)| == |s.workers.Keys| by { assert |s.workers| == |s.workers.Keys|; }
    SubsetOfEqualSize(WaitingOnes(s), s.workers.Keys);
    forall w | w in s.workers
      ensures s.workers[w].Waiting?
    {
      assert w in WaitingOnes(s);
    }
    assert forall w, t :: !Holds(s, w, t);
  }

  /** The tasks the workers in `ws` are running. */
  ghost function TasksOf(s: PoolState, ws: set<nat>): set<nat> {
    set w | w in ws && w in s.workers && s.workers[w].Running? :: s.workers[w].task
  }

  lemma {:induction false} NoMoreTasksThanWorkers(s: PoolState, ws: set<nat>)
    ensures |TasksOf(s, ws)| <= |ws|
    decreases |ws|
  {
    if ws != {} {
      var w :| w in ws;
      NoMoreTasksThanWorkers(s, ws - {w});
      var own := if w in s.workers && s.workers[w].Running? then {s.workers[w].task} else {};
      assert TasksOf(s, ws) == TasksOf(s, ws - {w}) + own;
    }
  }

  ghost function Elements(ts: seq<nat>): (r: set<nat>)
    ensures |r| <= |ts| && forall t :: t in r <==> t in ts
  {
    if ts == [] then {} else
      assert ts == ts[..|ts| - 1] + [ts[|ts| - 1]];
      Elements(ts[..|ts| - 1]) + {ts[|ts| - 1]}
  }

  /** `wait(n)` returns only when at most `n` of the tasks scheduled so far and not cleared have not ended. */
  lemma WaitForThreshold(s: PoolState, threshold: nat)
    requires Reachable(s) && WaitReturns(s, threshold)
    ensures |Unfinished(s)| <= threshold
  {
    ReachableInv(s);
    var busy := s.workers.Keys - WaitingOnes(s);
    var queued := Elements(s.queue);
    assert |s.workers| == |s.workers.Keys|;
    DifferenceSize(WaitingOnes(s), s.workers.Keys);
    forall t | t in Unfinished(s)
      ensures t in queued + TasksOf(s, busy)
    {
      if t !in s.queue {
        var w :| Holds(s, w, t);
        assert w in busy;
      }
    }
    NoMoreTasksThanWorkers(s, busy);
    SubsetSize(Unfinished(s), queued + TasksOf(s, busy));
    assert |queued + TasksOf(s, busy)| <= |queued| + |TasksOf(s, busy)|;
  }

  // ---------------------------------------------------------------- the pool itself

  /** What `execute_task` has got when it releases the lock. */
  datatype Fetched = Got(task: nat) | MustWait | MustLeave

  class PoolCore {
    var workerCount: int
    var target: nat
    var active: int
    var terminating: bool
    var queue: seq<nat>
    var terminated: seq<nat>
    var created: nat
    var scheduled: nat
    ghost var workers: map<nat, Phase>
    ghost var started: seq<nat>
    ghost var ended: set<nat>
    ghost var cleared: set<nat>

    ghost function State(): PoolState
      reads this
    {
      PoolState(workerCount, target, active, terminating, queue, workers, created, terminated, scheduled, started,
        ended, cleared)
    }

    constructor ()
      ensures State() == EMPTY_POOL
    {
      workerCount, target, active, terminating, queue, terminated, created, scheduled := 0, 0, 0, false, [], [], 0, 0;
      workers, started, ended, cleared := map[], [], {}, {};
    }

    method ScheduleTask() returns (task: nat)
      modifies this
      ensures State() == Schedule(old(State()))
      ensures task == old(scheduled) < scheduled && queue == old(queue) + [task]
    {
      task := scheduled;
      queue := queue + [task];
      scheduled := scheduled + 1;
    }

    method ClearTasks()
      modifies this
      ensures State() == Clear(old(State()))
      ensures queue == [] && forall t :: t in cleared <==> t in old(cleared) || t in old(queue)
    {
      cleared := cleared + set t | t in queue;
      queue := [];
    }

    /** `granted` is the number of threads the system is willing to create. */
    method ResizeTo(count: nat, granted: nat) returns (ok: bool)
      modifies this
      ensures State() == Resize(old(State()), count, granted)
      ensures old(terminating) ==> !ok && State() == old(State())
      ensures !old(terminating) ==> target == count && ok == (workerCount >= count)
      ensures !old(terminating) && old(workerCount) <= count ==>
        workerCount == if old(workerCount) + granted < count then old(workerCount) + granted else count
      ensures !old(terminating) && old(workerCount) > count ==> workerCount == old(workerCount)
    {
      if terminating {
        return false;
      }
      target := count;
      if workerCount <= target {
        ghost var s := State();
        ghost var k := 0;
        var left := granted;
        while workerCount < target
          invariant workerCount == s.workerCount + k <= target == count && left == granted - k >= 0
          invariant State() == AddWorkers(s, k)
        {
          if left == 0 {
            return false;
          }
          left := left - 1;
          workers := workers[created := Fetching];
          created := created + 1;
          workerCount := workerCount + 1;
          active := active + 1;
          k := k + 1;
        }
      }
      return true;
    }

    method TerminateAllWorkers()
      modifies this
      ensures State() == TerminateAll(old(State())) && terminating && target == 0
    {
      terminating := true;
      target := 0;
    }

    /** From the start of `execute_task` to its first wait or its end. */
    method FetchTask(ghost w: nat) returns (r: Fetched)
      modifies this
      ensures State() == Fetch(old(State()), w)
      ensures r.Got? ==> workers[w := Running(r.task)] == workers
      ensures r == if old(workerCount) > target then MustLeave
        else if old(queue) == [] then MustWait else Got(old(queue)[0])
    {
      if workerCount > target {
        workers := workers[w := Leaving];
        return MustLeave;
      }
      if queue == [] {
        active := active - 1;
        workers := workers[w := Waiting];
        return MustWait;
      }
      var task := TakeTask(w);
      return Got(task);
    }

    /** From a wake-up to the next wait or the end of `execute_task`. */
    method WakeUp(ghost w: nat) returns (r: Fetched)
      modifies this
      ensures State() == Wake(old(State()), w)
      ensures r == if old(queue) != [] then Got(old(queue)[0]) else if old(workerCount) > target then MustLeave
        else MustWait
    {
      active := active + 1;
      if queue == [] {
        if workerCount > target {
          workers := workers[w := Leaving];
          return MustLeave;
        }
        active := active - 1;
        return MustWait;
      }
      var task := TakeTask(w);
      return Got(task);
    }

    method TakeTask(ghost w: nat) returns (task: nat)
      requires queue != []
      modifies this
      ensures State() == Take(old(State()), w) && task == old(queue)[0]
    {
      task := queue[0];
      queue := queue[1..];
      workers := workers[w := Running(task)];
      started := started + [task];
    }

    method WorkerDestructed(w: nat)
      modifies this
      ensures State() == Remove(old(State()), w)
    {
      workerCount := workerCount - 1;
      active := active - 1;
      workers := workers - {w};
      if terminating {
        terminated := terminated + [w];
      }
    }

    method WorkerDiedUnexpectedly(w: nat, granted: nat)
      requires w in workers && workers[w].Running? && workerCount >= 1
      modifies this
      ensures State() == Die(old(State()), w, granted)
    {
      ended := ended + {workers[w].task};
      WorkerDestructed(w);
      if !terminating {
        var ok := ResizeTo(workerCount + 1, granted);
      }
    }

    /** The condition of the loop in `wait`. */
    method MayReturn(threshold: nat) returns (done: bool)
      ensures done == WaitReturns(State(), threshold)
    {
      if threshold == 0 {
        done := active == 0 && queue == [];
      } else {
        done := active + |queue| <= threshold;
      }
    }
  }
}
