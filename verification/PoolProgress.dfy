/** What a pool gets done: how it grows, and that waiting tasks can be started. */
module PoolProgress {
  import opened Counting
  import opened ThreadPool

  // ---------------------------------------------------------------- growing

  /** `k` workers more: they are new, they are counted, and nothing else has changed. */
  ghost predicate Grown(s: PoolState, r: PoolState, k: nat) {
    r.workerCount == s.workerCount + k && r.active == s.active + k && r.created == s.created + k &&
    (forall w: nat :: w in r.workers <==> w in s.workers || s.created <= w < r.created) &&
    (forall w: nat :: w in r.workers ==>
      r.workers[w] == if s.created <= w < r.created then Fetching else s.workers[w]) &&
    r == s.(workerCount := r.workerCount, active := r.active, created := r.created, workers := r.workers)
  }

  lemma {:induction false} AddWorkersGrow(s: PoolState, k: nat)
    ensures Grown(s, AddWorkers(s, k), k)
  {
    if k > 0 {
      AddWorkersGrow(s, k - 1);
    }
  }

  function Smaller(a: int, b: int): int { if a < b then a else b }

  /**
   A pool that is not terminating takes the new target. It grows at once, up to the target or by as
   many threads as it is granted, whichever is less, and it does not shrink at once.
   */
  lemma ResizeGrows(s: PoolState, n: nat, granted: nat)
    requires !s.terminating
    ensures var r := Resize(s, n, granted);
      r.target == n &&
      r.workerCount == (if s.workerCount <= n then Smaller(n, s.workerCount + granted) else s.workerCount) &&
      Grown(s.(target := n), r, r.workerCount - s.workerCount)
  {
    if s.workerCount <= n {
      AddWorkersGrow(s.(target := n), Smaller(n - s.workerCount, granted));
    }
  }

  /** A worker lost to a throwing task: a running pool replaces it at once if it is granted a thread. */
  lemma DeathReplaced(s: PoolState, w: nat, granted: nat)
    requires Reachable(s) && !s.terminating && w in s.workers && s.workers[w].Running? && granted >= 1
    ensures s.workerCount >= 1 && s.workers[w].task < s.scheduled
    ensures var r := Die(s, w, granted);
      r.workerCount == r.target == s.workerCount && s.workers[w].task in r.ended &&
      r.workers == (s.workers - {w})[s.created := Fetching]
  {
    hide Resize;
    ReachableInv(s);
    assert w in s.workers.Keys && |s.workers.Keys| == |s.workers|;
    assert Holds(s, w, s.workers[w].task);
    assert s.workers[w].task in s.started + s.queue;
    var r := Remove(s, w).(ended := s.ended + {s.workers[w].task});
    ResizeGrows(r, s.workerCount, granted);
  }

  // ---------------------------------------------------------------- starting tasks

  lemma ReachNext(s: PoolState, step: Step)
    requires Reachable(s) && Enabled(s, step)
    ensures Reachable(Next(s, step))
  {
    hide Next, Enabled;
    var states, steps :| Run(states, steps) && states[|states| - 1] == s;
    var states', steps' := states + [Next(s, step)], steps + [step];
    assert Run(states', steps');
    assert states'[|states'| - 1] == Next(s, step);
  }

  /** A worker that can be brought to take a task: one that waits, or one of a pool that is not to shrink. */
  predicate Available(s: PoolState, w: nat) {
    w in s.workers && (s.workers[w].Waiting? || (!s.workers[w].Leaving? && s.workerCount <= s.target))
  }

  /** Worker `w` has started the oldest task, and no other task was started. */
  ghost predicate StartedOldest(s: PoolState, r: PoolState, w: nat) {
    s.queue != [] && r.queue == s.queue[1..] && r.started == s.started + [s.queue[0]] && Holds(r, w, s.queue[0])
  }

  /** From every reachable state in which a task waits and a worker is available, it can start the oldest task. */
  lemma OldestCanStart(s: PoolState, w: nat) returns (r: PoolState)
    requires Reachable(s) && s.queue != [] && Available(s, w)
    ensures Reachable(r) && StartedOldest(s, r, w)
    ensures r.workerCount == s.workerCount && r.target == s.target && r.terminating == s.terminating
  {
    hide Reachable;
    if s.workers[w].Waiting? {
      ReachNext(s, Wakes(w));
      r := Next(s, Wakes(w));
    } else {
      var t := s;
      if s.workers[w].Running? {
        ReachNext(s, Finishes(w));
        t := Next(s, Finishes(w));
      }
      ReachNext(t, Fetches(w));
      r := Next(t, Fetches(w));
    }
  }

  /** One available worker can start all waiting tasks, in their order. */
  lemma {:induction false} AllCanStart(s: PoolState, w: nat) returns (r: PoolState)
    requires Reachable(s) && w in s.workers && (s.workers[w].Fetching? || s.workers[w].Running?)
    requires s.workerCount <= s.target
    ensures Reachable(r) && r.queue == [] && r.started == s.started + s.queue
    decreases |s.queue|
  {
    hide Reachable;
    r := s;
    if s.queue != [] {
      var t := OldestCanStart(s, w);
      r := AllCanStart(t, w);
      assert s.queue == [s.queue[0]] + s.queue[1..];
    }
  }

  /** Granted one more thread, a pool that is not terminating can start every task that waits, in order. */
  lemma Drains(s: PoolState) returns (r: PoolState)
    requires Reachable(s) && !s.terminating
    ensures Reachable(r) && r.queue == [] && r.started == s.started + s.queue
  {
    hide Reachable, Resize;
    assert s.workerCount >= 0 by { ReachableInv(s); }
    var step := Resizes(s.workerCount + 1, 1);
    ReachNext(s, step);
    ResizeGrows(s, s.workerCount + 1, 1);
    var t := Next(s, step);
    assert s.created in t.workers;
    r := AllCanStart(t, s.created);
  }

  // ---------------------------------------------------------------- clearing and waiting

  /** Clearing takes exactly the waiting tasks out of what `wait` waits for. */
  lemma ClearForgets(s: PoolState)
    requires Reachable(s)
    ensures Clear(s).queue == [] && Unfinished(Clear(s)) == Unfinished(s) - Elements(s.queue)
    ensures forall t :: t in s.queue ==> t in Unfinished(s)
  {
    ReachableInv(s);
    StartedFirst(s);
    forall t | t in s.queue
      ensures t in Unfinished(s)
    {
      assert t in s.started + s.queue;
      assert t !in s.started;
    }
  }

  /** `wait(0)` may return exactly when no task is unfinished and every worker is back at its wait. */
  lemma WaitForAllIff(s: PoolState)
    requires Reachable(s)
    ensures WaitReturns(s, 0) <==> Unfinished(s) == {} && forall w :: w in s.workers ==> s.workers[w].Waiting?
  {
    ReachableInv(s);
    assert |s.workers| == |s.workers.Keys|;
    if WaitReturns(s, 0) {
      WaitForAll(s);
      SubsetOfEqualSize(WaitingOnes(s), s.workers.Keys);
      forall w | w in s.workers
        ensures s.workers[w].Waiting?
      {
        assert w in WaitingOnes(s);
      }
    }
    ClearForgets(s);
    if forall w :: w in s.workers ==> s.workers[w].Waiting? {
      assert WaitingOnes(s) == s.workers.Keys;
    }
    if s.queue != [] {
      assert s.queue[0] in Unfinished(s);
    }
  }

  /** `wait(n)` may return exactly when the workers away from their wait and the waiting tasks are at most n. */
  lemma WaitForThresholdIff(s: PoolState, threshold: nat)
    requires Reachable(s) && threshold > 0
    ensures WaitReturns(s, threshold) <==> |s.workers.Keys - WaitingOnes(s)| + |s.queue| <= threshold
  {
    ReachableInv(s);
    DifferenceSize(WaitingOnes(s), s.workers.Keys);
    assert |s.workers| == |s.workers.Keys|;
  }

  // ---------------------------------------------------------------- the end of a pool

  /** A worker of a terminating pool can be led out of it; it takes no more than one task on the way. */
  lemma CanLeave(s: PoolState, w: nat) returns (r: PoolState)
    requires Reachable(s) && s.terminating && s.target == 0 && w in s.workers
    ensures Reachable(r) && r.terminating && r.target == 0 && r.workers.Keys == s.workers.Keys - {w}
    ensures r.terminated == s.terminated + [w]
  {
    hide Reachable;
    var t := s;
    assert s.workerCount > 0 by {
      ReachableInv(s);
      assert w in s.workers.Keys && |s.workers| == |s.workers.Keys|;
    }
    if t.workers[w].Waiting? {
      ReachNext(t, Wakes(w));
      t := Next(t, Wakes(w));
    }
    if t.workers[w].Running? {
      ReachNext(t, Finishes(w));
      t := Next(t, Finishes(w));
    }
    if t.workers[w].Fetching? {
      ReachNext(t, Fetches(w));
      t := Next(t, Fetches(w));
    }
    ReachNext(t, Leaves(w));
    r := Next(t, Leaves(w));
  }

  lemma {:induction false} AllCanLeave(s: PoolState) returns (r: PoolState)
    requires Reachable(s) && s.terminating && s.target == 0
    ensures Reachable(r) && r.workers == map[]
    ensures forall w :: w in r.terminated <==> w in s.terminated || w in s.workers
    decreases |s.workers.Keys|
  {
    hide Reachable;
    r := s;
    if s.workers != map[] {
      assert s.workers.Keys != {};
      var w :| w in s.workers.Keys;
      var t := CanLeave(s, w);
      DifferenceSize({w}, s.workers.Keys);
      r := AllCanLeave(t);
    }
  }

  /** Once a pool is told to terminate, all its workers can leave, none is active then, and each is kept for joining. */
  lemma CanTerminate(s: PoolState) returns (r: PoolState)
    requires Reachable(s)
    ensures Reachable(r) && r.workers == map[] && r.active == 0
    ensures forall w :: w in r.terminated <==> w in s.terminated || w in s.workers
  {
    hide Reachable;
    ReachNext(s, Terminates);
    r := AllCanLeave(Next(s, Terminates));
    ActivePlusWaiting(r);
    assert |r.workers| == 0;
  }
}
