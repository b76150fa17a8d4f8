/** The bounded worker pool, internal/concurrency/ordered.go: whatever order the workers finish in, results
    are committed in input order, and a worker starts at most one pool's width ahead of the commits.
 */
module OrderedCommit {
  import opened Basics

  /** The items dispatched and not yet committed. */
  function Between(low: nat, high: nat): (items: set<nat>)
    ensures forall i | i in items :: low <= i < high
    ensures low < high ==> low in items
  {
    if low >= high then {} else Between(low, high - 1) + {high - 1}
  }

  lemma {:induction false} BetweenFirst(low: nat, high: nat)
    requires low < high
    ensures Between(low + 1, high) == Between(low, high) - {low}
  {
    if low + 1 < high {
      BetweenFirst(low, high - 1);
    }
  }

  function UpTo(n: nat): seq<nat> {
    seq(n, i => i)
  }

  ghost predicate InFlight(running: set<nat>, pending: set<nat>, nextCommit: nat, nextDispatch: nat) {
    running !! pending && running + pending == Between(nextCommit, nextDispatch) && nextCommit <= nextDispatch
  }

  /** An item was dispatched after `at` commits, and not further ahead than there are workers. */
  ghost predicate Timely(dispatchedAfter: seq<nat>, workerCount: nat) {
    forall i | 0 <= i < |dispatchedAfter| :: dispatchedAfter[i] <= i < dispatchedAfter[i] + workerCount
  }

  lemma Arrives(running: set<nat>, pending: set<nat>, nextCommit: nat, nextDispatch: nat, i: nat)
    requires InFlight(running, pending, nextCommit, nextDispatch) && i in running
    ensures InFlight(running - {i}, pending + {i}, nextCommit, nextDispatch)
  {
    assert (running - {i}) + (pending + {i}) == running + pending;
  }

  lemma Commits(running: set<nat>, pending: set<nat>, nextCommit: nat, nextDispatch: nat)
    requires InFlight(running, pending, nextCommit, nextDispatch) && nextCommit in pending
    ensures InFlight(running, pending - {nextCommit}, nextCommit + 1, nextDispatch)
  {
    assert nextCommit in running + pending;
    BetweenFirst(nextCommit, nextDispatch);
    assert running + (pending - {nextCommit}) == running + pending - {nextCommit};
  }

  lemma Dispatches(running: set<nat>, pending: set<nat>, nextCommit: nat, nextDispatch: nat)
    requires InFlight(running, pending, nextCommit, nextDispatch)
    ensures nextDispatch !in running && InFlight(running + {nextDispatch}, pending, nextCommit, nextDispatch + 1)
  {
    assert nextDispatch !in running + pending;
    assert running + {nextDispatch} + pending == running + pending + {nextDispatch};
  }

  // ----- the pool

  /** The items in flight, the commits so far, after how many commits each item was dispatched, and whether the
      commit callback stopped the run or a cancellation stopped the dispatching. */
  datatype Pool = Pool(running: set<nat>, pending: set<nat>, commits: seq<nat>, dispatchedAfter: seq<nat>,
                       stoppedEarly: bool, cancelled: bool) {

    /** Nothing is lost or repeated; commits are in input order; dispatching stays within the pool's width. */
    ghost predicate Good(n: nat, workerCount: nat, accept: nat -> bool) {
      && InFlight(running, pending, |commits|, |dispatchedAfter|) && commits == UpTo(|commits|)
      && |dispatchedAfter| <= n && Timely(dispatchedAfter, workerCount)
      && (!stoppedEarly ==> forall i | 0 <= i < |commits| :: accept(i))
      && (stoppedEarly ==> |commits| > 0 && !accept(|commits| - 1) && forall i | 0 <= i < |commits| - 1 :: accept(i))
    }

    /** The workers are as busy as they can be. */
    predicate Busy(n: nat, workerCount: nat) {
      stoppedEarly || cancelled || |dispatchedAfter| == Min(|commits| + workerCount, n)
    }

    function Dispatched(): Pool {
      this.(running := running + {|dispatchedAfter|}, dispatchedAfter := dispatchedAfter + [|commits|])
    }

    function Arrived(i: nat): Pool {
      this.(running := running - {i}, pending := pending + {i})
    }

    function Committed(accepted: bool): Pool {
      this.(pending := pending - {|commits|}, commits := commits + [|commits|], stoppedEarly := !accepted)
    }

    /** The context is looked at; once it is cancelled nothing more is dispatched. */
    function Looked(seen: bool): Pool {
      this.(cancelled := cancelled || seen)
    }

    /** What is left to do, counting a running item once and an undispatched one twice. */
    ghost function Work(n: nat): int {
      2 * (n - |dispatchedAfter|) + |running|
    }

    lemma DispatchKeeps(n: nat, workerCount: nat, accept: nat -> bool)
      requires Good(n, workerCount, accept) && |dispatchedAfter| < n && |dispatchedAfter| < |commits| + workerCount
      ensures Dispatched().Good(n, workerCount, accept) && Dispatched().Work(n) < Work(n)
    {
      Dispatches(running, pending, |commits|, |dispatchedAfter|);
      TimelyStep(dispatchedAfter, workerCount, |commits|);
    }

    lemma ArriveKeeps(n: nat, workerCount: nat, accept: nat -> bool, i: nat)
      requires Good(n, workerCount, accept) && i in running
      ensures Arrived(i).Good(n, workerCount, accept) && 0 <= Arrived(i).Work(n) < Work(n)
      ensures Busy(n, workerCount) ==> Arrived(i).Busy(n, workerCount)
    {
      Arrives(running, pending, |commits|, |dispatchedAfter|, i);
    }

    lemma CommitKeeps(n: nat, workerCount: nat, accept: nat -> bool)
      requires Good(n, workerCount, accept) && !stoppedEarly && |commits| in pending
      ensures Committed(accept(|commits|)).Good(n, workerCount, accept) && |commits| < n
    {
      Commits(running, pending, |commits|, |dispatchedAfter|);
      UpToStep(|commits|);
    }

    lemma LookKeeps(n: nat, workerCount: nat, accept: nat -> bool, seen: bool)
      requires Good(n, workerCount, accept)
      ensures Looked(seen).Good(n, workerCount, accept) && Looked(seen).Work(n) == Work(n)
      ensures Busy(n, workerCount) ==> Looked(seen).Busy(n, workerCount)
    {
    }

    lemma WorkIsLeft(n: nat, workerCount: nat, accept: nat -> bool)
      requires Good(n, workerCount, accept)
      ensures 0 <= Work(n)
    {
    }

    lemma SameWork(n: nat, accepted: bool)
      ensures Committed(accepted).Work(n) == Work(n)
    {
    }

    lemma Finished(n: nat, workerCount: nat, accept: nat -> bool)
      requires Good(n, workerCount, accept) && Busy(n, workerCount) && 0 < workerCount
      requires running == {} && !stoppedEarly && |commits| !in pending
      ensures |commits| == |dispatchedAfter| && (!cancelled ==> |commits| == n)
    {
      assert {} + pending == pending;
    }

    lemma GoodMeans(n: nat, workerCount: nat, accept: nat -> bool)
      requires Good(n, workerCount, accept)
      ensures commits == UpTo(|commits|) && |commits| <= |dispatchedAfter| <= n && Timely(dispatchedAfter, workerCount)
      ensures stoppedEarly <==> |commits| > 0 && !accept(|commits| - 1)
      ensures forall i | 0 <= i < |commits| - 1 :: accept(i)
    {
    }
  }

  lemma NothingInFlight()
    ensures InFlight({}, {}, 0, 0) && UpTo(0) == []
  {
  }

  lemma UpToStep(n: nat)
    ensures UpTo(n) + [n] == UpTo(n + 1)
  {
  }

  lemma TimelyStep(dispatchedAfter: seq<nat>, workerCount: nat, commits: nat)
    requires Timely(dispatchedAfter, workerCount) && commits <= |dispatchedAfter| < commits + workerCount
    ensures Timely(dispatchedAfter + [commits], workerCount)
  {
  }

  /** Fill the workers. */
  method Start(n: nat, workerCount: nat, accept: nat -> bool) returns (pool: Pool)
    requires 0 < workerCount <= n
    ensures pool.Good(n, workerCount, accept) && pool.Busy(n, workerCount) && pool.pending == {} && !pool.stoppedEarly && !pool.cancelled
  {
    pool := Pool({}, {}, [], [], false, false);
    NothingInFlight();
    assert pool.Good(n, workerCount, accept);
    hide Pool.Good;
    while |pool.dispatchedAfter| < workerCount
      invariant pool.Good(n, workerCount, accept) && |pool.dispatchedAfter| <= workerCount
      invariant |pool.commits| == 0 && !pool.stoppedEarly && !pool.cancelled && pool.pending == {}
    {
      pool.DispatchKeeps(n, workerCount, accept);
      pool := pool.Dispatched();
    }
  }

  /** Whether the context is found cancelled at a look, and whether that matters. */
  datatype Context = Context(cancelledAt: nat -> bool, ignored: bool) {

    /** It matters, and some look finds it cancelled. */
    ghost predicate IsCancelled() {
      !ignored && exists look :: cancelledAt(look)
    }

    lemma FoundCancelled(look: nat)
      requires Stops(look)
      ensures IsCancelled()
    {
    }

    predicate Stops(look: nat) {
      !ignored && cancelledAt(look)
    }
  }

  /** Commit what is next in input order, and dispatch one more item for each commit. */
  method CommitReady(n: nat, workerCount: nat, accept: nat -> bool, context: Context, look: nat, arrived: Pool)
    returns (pool: Pool, looks: nat)
    requires arrived.Good(n, workerCount, accept) && arrived.Busy(n, workerCount) && 0 < workerCount
    ensures pool.Good(n, workerCount, accept) && pool.Busy(n, workerCount) && pool.Work(n) <= arrived.Work(n)
    ensures !pool.stoppedEarly ==> |pool.commits| !in pool.pending
    ensures pool.cancelled ==> arrived.cancelled || context.IsCancelled()
  {
    hide Pool.Good, Pool.Work, Context.IsCancelled;
    pool, looks := arrived, look;
    while !pool.stoppedEarly && |pool.commits| in pool.pending
      invariant pool.Good(n, workerCount, accept) && pool.Busy(n, workerCount) && pool.Work(n) <= arrived.Work(n)
      invariant pool.cancelled ==> arrived.cancelled || context.IsCancelled()
      decreases n - |pool.commits|
    {
      var accepted := accept(|pool.commits|);
      pool.CommitKeeps(n, workerCount, accept);
      pool.SameWork(n, accepted);
      pool := pool.Committed(accepted);
      if !pool.stoppedEarly && !pool.cancelled && |pool.dispatchedAfter| < n {
        looks := looks + 1;
        pool.LookKeeps(n, workerCount, accept, context.Stops(looks));
        if context.Stops(looks) {
          context.FoundCancelled(looks);
          pool := pool.Looked(true);
        } else {
          pool.DispatchKeeps(n, workerCount, accept);
          pool := pool.Dispatched();
        }
      }
    }
  }

  /** One worker finishes: its result arrives, the context is looked at, and what is next is committed. */
  method TakeResult(n: nat, workerCount: nat, accept: nat -> bool, context: Context, look: nat, before: Pool)
    returns (pool: Pool, looks: nat)
    requires before.Good(n, workerCount, accept) && before.Busy(n, workerCount) && 0 < workerCount && before.running != {}
    ensures pool.Good(n, workerCount, accept) && pool.Busy(n, workerCount) && 0 <= pool.Work(n) < before.Work(n)
    ensures !pool.stoppedEarly ==> |pool.commits| !in pool.pending
    ensures pool.cancelled ==> before.cancelled || context.IsCancelled()
  {
    var finished: nat :| finished in before.running;
    before.ArriveKeeps(n, workerCount, accept, finished);
    var arrived := before.Arrived(finished);
    looks := look + 1;
    var stops := context.Stops(looks) && !arrived.stoppedEarly && |arrived.dispatchedAfter| < n;
    arrived.LookKeeps(n, workerCount, accept, stops);
    if stops {
      context.FoundCancelled(looks);
    }
    hide Pool.Good, Pool.Busy;
    pool, looks := CommitReady(n, workerCount, accept, context, looks, arrived.Looked(stops));
    pool.WorkIsLeft(n, workerCount, accept);
  }

  /** Run `n` items on a pool. `accept` is the commit callback's answer for an item. Which running worker
      finishes next is arbitrary, and so is when the context is cancelled. Every item that was dispatched is
      committed, in input order, unless the callback stopped the run; items are only left out when it did or
      when the context was cancelled. */
  method ProcessOrdered(n: nat, maxWorkers: nat, accept: nat -> bool, context: Context)
    returns (commits: seq<nat>, dispatchedAfter: seq<nat>, stoppedEarly: bool, cancelled: bool)
    requires 0 < maxWorkers
    ensures commits == UpTo(|commits|) && |commits| <= |dispatchedAfter| <= n
    ensures Timely(dispatchedAfter, Min(maxWorkers, n))
    ensures stoppedEarly <==> |commits| > 0 && !accept(|commits| - 1)
    ensures forall i | 0 <= i < |commits| - 1 :: accept(i)
    ensures !stoppedEarly ==> |commits| == |dispatchedAfter|
    ensures !stoppedEarly && |commits| < n ==> cancelled && !context.ignored && exists look :: context.cancelledAt(look)
    ensures cancelled ==> exists look :: context.cancelledAt(look)
  {
    if n == 0 {
      return [], [], false, context.cancelledAt(0);
    }
    hide Pool.Good, Pool.Work, Pool.Busy, InFlight, UpTo, Timely;
    var workerCount := Min(maxWorkers, n);
    var pool := Start(n, workerCount, accept);
    var looks := 0;
    while pool.running != {}
      invariant pool.Good(n, workerCount, accept) && pool.Busy(n, workerCount)
      invariant !pool.stoppedEarly ==> |pool.commits| !in pool.pending
      invariant pool.cancelled ==> context.IsCancelled()
      decreases pool.Work(n)
    {
      pool, looks := TakeResult(n, workerCount, accept, context, looks, pool);
    }
    pool.GoodMeans(n, workerCount, accept);
    if !pool.stoppedEarly {
      pool.Finished(n, workerCount, accept);
    }
    return pool.commits, pool.dispatchedAfter, pool.stoppedEarly, pool.cancelled || context.cancelledAt(looks + 1);
  }

  /** One worker at a time starts each item just after the commit before it. */
  lemma OneWorkerIsNeverStale(dispatchedAfter: seq<nat>, i: nat)
    requires Timely(dispatchedAfter, 1) && i < |dispatchedAfter|
    ensures dispatchedAfter[i] == i
  {
  }
}
