/**
 * The worker pool as the object it is: fields updated in place, one method per
 * locked section. Each method is proved to take the step of the same name, so
 * what WorkerPool proves of every run of steps holds of every run of this object.
 */
module EmulationWorkers {
  import opened Words
  import opened WorkerPool

  /** The pool after handing out `n` results. */
  ghost function TakenTimes(p: Pool, n: nat): Pool {
    if n == 0 then p else TakeNext(TakenTimes(p, n - 1))
  }

  lemma {:induction false} TakenTimesKeeps(p: Pool, n: nat)
    requires PoolInv(p)
    ensures PoolInv(TakenTimes(p, n))
  {
    hide PoolInv, TakeNext;
    if n > 0 {
      TakenTimesKeeps(p, n - 1);
      TakeNextKeeps(TakenTimes(p, n - 1));
    }
  }

  /** The results are those of the tickets from `start` on, none skipped. */
  ghost predicate Consecutive(results: seq<Result>, completed: map<nat, Result>, start: nat) {
    forall t: nat :: start <= t < start + |results| ==> t in completed && results[t - start] == completed[t]
  }

  lemma {:induction false} ConsecutiveGrows(results: seq<Result>, completed: map<nat, Result>, start: nat,
                                            r: Result)
    requires Consecutive(results, completed, start)
    requires start + |results| in completed && r == completed[start + |results|]
    ensures Consecutive(results + [r], completed, start)
  {
  }

  /** The results left when `n` from `start` on are gone. */
  ghost function Without(completed: map<nat, Result>, start: nat, n: nat): map<nat, Result> {
    map t | t in completed && !(start <= t < start + n) :: completed[t]
  }

  lemma {:induction false} WithoutStep(completed: map<nat, Result>, start: nat, n: nat)
    requires start + n in completed
    ensures var before := Without(completed, start, n);
            && start + n in before && before[start + n] == completed[start + n]
            && before - {start + n} == Without(completed, start, n + 1)
            && |before - {start + n}| < |before|
  {
    var before := Without(completed, start, n);
    assert (before - {start + n}).Keys == before.Keys - {start + n};
  }

  /** The pool once `n` results are gone. */
  ghost function Handed(p: Pool, n: nat): Pool {
    p.(completed := Without(p.completed, p.nextDelivery, n), nextDelivery := p.nextDelivery + n,
       delivered := p.delivered + n)
  }

  lemma {:induction false} HandedNext(p: Pool, n: nat)
    requires p.nextDelivery + n in p.completed
    ensures TakeNext(Handed(p, n)) == Handed(p, n + 1)
  {
    WithoutStep(p.completed, p.nextDelivery, n);
    hide Without;
  }

  lemma {:induction false} TakenTimesIs(p: Pool, results: seq<Result>)
    requires Consecutive(results, p.completed, p.nextDelivery)
    ensures TakenTimes(p, |results|) == Handed(p, |results|)
  {
    hide TakeNext;
    var n := |results|;
    if n == 0 {
      assert Without(p.completed, p.nextDelivery, 0) == p.completed;
    } else {
      hide Handed;
      TakenTimesIs(p, results[..n - 1]);
      assert p.nextDelivery + n - 1 in p.completed;
      HandedNext(p, n - 1);
    }
  }

  /** Take consecutive results out of the buffer while there are any and the maximum allows. */
  method ReadyPrefix(completed: map<nat, Result>, start: nat, maximum: nat)
    returns (results: seq<Result>, rest: map<nat, Result>)
    ensures rest == Without(completed, start, |results|) && Consecutive(results, completed, start)
    ensures maximum != 0 ==> |results| <= maximum
    ensures |results| == maximum != 0 || start + |results| !in completed
  {
    results, rest := [], completed;
    assert Without(completed, start, 0) == completed;
    assert Consecutive(results, completed, start);
    hide Consecutive, Without;
    while (maximum == 0 || |results| < maximum) && start + |results| in rest
      invariant rest == Without(completed, start, |results|) && Consecutive(results, completed, start)
      invariant maximum != 0 ==> |results| <= maximum
      decreases |rest|
    {
      var next := start + |results|;
      ConsecutiveGrows(results, completed, start, rest[next]);
      WithoutStep(completed, start, |results|);
      results, rest := results + [rest[next]], rest - {next};
    }
  }

  class EmulationWorkerPool {
    const requestedWorkers: nat
    const maxQueuedJobs: nat
    var constructing: bool
    var missingThreads: nat
    var generation: nat
    var stopping: bool
    var queue: seq<Queued>
    var completed: map<nat, Result>
    var threads: seq<Worker>
    var nextTicket: nat
    var nextDelivery: nat
    var submitted: nat
    var settled: nat
    var delivered: nat
    var unsettled: nat
    var initializedWorkers: nat
    var availableWorkers: nat
    var unavailableWorkers: nat
    var running: nat

    function State(): Pool
      reads this
    {
      Pool(requestedWorkers, maxQueuedJobs, constructing, missingThreads, generation, stopping,
           queue, completed, threads, nextTicket, nextDelivery, submitted, settled, delivered, unsettled,
           initializedWorkers, availableWorkers, unavailableWorkers, running)
    }

    /** The invariant every run of steps keeps. */
    ghost predicate Valid()
      reads this
    {
      PoolInv(State())
    }

    constructor (workerCount: nat, maxQueued: nat)
      ensures Valid() && State() == Initial(workerCount, maxQueued)
    {
      requestedWorkers := if workerCount == 0 then 1 else workerCount;
      maxQueuedJobs := maxQueued;
      constructing, missingThreads, generation, stopping := true, 0, 1, false;
      queue, completed, threads := [], map[], [];
      nextTicket, nextDelivery := 1, 1;
      submitted, settled, delivered, unsettled := 0, 0, 0, 0;
      initializedWorkers, availableWorkers, unavailableWorkers, running := 0, 0, 0, 0;
      new;
      InitialInv(workerCount, maxQueued);
    }

    method CreateThread() returns (index: nat)
      requires Valid() && Enabled(State(), Event.CreateThread)
      modifies this
      ensures Valid()
      ensures State() == Apply(old(State()), Event.CreateThread) && index == old(|threads|)
    {
      hide PoolInv;
      StepKeepsPool(State(), Event.CreateThread);
      index := |threads|;
      threads := threads + [Initializing];
    }

    /** All threads exist. */
    method FinishConstruction()
      requires Valid() && Enabled(State(), Constructed)
      modifies this
      ensures Valid()
      ensures State() == Apply(old(State()), Constructed)
    {
      hide PoolInv;
      StepKeepsPool(State(), Constructed);
      constructing := false;
    }

    method CreationGaveOut()
      requires Valid() && Enabled(State(), ThreadsMissing)
      modifies this
      ensures Valid()
      ensures State() == Apply(old(State()), ThreadsMissing)
    {
      hide PoolInv, Drain;
      StepKeepsPool(State(), ThreadsMissing);
      var created := |threads|;
      var missing := if requestedWorkers > created then requestedWorkers - created else 0;
      constructing, missingThreads := false, missing;
      initializedWorkers := initializedWorkers + missing;
      unavailableWorkers := unavailableWorkers + missing;
      if created == 0 {
        DrainQueuedLocked(Unavailable);
      }
    }

    method SettleLocked(result: Result)
      modifies this
      ensures State() == Settle(old(State()), result)
    {
      if result.ticket !in completed {
        completed := completed[result.ticket := result];
        settled := settled + 1;
        if unsettled != 0 {
          unsettled := unsettled - 1;
        }
      }
    }

    method DrainQueuedLocked(status: Status)
      modifies this
      ensures State() == Drain(old(State()), status)
    {
      while queue != []
        invariant Drain(State(), status) == Drain(old(State()), status)
        decreases |queue|
      {
        var item := queue[0];
        queue := queue[1..];
        SettleLocked(Drained(item, status));
      }
    }

    /** The section a worker runs after asking the factory for its executor. */
    method ReportReady(index: nat, available: bool)
      requires Valid() && Enabled(State(), Ready(index, available))
      modifies this
      ensures Valid()
      ensures State() == Apply(old(State()), Ready(index, available))
    {
      hide PoolInv, Drain;
      StepKeepsPool(State(), Ready(index, available));
      initializedWorkers := initializedWorkers + 1;
      if available {
        availableWorkers := availableWorkers + 1;
      } else {
        unavailableWorkers := unavailableWorkers + 1;
      }
      threads := threads[index := if available then Waiting else Exited(false)];
      if initializedWorkers == requestedWorkers && availableWorkers == 0 {
        DrainQueuedLocked(Unavailable);
      }
    }

    /** The section a waiting worker runs once the pool stops or a job is queued. */
    method TakeJob(index: nat) returns (item: Option<Queued>)
      requires Valid()
      requires Enabled(State(), Take(index)) || Enabled(State(), Exit(index))
      modifies this
      ensures Valid()
      ensures item.None? <==> old(stopping)
      ensures item.Some? ==> State() == Apply(old(State()), Take(index)) && item.value == old(queue[0])
      ensures item.None? ==> State() == Apply(old(State()), Exit(index))
    {
      hide PoolInv;
      StepKeepsPool(State(), if stopping then Exit(index) else Take(index));
      if stopping {
        threads := threads[index := Exited(true)];
        return None;
      }
      item := Some(queue[0]);
      threads := threads[index := Executing(queue[0])];
      queue := queue[1..];
      running := running + 1;
    }

    /** The section a worker runs when its executor has returned or thrown. */
    method FinishJob(index: nat, item: Queued, status: Status, runs: Bytes)
      requires Valid() && Enabled(State(), Finish(index, status, runs)) && threads[index].item == item
      modifies this
      ensures Valid()
      ensures State() == Apply(old(State()), Finish(index, status, runs))
      ensures item.ticket in completed && completed[item.ticket] ==
              Result(item.ticket, item.job.functionStart,
                     if item.generation == generation then status else Cancelled, runs)
    {
      hide PoolInv;
      RunningUnsettled(State(), index);
      StepKeepsPool(State(), Finish(index, status, runs));
      if running != 0 {
        running := running - 1;
      }
      threads := threads[index := Waiting];
      var outcome := status;
      if generation != item.generation && status != Cancelled {
        outcome := Cancelled;
      }
      SettleLocked(Result(item.ticket, item.job.functionStart, outcome, runs));
    }

    method TrySubmit(job: Job) returns (ticket: Option<nat>)
      requires Valid() && Enabled(State(), Event.TrySubmit(job))
      modifies this
      ensures Valid()
      ensures State() == Apply(old(State()), Event.TrySubmit(job))
      ensures ticket == if old(Refuses(State())) then None else Some(old(nextTicket))
    {
      hide PoolInv;
      StepKeepsPool(State(), Event.TrySubmit(job));
      if stopping {
        return None;
      }
      if maxQueuedJobs != 0 && |queue| >= maxQueuedJobs {
        return None;
      }
      var outstanding := nextTicket - nextDelivery;
      if maxQueuedJobs != 0 && outstanding >= requestedWorkers && outstanding - requestedWorkers >= maxQueuedJobs {
        return None;
      }
      if nextTicket == MAX_U64 {
        return None;
      }
      var given := nextTicket;
      nextTicket := nextTicket + 1;
      submitted := submitted + 1;
      unsettled := unsettled + 1;
      if initializedWorkers == requestedWorkers && availableWorkers == 0 {
        SettleLocked(Result(given, job.functionStart, Unavailable, []));
      } else {
        queue := queue + [Queued(given, generation, job)];
      }
      ticket := Some(given);
    }

    method TryTakeNext() returns (out: Option<Result>)
      requires Valid()
      modifies this`completed, this`nextDelivery, this`delivered
      ensures Valid()
      ensures State() == TakeNext(old(State()))
      ensures out == if old(nextDelivery in completed) then Some(old(completed[nextDelivery])) else None
    {
      hide PoolInv;
      TakeNextKeeps(State());
      if nextDelivery !in completed {
        return None;
      }
      out := Some(completed[nextDelivery]);
      completed := completed - {nextDelivery};
      nextDelivery := nextDelivery + 1;
      delivered := delivered + 1;
    }

    /** The longest run of consecutive results within `maximum` (zero means no maximum). */
    method TakeReady(maximum: nat) returns (results: seq<Result>)
      requires Valid()
      modifies this`completed, this`nextDelivery, this`delivered
      ensures Valid()
      ensures State() == TakenTimes(old(State()), |results|)
      ensures Consecutive(results, old(completed), old(nextDelivery))
      ensures maximum != 0 ==> |results| <= maximum
      ensures |results| == maximum != 0 || old(nextDelivery) + |results| !in old(completed)
    {
      hide PoolInv;
      var rest;
      results, rest := ReadyPrefix(completed, nextDelivery, maximum);
      TakenTimesIs(State(), results);
      TakenTimesKeeps(State(), |results|);
      hide Consecutive, Without, TakenTimes;
      completed := rest;
      nextDelivery := nextDelivery + |results|;
      delivered := delivered + |results|;
    }

    method CancelPendingJobs()
      requires Valid() && Enabled(State(), Cancel)
      modifies this
      ensures Valid()
      ensures State() == Apply(old(State()), Cancel)
    {
      hide PoolInv, Drain;
      StepKeepsPool(State(), Cancel);
      if stopping {
        return;
      }
      generation := generation + 1;
      DrainQueuedLocked(Cancelled);
    }

    /** The locked part of stopping; joining waits until every thread has exited. */
    method StopLocked()
      requires Valid() && Enabled(State(), Stop)
      modifies this
      ensures Valid()
      ensures State() == Apply(old(State()), Stop)
    {
      hide PoolInv, Drain;
      StepKeepsPool(State(), Stop);
      if !stopping {
        stopping := true;
        generation := generation + 1;
        DrainQueuedLocked(Cancelled);
      }
    }
  }
}
