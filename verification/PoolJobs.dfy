/**
 * Where the pool's results come from. Over every run each ticket keeps the job
 * submitted under it until it settles, its result is about that job's function
 * and has exactly one of the outcomes its history allows, and jobs start in the
 * order of their submission.
 */
module PoolJobs {
  import opened Words
  import opened WorkerPool

  // ---- one step ---------------------------------------------------------------------------------------

  /** The result of a queued job that never ran. */
  ghost predicate DrainedFrom(queue: seq<Queued>, t: nat, outcome: Status, r: Result) {
    exists i :: 0 <= i < |queue| && queue[i].ticket == t && r == Result(t, queue[i].job.functionStart, outcome, [])
  }

  /** The result of a job whose executor returned: its own status, or a cancellation if the pool has moved on. */
  ghost predicate ReturnedFrom(p: Pool, w: nat, status: Status, runs: Bytes, t: nat, r: Result) {
    && w < |p.workers| && p.workers[w].Executing?
    && var item := p.workers[w].item;
       && item.ticket == t
       && r == Result(t, item.job.functionStart, if item.generation == p.generation then status else Cancelled, runs)
  }

  /** What a ticket's result is, given the step that settles it. */
  ghost predicate Origin(p: Pool, e: Event, t: nat, r: Result) {
    match e
    case TrySubmit(job) =>
      t == p.nextTicket && p.available == 0 && p.initialized == p.requested &&
      r == Result(t, job.functionStart, Unavailable, [])
    case Ready(_, usable) => !usable && p.available == 0 && DrainedFrom(p.queue, t, Unavailable, r)
    case Finish(w, status, runs) => ReturnedFrom(p, w, status, runs, t, r)
    case Cancel => DrainedFrom(p.queue, t, Cancelled, r)
    case Stop => DrainedFrom(p.queue, t, Cancelled, r)
    case _ => false
  }

  lemma {:induction false} DrainedExactly(completed: map<nat, Result>, queue: seq<Queued>, status: Status, t: nat)
    requires t in DrainInto(completed, queue, status) && t !in completed
    ensures DrainedFrom(queue, t, if status.Unavailable? then Unavailable else Cancelled,
                        DrainInto(completed, queue, status)[t])
    decreases |queue|
  {
    var first := completed[queue[0].ticket := Drained(queue[0], status)];
    if t in first {
      DrainIntoKeeps(first, queue[1..], status, t);
    } else {
      DrainedExactly(first, queue[1..], status, t);
      var i :| 0 <= i < |queue[1..]| && queue[1..][i].ticket == t &&
        DrainInto(completed, queue, status)[t] ==
        Result(t, queue[1..][i].job.functionStart, if status.Unavailable? then Unavailable else Cancelled, []);
      assert queue[i + 1] == queue[1..][i];
    }
  }

  /** The drain keeps what is there, unless the queue repeats the ticket. */
  lemma {:induction false} DrainIntoKeeps(completed: map<nat, Result>, queue: seq<Queued>, status: Status, t: nat)
    requires t in completed
    ensures t in DrainInto(completed, queue, status)
    ensures DrainInto(completed, queue, status)[t] == completed[t] ||
            DrainedFrom(queue, t, if status.Unavailable? then Unavailable else Cancelled,
                        DrainInto(completed, queue, status)[t])
    decreases |queue|
  {
    if queue != [] {
      var first := completed[queue[0].ticket := Drained(queue[0], status)];
      DrainIntoKeeps(first, queue[1..], status, t);
      if DrainInto(completed, queue, status)[t] != first[t] {
        var i :| 0 <= i < |queue[1..]| && queue[1..][i].ticket == t &&
          DrainInto(completed, queue, status)[t] ==
          Result(t, queue[1..][i].job.functionStart, if status.Unavailable? then Unavailable else Cancelled, []);
        assert queue[i + 1] == queue[1..][i];
      }
    }
  }

  /** A pool with the results and queue of `p`, drained. */
  lemma {:induction false} DrainOrigin(p: Pool, q: Pool, status: Status, t: nat)
    requires Almost(q) && q.completed == p.completed && q.queue == p.queue
    requires t in Drain(q, status).completed && t !in p.completed
    ensures DrainedFrom(p.queue, t, if status.Unavailable? then Unavailable else Cancelled,
                        Drain(q, status).completed[t])
  {
    hide Almost, Drain, DrainInto, PoolInv, DrainedFrom;
    DrainKeeps(q, status);
    DrainedExactly(q.completed, q.queue, status, t);
  }

  lemma {:induction false} ReadyOrigin(p: Pool, w: nat, usable: bool, t: nat)
    requires PoolInv(p) && Enabled(p, Ready(w, usable))
    requires t in WorkerReady(p, w, usable).completed && t !in p.completed
    ensures Origin(p, Ready(w, usable), t, WorkerReady(p, w, usable).completed[t])
  {
    hide PoolInv, Almost, Drain, DrainedFrom;
    ReportedKeeps(p, w, usable);
    DrainOrigin(p, Reported(p, w, usable), Unavailable, t);
  }

  lemma {:induction false} CancelOrigin(p: Pool, stop: bool, t: nat)
    requires PoolInv(p) && !p.stopping && (stop ==> !p.constructing)
    requires t in Drain(MovedOn(p, stop), Cancelled).completed && t !in p.completed
    ensures DrainedFrom(p.queue, t, Cancelled, Drain(MovedOn(p, stop), Cancelled).completed[t])
  {
    hide PoolInv, Almost, Drain, DrainedFrom;
    MovedOnKeeps(p, stop);
    DrainOrigin(p, MovedOn(p, stop), Cancelled, t);
  }

  /** Every result a step adds is the one its origin says. */
  lemma {:induction false} NewResults(p: Pool, e: Event, t: nat)
    requires PoolInv(p) && Enabled(p, e) && t in Apply(p, e).completed && t !in p.completed
    ensures Origin(p, e, t, Apply(p, e).completed[t])
  {
    hide PoolInv, Drain, DrainedFrom;
    match e
    case Ready(w, usable) => hide WorkerReady, Origin; ReadyOrigin(p, w, usable, t);
    case Cancel => CancelOrigin(p, false, t);
    case Stop => CancelOrigin(p, true, t);
    case ThreadsMissing => MissingResults(p); NothingMissing(p);
    case _ =>
  }

  lemma {:induction false} NothingMissing(p: Pool)
    requires PoolInv(p) && Enabled(p, ThreadsMissing)
    ensures CreationFailed(p).completed == p.completed
  {
    EmptyQueue(p.queue);
  }

  /** Queued items stay as they were or are the job just submitted; workers take the oldest. */
  ghost predicate ItemsCome(p: Pool, e: Event, q: Pool) {
    && (forall i :: 0 <= i < |q.queue| ==>
          q.queue[i] in p.queue || (e.TrySubmit? && q.queue[i] == Queued(p.nextTicket, p.generation, e.job)))
    && (forall w :: 0 <= w < |q.workers| && q.workers[w].Executing? ==>
          || (w < |p.workers| && q.workers[w] == p.workers[w])
          || (e == Take(w) && p.queue != [] && q.workers[w].item == p.queue[0]))
  }

  lemma {:induction false} StepItems(p: Pool, e: Event)
    requires Enabled(p, e)
    ensures ItemsCome(p, e, Apply(p, e))
  {
    hide Drain;
  }

  // ---- jobs of tickets ------------------------------------------------------------------------------------

  /** The event is a submission that was given a ticket. */
  ghost predicate Accepted(p: Pool, e: Event, q: Pool) { e.TrySubmit? && q.nextTicket == p.nextTicket + 1 }

  /** What is known of ticket `t` once `job` was accepted under it. */
  ghost predicate KeepsJob(w: World, t: nat, job: Job) {
    && 1 <= t < w.pool.nextTicket
    && (forall i :: 0 <= i < |w.pool.queue| && w.pool.queue[i].ticket == t ==> w.pool.queue[i].job == job)
    && (forall v :: 0 <= v < |w.pool.workers| && w.pool.workers[v].Executing? && w.pool.workers[v].item.ticket == t ==>
          w.pool.workers[v].item.job == job)
    && (t in w.log ==> w.log[t].functionStart == job.functionStart)
  }

  lemma {:induction false} OriginKeepsJob(w: World, e: Event, t: nat, r: Result, job: Job)
    requires KeepsJob(w, t, job) && Origin(w.pool, e, t, r)
    ensures r.functionStart == job.functionStart
  {
  }

  lemma {:induction false} NextLog(w: World, e: Event, t: nat)
    requires Inv(w) && Enabled(w.pool, e) && t in Next(w, e).log && t !in w.log
    ensures t in Apply(w.pool, e).completed && t !in w.pool.completed
    ensures Next(w, e).log[t] == Apply(w.pool, e).completed[t]
  {
    hide Apply, Enabled, PoolInv;
  }

  lemma {:induction false} StepKeepsJob(w: World, e: Event, t: nat, job: Job)
    requires Inv(w) && Enabled(w.pool, e) && KeepsJob(w, t, job)
    ensures KeepsJob(Next(w, e), t, job)
  {
    hide Inv, Apply, Enabled, Origin;
    var q := Apply(w.pool, e);
    StepItems(w.pool, e);
    NextKeeps(w, e);
    StepTickets(w.pool, e);
    if t in Next(w, e).log && t !in w.log {
      NextLog(w, e, t);
      ResultOrigin(w, e, t);
      OriginKeepsJob(w, e, t, q.completed[t], job);
    }
  }

  lemma {:induction false} ResultOrigin(w: World, e: Event, t: nat)
    requires Inv(w) && Enabled(w.pool, e) && t in Apply(w.pool, e).completed && t !in w.pool.completed
    ensures Origin(w.pool, e, t, Apply(w.pool, e).completed[t])
  {
    hide PoolInv, Apply, Enabled, Origin;
    NewResults(w.pool, e, t);
  }

  lemma {:induction false} StepTickets(p: Pool, e: Event)
    requires Enabled(p, e)
    ensures p.nextTicket <= Apply(p, e).nextTicket <= p.nextTicket + 1
    ensures Apply(p, e).nextTicket > p.nextTicket ==> Accepted(p, e, Apply(p, e))
  {
    hide Drain;
  }

  /** An accepted job waits under its ticket, unless no worker is left to run it. */
  lemma {:induction false} AcceptedKeepsJob(w: World, e: Event)
    requires Inv(w) && Enabled(w.pool, e) && Accepted(w.pool, e, Apply(w.pool, e))
    ensures KeepsJob(Next(w, e), w.pool.nextTicket, e.job)
  {
    hide PoolInv, NoneAvailable;
    TicketsBelow(w.pool);
  }

  lemma {:induction false} TicketsBelow(p: Pool)
    requires PoolInv(p)
    ensures 1 <= p.nextDelivery <= p.nextTicket
    ensures forall i :: 0 <= i < |p.queue| ==> p.queue[i].ticket < p.nextTicket
    ensures forall v :: 0 <= v < |p.workers| && p.workers[v].Executing? ==> p.workers[v].item.ticket < p.nextTicket
    ensures forall t :: t in p.completed ==> t < p.nextTicket
  {
    assert forall i :: 0 <= i < |p.queue| ==> InQueue(p.queue, p.queue[i].ticket);
    assert forall v :: 0 <= v < |p.workers| && p.workers[v].Executing? ==>
             IsRunning(p.workers, p.workers[v].item.ticket);
    hide InQueue, IsRunning, QueueAscends, WorkersDistinct, Counters, Bounded, Generations;
  }

  /**
   * Over every run: once a submission is given a ticket, the queued or running
   * item of that ticket holds the submitted job, and its result, however it comes
   * about, is about that job's function, in the log and when it is handed out.
   */
  lemma {:induction false} TicketsKeepJobs(trace: seq<World>, events: seq<Event>, workerCount: nat, maxQueued: nat,
                                           i: nat, j: nat)
    requires Run(trace, events, workerCount, maxQueued) && i < j < |trace|
    requires events[i].TrySubmit? && Accepted(trace[i].pool, events[i], trace[i + 1].pool)
    ensures KeepsJob(trace[j], trace[i].pool.nextTicket, events[i].job)
    ensures forall k :: 0 <= k < |trace[j].outputs| && trace[j].outputs[k].ticket == trace[i].pool.nextTicket ==>
              trace[j].outputs[k].functionStart == events[i].job.functionStart
    decreases j
  {
    hide Inv, Apply, Enabled, KeepsJob, Accepted;
    assert trace[j] == Next(trace[j - 1], events[j - 1]);
    EveryRun(trace, events, workerCount, maxQueued, j - 1);
    EveryRun(trace, events, workerCount, maxQueued, j);
    if j == i + 1 {
      AcceptedKeepsJob(trace[i], events[i]);
    } else {
      TicketsKeepJobs(trace, events, workerCount, maxQueued, i, j - 1);
      StepKeepsJob(trace[j - 1], events[j - 1], trace[i].pool.nextTicket, events[i].job);
    }
    OutputsKeepJob(trace[j], trace[i].pool.nextTicket, events[i].job);
  }

  lemma {:induction false} OutputsKeepJob(w: World, t: nat, job: Job)
    requires Inv(w) && KeepsJob(w, t, job)
    ensures forall k :: 0 <= k < |w.outputs| && w.outputs[k].ticket == t ==>
              w.outputs[k].functionStart == job.functionStart
  {
    hide PoolInv;
  }

  /** Over every run: each logged result was added by one step, whose origin it has. */
  lemma {:induction false} EveryResultHasOrigin(trace: seq<World>, events: seq<Event>, workerCount: nat,
                                                maxQueued: nat, j: nat, t: nat)
    returns (k: nat)
    requires Run(trace, events, workerCount, maxQueued) && j < |trace| && t in trace[j].log
    ensures k < j && t !in trace[k].log && Origin(trace[k].pool, events[k], t, trace[j].log[t])
    decreases j
  {
    hide Inv, Apply, Enabled, Origin;
    assert j > 0;
    var w, e := trace[j - 1], events[j - 1];
    assert trace[j] == Next(w, e);
    EveryRun(trace, events, workerCount, maxQueued, j - 1);
    NextKeeps(w, e);
    if t in w.log {
      k := EveryResultHasOrigin(trace, events, workerCount, maxQueued, j - 1, t);
    } else {
      NextLog(w, e, t);
      ResultOrigin(w, e, t);
      k := j - 1;
    }
  }

  // ---- the order of starts ------------------------------------------------------------------------------------

  /** Every queued ticket, and every ticket still to be given, is later than `t`. */
  ghost predicate AllLater(p: Pool, t: nat) {
    t < p.nextTicket && forall i :: 0 <= i < |p.queue| ==> t < p.queue[i].ticket
  }

  lemma {:induction false} LaterStays(p: Pool, e: Event, t: nat)
    requires Enabled(p, e) && AllLater(p, t)
    ensures AllLater(Apply(p, e), t)
  {
    hide Apply, Enabled;
    StepItems(p, e);
    StepTickets(p, e);
  }

  lemma {:induction false} TakesOldest(p: Pool, w: nat)
    requires PoolInv(p) && Enabled(p, Take(w))
    ensures AllLater(Apply(p, Take(w)), p.queue[0].ticket)
    ensures Apply(p, Take(w)).workers[w] == Executing(p.queue[0])
  {
    TicketsBelow(p);
    hide InQueue, IsRunning, WorkersDistinct, Counters, Bounded, Generations;
  }

  /** The ticket of the job a worker starts on. */
  ghost function StartedAt(p: Pool, e: Event): nat
    requires e.Take? && Enabled(p, e)
  {
    Apply(p, e).workers[e.worker].item.ticket
  }

  lemma {:induction false} AfterStart(trace: seq<World>, events: seq<Event>, workerCount: nat, maxQueued: nat, i: nat,
                                      j: nat)
    requires Run(trace, events, workerCount, maxQueued) && i < j < |trace| && events[i].Take?
    ensures AllLater(trace[j].pool, StartedAt(trace[i].pool, events[i]))
    decreases j
  {
    hide Inv, Apply, Enabled, AllLater;
    if j == i + 1 {
      EveryRun(trace, events, workerCount, maxQueued, i);
      StartOldest(trace[i], events[i]);
    } else {
      AfterStart(trace, events, workerCount, maxQueued, i, j - 1);
      LaterStays(trace[j - 1].pool, events[j - 1], StartedAt(trace[i].pool, events[i]));
    }
  }

  lemma {:induction false} StartOldest(w: World, e: Event)
    requires Inv(w) && e.Take? && Enabled(w.pool, e)
    ensures w.pool.queue != [] && StartedAt(w.pool, e) == w.pool.queue[0].ticket
    ensures AllLater(Apply(w.pool, e), StartedAt(w.pool, e))
  {
    hide PoolInv, AllLater;
    TakesOldest(w.pool, e.worker);
  }

  /** Over every run jobs start in the order in which they were submitted. */
  lemma {:induction false} StartsInOrder(trace: seq<World>, events: seq<Event>, workerCount: nat, maxQueued: nat,
                                         i: nat, j: nat)
    requires Run(trace, events, workerCount, maxQueued) && i < j < |events| && events[i].Take? && events[j].Take?
    ensures StartedAt(trace[i].pool, events[i]) < StartedAt(trace[j].pool, events[j])
  {
    hide Inv, Apply;
    EveryRun(trace, events, workerCount, maxQueued, j);
    AfterStart(trace, events, workerCount, maxQueued, i, j);
    StartOldest(trace[j], events[j]);
  }

  // ---- acceptance --------------------------------------------------------------------------------------------

  /** The ticket waits at the end of the queue under the current generation. */
  ghost predicate Enqueued(p: Pool, job: Job, q: Pool) {
    q.queue == p.queue + [Queued(p.nextTicket, p.generation, job)] && q.completed == p.completed
  }

  /** The ticket is settled at once because no worker came up. */
  ghost predicate TurnedAway(p: Pool, job: Job, q: Pool) {
    && q.queue == p.queue
    && q.completed == p.completed[p.nextTicket := Result(p.nextTicket, job.functionStart, Unavailable, [])]
  }

  /**
   * A submission is accepted if and only if the pool is not stopping, tickets are
   * left, and, where there is a limit, the queue is below it and undelivered work
   * below it and the workers together. A refused one changes nothing.
   */
  lemma {:induction false} AcceptedExactly(p: Pool, job: Job)
    requires PoolInv(p) && Enabled(p, TrySubmit(job))
    ensures var q := Apply(p, TrySubmit(job));
            var room := p.maxQueued == 0 ||
                        (|p.queue| < p.maxQueued && p.nextTicket - p.nextDelivery < p.requested + p.maxQueued);
            if !p.stopping && p.nextTicket < MAX_U64 && room
            then Accepted(p, TrySubmit(job), q) &&
                 if p.initialized == p.requested && p.available == 0 then TurnedAway(p, job, q) else Enqueued(p, job, q)
            else q == p
  {
  }

  // ---- the size of the pool -------------------------------------------------------------------------------------

  lemma {:induction false} DrainKeepsSize(p: Pool, status: Status)
    ensures Drain(p, status).requested == p.requested && Drain(p, status).maxQueued == p.maxQueued
    decreases |p.queue|
  {
    if p.queue != [] {
      DrainKeepsSize(Settle(p.(queue := p.queue[1..]), Drained(p.queue[0], status)), status);
    }
  }

  lemma {:induction false} StepKeepsSize(p: Pool, e: Event)
    requires Enabled(p, e)
    ensures Apply(p, e).requested == p.requested && Apply(p, e).maxQueued == p.maxQueued
  {
    forall q, status ensures Drain(q, status).requested == q.requested && Drain(q, status).maxQueued == q.maxQueued {
      DrainKeepsSize(q, status);
    }
    hide Drain;
  }

  /** Over every run the pool keeps the queue limit and the workers asked for, at least one. */
  lemma {:induction false} SizeKept(trace: seq<World>, events: seq<Event>, workerCount: nat, maxQueued: nat, i: nat)
    requires Run(trace, events, workerCount, maxQueued) && i < |trace|
    ensures trace[i].pool.maxQueued == maxQueued && trace[i].pool.requested >= 1
    ensures workerCount == 0 ==> trace[i].pool.requested == 1
    ensures workerCount > 0 ==> trace[i].pool.requested == workerCount
    decreases i
  {
    hide Apply, Enabled;
    if i > 0 {
      SizeKept(trace, events, workerCount, maxQueued, i - 1);
      StepKeepsSize(trace[i - 1].pool, events[i - 1]);
    }
  }
}
