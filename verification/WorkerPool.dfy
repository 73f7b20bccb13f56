/**
 * The emulation worker pool. Each section executed under the pool's mutex is
 * one atomic step over the pool's fields; executors are arbitrary. Every run of
 * these steps keeps the accepted tickets partitioned, settles each exactly once
 * and delivers them in order.
 */
module WorkerPool {
  import opened Words

  datatype Status = Completed | Cancelled | Unavailable | Failed
  datatype Job = Job(functionStart: U64, input: Bytes)
  datatype Result = Result(ticket: nat, functionStart: U64, status: Status, runs: Bytes)
  datatype Queued = Queued(ticket: nat, generation: nat, job: Job)

  /** A worker thread between its locked sections. */
  datatype Worker = Initializing | Waiting | Executing(item: Queued) | Exited(usable: bool)

  datatype Pool = Pool(
    requested: nat, maxQueued: nat, constructing: bool, missing: nat,
    generation: nat, stopping: bool,
    queue: seq<Queued>, completed: map<nat, Result>, workers: seq<Worker>,
    nextTicket: nat, nextDelivery: nat,
    submitted: nat, settled: nat, delivered: nat, unsettled: nat,
    initialized: nat, available: nat, unavailable: nat, running: nat)

  // ---- locked sections ------------------------------------------------------------------------

  function Initial(workerCount: nat, maxQueued: nat): Pool {
    Pool(if workerCount == 0 then 1 else workerCount, maxQueued, true, 0, 1, false,
         [], map[], [], 1, 1, 0, 0, 0, 0, 0, 0, 0, 0)
  }

  /** Record the first result of a ticket; later ones are ignored. */
  function Settle(p: Pool, r: Result): Pool {
    if r.ticket in p.completed then p
    else p.(completed := p.completed[r.ticket := r], settled := p.settled + 1,
            unsettled := if p.unsettled == 0 then 0 else p.unsettled - 1)
  }

  function Drained(item: Queued, status: Status): Result {
    Result(item.ticket, item.job.functionStart, if status.Unavailable? then Unavailable else Cancelled, [])
  }

  function Drain(p: Pool, status: Status): (q: Pool)
    ensures q.queue == [] && q.workers == p.workers && q.generation == p.generation
    ensures q.nextTicket == p.nextTicket && q.nextDelivery == p.nextDelivery
    decreases |p.queue|
  {
    if p.queue == [] then p
    else Drain(Settle(p.(queue := p.queue[1..]), Drained(p.queue[0], status)), status)
  }

  predicate NoneAvailable(p: Pool) { p.initialized == p.requested && p.available == 0 }

  /** Thread creation gave out: the threads never created count as unavailable. */
  function CreationFailed(p: Pool): Pool {
    var missing := if p.requested > |p.workers| then p.requested - |p.workers| else 0;
    var q := p.(constructing := false, missing := missing, initialized := p.initialized + missing,
                unavailable := p.unavailable + missing);
    if |p.workers| == 0 then Drain(q, Unavailable) else q
  }

  /** The counters once worker `w` has reported whether its executor is usable. */
  function Reported(p: Pool, w: nat, usable: bool): Pool
    requires w < |p.workers|
  {
    p.(initialized := p.initialized + 1,
       available := if usable then p.available + 1 else p.available,
       unavailable := if usable then p.unavailable else p.unavailable + 1,
       workers := p.workers[w := if usable then Waiting else Exited(false)])
  }

  function WorkerReady(p: Pool, w: nat, usable: bool): Pool
    requires w < |p.workers|
  {
    var q := Reported(p, w, usable);
    if NoneAvailable(q) then Drain(q, Unavailable) else q
  }

  function WorkerTake(p: Pool, w: nat): Pool
    requires w < |p.workers| && p.queue != []
  {
    p.(queue := p.queue[1..], running := p.running + 1, workers := p.workers[w := Executing(p.queue[0])])
  }

  /** The executor's result under the item's ticket; a stale generation turns it into a cancellation. */
  function Finished(item: Queued, generation: nat, status: Status, runs: Bytes): Result {
    Result(item.ticket, item.job.functionStart, if generation != item.generation then Cancelled else status, runs)
  }

  function WorkerFinish(p: Pool, w: nat, status: Status, runs: Bytes): Pool
    requires w < |p.workers| && p.workers[w].Executing?
  {
    var item := p.workers[w].item;
    var q := p.(running := if p.running == 0 then 0 else p.running - 1, workers := p.workers[w := Waiting]);
    Settle(q, Finished(item, p.generation, status, runs))
  }

  /** The generation moves on, for good when the pool stops. */
  function MovedOn(p: Pool, stop: bool): Pool {
    p.(stopping := stop, generation := p.generation + 1)
  }

  function Shutdown(p: Pool): Pool {
    if p.stopping then p else Drain(MovedOn(p, true), Cancelled)
  }

  function CancelPending(p: Pool): Pool {
    if p.stopping then p else Drain(MovedOn(p, false), Cancelled)
  }

  predicate Refuses(p: Pool) {
    var outstanding := p.nextTicket - p.nextDelivery;
    || p.stopping
    || (p.maxQueued != 0 && |p.queue| >= p.maxQueued)
    || (p.maxQueued != 0 && outstanding >= p.requested && outstanding - p.requested >= p.maxQueued)
    || p.nextTicket == MAX_U64
  }

  function Submit(p: Pool, job: Job): Pool {
    if Refuses(p) then p
    else
      var ticket := p.nextTicket;
      var q := p.(nextTicket := ticket + 1, submitted := p.submitted + 1, unsettled := p.unsettled + 1);
      if NoneAvailable(q) then Settle(q, Result(ticket, job.functionStart, Unavailable, []))
      else q.(queue := q.queue + [Queued(ticket, q.generation, job)])
  }

  function TakeNext(p: Pool): Pool {
    if p.nextDelivery in p.completed then
      p.(completed := p.completed - {p.nextDelivery}, nextDelivery := p.nextDelivery + 1, delivered := p.delivered + 1)
    else p
  }

  // ---- runs ----------------------------------------------------------------------------------------

  datatype Event =
    | CreateThread | ThreadsMissing | Constructed
    | Ready(worker: nat, usable: bool) | Take(worker: nat) | Exit(worker: nat)
    | Finish(worker: nat, status: Status, runs: Bytes)
    | TrySubmit(job: Job) | TryTakeNext | Cancel | Stop

  predicate Enabled(p: Pool, e: Event) {
    match e
    case CreateThread => p.constructing && |p.workers| < p.requested
    case ThreadsMissing => p.constructing && |p.workers| < p.requested
    case Constructed => p.constructing && |p.workers| == p.requested
    case Ready(w, _) => w < |p.workers| && p.workers[w].Initializing?
    case Take(w) => w < |p.workers| && p.workers[w].Waiting? && !p.stopping && p.queue != []
    case Exit(w) => w < |p.workers| && p.workers[w].Waiting? && p.stopping
    case Finish(w, _, _) => w < |p.workers| && p.workers[w].Executing?
    case _ => !p.constructing
  }

  function Apply(p: Pool, e: Event): Pool
    requires Enabled(p, e)
  {
    match e
    case CreateThread => p.(workers := p.workers + [Initializing])
    case ThreadsMissing => CreationFailed(p)
    case Constructed => p.(constructing := false)
    case Ready(w, usable) => WorkerReady(p, w, usable)
    case Take(w) => WorkerTake(p, w)
    case Exit(w) => p.(workers := p.workers[w := Exited(true)])
    case Finish(w, status, runs) => WorkerFinish(p, w, status, runs)
    case TrySubmit(job) => Submit(p, job)
    case TryTakeNext => TakeNext(p)
    case Cancel => CancelPending(p)
    case Stop => Shutdown(p)
  }

  /** The pool together with everything ever settled and everything ever handed out. */
  datatype World = World(pool: Pool, log: map<nat, Result>, outputs: seq<Result>)

  ghost function Next(w: World, e: Event): World
    requires Enabled(w.pool, e)
  {
    var p := Apply(w.pool, e);
    World(p, w.log + p.completed,
          if e.TryTakeNext? && w.pool.nextDelivery in w.pool.completed
          then w.outputs + [w.pool.completed[w.pool.nextDelivery]] else w.outputs)
  }

  ghost predicate Run(trace: seq<World>, events: seq<Event>, workerCount: nat, maxQueued: nat) {
    && |trace| == |events| + 1 && trace[0] == World(Initial(workerCount, maxQueued), map[], [])
    && forall i :: 0 <= i < |events| ==> Enabled(trace[i].pool, events[i]) && trace[i + 1] == Next(trace[i], events[i])
  }

  // ---- the invariant -----------------------------------------------------------------------------------

  ghost predicate InQueue(queue: seq<Queued>, t: nat) { exists i :: 0 <= i < |queue| && queue[i].ticket == t }

  ghost predicate IsRunning(workers: seq<Worker>, t: nat) {
    exists w :: 0 <= w < |workers| && workers[w].Executing? && workers[w].item.ticket == t
  }

  ghost predicate QueueAscends(queue: seq<Queued>) {
    forall i, j :: 0 <= i < j < |queue| ==> queue[i].ticket < queue[j].ticket
  }

  ghost predicate WorkersDistinct(workers: seq<Worker>) {
    forall v, w :: 0 <= v < w < |workers| && workers[v].Executing? && workers[w].Executing? ==>
      workers[v].item.ticket != workers[w].item.ticket
  }

  predicate IsExecuting(w: Worker) { w.Executing? }
  predicate IsReady(w: Worker) { !w.Initializing? }
  predicate IsUsable(w: Worker) { w.Waiting? || w.Executing? || w == Exited(true) }

  function Count(workers: seq<Worker>, test: Worker -> bool): nat {
    if workers == [] then 0
    else Count(workers[..|workers| - 1], test) + if test(workers[|workers| - 1]) then 1 else 0
  }

  /** Buffered, queued and running tickets partition the accepted, undelivered ones. */
  ghost predicate Split(lo: nat, hi: nat, completed: map<nat, Result>, queue: seq<Queued>, workers: seq<Worker>) {
    && QueueAscends(queue) && WorkersDistinct(workers)
    && (forall t :: t in completed ==> lo <= t < hi && !InQueue(queue, t) && !IsRunning(workers, t))
    && (forall t: nat :: InQueue(queue, t) ==> lo <= t < hi && !IsRunning(workers, t))
    && (forall t: nat :: IsRunning(workers, t) ==> lo <= t < hi)
    && (forall t: nat :: lo <= t < hi ==> t in completed || InQueue(queue, t) || IsRunning(workers, t))
  }

  ghost predicate Partition(p: Pool) {
    1 <= p.nextDelivery <= p.nextTicket && Split(p.nextDelivery, p.nextTicket, p.completed, p.queue, p.workers)
  }

  ghost predicate Counters(p: Pool) {
    && p.submitted == p.nextTicket - 1 && p.delivered == p.nextDelivery - 1
    && p.settled == p.delivered + |p.completed| && p.submitted == p.settled + p.unsettled
    && p.unsettled == |p.queue| + p.running && p.running == Count(p.workers, IsExecuting)
    && p.initialized == Count(p.workers, IsReady) + p.missing
    && p.available == Count(p.workers, IsUsable) && p.unavailable == p.initialized - p.available
    && |p.workers| + p.missing <= p.requested
  }

  ghost predicate Limits(p: Pool) {
    && p.nextTicket <= MAX_U64
    && (p.maxQueued != 0 ==> p.nextTicket - p.nextDelivery <= p.maxQueued + p.requested)
    && (p.constructing ==> p.nextTicket == 1 && p.missing == 0 && !p.stopping)
  }

  /** The queue limit, the reorder-buffer limit, and when the queue must be empty. */
  ghost predicate Bounded(p: Pool) {
    && Limits(p)
    && (p.maxQueued != 0 ==> |p.queue| <= p.maxQueued)
    && (NoneAvailable(p) || p.stopping ==> p.queue == [])
  }

  /** Running items are never newer than the pool, and all are stale once it stops. */
  ghost predicate Stale(p: Pool) {
    forall w :: 0 <= w < |p.workers| && p.workers[w].Executing? ==>
      p.workers[w].item.generation <= p.generation &&
      (p.stopping ==> p.workers[w].item.generation < p.generation)
  }

  /** Every queued job carries the current generation. */
  ghost predicate Generations(p: Pool) {
    Stale(p) && forall i :: 0 <= i < |p.queue| ==> p.queue[i].generation == p.generation
  }

  ghost predicate PoolInv(p: Pool) {
    Partition(p) && Counters(p) && Bounded(p) && Generations(p)
  }

  /** The log holds one result per settled ticket; outputs are its prefix in ticket order. */
  ghost predicate Logged(w: World) {
    && (forall t :: t in w.log <==> 1 <= t < w.pool.nextDelivery || t in w.pool.completed)
    && (forall t :: t in w.pool.completed ==> w.log[t] == w.pool.completed[t])
    && |w.outputs| == w.pool.nextDelivery - 1
    && (forall i :: 0 <= i < |w.outputs| ==> i + 1 in w.log && w.outputs[i] == w.log[i + 1])
    && (forall t :: t in w.log ==> w.log[t].ticket == t)
  }

  ghost predicate Inv(w: World) { PoolInv(w.pool) && Logged(w) }

  // ---- queues and workers --------------------------------------------------------------------------------

  lemma {:induction false} QueueTail(queue: seq<Queued>)
    requires queue != [] && QueueAscends(queue)
    ensures QueueAscends(queue[1..])
    ensures forall t :: InQueue(queue[1..], t) <==> InQueue(queue, t) && t != queue[0].ticket
    ensures InQueue(queue, queue[0].ticket)
  {
    var tail := queue[1..];
    forall t ensures InQueue(tail, t) <==> InQueue(queue, t) && t != queue[0].ticket {
      if InQueue(queue, t) && t != queue[0].ticket {
        var i :| 0 <= i < |queue| && queue[i].ticket == t;
        assert tail[i - 1].ticket == t;
      }
      if InQueue(tail, t) {
        var i :| 0 <= i < |tail| && tail[i].ticket == t;
        assert queue[i + 1].ticket == t;
      }
    }
  }

  lemma {:induction false} EmptyQueue(queue: seq<Queued>)
    requires forall t: nat :: !InQueue(queue, t)
    ensures queue == []
  {
    assert |queue| > 0 ==> InQueue(queue, queue[0].ticket);
  }

  lemma {:induction false} QueueGrow(queue: seq<Queued>, item: Queued)
    requires QueueAscends(queue) && forall t: nat :: InQueue(queue, t) ==> t < item.ticket
    ensures QueueAscends(queue + [item])
    ensures forall t :: InQueue(queue + [item], t) <==> InQueue(queue, t) || t == item.ticket
  {
    var after := queue + [item];
    assert after[|queue|].ticket == item.ticket;
    forall i | 0 <= i < |queue| ensures InQueue(queue, queue[i].ticket) && after[i] == queue[i] {
    }
    forall t | InQueue(queue, t) ensures InQueue(after, t) {
      var i :| 0 <= i < |queue| && queue[i].ticket == t;
      assert after[i].ticket == t;
    }
  }

  lemma {:induction false} RunningStart(workers: seq<Worker>, w: nat, item: Queued)
    requires w < |workers| && workers[w].Waiting? && WorkersDistinct(workers) && !IsRunning(workers, item.ticket)
    ensures var after := workers[w := Executing(item)];
            WorkersDistinct(after) && forall t :: IsRunning(after, t) <==> IsRunning(workers, t) || t == item.ticket
  {
    var after := workers[w := Executing(item)];
    assert after[w].item.ticket == item.ticket;
    forall t | IsRunning(workers, t) ensures IsRunning(after, t) {
      var v :| 0 <= v < |workers| && workers[v].Executing? && workers[v].item.ticket == t;
      assert after[v] == workers[v];
    }
    forall v | 0 <= v < |workers| && workers[v].Executing? ensures IsRunning(workers, workers[v].item.ticket) {
    }
  }

  lemma {:induction false} RunningStop(workers: seq<Worker>, w: nat, other: Worker)
    requires w < |workers| && !other.Executing? && WorkersDistinct(workers)
    ensures var after := workers[w := other];
            WorkersDistinct(after) &&
            forall t :: IsRunning(after, t) <==>
                        IsRunning(workers, t) && !(workers[w].Executing? && workers[w].item.ticket == t)
  {
    var after := workers[w := other];
    forall t ensures IsRunning(after, t) <==>
                     IsRunning(workers, t) && !(workers[w].Executing? && workers[w].item.ticket == t)
    {
      if IsRunning(workers, t) && !(workers[w].Executing? && workers[w].item.ticket == t) {
        var v :| 0 <= v < |workers| && workers[v].Executing? && workers[v].item.ticket == t;
        assert after[v] == workers[v];
      }
      if IsRunning(after, t) {
        var v :| 0 <= v < |after| && after[v].Executing? && after[v].item.ticket == t;
        assert workers[v] == after[v] && v != w;
      }
    }
  }

  lemma {:induction false} CountUpdate(workers: seq<Worker>, w: nat, x: Worker, test: Worker -> bool)
    requires w < |workers|
    ensures Count(workers[w := x], test) ==
            Count(workers, test) - (if test(workers[w]) then 1 else 0) + (if test(x) then 1 else 0)
  {
    var last := |workers| - 1;
    var after := workers[w := x];
    if w == last {
      assert after[..last] == workers[..last];
    } else {
      assert after[..last] == workers[..last][w := x];
      CountUpdate(workers[..last], w, x, test);
    }
  }

  lemma {:induction false} CountsUpdate(workers: seq<Worker>, w: nat, x: Worker)
    requires w < |workers|
    ensures var after := workers[w := x];
            && Count(after, IsExecuting) ==
               Count(workers, IsExecuting) - (if workers[w].Executing? then 1 else 0) + (if x.Executing? then 1 else 0)
            && Count(after, IsReady) ==
               Count(workers, IsReady) - (if workers[w].Initializing? then 0 else 1) +
               (if x.Initializing? then 0 else 1)
            && Count(after, IsUsable) ==
               Count(workers, IsUsable) - (if IsUsable(workers[w]) then 1 else 0) + (if IsUsable(x) then 1 else 0)
  {
    CountUpdate(workers, w, x, IsExecuting);
    CountUpdate(workers, w, x, IsReady);
    CountUpdate(workers, w, x, IsUsable);
  }

  lemma {:induction false} CountPositive(workers: seq<Worker>, w: nat, test: Worker -> bool)
    requires w < |workers| && test(workers[w])
    ensures Count(workers, test) > 0
  {
    if w < |workers| - 1 {
      CountPositive(workers[..|workers| - 1], w, test);
    }
  }

  // ---- draining ----------------------------------------------------------------------------------------

  /** The completed results after settling a whole queue. */
  ghost function DrainInto(completed: map<nat, Result>, queue: seq<Queued>, status: Status): map<nat, Result>
    decreases |queue|
  {
    if queue == [] then completed
    else DrainInto(completed[queue[0].ticket := Drained(queue[0], status)], queue[1..], status)
  }

  /** Draining adds exactly the queued tickets, with the given outcome, and keeps earlier results. */
  lemma {:induction false} DrainSpec(completed: map<nat, Result>, queue: seq<Queued>, status: Status)
    requires QueueAscends(queue) && forall t :: t in completed ==> !InQueue(queue, t)
    ensures var c := DrainInto(completed, queue, status);
            && (forall t :: t in c <==> t in completed || InQueue(queue, t))
            && |c| == |completed| + |queue|
            && (forall t :: t in completed ==> c[t] == completed[t])
            && (forall t :: InQueue(queue, t) ==>
                  c[t].ticket == t && c[t].status == if status.Unavailable? then Unavailable else Cancelled)
    decreases |queue|
  {
    if queue != [] {
      QueueTail(queue);
      hide InQueue, QueueAscends;
      var first := completed[queue[0].ticket := Drained(queue[0], status)];
      assert |first| == |completed| + 1;
      DrainSpec(first, queue[1..], status);
    }
  }

  lemma {:induction false} DrainIs(p: Pool, status: Status)
    requires QueueAscends(p.queue) && (forall t :: t in p.completed ==> !InQueue(p.queue, t))
    requires p.unsettled >= |p.queue|
    ensures Drain(p, status) ==
            p.(queue := [], completed := DrainInto(p.completed, p.queue, status),
               settled := p.settled + |p.queue|, unsettled := p.unsettled - |p.queue|)
    decreases |p.queue|
  {
    if p.queue != [] {
      QueueTail(p.queue);
      hide InQueue, QueueAscends;
      var r := Settle(p.(queue := p.queue[1..]), Drained(p.queue[0], status));
      assert r == p.(queue := p.queue[1..], completed := p.completed[p.queue[0].ticket := Drained(p.queue[0], status)],
                     settled := p.settled + 1, unsettled := p.unsettled - 1);
      DrainIs(r, status);
    }
  }

  // ---- every step keeps the partition ---------------------------------------------------------------------

  lemma {:induction false} SplitDrain(lo: nat, hi: nat, completed: map<nat, Result>, queue: seq<Queued>,
                                      workers: seq<Worker>, status: Status)
    requires Split(lo, hi, completed, queue, workers)
    ensures Split(lo, hi, DrainInto(completed, queue, status), [], workers)
  {
    DrainSpec(completed, queue, status);
    assert forall t: nat :: !InQueue([], t);
    hide IsRunning, InQueue, DrainInto, WorkersDistinct;
  }

  /** A worker that was not executing becomes another one that is not. */
  lemma {:induction false} SplitIdle(lo: nat, hi: nat, completed: map<nat, Result>, queue: seq<Queued>,
                                     workers: seq<Worker>, w: nat, other: Worker)
    requires Split(lo, hi, completed, queue, workers)
    requires w < |workers| && !workers[w].Executing? && !other.Executing?
    ensures Split(lo, hi, completed, queue, workers[w := other])
  {
    RunningStop(workers, w, other);
    hide IsRunning, InQueue, WorkersDistinct, QueueAscends;
  }

  lemma {:induction false} SplitTake(lo: nat, hi: nat, completed: map<nat, Result>, queue: seq<Queued>,
                                     workers: seq<Worker>, w: nat)
    requires Split(lo, hi, completed, queue, workers)
    requires w < |workers| && workers[w].Waiting? && queue != []
    ensures Split(lo, hi, completed, queue[1..], workers[w := Executing(queue[0])])
  {
    QueueTail(queue);
    RunningStart(workers, w, queue[0]);
    hide IsRunning, InQueue, WorkersDistinct, QueueAscends;
  }

  lemma {:induction false} SplitFinish(lo: nat, hi: nat, completed: map<nat, Result>, queue: seq<Queued>,
                                       workers: seq<Worker>, w: nat, r: Result)
    requires Split(lo, hi, completed, queue, workers)
    requires w < |workers| && workers[w].Executing? && r.ticket == workers[w].item.ticket
    ensures r.ticket !in completed
    ensures Split(lo, hi, completed[r.ticket := r], queue, workers[w := Waiting])
  {
    RunningStop(workers, w, Waiting);
    assert IsRunning(workers, r.ticket);
    hide IsRunning, InQueue, WorkersDistinct, QueueAscends;
  }

  lemma {:induction false} SplitSubmit(lo: nat, hi: nat, completed: map<nat, Result>, queue: seq<Queued>,
                                       workers: seq<Worker>, item: Queued)
    requires Split(lo, hi, completed, queue, workers) && lo <= hi && item.ticket == hi
    ensures Split(lo, hi + 1, completed, queue + [item], workers)
  {
    QueueGrow(queue, item);
    hide IsRunning, InQueue, WorkersDistinct, QueueAscends;
  }

  lemma {:induction false} SplitRefuse(lo: nat, hi: nat, completed: map<nat, Result>, queue: seq<Queued>,
                                       workers: seq<Worker>, r: Result)
    requires Split(lo, hi, completed, queue, workers) && lo <= hi && r.ticket == hi
    ensures hi !in completed
    ensures Split(lo, hi + 1, completed[hi := r], queue, workers)
  {
    hide IsRunning, InQueue, WorkersDistinct, QueueAscends;
  }

  // ---- every step keeps the invariant ---------------------------------------------------------------------

  /** All the pool invariant except what draining is about to restore. */
  ghost predicate Almost(p: Pool) {
    Partition(p) && Counters(p) && Limits(p) && Stale(p)
  }

  lemma {:induction false} EmptiedKeeps(p: Pool, completed: map<nat, Result>, q: Pool)
    requires Almost(p) && |completed| == |p.completed| + |p.queue|
    requires Split(p.nextDelivery, p.nextTicket, completed, [], p.workers)
    requires q == p.(queue := [], completed := completed, settled := p.settled + |p.queue|,
                     unsettled := p.unsettled - |p.queue|)
    ensures PoolInv(q)
  {
    hide Split, Count, NoneAvailable;
  }

  lemma {:induction false} DrainKeeps(p: Pool, status: Status)
    requires Almost(p)
    ensures Drain(p, status) ==
            p.(queue := [], completed := DrainInto(p.completed, p.queue, status),
               settled := p.settled + |p.queue|, unsettled := p.unsettled - |p.queue|)
    ensures PoolInv(Drain(p, status))
  {
    DrainIs(p, status);
    SplitDrain(p.nextDelivery, p.nextTicket, p.completed, p.queue, p.workers, status);
    assert |DrainInto(p.completed, p.queue, status)| == |p.completed| + |p.queue| by {
      DrainSpec(p.completed, p.queue, status);
    }
    hide Split, DrainInto, Drain, InQueue, QueueAscends, Stale, Counters, Limits, Bounded, Generations;
    EmptiedKeeps(p, DrainInto(p.completed, p.queue, status), Drain(p, status));
  }

  lemma {:induction false} ReportedKeeps(p: Pool, w: nat, usable: bool)
    requires PoolInv(p) && Enabled(p, Ready(w, usable))
    ensures Almost(Reported(p, w, usable))
    ensures !NoneAvailable(Reported(p, w, usable)) ==> PoolInv(Reported(p, w, usable))
  {
    var worker := if usable then Waiting else Exited(false);
    SplitIdle(p.nextDelivery, p.nextTicket, p.completed, p.queue, p.workers, w, worker);
    CountsUpdate(p.workers, w, worker);
    hide Split, Count;
    assert Counters(Reported(p, w, usable));
    hide Counters;
  }

  lemma {:induction false} ReadyKeeps(p: Pool, w: nat, usable: bool)
    requires PoolInv(p) && Enabled(p, Ready(w, usable))
    ensures PoolInv(WorkerReady(p, w, usable))
  {
    ReportedKeeps(p, w, usable);
    hide PoolInv, Almost, Reported, Drain;
    if NoneAvailable(Reported(p, w, usable)) {
      DrainKeeps(Reported(p, w, usable), Unavailable);
    }
  }

  lemma {:induction false} TakeKeeps(p: Pool, w: nat)
    requires PoolInv(p) && Enabled(p, Take(w))
    ensures PoolInv(WorkerTake(p, w))
  {
    var q := WorkerTake(p, w);
    SplitTake(p.nextDelivery, p.nextTicket, p.completed, p.queue, p.workers, w);
    CountsUpdate(p.workers, w, Executing(p.queue[0]));
    assert forall i :: 0 <= i < |q.queue| ==> q.queue[i] == p.queue[i + 1];
    hide Split, Count;
    assert Counters(q);
  }

  lemma {:induction false} ExitKeeps(p: Pool, w: nat)
    requires PoolInv(p) && Enabled(p, Exit(w))
    ensures PoolInv(p.(workers := p.workers[w := Exited(true)]))
  {
    SplitIdle(p.nextDelivery, p.nextTicket, p.completed, p.queue, p.workers, w, Exited(true));
    CountsUpdate(p.workers, w, Exited(true));
    hide Split, Count;
  }

  lemma {:induction false} FinishCounts(p: Pool, w: nat, status: Status, runs: Bytes)
    requires Counters(p) && Enabled(p, Finish(w, status, runs)) && p.workers[w].item.ticket !in p.completed
    ensures Counters(WorkerFinish(p, w, status, runs))
  {
    hide Count;
    CountsUpdate(p.workers, w, Waiting);
    CountPositive(p.workers, w, IsExecuting);
  }

  lemma {:induction false} FinishKeeps(p: Pool, w: nat, status: Status, runs: Bytes)
    requires PoolInv(p) && Enabled(p, Finish(w, status, runs))
    ensures PoolInv(WorkerFinish(p, w, status, runs))
    ensures var item := p.workers[w].item;
            item.ticket !in p.completed &&
            WorkerFinish(p, w, status, runs).completed ==
            p.completed[item.ticket := Finished(item, p.generation, status, runs)]
  {
    hide Split, Count, Counters;
    SplitFinish(p.nextDelivery, p.nextTicket, p.completed, p.queue, p.workers, w,
                Finished(p.workers[w].item, p.generation, status, runs));
    FinishCounts(p, w, status, runs);
  }

  lemma {:induction false} SubmitKeeps(p: Pool, job: Job)
    requires PoolInv(p) && Enabled(p, TrySubmit(job))
    ensures PoolInv(Submit(p, job))
  {
    hide Split, Count;
    if !Refuses(p) {
      if NoneAvailable(p) {
        SplitRefuse(p.nextDelivery, p.nextTicket, p.completed, p.queue, p.workers,
                    Result(p.nextTicket, job.functionStart, Unavailable, []));
      } else {
        SplitSubmit(p.nextDelivery, p.nextTicket, p.completed, p.queue, p.workers,
                    Queued(p.nextTicket, p.generation, job));
      }
      assert Counters(Submit(p, job));
      hide Counters;
    }
  }

  lemma {:induction false} TakeNextKeeps(p: Pool)
    requires PoolInv(p)
    ensures PoolInv(TakeNext(p))
  {
    hide IsRunning, InQueue, Count, WorkersDistinct, QueueAscends;
    if p.nextDelivery in p.completed {
      var q := TakeNext(p);
      assert q.completed.Keys == p.completed.Keys - {p.nextDelivery};
      assert |q.completed| == |p.completed| - 1;
      assert Partition(q);
      hide Split;
    }
  }

  lemma {:induction false} MovedOnKeeps(p: Pool, stop: bool)
    requires PoolInv(p) && !p.stopping && (stop ==> !p.constructing)
    ensures Almost(MovedOn(p, stop)) && PoolInv(Drain(MovedOn(p, stop), Cancelled))
  {
    hide Split, Count, Drain;
    assert Almost(MovedOn(p, stop));
    hide Almost, PoolInv, MovedOn;
    DrainKeeps(MovedOn(p, stop), Cancelled);
  }

  lemma {:induction false} CancelKeeps(p: Pool)
    requires PoolInv(p)
    ensures PoolInv(CancelPending(p))
  {
    hide PoolInv, Drain, MovedOn;
    if !p.stopping {
      MovedOnKeeps(p, false);
    }
  }

  lemma {:induction false} StopKeeps(p: Pool)
    requires PoolInv(p) && !p.constructing
    ensures PoolInv(Shutdown(p))
  {
    hide PoolInv, Drain, MovedOn;
    if !p.stopping {
      MovedOnKeeps(p, true);
    }
  }

  lemma {:induction false} MissingKeeps(p: Pool)
    requires PoolInv(p) && Enabled(p, ThreadsMissing)
    ensures PoolInv(CreationFailed(p))
  {
    EmptyQueue(p.queue);
    hide IsRunning, InQueue, Count, WorkersDistinct, QueueAscends;
  }

  lemma {:induction false} CreateKeeps(p: Pool)
    requires PoolInv(p) && Enabled(p, CreateThread)
    ensures PoolInv(p.(workers := p.workers + [Initializing]))
  {
    var after := p.workers + [Initializing];
    assert after[..|p.workers|] == p.workers;
    assert forall t: nat :: IsRunning(after, t) ==> IsRunning(p.workers, t);
    hide IsRunning, InQueue, QueueAscends;
  }

  lemma {:induction false} ConstructedKeeps(p: Pool)
    requires PoolInv(p)
    ensures PoolInv(p.(constructing := false))
  {
    hide Split, Count;
  }

  /** Every enabled step keeps the partition, the counters, the bounds and the generations. */
  lemma {:induction false} StepKeepsPool(p: Pool, e: Event)
    requires PoolInv(p) && Enabled(p, e)
    ensures PoolInv(Apply(p, e))
  {
    hide PoolInv, WorkerReady, WorkerTake, WorkerFinish, Submit, TakeNext, CancelPending, Shutdown, CreationFailed;
    match e
    case CreateThread => CreateKeeps(p);
    case ThreadsMissing => MissingKeeps(p);
    case Constructed => ConstructedKeeps(p);
    case Ready(w, usable) => ReadyKeeps(p, w, usable);
    case Take(w) => TakeKeeps(p, w);
    case Exit(w) => ExitKeeps(p, w);
    case Finish(w, status, runs) => FinishKeeps(p, w, status, runs);
    case TrySubmit(job) => SubmitKeeps(p, job);
    case TryTakeNext => TakeNextKeeps(p);
    case Cancel => CancelKeeps(p);
    case Stop => StopKeeps(p);
  }

  // ---- what one step may change ------------------------------------------------------------------------------

  /** A running item's executor returned; once its generation is stale only a cancellation comes out. */
  ghost predicate FinishedBy(p: Pool, t: nat, r: Result) {
    exists w :: 0 <= w < |p.workers| && p.workers[w].Executing? && p.workers[w].item.ticket == t &&
                (p.workers[w].item.generation != p.generation ==> r.status.Cancelled?)
  }

  /** How a ticket without a result in `p` may come to have result `r`. */
  ghost predicate Settles(p: Pool, t: nat, r: Result) {
    && r.ticket == t
    && (|| (t >= p.nextTicket && r.status.Unavailable? && p.available == 0)
        || (InQueue(p.queue, t) && (r.status.Cancelled? || (r.status.Unavailable? && p.available == 0)))
        || FinishedBy(p, t, r))
  }

  /** Results stay until delivered, and new ones come about only as `Settles` says. */
  ghost predicate ResultsAdvance(p: Pool, q: Pool) {
    && (forall t :: t in p.completed && q.nextDelivery <= t ==> t in q.completed && q.completed[t] == p.completed[t])
    && (forall t :: t in q.completed && t !in p.completed ==> Settles(p, t, q.completed[t]))
  }

  /** Jobs move from queue to worker and never back; counters of time never decrease. */
  ghost predicate JobsAdvance(p: Pool, q: Pool) {
    && p.nextTicket <= q.nextTicket && p.nextDelivery <= q.nextDelivery && p.generation <= q.generation
    && (forall t: nat :: InQueue(q.queue, t) && t < p.nextTicket ==> InQueue(p.queue, t))
    && (forall w :: 0 <= w < |q.workers| && q.workers[w].Executing? ==>
          InQueue(p.queue, q.workers[w].item.ticket) || (w < |p.workers| && q.workers[w] == p.workers[w]))
  }

  lemma {:induction false} DrainResults(p: Pool, completed: map<nat, Result>, queue: seq<Queued>, status: Status)
    requires QueueAscends(queue) && (forall t :: t in completed ==> !InQueue(queue, t))
    requires completed == p.completed && queue == p.queue && (status.Unavailable? ==> p.available == 0)
    ensures var c := DrainInto(completed, queue, status);
            && (forall t :: t in p.completed ==> t in c && c[t] == p.completed[t])
            && (forall t :: t in c && t !in p.completed ==> Settles(p, t, c[t]))
  {
    hide QueueAscends, InQueue, FinishedBy, DrainInto;
    DrainSpec(completed, queue, status);
  }

  lemma {:induction false} SplitQueue(lo: nat, hi: nat, completed: map<nat, Result>, queue: seq<Queued>,
                                      workers: seq<Worker>)
    requires Split(lo, hi, completed, queue, workers)
    ensures QueueAscends(queue) && forall t :: t in completed ==> !InQueue(queue, t)
  {
    hide InQueue, IsRunning, QueueAscends, WorkersDistinct;
  }

  lemma {:induction false} FinishResults(p: Pool, w: nat, status: Status, runs: Bytes)
    requires PoolInv(p) && Enabled(p, Finish(w, status, runs))
    ensures ResultsAdvance(p, WorkerFinish(p, w, status, runs))
  {
    hide PoolInv, InQueue;
    FinishKeeps(p, w, status, runs);
    var item := p.workers[w].item;
    assert FinishedBy(p, item.ticket, Finished(item, p.generation, status, runs));
    hide FinishedBy, WorkerFinish;
  }

  /** Draining a pool with the results and queue of `p` advances the results of `p`. */
  lemma {:induction false} DrainedResults(p: Pool, q: Pool, status: Status)
    requires Almost(q) && (status.Unavailable? ==> p.available == 0)
    requires q.completed == p.completed && q.queue == p.queue && q.nextDelivery == p.nextDelivery
    ensures ResultsAdvance(p, Drain(q, status))
  {
    hide Split, Counters, Limits, Stale, PoolInv, DrainInto, Drain, InQueue, QueueAscends, Settles;
    SplitQueue(q.nextDelivery, q.nextTicket, q.completed, q.queue, q.workers);
    DrainKeeps(q, status);
    DrainResults(p, p.completed, p.queue, status);
  }

  lemma {:induction false} ReadyResults(p: Pool, w: nat, usable: bool)
    requires PoolInv(p) && Enabled(p, Ready(w, usable))
    ensures ResultsAdvance(p, WorkerReady(p, w, usable))
  {
    hide PoolInv, Almost, Drain;
    ReportedKeeps(p, w, usable);
    if NoneAvailable(Reported(p, w, usable)) {
      hide ResultsAdvance;
      DrainedResults(p, Reported(p, w, usable), Unavailable);
    }
  }

  lemma {:induction false} SameResults(p: Pool)
    ensures ResultsAdvance(p, p)
  {
  }

  lemma {:induction false} CancelResults(p: Pool)
    requires PoolInv(p)
    ensures ResultsAdvance(p, CancelPending(p))
  {
    hide PoolInv, ResultsAdvance, Almost, Drain;
    if p.stopping {
      SameResults(p);
    } else {
      MovedOnKeeps(p, false);
      DrainedResults(p, MovedOn(p, false), Cancelled);
    }
  }

  lemma {:induction false} StopResults(p: Pool)
    requires PoolInv(p) && !p.constructing
    ensures ResultsAdvance(p, Shutdown(p))
  {
    hide PoolInv, ResultsAdvance, Almost, Drain;
    if p.stopping {
      SameResults(p);
    } else {
      MovedOnKeeps(p, true);
      DrainedResults(p, MovedOn(p, true), Cancelled);
    }
  }

  lemma {:induction false} MissingResults(p: Pool)
    requires PoolInv(p) && Enabled(p, ThreadsMissing)
    ensures ResultsAdvance(p, CreationFailed(p)) && JobsAdvance(p, CreationFailed(p))
  {
    EmptyQueue(p.queue);
  }

  lemma {:induction false} SubmitResults(p: Pool, job: Job)
    requires PoolInv(p)
    ensures ResultsAdvance(p, Submit(p, job))
  {
    SplitBounds(p.nextDelivery, p.nextTicket, p.completed, p.queue, p.workers);
    hide Split, Generations, Bounded, InQueue, FinishedBy, Count;
  }

  lemma {:induction false} SplitBounds(lo: nat, hi: nat, completed: map<nat, Result>, queue: seq<Queued>,
                                       workers: seq<Worker>)
    requires Split(lo, hi, completed, queue, workers)
    ensures forall t :: t in completed ==> lo <= t < hi
  {
    hide InQueue, IsRunning, QueueAscends, WorkersDistinct;
  }

  lemma {:induction false} StepResults(p: Pool, e: Event)
    requires PoolInv(p) && Enabled(p, e)
    ensures ResultsAdvance(p, Apply(p, e))
  {
    hide PoolInv, Settles, WorkerReady, WorkerFinish, Submit, CancelPending, Shutdown, CreationFailed;
    match e
    case Ready(w, usable) => ReadyResults(p, w, usable); hide ResultsAdvance;
    case Finish(w, status, runs) => FinishResults(p, w, status, runs); hide ResultsAdvance;
    case TrySubmit(job) => SubmitResults(p, job); hide ResultsAdvance;
    case Cancel => CancelResults(p); hide ResultsAdvance;
    case Stop => StopResults(p); hide ResultsAdvance;
    case ThreadsMissing => MissingResults(p); hide ResultsAdvance;
    case _ =>
  }

  lemma {:induction false} NothingQueued()
    ensures forall t: nat :: !InQueue([], t)
  {
  }

  lemma {:induction false} ReadyJobs(p: Pool, w: nat, usable: bool)
    requires PoolInv(p) && Enabled(p, Ready(w, usable))
    ensures JobsAdvance(p, WorkerReady(p, w, usable))
  {
    hide PoolInv, Drain, InQueue;
    NothingQueued();
  }

  lemma {:induction false} TakeJobs(p: Pool, w: nat)
    requires PoolInv(p) && Enabled(p, Take(w))
    ensures JobsAdvance(p, WorkerTake(p, w))
  {
    QueueTail(p.queue);
    hide PoolInv, InQueue;
  }

  lemma {:induction false} SubmitJobs(p: Pool, job: Job)
    requires PoolInv(p)
    ensures JobsAdvance(p, Submit(p, job))
  {
    QueueGrow(p.queue, Queued(p.nextTicket, p.generation, job));
    hide PoolInv, InQueue;
  }

  lemma {:induction false} CancelJobs(p: Pool)
    ensures JobsAdvance(p, CancelPending(p))
  {
    hide Drain, InQueue;
    NothingQueued();
  }

  lemma {:induction false} StopJobs(p: Pool)
    ensures JobsAdvance(p, Shutdown(p))
  {
    hide Drain, InQueue;
    NothingQueued();
  }

  lemma {:induction false} StepJobs(p: Pool, e: Event)
    requires PoolInv(p) && Enabled(p, e)
    ensures JobsAdvance(p, Apply(p, e))
  {
    hide PoolInv, InQueue, WorkerReady, WorkerTake, Submit, CancelPending, Shutdown, CreationFailed;
    match e
    case Ready(w, usable) => ReadyJobs(p, w, usable); hide JobsAdvance;
    case Take(w) => TakeJobs(p, w); hide JobsAdvance;
    case TrySubmit(job) => SubmitJobs(p, job); hide JobsAdvance;
    case Cancel => CancelJobs(p); hide JobsAdvance;
    case Stop => StopJobs(p); hide JobsAdvance;
    case ThreadsMissing => MissingResults(p); hide JobsAdvance;
    case _ =>
  }

  // ---- whole runs --------------------------------------------------------------------------------------------

  lemma {:induction false} InitialInv(workerCount: nat, maxQueued: nat)
    ensures Inv(World(Initial(workerCount, maxQueued), map[], []))
  {
  }

  lemma {:induction false} TakesInOrder(p: Pool, e: Event)
    requires Enabled(p, e)
    ensures Apply(p, e).nextDelivery ==
            if e.TryTakeNext? && p.nextDelivery in p.completed then p.nextDelivery + 1 else p.nextDelivery
  {
  }

  lemma {:induction false} LogKeeps(w: World, q: Pool)
    requires Inv(w) && Partition(q) && ResultsAdvance(w.pool, q) && w.pool.nextDelivery <= q.nextDelivery
    requires q.nextDelivery <= w.pool.nextDelivery + 1
    requires q.nextDelivery > w.pool.nextDelivery ==> w.pool.nextDelivery in w.pool.completed
    ensures Logged(World(q, w.log + q.completed,
                         if q.nextDelivery > w.pool.nextDelivery
                         then w.outputs + [w.pool.completed[w.pool.nextDelivery]] else w.outputs))
    ensures forall t :: t in w.log && t in q.completed ==> q.completed[t] == w.log[t]
  {
    hide Counters, Bounded, Generations, QueueAscends, WorkersDistinct, InQueue, IsRunning, FinishedBy;
  }

  /** A step's log and outputs, read off the pool it leads to. */
  lemma {:induction false} NextIs(w: World, e: Event)
    requires Enabled(w.pool, e)
    ensures var q := Apply(w.pool, e);
            && (q.nextDelivery > w.pool.nextDelivery ==> w.pool.nextDelivery in w.pool.completed)
            && w.pool.nextDelivery <= q.nextDelivery <= w.pool.nextDelivery + 1
            && Next(w, e) == World(q, w.log + q.completed,
                                   if q.nextDelivery > w.pool.nextDelivery
                                   then w.outputs + [w.pool.completed[w.pool.nextDelivery]] else w.outputs)
  {
    TakesInOrder(w.pool, e);
    hide Apply, Enabled;
  }

  /** A step keeps the invariant, never revises a logged result, and extends the outputs. */
  lemma {:induction false} NextKeeps(w: World, e: Event)
    requires Inv(w) && Enabled(w.pool, e)
    ensures Inv(Next(w, e))
    ensures forall t :: t in w.log ==> t in Next(w, e).log && Next(w, e).log[t] == w.log[t]
    ensures w.outputs <= Next(w, e).outputs
  {
    hide Apply, Enabled, Next, Counters, Bounded, Generations, Split, ResultsAdvance;
    StepKeepsPool(w.pool, e);
    StepResults(w.pool, e);
    NextIs(w, e);
    LogKeeps(w, Apply(w.pool, e));
    hide Logged, PoolInv, Partition;
  }

  /** In every state of every run the invariant holds. */
  lemma {:induction false} EveryRun(trace: seq<World>, events: seq<Event>, workerCount: nat, maxQueued: nat, i: nat)
    requires Run(trace, events, workerCount, maxQueued) && i < |trace|
    ensures Inv(trace[i])
  {
    hide Inv, Next, Enabled;
    if i == 0 {
      InitialInv(workerCount, maxQueued);
    } else {
      EveryRun(trace, events, workerCount, maxQueued, i - 1);
      NextKeeps(trace[i - 1], events[i - 1]);
    }
  }

  /** A settled result never changes again, and what was handed out stays a prefix. */
  lemma {:induction false} SettlesOnce(trace: seq<World>, events: seq<Event>, workerCount: nat, maxQueued: nat,
                                       i: nat, j: nat)
    requires Run(trace, events, workerCount, maxQueued) && i <= j < |trace|
    ensures forall t :: t in trace[i].log ==> t in trace[j].log && trace[j].log[t] == trace[i].log[t]
    ensures trace[i].outputs <= trace[j].outputs
  {
    hide Inv, Next, Enabled;
    if i < j {
      SettlesOnce(trace, events, workerCount, maxQueued, i, j - 1);
      EveryRun(trace, events, workerCount, maxQueued, j - 1);
      NextKeeps(trace[j - 1], events[j - 1]);
      assert trace[j] == Next(trace[j - 1], events[j - 1]);
    }
  }

  /** What a caller of the pool sees of an invariant state. */
  ghost predicate Observed(w: World) {
    var p := w.pool;
    && (forall k :: 0 <= k < |w.outputs| ==> w.outputs[k].ticket == k + 1)
    && (p.unsettled == 0 <==> forall t: nat :: 1 <= t < p.nextTicket ==> t in w.log)
    && (p.maxQueued != 0 ==> p.submitted - p.delivered <= p.maxQueued + p.requested)
    && p.submitted == p.settled + p.unsettled
    && p.initialized <= p.requested && p.initialized == p.available + p.unavailable
  }

  lemma {:induction false} NoneExecuting(workers: seq<Worker>)
    ensures Count(workers, IsExecuting) == 0 <==> forall t: nat :: !IsRunning(workers, t)
  {
    forall w | 0 <= w < |workers| && workers[w].Executing? ensures Count(workers, IsExecuting) > 0 {
      CountPositive(workers, w, IsExecuting);
    }
    if Count(workers, IsExecuting) > 0 {
      CountWitness(workers, IsExecuting);
      var w :| 0 <= w < |workers| && IsExecuting(workers[w]);
      assert IsRunning(workers, workers[w].item.ticket);
    }
  }

  lemma {:induction false} CountWitness(workers: seq<Worker>, test: Worker -> bool)
    requires Count(workers, test) > 0
    ensures exists w :: 0 <= w < |workers| && test(workers[w])
  {
    var last := |workers| - 1;
    if !test(workers[last]) {
      CountWitness(workers[..last], test);
      var w :| 0 <= w < last && test(workers[..last][w]);
      assert test(workers[w]);
    }
  }

  lemma {:induction false} CountAtMost(workers: seq<Worker>, test: Worker -> bool)
    ensures Count(workers, test) <= |workers|
  {
    if workers != [] {
      CountAtMost(workers[..|workers| - 1], test);
    }
  }

  // ---- cancellation and shutdown ---------------------------------------------------------------------------------

  /** The ticket has been overtaken by a cancellation: settled as cancelled, or running under a stale generation. */
  ghost predicate Overtaken(w: World, t: nat) {
    && 1 <= t < w.pool.nextTicket && !InQueue(w.pool.queue, t)
    && (t in w.log ==> w.log[t].status.Cancelled?)
    && RunsStale(w.pool, t)
  }

  /** The items running under the ticket are of an earlier generation. */
  ghost predicate RunsStale(p: Pool, t: nat) {
    forall v :: 0 <= v < |p.workers| && p.workers[v].Executing? && p.workers[v].item.ticket == t ==>
      p.workers[v].item.generation < p.generation
  }

  lemma {:induction false} StaleStays(p: Pool, q: Pool, t: nat)
    requires JobsAdvance(p, q) && RunsStale(p, t) && !InQueue(p.queue, t) && t < p.nextTicket
    ensures RunsStale(q, t) && !InQueue(q.queue, t) && t < q.nextTicket
  {
    hide InQueue;
  }

  /** A ticket that is not queued and runs only stale can settle only as cancelled. */
  lemma {:induction false} StaleSettles(p: Pool, t: nat, r: Result)
    requires Settles(p, t, r) && RunsStale(p, t) && !InQueue(p.queue, t) && t < p.nextTicket
    ensures r.status.Cancelled?
  {
    hide InQueue;
  }

  lemma {:induction false} OvertakenStays(w: World, e: Event, t: nat)
    requires Inv(w) && Enabled(w.pool, e) && Overtaken(w, t)
    ensures Overtaken(Next(w, e), t)
  {
    hide Apply, Enabled, PoolInv, InQueue, RunsStale, JobsAdvance, Settles;
    var p, q := w.pool, Apply(w.pool, e);
    StepResults(p, e);
    StepJobs(p, e);
    StaleStays(p, q, t);
    if t in q.completed && t !in p.completed {
      StaleSettles(p, t, q.completed[t]);
    }
    assert t in p.completed ==> t in w.log;
    assert t in q.completed && t in p.completed ==> q.completed[t] == p.completed[t] by {
      StepKeepsPool(p, e);
      CompletedBeyond(q, t);
    }
    assert t in p.completed ==> w.log[t] == p.completed[t];
    hide Logged, ResultsAdvance;
  }

  lemma {:induction false} CompletedBeyond(p: Pool, t: nat)
    requires PoolInv(p)
    ensures t in p.completed ==> p.nextDelivery <= t
  {
    hide InQueue, IsRunning, QueueAscends, WorkersDistinct, Counters, Bounded, Generations;
  }

  /** A cancelling step: the pool's generation moves on. */
  predicate Cancels(p: Pool, e: Event) { !p.stopping && (e.Cancel? || e.Stop?) }

  lemma {:induction false} CancelEffect(p: Pool, e: Event)
    requires PoolInv(p) && Enabled(p, e) && Cancels(p, e)
    ensures var q := Apply(p, e);
            && q.queue == [] && q.workers == p.workers && q.nextTicket == p.nextTicket
            && q.generation == p.generation + 1
            && forall t :: t in q.completed && t !in p.completed ==> q.completed[t].status.Cancelled?
  {
    hide PoolInv, Almost, Drain, DrainInto, InQueue, QueueAscends;
    var q := MovedOn(p, e.Stop?);
    assert Apply(p, e) == Drain(q, Cancelled);
    hide Apply, Enabled;
    MovedOnKeeps(p, e.Stop?);
    DrainedSettles(q);
  }

  lemma {:induction false} DrainedSettles(q: Pool)
    requires Almost(q)
    ensures forall t :: t in Drain(q, Cancelled).completed && t !in q.completed ==>
              Drain(q, Cancelled).completed[t].status.Cancelled?
  {
    hide Split, Counters, Limits, Stale, PoolInv, DrainInto, Drain, InQueue, QueueAscends;
    SplitQueue(q.nextDelivery, q.nextTicket, q.completed, q.queue, q.workers);
    DrainKeeps(q, Cancelled);
    DrainSpec(q.completed, q.queue, Cancelled);
  }

  lemma {:induction false} CancelOvertakes(w: World, e: Event, t: nat)
    requires Inv(w) && Enabled(w.pool, e) && Cancels(w.pool, e)
    requires 1 <= t < w.pool.nextTicket && t !in w.log
    ensures Overtaken(Next(w, e), t)
  {
    CancelEffect(w.pool, e);
    assert !InQueue([], t);
    hide InQueue, Split, Counters, Bounded, Apply, Enabled, Cancels;
  }

  /**
   * A ticket unsettled at a cancelling step can only ever settle as cancelled,
   * whatever its executor returns and whatever happens later; a ticket settled
   * before that step keeps its result.
   */
  lemma {:induction false} CancelledWhateverReturned(trace: seq<World>, events: seq<Event>, workerCount: nat,
                                                     maxQueued: nat, i: nat, j: nat, t: nat)
    requires Run(trace, events, workerCount, maxQueued) && i < j < |trace|
    requires Cancels(trace[i].pool, events[i]) && 1 <= t < trace[i].pool.nextTicket
    ensures t !in trace[i].log ==> Overtaken(trace[j], t)
    ensures t in trace[i].log ==> t in trace[j].log && trace[j].log[t] == trace[i].log[t]
    decreases j
  {
    hide Inv, Next, Enabled, Overtaken, Cancels;
    EveryRun(trace, events, workerCount, maxQueued, j - 1);
    SettlesOnce(trace, events, workerCount, maxQueued, i, j);
    assert trace[j] == Next(trace[j - 1], events[j - 1]);
    if t !in trace[i].log {
      if j == i + 1 {
        CancelOvertakes(trace[i], events[i], t);
      } else {
        CancelledWhateverReturned(trace, events, workerCount, maxQueued, i, j - 1, t);
        OvertakenStays(trace[j - 1], events[j - 1], t);
      }
    }
  }

  lemma {:induction false} RunningUnsettled(p: Pool, v: nat)
    requires PoolInv(p) && v < |p.workers| && p.workers[v].Executing?
    ensures p.workers[v].item.ticket !in p.completed
  {
    assert IsRunning(p.workers, p.workers[v].item.ticket);
    hide IsRunning, InQueue, QueueAscends, WorkersDistinct, Counters, Bounded, Generations;
  }

  /** Under a current generation the executor's own outcome is what gets logged. */
  lemma {:induction false} FinishLogsOutcome(w: World, v: nat, status: Status, runs: Bytes)
    requires Inv(w) && Enabled(w.pool, Finish(v, status, runs))
    ensures var item := w.pool.workers[v].item;
            && item.ticket !in w.log && item.ticket in Next(w, Finish(v, status, runs)).log
            && Next(w, Finish(v, status, runs)).log[item.ticket] ==
               Result(item.ticket, item.job.functionStart,
                      if item.generation == w.pool.generation then status else Cancelled, runs)
  {
    FinishKeeps(w.pool, v, status, runs);
    assert IsRunning(w.pool.workers, w.pool.workers[v].item.ticket);
    hide WorkerFinish, IsRunning, InQueue, QueueAscends, WorkersDistinct, Counters, Count;
  }

  /** Once the pool has stopped and every thread has left, every accepted ticket is settled. */
  lemma {:induction false} JoinedLeavesNothing(w: World)
    requires Inv(w) && w.pool.stopping
    requires forall v :: 0 <= v < |w.pool.workers| ==> w.pool.workers[v].Exited?
    ensures w.pool.unsettled == 0 && forall t: nat :: 1 <= t < w.pool.nextTicket ==> t in w.log
  {
    NoneExecuting(w.pool.workers);
    assert forall t: nat :: !InQueue([], t);
    assert forall t: nat :: !IsRunning(w.pool.workers, t);
    hide IsRunning, InQueue, QueueAscends, WorkersDistinct, Count;
  }

  lemma {:induction false} InvObserved(w: World)
    requires Inv(w)
    ensures Observed(w)
  {
    var p := w.pool;
    NoneExecuting(p.workers);
    CountAtMost(p.workers, IsReady);
    assert forall t: nat :: !InQueue([], t);
    assert p.queue != [] ==> InQueue(p.queue, p.queue[0].ticket);
    hide QueueAscends, WorkersDistinct, Count, InQueue, IsRunning;
    if p.unsettled == 0 {
      assert forall t: nat :: 1 <= t < p.nextTicket ==> t in w.log;
    }
    if forall t: nat :: 1 <= t < p.nextTicket ==> t in w.log {
      assert forall t: nat :: !IsRunning(p.workers, t);
      assert p.queue == [];
    }
  }
}
