/** The jobs of the queue against the events that ordered them: identity, priority, attempts and the time from which they may start. */
module QueueOrders {
  import opened Basics
  import opened PriorityQueues
  import opened QueueRuns
  import opened QueueSpec

  /** What callers and handlers have asked for a job; it must not start before from. */
  datatype Order = Order(id: Id, maxAttempts: int, priority: real, from: int)

  /**
   * One order for every accepted job, in the order of acceptance.  A failed
   * attempt that is not the last moves the time on by the delay given for it,
   * and taking a job from the failed list makes it due at once.
   */
  ghost function OrdersAfter(q: Queue, orders: seq<Order>, e: Event): seq<Order>
    requires Ends(q, e)
  {
    match e
    case Added(id, dedupe, maxAttempts, priority, delayMs, at) =>
      if dedupe && id in q.known then orders else orders + [Order(id, maxAttempts, priority, at + delayMs)]
    case Failed(i, delay, at) =>
      var job := q.running[i];
      if job.serial < |orders| && job.attempt < orders[job.serial].maxAttempts then Postponed(orders, job.serial, at + delay) else orders
    case Retried(id, at) =>
      var i := FirstFailed(q.failed, id);
      if i >= 0 && q.failed[i].serial < |orders| then Postponed(orders, q.failed[i].serial, at) else orders
    case _ => orders
  }

  ghost function Postponed(orders: seq<Order>, n: nat, from: int): seq<Order>
    requires n < |orders|
  {
    orders[n := orders[n].(from := from)]
  }

  /** A run, with the orders it has brought. */
  ghost predicate Ordered(w: World, events: seq<Event>, orders: seq<Order>)
    decreases |events|
  {
    if events == [] then w == START && orders == []
    else
      var n := |events| - 1;
      exists v, before :: Ordered(v, events[..n], before) && Possible(v, events[n])
                          && w == Step(v, events[n]) && orders == OrdersAfter(v.q, before, events[n])
  }

  // ---------- Every job is as ordered ----------

  ghost predicate AsOrdered(job: Job, orders: seq<Order>) {
    && job.serial < |orders|
    && job.id == orders[job.serial].id && job.maxAttempts == orders[job.serial].maxAttempts
    && job.priority == orders[job.serial].priority && job.runAt == orders[job.serial].from
  }

  ghost predicate JobsAsOrdered(jobs: seq<Job>, orders: seq<Order>) {
    forall i {:trigger jobs[i]} :: 0 <= i < |jobs| ==> AsOrdered(jobs[i], orders)
  }

  ghost predicate ReadyAsOrdered(entries: seq<PriorityEntry<Job>>, orders: seq<Order>) {
    forall i {:trigger entries[i]} :: 0 <= i < |entries| ==> AsOrdered(entries[i].value, orders)
  }

  ghost predicate AllAsOrdered(q: Queue, orders: seq<Order>) {
    && ReadyAsOrdered(q.ready, orders) && JobsAsOrdered(q.delayed, orders) && JobsAsOrdered(q.running, orders)
    && JobsAsOrdered(q.failed, orders) && JobsAsOrdered(q.done, orders)
  }

  // ---------- A tick changes no job but its starts ----------

  lemma {:induction false} DueAsOrdered(delayed: seq<Job>, now: int, orders: seq<Order>)
    requires JobsAsOrdered(delayed, orders)
    ensures JobsAsOrdered(Due(delayed, now), orders) && JobsAsOrdered(NotDue(delayed, now), orders)
  {
    if delayed != [] { DueAsOrdered(delayed[1..], now, orders); }
  }

  lemma {:induction false} EnqueuedAsOrdered(ready: seq<PriorityEntry<Job>>, sequence: nat, jobs: seq<Job>, orders: seq<Order>)
    requires ReadyAsOrdered(ready, orders) && JobsAsOrdered(jobs, orders)
    ensures ReadyAsOrdered(Enqueued(ready, sequence, jobs), orders)
  {
    if jobs != [] { EnqueuedAsOrdered(ready, sequence, jobs[..|jobs| - 1], orders); }
  }

  lemma {:induction false} ServedAsOrdered(entries: seq<PriorityEntry<Job>>, n: nat, orders: seq<Order>)
    requires n <= |entries| && ReadyAsOrdered(entries, orders)
    ensures ReadyAsOrdered(Left(entries, n), orders) && JobsAsOrdered(Started(Taken(entries, n)), orders)
  {
    if n > 0 {
      ServedAsOrdered(entries, n - 1, orders);
      var l, t := Left(entries, n - 1), Taken(entries, n - 1);
      SpliceIs(l, Next(l));
      assert (t + [l[Next(l)]])[..n - 1] == t;
    }
  }

  lemma TickAsOrdered(q: Queue, now: int, orders: seq<Order>)
    requires AllAsOrdered(q, orders)
    ensures AllAsOrdered(Tick(q, now), orders)
  {
    DueAsOrdered(q.delayed, now, orders);
    EnqueuedAsOrdered(q.ready, q.sequence, Due(q.delayed, now), orders);
    var p := Promote(q, now);
    ServedAsOrdered(p.ready, Starting(p), orders);
  }

  // ---------- Events ----------

  /** No job but the one with this serial has it. */
  ghost predicate NoneHas(jobs: seq<Job>, n: nat) {
    forall i {:trigger jobs[i]} :: 0 <= i < |jobs| ==> jobs[i].serial != n
  }

  lemma {:induction false} NoneCounted(jobs: seq<Job>, n: nat)
    requires Count(jobs, BySerial(n)) == 0
    ensures NoneHas(jobs, n)
  {
    if jobs != [] { NoneCounted(jobs[..|jobs| - 1], n); }
  }

  lemma {:induction false} NoneReady(entries: seq<PriorityEntry<Job>>, n: nat)
    requires CountReady(entries, BySerial(n)) == 0
    ensures forall i {:trigger entries[i]} :: 0 <= i < |entries| ==> entries[i].value.serial != n
  {
    if entries != [] { NoneReady(entries[..|entries| - 1], n); }
  }

  /** When no job has the serial, its order may change. */
  lemma OthersAsOrdered(q: Queue, orders: seq<Order>, n: nat, from: int)
    requires n < |orders| && AllAsOrdered(q, orders) && Places(q, BySerial(n)) == 0
    ensures AllAsOrdered(q, Postponed(orders, n, from))
  {
    NoneReady(q.ready, n);
    NoneCounted(q.delayed, n);
    NoneCounted(q.running, n);
    NoneCounted(q.failed, n);
    NoneCounted(q.done, n);
  }

  lemma MoreOrders(q: Queue, orders: seq<Order>, o: Order)
    requires AllAsOrdered(q, orders)
    ensures AllAsOrdered(q, orders + [o])
  {
  }

  lemma SpliceAsOrdered(jobs: seq<Job>, i: nat, orders: seq<Order>)
    requires i < |jobs| && JobsAsOrdered(jobs, orders)
    ensures JobsAsOrdered(Splice(jobs, i), orders)
  {
    SpliceIs(jobs, i);
  }

  lemma ScheduledAsOrdered(q: Queue, job: Job, now: int, orders: seq<Order>)
    requires AllAsOrdered(q, orders) && AsOrdered(job, orders)
    ensures AllAsOrdered(Scheduled(q, job, now), orders)
  {
  }

  lemma AcceptedAsOrdered(q: Queue, orders: seq<Order>, id: Id, maxAttempts: int, priority: real, delayMs: int, now: int)
    requires AllAsOrdered(q, orders) && q.accepted == |orders|
    ensures AllAsOrdered(Accepted(q, id, maxAttempts, priority, delayMs, now), orders + [Order(id, maxAttempts, priority, now + delayMs)])
  {
    var all := orders + [Order(id, maxAttempts, priority, now + delayMs)];
    MoreOrders(Registered(q, id), orders, all[|orders|]);
    ScheduledAsOrdered(Registered(q, id), Job(q.accepted, id, 1, maxAttempts, priority, now + delayMs, 0), now, all);
  }

  lemma CompletedAsOrdered(q: Queue, orders: seq<Order>, i: nat)
    requires AllAsOrdered(q, orders) && i < |q.running|
    ensures AllAsOrdered(Completed(q, i), orders)
  {
    SpliceAsOrdered(q.running, i, orders);
  }

  lemma ReturnedAsOrdered(q: Queue, orders: seq<Order>, i: nat, delay: int, now: int)
    requires AllAsOrdered(q, orders) && i < |q.running| && Places(q, BySerial(q.running[i].serial)) == 1
    ensures AllAsOrdered(Returned(q, i, delay, now), OrdersAfter(q, orders, Failed(i, delay, now)))
  {
    SpliceAsOrdered(q.running, i, orders);
    if q.running[i].attempt < q.running[i].maxAttempts { DelayedAsOrdered(q, orders, i, delay, now); }
  }

  lemma DelayedAsOrdered(q: Queue, orders: seq<Order>, i: nat, delay: int, now: int)
    requires AllAsOrdered(q, orders) && i < |q.running| && Places(q, BySerial(q.running[i].serial)) == 1
    requires q.running[i].attempt < q.running[i].maxAttempts
    ensures AllAsOrdered(Returned(q, i, delay, now), Postponed(orders, q.running[i].serial, now + delay))
  {
    var job, rest := q.running[i], q.(running := Splice(q.running, i));
    SpliceAsOrdered(q.running, i, orders);
    CountWithout(q.running, i, BySerial(job.serial));
    OthersAsOrdered(rest, orders, job.serial, now + delay);
  }

  lemma RevivedAsOrdered(q: Queue, orders: seq<Order>, i: nat, now: int)
    requires AllAsOrdered(q, orders) && i < |q.failed| && Places(q, BySerial(q.failed[i].serial)) == 1
    ensures AllAsOrdered(Revived(q, i, now), Postponed(orders, q.failed[i].serial, now))
  {
    var job, rest := q.failed[i], q.(failed := Splice(q.failed, i));
    SpliceAsOrdered(q.failed, i, orders);
    CountWithout(q.failed, i, BySerial(job.serial));
    OthersAsOrdered(rest, orders, job.serial, now);
    ScheduledAsOrdered(rest, job.(attempt := 1, runAt := now, starts := 0), now, Postponed(orders, job.serial, now));
  }

  lemma FailedAsOrdered(q: Queue, orders: seq<Order>, e: Event)
    requires e.Failed? && e.i < |q.running| && AllAsOrdered(q, orders)
    requires InOnePlace(q, q.running[e.i].serial) && q.accepted == |orders|
    ensures AllAsOrdered(Before(q, e), OrdersAfter(q, orders, e))
  {
    ReturnedAsOrdered(q, orders, e.i, e.delay, e.at);
  }

  lemma RetriedAsOrdered(q: Queue, orders: seq<Order>, e: Event)
    requires e.Retried? && FirstFailed(q.failed, e.id) >= 0 && AllAsOrdered(q, orders)
    requires InOnePlace(q, q.failed[FirstFailed(q.failed, e.id)].serial) && q.accepted == |orders|
    ensures AllAsOrdered(Before(q, e), OrdersAfter(q, orders, e))
  {
    RevivedAsOrdered(q, orders, FirstFailed(q.failed, e.id), e.at);
  }

  lemma BeforeAsOrdered(q: Queue, orders: seq<Order>, e: Event)
    requires Ends(q, e) && !Dropped(q, e) && AllAsOrdered(q, orders) && q.accepted == |orders|
    requires forall n {:trigger InOnePlace(q, n)} :: InOnePlace(q, n)
    ensures AllAsOrdered(Before(q, e), OrdersAfter(q, orders, e))
  {
    match e
    case Added(id, dedupe, maxAttempts, priority, delayMs, at) => AcceptedAsOrdered(q, orders, id, maxAttempts, priority, delayMs, at);
    case Succeeded(i, at) => CompletedAsOrdered(q, orders, i);
    case Failed(i, delay, at) =>
      assert InOnePlace(q, q.running[i].serial);
      FailedAsOrdered(q, orders, e);
    case Retried(id, at) =>
      assert InOnePlace(q, q.failed[FirstFailed(q.failed, id)].serial);
      RetriedAsOrdered(q, orders, e);
    case _ =>
  }

  lemma StepAsOrdered(v: World, orders: seq<Order>, e: Event)
    requires Possible(v, e) && AllAsOrdered(v.q, orders) && v.q.accepted == |orders|
    requires forall n {:trigger InOnePlace(v.q, n)} :: InOnePlace(v.q, n)
    ensures AllAsOrdered(Step(v, e).q, OrdersAfter(v.q, orders, e))
    ensures Step(v, e).q.accepted == |OrdersAfter(v.q, orders, e)|
  {
    AfterSize(v.q, e);
    if !Dropped(v.q, e) {
      BeforeAsOrdered(v.q, orders, e);
      TickAsOrdered(Before(v.q, e), e.at, OrdersAfter(v.q, orders, e));
    }
  }

  lemma {:induction false} OrderedIsReachable(w: World, events: seq<Event>, orders: seq<Order>)
    requires Ordered(w, events, orders)
    ensures Reachable(w, events)
    decreases |events|
  {
    if events != [] {
      var n := |events| - 1;
      var v, before :| Ordered(v, events[..n], before) && Possible(v, events[n])
                       && w == Step(v, events[n]) && orders == OrdersAfter(v.q, before, events[n]);
      OrderedIsReachable(v, events[..n], before);
    }
  }

  lemma {:induction false} EveryJobAsOrdered(w: World, events: seq<Event>, orders: seq<Order>)
    requires Ordered(w, events, orders)
    ensures AllAsOrdered(w.q, orders) && w.q.accepted == |orders|
    decreases |events|
  {
    if events != [] {
      var n := |events| - 1;
      var v, before :| Ordered(v, events[..n], before) && Possible(v, events[n])
                       && w == Step(v, events[n]) && orders == OrdersAfter(v.q, before, events[n]);
      EveryJobAsOrdered(v, events[..n], before);
      OrderedIsReachable(v, events[..n], before);
      JobsAreConserved(v, events[..n]);
      StepAsOrdered(v, before, events[n]);
    }
  }

  // ---------- What callers may rely on ----------

  ghost predicate InTime(job: Job, orders: seq<Order>, clock: int) {
    AsOrdered(job, orders) && orders[job.serial].from <= clock
  }

  ghost predicate RunningInTime(jobs: seq<Job>, orders: seq<Order>, clock: int) {
    forall i {:trigger jobs[i]} :: 0 <= i < |jobs| ==> InTime(jobs[i], orders, clock)
  }

  /** Ready to run in time, and waiting with the priority ordered. */
  ghost predicate ReadyInTime(entries: seq<PriorityEntry<Job>>, orders: seq<Order>, clock: int) {
    forall i {:trigger entries[i]} :: 0 <= i < |entries| ==>
      InTime(entries[i].value, orders, clock) && entries[i].priority == orders[entries[i].value.serial].priority
  }

  lemma FitInTime(q: Queue, orders: seq<Order>, clock: int)
    requires JobsFit(q, clock) && AllAsOrdered(q, orders)
    ensures RunningInTime(q.running, orders, clock) && ReadyInTime(q.ready, orders, clock)
  {
  }

  /**
   * In every run the job with serial n is the one ordered by the n-th accepted
   * call: with its id, number of attempts and priority, at which it also waits.
   * A job that runs or is ready to run has reached the time ordered for it: that
   * of its acceptance plus its delay, or of its last failure plus the delay given
   * then, or of its revival.  A delayed job waits for exactly that time.
   */
  lemma StartsAsOrdered(w: World, events: seq<Event>, orders: seq<Order>)
    requires Ordered(w, events, orders)
    ensures |orders| == w.q.accepted
    ensures RunningInTime(w.q.running, orders, w.clock) && ReadyInTime(w.q.ready, orders, w.clock)
    ensures JobsAsOrdered(w.q.delayed, orders) && JobsAsOrdered(w.q.failed, orders) && JobsAsOrdered(w.q.done, orders)
  {
    EveryJobAsOrdered(w, events, orders);
    OrderedIsReachable(w, events, orders);
    EveryRun(w, events);
    FitInTime(w.q, orders, w.clock);
  }

  /** Whenever a queue that works has dealt with an event, no job whose time has come is left delayed. */
  lemma DueJobsAreReady(w: World, events: seq<Event>, e: Event, i: nat)
    requires Reachable(w, events) && Possible(w, e) && !Dropped(w.q, e)
    requires Working(Step(w, e).q) && i < |Step(w, e).q.delayed|
    ensures Step(w, e).q.delayed[i].runAt > e.at
  {
    EveryRun(w, events);
    LaterFits(w.q, w.clock, e.at);
    BeforeFits(w.q, e);
    BeforeBounds(w.q, e);
    DueFit(Before(w.q, e).delayed, e.at);
  }

  // ---------- Where an added job waits ----------

  lemma {:induction false} NotDueKeepsLater(delayed: seq<Job>, now: int, n: nat)
    requires forall i {:trigger delayed[i]} :: 0 <= i < |delayed| && delayed[i].serial == n ==> delayed[i].runAt > now
    ensures Count(NotDue(delayed, now), BySerial(n)) == Count(delayed, BySerial(n))
  {
    DueOrNot(delayed, now, BySerial(n));
    NoneDue(delayed, now, n);
    NoneHasCount(Due(delayed, now), n);
  }

  lemma {:induction false} NoneDue(delayed: seq<Job>, now: int, n: nat)
    requires forall i {:trigger delayed[i]} :: 0 <= i < |delayed| && delayed[i].serial == n ==> delayed[i].runAt > now
    ensures NoneHas(Due(delayed, now), n)
  {
    if delayed != [] { NoneDue(delayed[1..], now, n); }
  }

  lemma {:induction false} NoneHasCount(jobs: seq<Job>, n: nat)
    requires NoneHas(jobs, n)
    ensures Count(jobs, BySerial(n)) == 0
  {
    if jobs != [] { NoneHasCount(jobs[..|jobs| - 1], n); }
  }

  ghost predicate WaitsLonger(delayed: seq<Job>, n: nat, now: int) {
    forall i {:trigger delayed[i]} :: 0 <= i < |delayed| && delayed[i].serial == n ==> delayed[i].runAt > now
  }

  lemma TickLeavesDelayed(q: Queue, now: int, n: nat)
    requires WaitsLonger(q.delayed, n, now)
    ensures Count(Tick(q, now).delayed, BySerial(n)) == Count(q.delayed, BySerial(n))
  {
    NotDueKeepsLater(q.delayed, now, n);
  }

  lemma AcceptedWaits(q: Queue, id: Id, maxAttempts: int, priority: real, delayMs: int, now: int)
    requires NoneHas(q.delayed, q.accepted)
    ensures var b := Accepted(q, id, maxAttempts, priority, delayMs, now);
            WaitsLonger(b.delayed, q.accepted, now) && Count(b.delayed, BySerial(q.accepted)) == if delayMs > 0 then 1 else 0
  {
    NoneHasCount(q.delayed, q.accepted);
    if delayMs > 0 { CountPush(q.delayed, Job(q.accepted, id, 1, maxAttempts, priority, now + delayMs, 0), BySerial(q.accepted)); }
  }

  /** An accepted job waits among the delayed ones afterwards exactly if its delay is positive. */
  lemma AddedWaitsForItsDelay(w: World, events: seq<Event>, e: Event)
    requires Reachable(w, events) && Possible(w, e) && e.Added? && !Dropped(w.q, e)
    ensures Count(Step(w, e).q.delayed, BySerial(w.q.accepted)) == if e.delayMs > 0 then 1 else 0
  {
    JobsAreConserved(w, events);
    assert InOnePlace(w.q, w.q.accepted);
    NoneCounted(w.q.delayed, w.q.accepted);
    AcceptedWaits(w.q, e.id, e.maxAttempts, e.priority, e.delayMs, e.at);
    TickLeavesDelayed(Before(w.q, e), e.at, w.q.accepted);
  }

  // ---------- Controls ----------

  /** The queue has been given a handler, and has been closed. */
  ghost predicate HandlerGiven(events: seq<Event>) {
    exists i :: 0 <= i < |events| && events[i].Processed?
  }

  ghost predicate HasClosed(events: seq<Event>) {
    exists i :: 0 <= i < |events| && events[i].Closed?
  }

  /** The latest call of pause or resume was one of pause. */
  ghost predicate PausedLast(events: seq<Event>) {
    if events == [] then false
    else
      var e := events[|events| - 1];
      e.Paused? || (!e.Resumed? && PausedLast(events[..|events| - 1]))
  }

  /** The concurrency that the latest call of process asked for, at least one. */
  ghost function LatestConcurrency(events: seq<Event>): int {
    if events == [] then 1
    else
      var e := events[|events| - 1];
      if e.Processed? then if e.concurrency >= 1 then e.concurrency else 1
      else LatestConcurrency(events[..|events| - 1])
  }

  ghost predicate Controlled(q: Queue, events: seq<Event>) {
    && (q.hasHandler <==> HandlerGiven(events)) && (q.paused <==> PausedLast(events)) && (q.draining <==> HasClosed(events))
    && q.concurrency == LatestConcurrency(events)
  }

  lemma TickKeepsControls(q: Queue, now: int)
    ensures var r := Tick(q, now);
            r.hasHandler == q.hasHandler && r.paused == q.paused && r.draining == q.draining && r.concurrency == q.concurrency
  {
  }

  lemma ControlsBefore(q: Queue, e: Event)
    requires Ends(q, e) && !Dropped(q, e)
    ensures var r := Before(q, e);
            && r.hasHandler == (q.hasHandler || e.Processed?)
            && r.paused == (e.Paused? || (!e.Resumed? && q.paused))
            && r.draining == (q.draining || e.Closed?)
            && r.concurrency == if e.Processed? then Max(1, e.concurrency) else q.concurrency
  {
  }

  /** What an event does to the controls. */
  lemma ControlsAfter(q: Queue, e: Event)
    requires Ends(q, e)
    ensures var r := After(q, e);
            && r.hasHandler == (q.hasHandler || e.Processed?)
            && r.paused == (e.Paused? || (!e.Resumed? && q.paused))
            && r.draining == (q.draining || e.Closed?)
            && r.concurrency == if e.Processed? then Max(1, e.concurrency) else q.concurrency
  {
    if !Dropped(q, e) {
      ControlsBefore(q, e);
      TickKeepsControls(Before(q, e), e.at);
    }
  }

  lemma {:induction false} EveryRunControlled(w: World, events: seq<Event>)
    requires Reachable(w, events)
    ensures Controlled(w.q, events)
    decreases |events|
  {
    if events != [] {
      var n := |events| - 1;
      var v :| Reachable(v, events[..n]) && Possible(v, events[n]) && w == Step(v, events[n]);
      EveryRunControlled(v, events[..n]);
      GivenPush(events[..n], events[n]);
      ControlsAfter(v.q, events[n]);
      assert events == events[..n] + [events[n]];
    }
  }

  /** A queue works from the first handler on until it is closed, except between pause and resume, at the latest concurrency. */
  lemma ControlsFollowTheCalls(w: World, events: seq<Event>)
    requires Reachable(w, events)
    ensures Working(w.q) <==> HandlerGiven(events) && !PausedLast(events) && !HasClosed(events)
    ensures w.q.concurrency == LatestConcurrency(events)
  {
    EveryRunControlled(w, events);
  }

  lemma GivenPush(events: seq<Event>, e: Event)
    ensures HandlerGiven(events + [e]) <==> HandlerGiven(events) || e.Processed?
    ensures HasClosed(events + [e]) <==> HasClosed(events) || e.Closed?
  {
    var all := events + [e];
    assert all[|events|] == e;
    if i :| 0 <= i < |events| && events[i].Processed? { assert all[i].Processed?; }
    if i :| 0 <= i < |events| && events[i].Closed? { assert all[i].Closed?; }
  }
}
