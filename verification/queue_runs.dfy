/** What the job queue guarantees in every run, for every interleaving of callers, timers and handlers. */
module QueueRuns {
  import opened Basics
  import opened PriorityQueues
  import opened QueueSpec

  // ---------- Where the jobs are ----------

  /** Jobs are counted by identity or by id. */
  datatype Key = BySerial(serial: nat) | ById(id: Id)

  ghost function Matches(job: Job, key: Key): nat {
    match key
    case BySerial(n) => if job.serial == n then 1 else 0
    case ById(id) => if job.id == id then 1 else 0
  }

  ghost function Count(jobs: seq<Job>, key: Key): nat
    decreases |jobs|, 1
  {
    if jobs == [] then 0 else CountLast(jobs, key)
  }

  ghost function CountLast(jobs: seq<Job>, key: Key): nat
    requires jobs != []
    decreases |jobs|, 0
  {
    Count(jobs[..|jobs| - 1], key) + Matches(jobs[|jobs| - 1], key)
  }

  ghost function CountReady(entries: seq<PriorityEntry<Job>>, key: Key): nat
    decreases |entries|, 1
  {
    if entries == [] then 0 else CountReadyLast(entries, key)
  }

  ghost function CountReadyLast(entries: seq<PriorityEntry<Job>>, key: Key): nat
    requires entries != []
    decreases |entries|, 0
  {
    CountReady(entries[..|entries| - 1], key) + Matches(entries[|entries| - 1].value, key)
  }

  /** Waiting or running. */
  ghost function Live(q: Queue, key: Key): nat {
    CountReady(q.ready, key) + Count(q.delayed, key) + Count(q.running, key)
  }

  ghost function Places(q: Queue, key: Key): nat {
    Live(q, key) + Count(q.failed, key) + Count(q.done, key)
  }

  lemma CountPush(jobs: seq<Job>, job: Job, key: Key)
    ensures Count(jobs + [job], key) == Count(jobs, key) + Matches(job, key)
  {
    assert (jobs + [job])[..|jobs|] == jobs;
  }

  lemma {:induction false} CountJoin(a: seq<Job>, b: seq<Job>, key: Key)
    ensures Count(a + b, key) == Count(a, key) + Count(b, key)
  {
    if b == [] {
      assert a + b == a;
    } else {
      var front := b[..|b| - 1];
      CountJoin(a, front, key);
      assert a + b == (a + front) + [b[|b| - 1]];
      CountPush(a + front, b[|b| - 1], key);
    }
  }

  lemma {:induction false} CountWithout(jobs: seq<Job>, i: nat, key: Key)
    requires i < |jobs|
    ensures Count(Splice(jobs, i), key) == Count(jobs, key) - Matches(jobs[i], key)
  {
    SpliceIs(jobs, i);
    CountJoin(jobs[..i] + [jobs[i]], jobs[i + 1..], key);
    CountPush(jobs[..i], jobs[i], key);
    CountJoin(jobs[..i], jobs[i + 1..], key);
    assert jobs == jobs[..i] + [jobs[i]] + jobs[i + 1..];
  }

  lemma CountReadyPush(entries: seq<PriorityEntry<Job>>, e: PriorityEntry<Job>, key: Key)
    ensures CountReady(entries + [e], key) == CountReady(entries, key) + Matches(e.value, key)
  {
    assert (entries + [e])[..|entries|] == entries;
  }

  lemma {:induction false} CountReadyWithout(entries: seq<PriorityEntry<Job>>, i: nat, key: Key)
    requires i < |entries|
    ensures CountReady(Splice(entries, i), key) == CountReady(entries, key) - Matches(entries[i].value, key)
  {
    var n := |entries| - 1;
    SpliceIs(entries, i);
    if i == n {
      assert Splice(entries, i) == entries[..n];
    } else {
      CountReadyWithout(entries[..n], i, key);
      SpliceIs(entries[..n], i);
      assert Splice(entries, i) == Splice(entries[..n], i) + [entries[n]];
      CountReadyPush(Splice(entries[..n], i), entries[n], key);
    }
  }

  lemma CountFront(job: Job, jobs: seq<Job>, key: Key)
    ensures Count([job] + jobs, key) == Matches(job, key) + Count(jobs, key)
  {
    CountJoin([job], jobs, key);
    assert [job] == [] + [job];
    CountPush([], job, key);
  }

  lemma {:induction false} DueOrNot(delayed: seq<Job>, now: int, key: Key)
    ensures Count(Due(delayed, now), key) + Count(NotDue(delayed, now), key) == Count(delayed, key)
    ensures |Due(delayed, now)| + |NotDue(delayed, now)| == |delayed|
  {
    if delayed != [] {
      var first, rest := delayed[0], delayed[1..];
      DueOrNot(rest, now, key);
      assert delayed == [first] + rest;
      CountFront(first, rest, key);
      if first.runAt <= now {
        CountPush(Due(rest, now), first, key);
        assert [] + NotDue(rest, now) == NotDue(rest, now);
      } else {
        CountFront(first, NotDue(rest, now), key);
        assert Due(rest, now) + [] == Due(rest, now);
      }
    }
  }

  lemma {:induction false} EnqueuedCounts(ready: seq<PriorityEntry<Job>>, sequence: nat, jobs: seq<Job>, key: Key)
    ensures CountReady(Enqueued(ready, sequence, jobs), key) == CountReady(ready, key) + Count(jobs, key)
    ensures |Enqueued(ready, sequence, jobs)| == |ready| + |jobs|
  {
    if jobs != [] {
      var front, last := jobs[..|jobs| - 1], jobs[|jobs| - 1];
      EnqueuedCounts(ready, sequence, front, key);
      CountReadyPush(Enqueued(ready, sequence, front), PriorityEntry(last, last.priority, sequence + |jobs|), key);
    }
  }

  lemma {:induction false} ServedCounts(entries: seq<PriorityEntry<Job>>, n: nat, key: Key)
    requires n <= |entries|
    ensures CountReady(Left(entries, n), key) + Count(Started(Taken(entries, n)), key) == CountReady(entries, key)
  {
    if n > 0 {
      ServedCounts(entries, n - 1, key);
      var l, t := Left(entries, n - 1), Taken(entries, n - 1);
      CountReadyWithout(l, Next(l), key);
      var job := l[Next(l)].value;
      assert (t + [l[Next(l)]])[..n - 1] == t;
      CountPush(Started(t), job.(starts := job.starts + 1), key);
    }
  }

  // ---------- The ledger of one tick ----------

  /** The queues hold the same jobs, in places that may differ only within waiting and running. */
  ghost predicate SameJobs(a: Queue, b: Queue, key: Key) {
    && Live(a, key) == Live(b, key)
    && a.failed == b.failed && a.done == b.done && a.known == b.known && a.accepted == b.accepted
    && |a.ready| + |a.delayed| + |a.running| == |b.ready| + |b.delayed| + |b.running|
  }

  lemma TickMoves(q: Queue, now: int, key: Key)
    ensures SameJobs(Tick(q, now), q, key)
  {
    var due := Due(q.delayed, now);
    DueOrNot(q.delayed, now, key);
    EnqueuedCounts(q.ready, q.sequence, due, key);
    var p := Promote(q, now);
    var n := Starting(p);
    ServedCounts(p.ready, n, key);
    CountJoin(q.running, Started(Taken(p.ready, n)), key);
  }

  lemma ScheduledCounts(q: Queue, job: Job, now: int, key: Key)
    ensures Live(Scheduled(q, job, now), key) == Live(q, key) + Matches(job, key)
  {
    if job.runAt > now {
      CountPush(q.delayed, job, key);
    } else {
      CountReadyPush(q.ready, PriorityEntry(job, job.priority, q.sequence + 1), key);
    }
  }

  // ---------- Runs ----------

  /** peak is the largest concurrency any call to process has asked for. */
  datatype World = World(q: Queue, clock: int, peak: int)

  /** Time does not go back, only running handlers end, and generated ids are new. */
  ghost predicate Possible(w: World, e: Event) {
    && w.clock <= e.at && Ends(w.q, e)
    && (e.Added? && !e.dedupe ==> e.id !in w.q.known && Places(w.q, ById(e.id)) == 0)
  }

  ghost function Step(w: World, e: Event): World
    requires Possible(w, e)
  {
    World(After(w.q, e), e.at, if e.Processed? then Max(w.peak, Max(1, e.concurrency)) else w.peak)
  }

  ghost const START: World := World(IDLE, 0, 1)

  ghost predicate Reachable(w: World, events: seq<Event>)
    decreases |events|
  {
    if events == [] then w == START
    else
      var n := |events| - 1;
      exists v :: Reachable(v, events[..n]) && Possible(v, events[n]) && w == Step(v, events[n])
  }

  // ---------- Conservation ----------

  ghost predicate Accepts(q: Queue, e: Event) {
    e.Added? && !Dropped(q, e)
  }

  /** One more job in all when an added job is accepted, and nothing else changes their number. */
  ghost function NewJobs(q: Queue, e: Event, key: Key): nat {
    if Accepts(q, e) then Matches(Job(q.accepted, e.id, 1, 1, 0.0, 0, 0), key) else 0
  }

  lemma AcceptedCounts(q: Queue, id: Id, maxAttempts: int, priority: real, delayMs: int, now: int, key: Key)
    ensures Live(Accepted(q, id, maxAttempts, priority, delayMs, now), key)
            == Live(q, key) + Matches(Job(q.accepted, id, 1, 1, 0.0, 0, 0), key)
  {
    var job := Job(q.accepted, id, 1, maxAttempts, priority, now + delayMs, 0);
    ScheduledCounts(Registered(q, id), job, now, key);
  }

  lemma CompletedCounts(q: Queue, i: nat, key: Key)
    requires i < |q.running|
    ensures Live(Completed(q, i), key) == Live(q, key) - Matches(q.running[i], key)
    ensures Count(Completed(q, i).done, key) == Count(q.done, key) + Matches(q.running[i], key)
  {
    CountWithout(q.running, i, key);
    CountPush(q.done, q.running[i], key);
  }

  lemma ReturnedCounts(q: Queue, i: nat, delay: int, now: int, key: Key)
    requires i < |q.running|
    ensures var out := if q.running[i].attempt < q.running[i].maxAttempts then 0 else Matches(q.running[i], key);
            && Live(Returned(q, i, delay, now), key) == Live(q, key) - out
            && Count(Returned(q, i, delay, now).failed, key) == Count(q.failed, key) + out
  {
    var job := q.running[i];
    CountWithout(q.running, i, key);
    if job.attempt < job.maxAttempts {
      CountPush(q.delayed, job.(attempt := job.attempt + 1, runAt := now + delay), key);
    } else {
      CountPush(q.failed, job, key);
    }
  }

  lemma RevivedCounts(q: Queue, i: nat, now: int, key: Key)
    requires i < |q.failed|
    ensures Live(Revived(q, i, now), key) == Live(q, key) + Matches(q.failed[i], key)
    ensures Count(Revived(q, i, now).failed, key) == Count(q.failed, key) - Matches(q.failed[i], key)
  {
    CountWithout(q.failed, i, key);
    ScheduledCounts(q.(failed := Splice(q.failed, i)), q.failed[i].(attempt := 1, runAt := now, starts := 0), now, key);
  }

  /** How many of the matching jobs stop waiting or running. */
  ghost function Leaves(q: Queue, e: Event, key: Key): nat
    requires Ends(q, e)
  {
    if e.Succeeded? then Matches(q.running[e.i], key)
    else if e.Failed? && q.running[e.i].attempt >= q.running[e.i].maxAttempts then Matches(q.running[e.i], key)
    else 0
  }

  /** How many come back from the failed list. */
  ghost function Returns(q: Queue, e: Event, key: Key): nat {
    if e.Retried? && FirstFailed(q.failed, e.id) >= 0 then Matches(q.failed[FirstFailed(q.failed, e.id)], key) else 0
  }

  lemma BeforeLive(q: Queue, e: Event, key: Key)
    requires Ends(q, e) && !Dropped(q, e)
    ensures Live(Before(q, e), key) == Live(q, key) + NewJobs(q, e, key) + Returns(q, e, key) - Leaves(q, e, key)
  {
    match e
    case Added(id, dedupe, maxAttempts, priority, delayMs, at) => AcceptedCounts(q, id, maxAttempts, priority, delayMs, at, key);
    case Succeeded(i, at) => CompletedCounts(q, i, key);
    case Failed(i, delay, at) => ReturnedCounts(q, i, delay, at, key);
    case Retried(id, at) => RevivedCounts(q, FirstFailed(q.failed, id), at, key);
    case _ =>
  }

  lemma BeforeStored(q: Queue, e: Event, key: Key)
    requires Ends(q, e) && !Dropped(q, e)
    ensures var b := Before(q, e);
            Count(b.failed, key) + Count(b.done, key) == Count(q.failed, key) + Count(q.done, key) + Leaves(q, e, key) - Returns(q, e, key)
  {
    match e
    case Succeeded(i, at) => CompletedCounts(q, i, key);
    case Failed(i, delay, at) => ReturnedCounts(q, i, delay, at, key);
    case Retried(id, at) => RevivedCounts(q, FirstFailed(q.failed, id), at, key);
    case _ =>
  }

  lemma AfterMoves(q: Queue, e: Event, key: Key)
    requires Ends(q, e) && !Dropped(q, e)
    ensures SameJobs(After(q, e), Before(q, e), key)
  {
    if !(e.Paused? || e.Closed?) { TickMoves(Before(q, e), e.at, key); }
  }

  lemma AfterCounts(q: Queue, e: Event, key: Key)
    requires Ends(q, e)
    ensures Live(After(q, e), key) == Live(q, key) + NewJobs(q, e, key) + Returns(q, e, key) - Leaves(q, e, key)
    ensures Places(After(q, e), key) == Places(q, key) + NewJobs(q, e, key)
  {
    if !Dropped(q, e) {
      BeforeLive(q, e, key);
      BeforeStored(q, e, key);
      AfterMoves(q, e, key);
    }
  }

  ghost function Size(q: Queue): nat {
    |q.ready| + |q.delayed| + |q.running| + |q.failed| + |q.done|
  }

  lemma ReturnedSize(q: Queue, i: nat, delay: int, now: int)
    requires i < |q.running|
    ensures Size(Returned(q, i, delay, now)) == Size(q)
  {
  }

  lemma RevivedSize(q: Queue, i: nat, now: int)
    requires i < |q.failed|
    ensures Size(Revived(q, i, now)) == Size(q)
  {
  }

  lemma BeforeSize(q: Queue, e: Event)
    requires Ends(q, e) && !Dropped(q, e)
    ensures var b := Before(q, e);
            Size(b) - Size(q) == b.accepted - q.accepted == if Accepts(q, e) then 1 else 0
  {
    match e
    case Failed(i, delay, at) => ReturnedSize(q, i, delay, at);
    case Retried(id, at) => RevivedSize(q, FirstFailed(q.failed, id), at);
    case _ =>
  }

  lemma AfterSize(q: Queue, e: Event)
    requires Ends(q, e)
    ensures Size(After(q, e)) - Size(q) == After(q, e).accepted - q.accepted == if Accepts(q, e) then 1 else 0
  {
    if !Dropped(q, e) {
      BeforeSize(q, e);
      AfterMoves(q, e, BySerial(0));
    }
  }

  ghost predicate InOnePlace(q: Queue, n: nat) {
    Places(q, BySerial(n)) == if n < q.accepted then 1 else 0
  }

  /**
   * In every run each accepted job is in exactly one of the five places, so
   * the five counts that stats reports add up to the number of accepted jobs.
   */
  lemma {:induction false} JobsAreConserved(w: World, events: seq<Event>)
    requires Reachable(w, events)
    ensures forall n {:trigger InOnePlace(w.q, n)} :: InOnePlace(w.q, n)
    ensures Size(w.q) == w.q.accepted
    decreases |events|
  {
    if events != [] {
      var k := |events| - 1;
      var v :| Reachable(v, events[..k]) && Possible(v, events[k]) && w == Step(v, events[k]);
      JobsAreConserved(v, events[..k]);
      AfterSize(v.q, events[k]);
      forall n ensures InOnePlace(w.q, n) {
        assert InOnePlace(v.q, n);
        AfterCounts(v.q, events[k], BySerial(n));
      }
    }
  }

  // ---------- Explicit ids ----------

  ghost predicate Unique(q: Queue, id: Id) {
    Live(q, ById(id)) == if id in q.known then 1 else 0
  }

  ghost predicate RetryFree(events: seq<Event>) {
    forall i :: 0 <= i < |events| ==> !events[i].Retried?
  }

  lemma AfterKnown(q: Queue, e: Event, id: Id)
    requires Ends(q, e) && !e.Retried?
    ensures var gone := (e.Succeeded? || (e.Failed? && q.running[e.i].attempt >= q.running[e.i].maxAttempts)) && q.running[e.i].id == id;
            id in After(q, e).known <==> (id in q.known && !gone) || (Accepts(q, e) && e.id == id)
  {
    if !Dropped(q, e) {
      AfterMoves(q, e, ById(id));
    }
  }

  lemma {:induction false} LiveAtLeast(jobs: seq<Job>, i: nat)
    requires i < |jobs|
    ensures Count(jobs, ById(jobs[i].id)) >= 1
  {
    if i < |jobs| - 1 { LiveAtLeast(jobs[..|jobs| - 1], i); }
  }

  lemma UniqueKept(w: World, e: Event, id: Id)
    requires Possible(w, e) && !e.Retried?
    requires forall k {:trigger Unique(w.q, k)} :: Unique(w.q, k)
    ensures Unique(After(w.q, e), id)
  {
    assert Unique(w.q, id);
    AfterCounts(w.q, e, ById(id));
    AfterKnown(w.q, e, id);
    if e.Succeeded? || e.Failed? { LiveAtLeast(w.q.running, e.i); }
  }

  /**
   * As long as nothing is taken back from the failed list, the known ids are
   * exactly those of the waiting and running jobs, each of them once.
   */
  lemma {:induction false} IdsAreNotLiveTwice(w: World, events: seq<Event>)
    requires Reachable(w, events) && RetryFree(events)
    ensures forall id {:trigger Unique(w.q, id)} :: Unique(w.q, id)
    decreases |events|
  {
    if events != [] {
      var k := |events| - 1;
      var v :| Reachable(v, events[..k]) && Possible(v, events[k]) && w == Step(v, events[k]);
      IdsAreNotLiveTwice(v, events[..k]);
      forall id ensures Unique(w.q, id) { UniqueKept(v, events[k], id); }
    } else {
      forall id ensures Unique(w.q, id) { }
    }
  }

  /** With retries: exactly which event makes a live id live twice. */
  lemma LiveTwiceExactly(w: World, e: Event, id: Id)
    requires Possible(w, e) && Live(w.q, ById(id)) <= 1
    ensures Live(Step(w, e).q, ById(id)) > 1 <==>
              && Live(w.q, ById(id)) == 1
              && ((e.Added? && e.id == id && id !in w.q.known)
                  || (e.Retried? && e.id == id && FirstFailed(w.q.failed, id) >= 0))
  {
    AfterCounts(w.q, e, ById(id));
  }

  /**
   * Retrying a job that failed for good leaves its id unknown, so a caller can
   * add the id again while the first job still waits.
   */
  lemma RetryAllowsADuplicate(w: World, id: Id, at: int, at': int)
    requires w.clock <= at <= at'
    requires FirstFailed(w.q.failed, id) >= 0 && id !in w.q.known && Live(w.q, ById(id)) == 0
    ensures var v := Step(w, Retried(id, at));
            var u := Step(v, Added(id, true, 3, 100.0, 0, at'));
            Live(v.q, ById(id)) == 1 && Live(u.q, ById(id)) == 2
  {
    AfterCounts(w.q, Retried(id, at), ById(id));
    var v := Step(w, Retried(id, at));
    AfterCounts(v.q, Added(id, true, 3, 100.0, 0, at'), ById(id));
  }

  /** One job is added, started, fails its only attempt, is retried and added again: it is then live twice. */
  lemma LiveTwice(id: Id) returns (events: seq<Event>, w: World)
    ensures Reachable(w, events) && Live(w.q, ById(id)) == 2
  {
    var v := FailedForGood(id);
    var es := [Added(id, true, 1, 100.0, 0, 0), Processed(1, 0), Failed(0, 0, 0)];
    RetryAllowsADuplicate(v, id, 0, 0);
    ReachableExtend(es, v, Retried(id, 0));
    var u := Step(v, Retried(id, 0));
    ReachableExtend(es + [Retried(id, 0)], u, Added(id, true, 3, 100.0, 0, 0));
    w := Step(u, Added(id, true, 3, 100.0, 0, 0));
    events := es + [Retried(id, 0)] + [Added(id, true, 3, 100.0, 0, 0)];
  }

  lemma ReachableExtend(events: seq<Event>, v: World, e: Event)
    requires Reachable(v, events) && Possible(v, e)
    ensures Reachable(Step(v, e), events + [e])
  {
    var all := events + [e];
    assert all[..|events|] == events && all[|events|] == e;
  }

  ghost function OnlyJob(id: Id): Job {
    Job(0, id, 1, 1, 100.0, 0, 0)
  }

  lemma AddedOnce(id: Id) returns (w: World)
    ensures Reachable(w, [Added(id, true, 1, 100.0, 0, 0)]) && w.clock == 0
    ensures w.q == IDLE.(known := {id}, accepted := 1, ready := [PriorityEntry(OnlyJob(id), 100.0, 1)], sequence := 1)
  {
    var e := Added(id, true, 1, 100.0, 0, 0);
    ReachableExtend([], START, e);
    w := Step(START, e);
    assert [] + [e] == [e] && {} + {id} == {id};
    assert [] + [PriorityEntry(OnlyJob(id), 100.0, 1)] == [PriorityEntry(OnlyJob(id), 100.0, 1)];
  }

  lemma StartedOnce(id: Id) returns (w: World)
    ensures Reachable(w, [Added(id, true, 1, 100.0, 0, 0), Processed(1, 0)]) && w.clock == 0
    ensures w.q.ready == [] && w.q.delayed == [] && w.q.failed == [] && w.q.running == [OnlyJob(id).(starts := 1)]
  {
    var v := AddedOnce(id);
    var e := Processed(1, 0);
    ReachableExtend([Added(id, true, 1, 100.0, 0, 0)], v, e);
    w := Step(v, e);
    OneStarts(v.q.(hasHandler := true), OnlyJob(id));
    assert [Added(id, true, 1, 100.0, 0, 0)] + [e] == [Added(id, true, 1, 100.0, 0, 0), e];
  }

  lemma FailedForGood(id: Id) returns (w: World)
    ensures Reachable(w, [Added(id, true, 1, 100.0, 0, 0), Processed(1, 0), Failed(0, 0, 0)])
    ensures w.clock == 0 && FirstFailed(w.q.failed, id) >= 0 && id !in w.q.known && Live(w.q, ById(id)) == 0
  {
    var v := StartedOnce(id);
    var e, es := Failed(0, 0, 0), [Added(id, true, 1, 100.0, 0, 0), Processed(1, 0)];
    ReachableExtend(es, v, e);
    w := Step(v, e);
    assert es + [e] == [es[0], es[1], e];
    NothingStarts(Returned(v.q, 0, 0, 0));
    assert w.q.failed[0].id == id;
  }

  lemma OneStarts(q: Queue, job: Job)
    requires Working(q) && q.concurrency == 1 && q.delayed == [] && q.running == [] && q.ready == [PriorityEntry(job, job.priority, 1)]
    ensures var r := Tick(q, 0);
            r.ready == [] && r.delayed == [] && r.running == [job.(starts := job.starts + 1)]
            && r.failed == q.failed && r.known == q.known
  {
    assert Promote(q, 0).ready == q.ready;
    assert Left(q.ready, 0) == q.ready && Left(q.ready, 1) == [];
    assert Taken(q.ready, 1) == [q.ready[0]];
    assert [q.ready[0]][..0] == [] && [] + [job.(starts := job.starts + 1)] == [job.(starts := job.starts + 1)];
    assert Started([q.ready[0]]) == [job.(starts := job.starts + 1)];
    assert q.running + [job.(starts := job.starts + 1)] == [job.(starts := job.starts + 1)];
  }

  lemma NothingStarts(q: Queue)
    requires q.ready == [] && q.delayed == []
    ensures var r := Tick(q, 0); r.ready == [] && r.delayed == [] && r.running == q.running && r.failed == q.failed && r.known == q.known
  {
    assert q.running + [] == q.running;
  }

  // ---------- Order of service ----------

  ghost predicate ServedFirst<T>(a: PriorityEntry<T>, b: PriorityEntry<T>) {
    a.priority < b.priority || (a.priority == b.priority && a.sequence < b.sequence)
  }

  ghost predicate FirstOfAll<T>(a: PriorityEntry<T>, rest: seq<PriorityEntry<T>>) {
    forall k {:trigger rest[k]} :: 0 <= k < |rest| ==> ServedFirst(a, rest[k])
  }

  /** taken is sorted by priority, then by order of enqueueing, and all of it comes before what is left. */
  ghost predicate TakenFirst<T>(taken: seq<PriorityEntry<T>>, left: seq<PriorityEntry<T>>) {
    && (forall i {:trigger FirstOfAll(taken[i], left)} :: 0 <= i < |taken| ==> FirstOfAll(taken[i], left))
    && (forall i, j {:trigger ServedFirst(taken[i], taken[j])} :: 0 <= i < j < |taken| ==> ServedFirst(taken[i], taken[j]))
  }

  lemma NextIsServedFirst<T>(l: seq<PriorityEntry<T>>, sequence: nat)
    requires l != [] && Numbered(l, sequence)
    ensures FirstOfAll(l[Next(l)], Splice(l, Next(l)))
  {
    var n := Next(l);
    SpliceIs(l, n);
    forall k | 0 <= k < |l| - 1
      ensures ServedFirst(l[n], Splice(l, n)[k])
    {
      NextIsFirstOfLeast(l, if k < n then k else k + 1);
    }
  }

  lemma {:induction false} TakenAreFirst<T>(entries: seq<PriorityEntry<T>>, sequence: nat, n: nat)
    requires Numbered(entries, sequence) && n <= |entries|
    ensures Numbered(Left(entries, n), sequence) && TakenFirst(Taken(entries, n), Left(entries, n))
  {
    if n > 0 {
      TakenAreFirst(entries, sequence, n - 1);
      var l, t := Left(entries, n - 1), Taken(entries, n - 1);
      NumberedWithout(l, sequence, Next(l));
      NextIsServedFirst(l, sequence);
      forall i | 0 <= i < n
        ensures FirstOfAll(Taken(entries, n)[i], Left(entries, n))
      {
        if i < n - 1 { assert FirstOfAll(t[i], l); }
      }
      forall i, j | 0 <= i < j < n
        ensures ServedFirst(Taken(entries, n)[i], Taken(entries, n)[j])
      {
        assert FirstOfAll(t[i], l);
        if j < n - 1 { assert ServedFirst(t[i], t[j]); }
      }
    }
  }

  /** Jobs that come due together are promoted in the reverse of the order they were delayed in. */
  lemma {:induction false} DueIsBackwards(x: seq<Job>, y: seq<Job>, now: int)
    ensures Due(x + y, now) == Due(y, now) + Due(x, now)
  {
    if x == [] {
      assert x + y == y;
    } else {
      assert (x + y)[1..] == x[1..] + y && (x + y)[0] == x[0];
      DueIsBackwards(x[1..], y, now);
    }
  }

  // ---------- Every job, wherever it is ----------

  datatype Place = Ready | Delayed | Running | DeadLetter | Done

  ghost function Cap(job: Job): int {
    Max(1, job.maxAttempts)
  }

  /** How often a job in each place has been started, and when it may run. */
  ghost predicate Fits(job: Job, place: Place, clock: int) {
    && 1 <= job.attempt <= Cap(job)
    && match place
       case Ready => job.starts == job.attempt - 1 && job.runAt <= clock
       case Delayed => job.starts == job.attempt - 1
       case Running => job.starts == job.attempt && job.runAt <= clock
       case DeadLetter => job.starts == Cap(job)
       case Done => job.starts == job.attempt
  }

  ghost predicate AllFit(jobs: seq<Job>, place: Place, clock: int) {
    forall i {:trigger jobs[i]} :: 0 <= i < |jobs| ==> Fits(jobs[i], place, clock)
  }

  ghost predicate ReadyFit(entries: seq<PriorityEntry<Job>>, clock: int) {
    forall i {:trigger entries[i]} :: 0 <= i < |entries| ==>
      Fits(entries[i].value, Ready, clock) && entries[i].priority == entries[i].value.priority
  }

  ghost predicate JobsFit(q: Queue, clock: int) {
    && Numbered(q.ready, q.sequence) && ReadyFit(q.ready, clock)
    && AllFit(q.delayed, Delayed, clock) && AllFit(q.running, Running, clock)
    && AllFit(q.failed, DeadLetter, clock) && AllFit(q.done, Done, clock)
  }

  lemma {:induction false} DueFit(delayed: seq<Job>, now: int)
    requires AllFit(delayed, Delayed, now)
    ensures AllFit(Due(delayed, now), Ready, now) && AllFit(NotDue(delayed, now), Delayed, now)
    ensures forall i {:trigger NotDue(delayed, now)[i]} :: 0 <= i < |NotDue(delayed, now)| ==> NotDue(delayed, now)[i].runAt > now
  {
    if delayed != [] { DueFit(delayed[1..], now); }
  }

  lemma {:induction false} EnqueuedFit(ready: seq<PriorityEntry<Job>>, sequence: nat, jobs: seq<Job>, now: int)
    requires Numbered(ready, sequence) && ReadyFit(ready, now) && AllFit(jobs, Ready, now)
    ensures Numbered(Enqueued(ready, sequence, jobs), sequence + |jobs|) && ReadyFit(Enqueued(ready, sequence, jobs), now)
  {
    if jobs != [] { EnqueuedFit(ready, sequence, jobs[..|jobs| - 1], now); }
  }

  lemma {:induction false} ServedFit(entries: seq<PriorityEntry<Job>>, n: nat, now: int)
    requires n <= |entries| && ReadyFit(entries, now)
    ensures ReadyFit(Left(entries, n), now) && AllFit(Started(Taken(entries, n)), Running, now)
  {
    if n > 0 {
      ServedFit(entries, n - 1, now);
      var l, t := Left(entries, n - 1), Taken(entries, n - 1);
      SpliceIs(l, Next(l));
      assert (t + [l[Next(l)]])[..n - 1] == t;
    }
  }

  lemma TickFits(q: Queue, now: int)
    requires JobsFit(q, now)
    ensures JobsFit(Tick(q, now), now)
  {
    var due := Due(q.delayed, now);
    DueFit(q.delayed, now);
    EnqueuedFit(q.ready, q.sequence, due, now);
    var p := Promote(q, now);
    ServedFit(p.ready, Starting(p), now);
    TakenAreFirst(p.ready, p.sequence, Starting(p));
  }

  lemma ScheduledFits(q: Queue, job: Job, now: int)
    requires JobsFit(q, now) && job.starts == job.attempt - 1 && 1 <= job.attempt <= Cap(job)
    ensures JobsFit(Scheduled(q, job, now), now)
  {
  }

  lemma WithoutFits(jobs: seq<Job>, i: nat, place: Place, clock: int)
    requires i < |jobs| && AllFit(jobs, place, clock)
    ensures AllFit(Splice(jobs, i), place, clock)
  {
    SpliceIs(jobs, i);
  }

  lemma CompletedFits(q: Queue, i: nat, now: int)
    requires i < |q.running| && JobsFit(q, now)
    ensures JobsFit(Completed(q, i), now)
  {
    WithoutFits(q.running, i, Running, now);
  }

  lemma ReturnedFits(q: Queue, i: nat, delay: int, now: int)
    requires i < |q.running| && JobsFit(q, now)
    ensures JobsFit(Returned(q, i, delay, now), now)
  {
    WithoutFits(q.running, i, Running, now);
  }

  lemma AcceptedFits(q: Queue, id: Id, maxAttempts: int, priority: real, delayMs: int, now: int)
    requires JobsFit(q, now)
    ensures JobsFit(Accepted(q, id, maxAttempts, priority, delayMs, now), now)
  {
    var q1, job := Registered(q, id), Job(q.accepted, id, 1, maxAttempts, priority, now + delayMs, 0);
    assert JobsFit(q1, now);
    ScheduledFits(q1, job, now);
    assert Accepted(q, id, maxAttempts, priority, delayMs, now) == Scheduled(q1, job, now);
  }

  lemma RevivedFits(q: Queue, i: nat, now: int)
    requires i < |q.failed| && JobsFit(q, now)
    ensures JobsFit(Revived(q, i, now), now)
  {
    WithoutFits(q.failed, i, DeadLetter, now);
    ScheduledFits(q.(failed := Splice(q.failed, i)), q.failed[i].(attempt := 1, runAt := now, starts := 0), now);
  }

  lemma BeforeFits(q: Queue, e: Event)
    requires Ends(q, e) && !Dropped(q, e) && JobsFit(q, e.at)
    ensures JobsFit(Before(q, e), e.at)
  {
    match e
    case Added(id, dedupe, maxAttempts, priority, delayMs, at) => AcceptedFits(q, id, maxAttempts, priority, delayMs, at);
    case Retried(id, at) => RevivedFits(q, FirstFailed(q.failed, id), at);
    case Succeeded(i, at) => CompletedFits(q, i, at);
    case Failed(i, delay, at) => ReturnedFits(q, i, delay, at);
    case _ =>
  }

  /** The queue never sits on work it may start, and waiting work always has a timer set. */
  ghost predicate NotIdle(q: Queue) {
    Working(q) ==> (q.ready != [] ==> |q.running| >= q.concurrency) && (q.ready != [] || q.delayed != [] ==> q.wakeAt.Some?)
  }

  ghost predicate Invariant(w: World) {
    && JobsFit(w.q, w.clock) && NotIdle(w.q)
    && 1 <= w.q.concurrency <= w.peak && |w.q.running| <= w.peak
  }

  lemma LaterFits(q: Queue, clock: int, now: int)
    requires JobsFit(q, clock) && clock <= now
    ensures JobsFit(q, now)
  {
  }

  lemma FitsAfter(q: Queue, clock: int, e: Event)
    requires Ends(q, e) && JobsFit(q, clock) && clock <= e.at
    ensures JobsFit(After(q, e), e.at)
  {
    LaterFits(q, clock, e.at);
    if !Dropped(q, e) {
      BeforeFits(q, e);
      TickFits(Before(q, e), e.at);
    }
  }

  lemma BeforeBounds(q: Queue, e: Event)
    requires Ends(q, e) && !Dropped(q, e)
    ensures var b := Before(q, e);
            && |b.running| <= |q.running|
            && b.concurrency == (if e.Processed? then Max(1, e.concurrency) else q.concurrency)
            && (e.Paused? || e.Closed? ==> !Working(b))
  {
  }

  lemma TickBounds(q: Queue, now: int)
    ensures var t := Tick(q, now);
            && NotIdle(t) && t.concurrency == q.concurrency
            && |t.running| <= Max(|q.running|, q.concurrency)
  {
  }

  lemma StepKeeps(w: World, e: Event)
    requires Invariant(w) && Possible(w, e)
    ensures Invariant(Step(w, e))
  {
    FitsAfter(w.q, w.clock, e);
    if !Dropped(w.q, e) {
      BeforeBounds(w.q, e);
      TickBounds(Before(w.q, e), e.at);
    }
  }

  /**
   * In every run: no job is started before its time or more than
   * max(1, maxAttempts) times per acceptance or retry, failed jobs used up all
   * their attempts, no more handlers run than the largest concurrency asked
   * for, and a queue that may work neither delays a ready job while a slot is
   * free nor lets a delayed one wait without a timer.
   */
  lemma {:induction false} EveryRun(w: World, events: seq<Event>)
    requires Reachable(w, events)
    ensures Invariant(w)
    decreases |events|
  {
    if events != [] {
      var k := |events| - 1;
      var v :| Reachable(v, events[..k]) && Possible(v, events[k]) && w == Step(v, events[k]);
      EveryRun(v, events[..k]);
      StepKeeps(v, events[k]);
    }
  }

  /** With a single call to process, the peak is the concurrency that call asked for. */
  lemma {:induction false} PeakOfOneProcess(w: World, events: seq<Event>, c: int)
    requires Reachable(w, events) && forall i :: 0 <= i < |events| && events[i].Processed? ==> events[i].concurrency == c
    ensures w.peak <= Max(1, c)
    decreases |events|
  {
    if events != [] {
      var k := |events| - 1;
      var v :| Reachable(v, events[..k]) && Possible(v, events[k]) && w == Step(v, events[k]);
      PeakOfOneProcess(v, events[..k], c);
    }
  }

  /**
   * What a step starts, in order, is the front of the waiting entries sorted by
   * priority and then by order of enqueueing; a paused or closed queue starts nothing.
   */
  lemma StartsAreTheLeast(w: World, events: seq<Event>, e: Event) returns (taken: seq<PriorityEntry<Job>>)
    requires Reachable(w, events) && Possible(w, e) && !Dropped(w.q, e)
    ensures var v := Step(w, e);
            && v.q.running == Before(w.q, e).running + Started(taken)
            && TakenFirst(taken, v.q.ready)
            && (taken != [] ==> Working(v.q))
            && (w.q.draining ==> v.q.draining)
  {
    EveryRun(w, events);
    LaterFits(w.q, w.clock, e.at);
    BeforeFits(w.q, e);
    var b := Before(w.q, e);
    if e.Paused? || e.Closed? || !Working(b) {
      taken := [];
      assert b.running + [] == b.running;
    } else {
      var p := Promote(b, e.at);
      DueFit(b.delayed, e.at);
      EnqueuedFit(b.ready, b.sequence, Due(b.delayed, e.at), e.at);
      taken := Taken(p.ready, Starting(p));
      TakenAreFirst(p.ready, p.sequence, Starting(p));
    }
  }

  /**
   * With work left the timer is set for the time of some delayed job or for
   * 250 ms ahead, whichever is first, but never sooner than 25 ms ahead.
   */
  lemma WakesInTime(q: Queue, now: int)
    requires Working(q) && JobsFit(q, now)
    ensures var t := Tick(q, now);
            && (t.wakeAt.Some? <==> t.delayed != [] || t.ready != [])
            && (forall i {:trigger t.delayed[i]} :: 0 <= i < |t.delayed| ==> t.delayed[i].runAt > now)
            && (t.wakeAt.Some? ==> IsWakeTime(t.delayed, now, t.wakeAt.value))
  {
    DueFit(q.delayed, now);
    var t := Tick(q, now);
    EarliestIsSome(t.delayed, now + 250);
    forall i | 0 <= i < |t.delayed| ensures Earliest(t.delayed, now + 250) <= t.delayed[i].runAt { EarliestIsLeast(t.delayed, now + 250, i); }
  }

  /** The least of the times of the delayed jobs and 250 ms ahead, but at least 25 ms ahead. */
  ghost predicate IsWakeTime(delayed: seq<Job>, now: int, wake: int) {
    && now + 25 <= wake <= now + 250
    && (forall i {:trigger delayed[i]} :: 0 <= i < |delayed| ==> wake <= Max(now + 25, delayed[i].runAt))
    && (wake == now + 250 || exists i :: 0 <= i < |delayed| && wake == Max(now + 25, delayed[i].runAt))
  }

  lemma {:induction false} EarliestIsSome(delayed: seq<Job>, bound: int)
    ensures Earliest(delayed, bound) <= bound
    ensures Earliest(delayed, bound) == bound || exists i :: 0 <= i < |delayed| && Earliest(delayed, bound) == delayed[i].runAt
  {
    if delayed != [] {
      var front := delayed[..|delayed| - 1];
      EarliestIsSome(front, bound);
      if i :| 0 <= i < |front| && Earliest(front, bound) == front[i].runAt { assert delayed[i] == front[i]; }
    }
  }

  lemma {:induction false} EarliestIsLeast(delayed: seq<Job>, bound: int, i: nat)
    requires i < |delayed|
    ensures Earliest(delayed, bound) <= bound && Earliest(delayed, bound) <= delayed[i].runAt
  {
    var n := |delayed| - 1;
    if i < n {
      EarliestIsLeast(delayed[..n], bound, i);
    } else if n > 0 {
      EarliestIsLeast(delayed[..n], bound, 0);
    }
  }
}
