/** packages/runtime/src/queue/memory-queue.ts: the queue object, with the clock passed in. */
module MemoryQueues {
  import opened Basics
  import opened PriorityQueues
  import opened QueueSpec

  datatype Stats = Stats(waiting: nat, active: int, completed: int, failed: nat, delayed: nat)

  class MemoryQueue {
    const ready: PriorityQueue<Job>
    var delayed: seq<Job>
    var failed: seq<Job>
    var known: set<Id>
    var accepted: nat
    var hasHandler: bool
    var concurrency: int
    var active: int
    var completedCount: int
    var paused: bool
    var draining: bool
    var wakeAt: Option<int>
    /** The jobs handed to the handler and not yet ended, and those it completed. */
    ghost var running: seq<Job>
    ghost var done: seq<Job>

    ghost predicate Valid()
      reads this, ready, ready.heap
    {
      ready.Valid() && active == |running| && completedCount == |done|
    }

    ghost function State(): Queue
      reads this, ready
    {
      Queue(ready.entries, ready.sequence, delayed, running, failed, done, known, accepted,
            hasHandler, concurrency, paused, draining, wakeAt)
    }

    constructor ()
      ensures Valid() && State() == IDLE && fresh(ready) && fresh(ready.heap)
    {
      ready := new PriorityQueue<Job>();
      delayed, failed, known, accepted := [], [], {}, 0;
      hasHandler, concurrency, active, completedCount := false, 1, 0, 0;
      paused, draining, wakeAt := false, false, None;
      running, done := [], [];
    }

    method Add(id: Id, dedupe: bool, now: int, maxAttempts: int := 3, priority: real := 100.0, delayMs: int := 0)
      requires Valid()
      modifies this, ready, ready.heap
      ensures Valid() && State() == After(old(State()), Added(id, dedupe, maxAttempts, priority, delayMs, now))
    {
      if dedupe && id in known { return; }
      Accept(id, now, maxAttempts, priority, delayMs);
      Tick(now);
    }

    method Accept(id: Id, now: int, maxAttempts: int, priority: real, delayMs: int)
      requires Valid()
      modifies this, ready, ready.heap
      ensures Valid() && State() == Accepted(old(State()), id, maxAttempts, priority, delayMs, now)
    {
      var job := Job(accepted, id, 1, maxAttempts, priority, now + delayMs, 0);
      Register(id);
      Schedule(job, now);
    }

    method Register(id: Id)
      requires Valid()
      modifies this
      ensures Valid() && State() == Registered(old(State()), id)
    {
      known := known + {id};
      accepted := accepted + 1;
    }

    method Process(concurrency: int, now: int)
      requires Valid()
      modifies this, ready, ready.heap
      ensures Valid() && State() == After(old(State()), Processed(concurrency, now))
    {
      hasHandler := true;
      this.concurrency := if 1 >= concurrency then 1 else concurrency;
      Tick(now);
    }

    method FireTimer(now: int)
      requires Valid()
      modifies this, ready, ready.heap
      ensures Valid() && State() == After(old(State()), TimerFired(now))
    {
      wakeAt := None;
      Tick(now);
    }

    /** The end of run for a job whose handler returned. */
    method HandlerReturned(job: Job, ghost i: nat, now: int)
      requires Valid() && i < |running| && running[i] == job
      modifies this, ready, ready.heap
      ensures Valid() && State() == After(old(State()), Succeeded(i, now))
    {
      Complete(job, i);
      Tick(now);
    }

    method Complete(job: Job, ghost i: nat)
      requires Valid() && i < |running| && running[i] == job
      modifies this
      ensures Valid() && State() == Completed(old(State()), i)
    {
      completedCount := completedCount + 1;
      known := known - {job.id};
      running, done := Splice(running, i), done + [job];
      active := active - 1;
    }

    /** The end of run for a job whose handler failed; delay is the backoff before another attempt. */
    method HandlerFailed(job: Job, ghost i: nat, delay: int, now: int)
      requires Valid() && i < |running| && running[i] == job
      modifies this, ready, ready.heap
      ensures Valid() && State() == After(old(State()), Failed(i, delay, now))
    {
      GiveBack(job, i, delay, now);
      Tick(now);
    }

    method GiveBack(job: Job, ghost i: nat, delay: int, now: int)
      requires Valid() && i < |running| && running[i] == job
      modifies this
      ensures Valid() && State() == Returned(old(State()), i, delay, now)
    {
      if job.attempt < job.maxAttempts {
        delayed := delayed + [job.(attempt := job.attempt + 1, runAt := now + delay)];
      } else {
        failed := failed + [job];
        known := known - {job.id};
      }
      running := Splice(running, i);
      active := active - 1;
    }

    method RetryFailed(id: Id, now: int) returns (found: bool)
      requires Valid()
      modifies this, ready, ready.heap
      ensures Valid() && State() == After(old(State()), Retried(id, now))
      ensures found <==> exists k :: 0 <= k < |old(failed)| && old(failed)[k].id == id
    {
      var index := FindFailed(id);
      if index == -1 { return false; }
      assert failed[index].id == id;
      Revive(index, now);
      Tick(now);
      found := true;
    }

    method Revive(index: nat, now: int)
      requires Valid() && index < |failed|
      modifies this, ready, ready.heap
      ensures Valid() && State() == Revived(old(State()), index, now)
    {
      var job := failed[index].(attempt := 1, runAt := now, starts := 0);
      failed := Splice(failed, index);
      Schedule(job, now);
    }

    method FindFailed(id: Id) returns (index: int)
      ensures index == FirstFailed(failed, id)
    {
      index := 0;
      while index < |failed|
        invariant 0 <= index <= |failed| && forall k :: 0 <= k < index ==> failed[k].id != id
      {
        if failed[index].id == id { return; }
        index := index + 1;
      }
      index := -1;
    }

    method Pause(now: int)
      requires Valid()
      modifies this
      ensures Valid() && State() == After(old(State()), Paused(now))
    {
      paused := true;
    }

    method Resume(now: int)
      requires Valid()
      modifies this, ready, ready.heap
      ensures Valid() && State() == After(old(State()), Resumed(now))
    {
      paused := false;
      Tick(now);
    }

    /** The part of close before it waits for the running handlers. */
    method Close(now: int)
      requires Valid()
      modifies this
      ensures Valid() && State() == After(old(State()), Closed(now))
    {
      draining := true;
      wakeAt := None;
    }

    method TakeStats() returns (s: Stats)
      requires Valid()
      ensures s == Stats(|State().ready|, |State().running|, |State().done|, |State().failed|, |State().delayed|)
    {
      var waiting := ready.Size();
      s := Stats(waiting, active, completedCount, |failed|, |delayed|);
    }

    method Schedule(job: Job, now: int)
      requires Valid()
      modifies this, ready, ready.heap
      ensures Valid() && State() == Scheduled(old(State()), job, now)
    {
      if job.runAt > now {
        delayed := delayed + [job];
      } else {
        ready.Enqueue(job, job.priority);
      }
    }

    /** Goes through the delayed jobs from the last to the first. */
    method PromoteDelayed(now: int)
      requires Valid()
      modifies this, ready, ready.heap
      ensures Valid() && State() == Promote(old(State()), now)
    {
      ghost var q := State();
      var i := |delayed| - 1;
      PromotedNone(q, now);
      while i >= 0
        invariant -1 <= i < |q.delayed| && Valid()
        invariant State() == PromotedFrom(q, i + 1, now)
      {
        PromotedNext(q, i, now);
        PromoteAt(i, now);
        i := i - 1;
      }
      PromotedAll(q, now);
    }

    method PromoteAt(i: nat, now: int)
      requires Valid() && i < |delayed|
      modifies this, ready, ready.heap
      ensures Valid() && State() == PromotedOne(old(State()), i, now)
    {
      var job := delayed[i];
      if job.runAt <= now {
        delayed := Splice(delayed, i);
        ready.Enqueue(job, job.priority);
      }
    }

    method Tick(now: int)
      requires Valid()
      modifies this, ready, ready.heap
      ensures Valid() && State() == QueueSpec.Tick(old(State()), now)
    {
      if draining || paused || !hasHandler { return; }
      PromoteDelayed(now);
      StartReady();
      var waiting := ready.Size();
      wakeAt := None;
      if |delayed| > 0 || waiting > 0 {
        var next := EarliestDelayed(now + 250);
        var wait := if 25 >= next - now then 25 else next - now;
        wakeAt := Some(now + wait);
      }
    }

    method StartReady()
      requires Valid()
      modifies this, ready, ready.heap
      ensures Valid() && State() == StartAll(old(State()))
    {
      ghost var q, k := State(), 0;
      var waiting := ready.Size();
      ServedNone(q);
      while active < concurrency && waiting > 0
        invariant Valid() && k <= Starting(q) && waiting == |ready.entries|
        invariant State() == ServedSome(q, k)
        decreases waiting
      {
        ServedNext(q, k);
        StartNext();
        k := k + 1;
        waiting := ready.Size();
      }
    }

    method StartNext()
      requires Valid() && ready.entries != []
      modifies this, ready, ready.heap
      ensures Valid() && State() == ServedOne(old(State()))
    {
      var job := ready.Dequeue();
      Run(job.value);
    }

    /** The part of run up to the call of the handler. */
    method Run(job: Job)
      requires Valid()
      modifies this
      ensures Valid() && State() == old(State()).(running := old(running) + [job.(starts := job.starts + 1)])
    {
      active := active + 1;
      running := running + [job.(starts := job.starts + 1)];
    }

    method EarliestDelayed(bound: int) returns (e: int)
      ensures e == Earliest(delayed, bound)
    {
      e := bound;
      for i := 0 to |delayed|
        invariant e == Earliest(delayed[..i], bound)
      {
        assert delayed[..i + 1][..i] == delayed[..i];
        if delayed[i].runAt < e { e := delayed[i].runAt; }
      }
      assert delayed[..|delayed|] == delayed;
    }
  }

  // ---------- The loops ----------

  /** The delayed jobs from i on have been promoted if due. */
  ghost function PromotedFrom(q: Queue, i: nat, now: int): Queue
    requires i <= |q.delayed|
  {
    var due := Due(q.delayed[i..], now);
    q.(delayed := q.delayed[..i] + NotDue(q.delayed[i..], now),
       ready := Enqueued(q.ready, q.sequence, due), sequence := q.sequence + |due|)
  }

  ghost function PromotedOne(q: Queue, i: nat, now: int): Queue
    requires i < |q.delayed|
  {
    var job := q.delayed[i];
    if job.runAt > now then q
    else q.(delayed := Splice(q.delayed, i),
            ready := q.ready + [PriorityEntry(job, job.priority, q.sequence + 1)], sequence := q.sequence + 1)
  }

  lemma PromotedNone(q: Queue, now: int)
    ensures PromotedFrom(q, |q.delayed|, now) == q
  {
    assert q.delayed[|q.delayed|..] == [] && q.delayed[..|q.delayed|] + [] == q.delayed;
  }

  lemma PromotedAll(q: Queue, now: int)
    ensures PromotedFrom(q, 0, now) == Promote(q, now)
  {
    assert q.delayed[0..] == q.delayed && [] + NotDue(q.delayed, now) == NotDue(q.delayed, now);
  }

  lemma DueNext(d: seq<Job>, now: int)
    requires d != []
    ensures Due(d, now) == if d[0].runAt <= now then Due(d[1..], now) + [d[0]] else Due(d[1..], now)
    ensures NotDue(d, now) == if d[0].runAt <= now then NotDue(d[1..], now) else [d[0]] + NotDue(d[1..], now)
  {
    assert Due(d[1..], now) + [] == Due(d[1..], now);
    assert [] + NotDue(d[1..], now) == NotDue(d[1..], now);
  }

  lemma EnqueuedPush(ready: seq<PriorityEntry<Job>>, sequence: nat, jobs: seq<Job>, job: Job)
    ensures Enqueued(ready, sequence, jobs + [job]) ==
            Enqueued(ready, sequence, jobs) + [PriorityEntry(job, job.priority, sequence + |jobs| + 1)]
  {
    assert (jobs + [job])[..|jobs|] == jobs;
  }

  /** Removing the element at the seam of two lists. */
  lemma WithoutSeam(a: seq<Job>, job: Job, b: seq<Job>)
    ensures Splice(a + [job] + b, |a|) == a + b
  {
    SpliceIs(a + [job] + b, |a|);
  }

  lemma PromotedNext(q: Queue, i: nat, now: int)
    requires i < |q.delayed|
    ensures i < |PromotedFrom(q, i + 1, now).delayed|
    ensures PromotedOne(PromotedFrom(q, i + 1, now), i, now) == PromotedFrom(q, i, now)
  {
    if q.delayed[i].runAt <= now { PromotedDue(q, i, now); } else { PromotedNotDue(q, i, now); }
  }

  lemma DueLeavesDelayed(d: seq<Job>, i: nat, now: int)
    requires i < |d| && d[i].runAt <= now
    ensures var before := d[..i + 1] + NotDue(d[i + 1..], now);
            before[i] == d[i] && Splice(before, i) == d[..i] + NotDue(d[i..], now)
  {
    assert d[i..][1..] == d[i + 1..] && d[..i + 1] == d[..i] + [d[i]];
    DueNext(d[i..], now);
    WithoutSeam(d[..i], d[i], NotDue(d[i + 1..], now));
  }

  lemma DueIsLast(d: seq<Job>, i: nat, now: int)
    requires i < |d| && d[i].runAt <= now
    ensures Due(d[i..], now) == Due(d[i + 1..], now) + [d[i]]
  {
    assert d[i..][1..] == d[i + 1..];
    DueNext(d[i..], now);
  }

  lemma PromotedDue(q: Queue, i: nat, now: int)
    requires i < |q.delayed| && q.delayed[i].runAt <= now
    ensures i < |PromotedFrom(q, i + 1, now).delayed|
    ensures PromotedOne(PromotedFrom(q, i + 1, now), i, now) == PromotedFrom(q, i, now)
  {
    DueLeavesDelayed(q.delayed, i, now);
    DueIsLast(q.delayed, i, now);
    EnqueuedPush(q.ready, q.sequence, Due(q.delayed[i + 1..], now), q.delayed[i]);
  }

  lemma PromotedNotDue(q: Queue, i: nat, now: int)
    requires i < |q.delayed| && q.delayed[i].runAt > now
    ensures i < |PromotedFrom(q, i + 1, now).delayed|
    ensures PromotedOne(PromotedFrom(q, i + 1, now), i, now) == PromotedFrom(q, i, now)
  {
    var job, d := q.delayed[i], q.delayed[i..];
    assert d[1..] == q.delayed[i + 1..] && q.delayed[..i + 1] == q.delayed[..i] + [job];
    DueNext(d, now);
    assert q.delayed[..i] + [job] + NotDue(d[1..], now) == q.delayed[..i] + ([job] + NotDue(d[1..], now));
  }

  /** The first k jobs to be served have been started. */
  ghost function ServedSome(q: Queue, k: nat): Queue
    requires k <= |q.ready|
  {
    q.(ready := Left(q.ready, k), running := q.running + Started(Taken(q.ready, k)))
  }

  ghost function ServedOne(q: Queue): Queue
    requires q.ready != []
  {
    var job := q.ready[Next(q.ready)].value;
    q.(ready := Splice(q.ready, Next(q.ready)), running := q.running + [job.(starts := job.starts + 1)])
  }

  lemma ServedNone(q: Queue)
    ensures ServedSome(q, 0) == q
  {
    assert q.running + [] == q.running;
  }

  lemma StartedNext(entries: seq<PriorityEntry<Job>>, k: nat)
    requires k < |entries|
    ensures var l := Left(entries, k);
            var job := l[Next(l)].value;
            && Left(entries, k + 1) == Splice(l, Next(l))
            && Started(Taken(entries, k + 1)) == Started(Taken(entries, k)) + [job.(starts := job.starts + 1)]
  {
    var l := Left(entries, k);
    assert Taken(entries, k + 1) == Taken(entries, k) + [l[Next(l)]];
    assert (Taken(entries, k) + [l[Next(l)]])[..k] == Taken(entries, k);
  }

  lemma ServedNext(q: Queue, k: nat)
    requires k < |q.ready|
    ensures ServedOne(ServedSome(q, k)) == ServedSome(q, k + 1)
  {
    var l := Left(q.ready, k);
    var job := l[Next(l)].value;
    var one := [job.(starts := job.starts + 1)];
    StartedNext(q.ready, k);
    assert q.running + (Started(Taken(q.ready, k)) + one) == q.running + Started(Taken(q.ready, k)) + one;
  }
}
