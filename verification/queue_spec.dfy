/**
 * The transitions of the in-process job queue on its abstract state.  Each
 * function is one stretch of code between two awaits.
 */
module QueueSpec {
  import opened Basics
  import opened PriorityQueues

  type Id(==, !new)

  /**
   * serial stands for the identity of the job object; starts counts the
   * handler calls since the job was accepted or last taken from the failed list.
   */
  datatype Job = Job(serial: nat, id: Id, attempt: int, maxAttempts: int, priority: real, runAt: int, starts: nat)

  /** running and done are the jobs whose handler is running, in order of start, and those it completed. */
  datatype Queue = Queue(
    ready: seq<PriorityEntry<Job>>,
    sequence: nat,
    delayed: seq<Job>,
    running: seq<Job>,
    failed: seq<Job>,
    done: seq<Job>,
    known: set<Id>,
    accepted: nat,
    hasHandler: bool,
    concurrency: int,
    paused: bool,
    draining: bool,
    wakeAt: Option<int>)

  ghost const IDLE: Queue := Queue([], 0, [], [], [], [], {}, 0, false, 1, false, false, None)

  // ---------- Promotion of delayed jobs ----------

  /** The due jobs in the order the backward loop meets them. */
  ghost function Due(delayed: seq<Job>, now: int): seq<Job>
    decreases |delayed|, 1
  {
    if delayed == [] then [] else DueOfSome(delayed, now)
  }

  /** Split off so that a proof unfolds one step at a time. */
  ghost function DueOfSome(delayed: seq<Job>, now: int): seq<Job>
    requires delayed != []
    decreases |delayed|, 0
  {
    Due(delayed[1..], now) + if delayed[0].runAt <= now then [delayed[0]] else []
  }

  ghost function NotDue(delayed: seq<Job>, now: int): seq<Job>
    decreases |delayed|, 1
  {
    if delayed == [] then [] else NotDueOfSome(delayed, now)
  }

  /** Split off so that a proof unfolds one step at a time. */
  ghost function NotDueOfSome(delayed: seq<Job>, now: int): seq<Job>
    requires delayed != []
    decreases |delayed|, 0
  {
    (if delayed[0].runAt <= now then [] else [delayed[0]]) + NotDue(delayed[1..], now)
  }

  ghost function Enqueued(ready: seq<PriorityEntry<Job>>, sequence: nat, jobs: seq<Job>): seq<PriorityEntry<Job>>
    decreases |jobs|, 1
  {
    if jobs == [] then ready else EnqueuedSome(ready, sequence, jobs)
  }

  /** Split off so that a proof unfolds one step at a time. */
  ghost function EnqueuedSome(ready: seq<PriorityEntry<Job>>, sequence: nat, jobs: seq<Job>): seq<PriorityEntry<Job>>
    requires jobs != []
    decreases |jobs|, 0
  {
    var last := jobs[|jobs| - 1];
    Enqueued(ready, sequence, jobs[..|jobs| - 1]) + [PriorityEntry(last, last.priority, sequence + |jobs|)]
  }

  ghost function Promote(q: Queue, now: int): Queue {
    var due := Due(q.delayed, now);
    q.(delayed := NotDue(q.delayed, now), ready := Enqueued(q.ready, q.sequence, due), sequence := q.sequence + |due|)
  }

  // ---------- Starting jobs ----------

  /** What is left of the waiting entries once n were served. */
  ghost function Left<T>(entries: seq<PriorityEntry<T>>, n: nat): seq<PriorityEntry<T>>
    requires n <= |entries|
    ensures |Left(entries, n)| == |entries| - n
    decreases n, 1
  {
    if n == 0 then entries else LeftAfter(entries, n)
  }

  ghost function LeftAfter<T>(entries: seq<PriorityEntry<T>>, n: nat): seq<PriorityEntry<T>>
    requires 0 < n <= |entries|
    ensures |LeftAfter(entries, n)| == |entries| - n
    decreases n, 0
  {
    var l := Left(entries, n - 1);
    Splice(l, Next(l))
  }

  /** The first n entries served. */
  ghost function Taken<T>(entries: seq<PriorityEntry<T>>, n: nat): seq<PriorityEntry<T>>
    requires n <= |entries|
    ensures |Taken(entries, n)| == n
    decreases n, 1
  {
    if n == 0 then [] else TakenSome(entries, n)
  }

  ghost function TakenSome<T>(entries: seq<PriorityEntry<T>>, n: nat): seq<PriorityEntry<T>>
    requires 0 < n <= |entries|
    ensures |TakenSome(entries, n)| == n
    decreases n, 0
  {
    var l := Left(entries, n - 1);
    Taken(entries, n - 1) + [l[Next(l)]]
  }

  ghost function Started(entries: seq<PriorityEntry<Job>>): (r: seq<Job>)
    ensures |r| == |entries|
    decreases |entries|, 1
  {
    if entries == [] then [] else StartedSome(entries)
  }

  ghost function StartedSome(entries: seq<PriorityEntry<Job>>): (r: seq<Job>)
    requires entries != []
    ensures |r| == |entries|
    decreases |entries|, 0
  {
    var job := entries[|entries| - 1].value;
    Started(entries[..|entries| - 1]) + [job.(starts := job.starts + 1)]
  }

  /** How many jobs the free slots allow to start. */
  ghost function Starting(q: Queue): (n: nat)
    ensures n <= |q.ready|
  {
    if q.concurrency <= |q.running| then 0
    else if q.concurrency - |q.running| <= |q.ready| then q.concurrency - |q.running| else |q.ready|
  }

  ghost function StartAll(q: Queue): Queue {
    var n := Starting(q);
    q.(ready := Left(q.ready, n), running := q.running + Started(Taken(q.ready, n)))
  }

  // ---------- The tick ----------

  ghost function Earliest(delayed: seq<Job>, bound: int): int {
    if delayed == [] then bound
    else
      var e := Earliest(delayed[..|delayed| - 1], bound);
      var r := delayed[|delayed| - 1].runAt;
      if r < e then r else e
  }

  ghost function WakeAt(q: Queue, now: int): Option<int> {
    if q.delayed == [] && q.ready == [] then None
    else Some(now + Max(25, Earliest(q.delayed, now + 250) - now))
  }

  ghost predicate Working(q: Queue) {
    q.hasHandler && !q.paused && !q.draining
  }

  ghost function Tick(q: Queue, now: int): Queue {
    if !Working(q) then q
    else
      var r := StartAll(Promote(q, now));
      r.(wakeAt := WakeAt(r, now))
  }

  // ---------- Operations ----------

  datatype Event =
    | Added(id: Id, dedupe: bool, maxAttempts: int, priority: real, delayMs: int, at: int)
    | Processed(concurrency: int, at: int)
    | TimerFired(at: int)
    | Succeeded(i: nat, at: int)
    | Failed(i: nat, delay: int, at: int)
    | Retried(id: Id, at: int)
    | Paused(at: int)
    | Resumed(at: int)
    | Closed(at: int)

  ghost function Scheduled(q: Queue, job: Job, now: int): Queue {
    if job.runAt > now then q.(delayed := q.delayed + [job])
    else q.(ready := q.ready + [PriorityEntry(job, job.priority, q.sequence + 1)], sequence := q.sequence + 1)
  }

  ghost function Registered(q: Queue, id: Id): Queue {
    q.(known := q.known + {id}, accepted := q.accepted + 1)
  }

  ghost function Accepted(q: Queue, id: Id, maxAttempts: int, priority: real, delayMs: int, now: int): Queue {
    var job := Job(q.accepted, id, 1, maxAttempts, priority, now + delayMs, 0);
    Scheduled(Registered(q, id), job, now)
  }

  /** The handler of the i-th running job returned. */
  ghost function Completed(q: Queue, i: nat): Queue
    requires i < |q.running|
  {
    var job := q.running[i];
    q.(running := Splice(q.running, i), done := q.done + [job], known := q.known - {job.id})
  }

  /** The handler of the i-th running job failed: the job waits for its next attempt or goes to the failed list. */
  ghost function Returned(q: Queue, i: nat, delay: int, now: int): Queue
    requires i < |q.running|
  {
    var job, rest := q.running[i], Splice(q.running, i);
    if job.attempt < job.maxAttempts
    then q.(running := rest, delayed := q.delayed + [job.(attempt := job.attempt + 1, runAt := now + delay)])
    else q.(running := rest, failed := q.failed + [job], known := q.known - {job.id})
  }

  /** The first failed job with this id, or -1. */
  ghost function FirstFailed(failed: seq<Job>, id: Id): (i: int)
    ensures -1 <= i < |failed|
    ensures i >= 0 ==> failed[i].id == id && forall k :: 0 <= k < i ==> failed[k].id != id
    ensures i == -1 ==> forall k :: 0 <= k < |failed| ==> failed[k].id != id
  {
    if failed == [] then -1
    else
      var i := FirstFailed(failed[..|failed| - 1], id);
      if i >= 0 then i
      else if failed[|failed| - 1].id == id then |failed| - 1 else -1
  }

  /** The i-th failed job waits again, as if new. */
  ghost function Revived(q: Queue, i: nat, now: int): Queue
    requires i < |q.failed|
  {
    Scheduled(q.(failed := Splice(q.failed, i)), q.failed[i].(attempt := 1, runAt := now, starts := 0), now)
  }

  /** Only running handlers end. */
  ghost predicate Ends(q: Queue, e: Event) {
    (e.Succeeded? ==> e.i < |q.running|) && (e.Failed? ==> e.i < |q.running|)
  }

  /** An added job whose id was given by the caller and is known is dropped. */
  ghost predicate Dropped(q: Queue, e: Event) {
    (e.Added? && e.dedupe && e.id in q.known) || (e.Retried? && FirstFailed(q.failed, e.id) < 0)
  }

  /** What an event does before the queue looks for work to start. */
  ghost function Before(q: Queue, e: Event): Queue
    requires Ends(q, e) && !Dropped(q, e)
  {
    match e
    case Added(id, dedupe, maxAttempts, priority, delayMs, at) => Accepted(q, id, maxAttempts, priority, delayMs, at)
    case Processed(concurrency, at) => q.(hasHandler := true, concurrency := Max(1, concurrency))
    case TimerFired(at) => q.(wakeAt := None)
    case Succeeded(i, at) => Completed(q, i)
    case Failed(i, delay, at) => Returned(q, i, delay, at)
    case Retried(id, at) => Revived(q, FirstFailed(q.failed, id), at)
    case Paused(at) => q.(paused := true)
    case Resumed(at) => q.(paused := false)
    case Closed(at) => q.(draining := true, wakeAt := None)
  }

  ghost function After(q: Queue, e: Event): Queue
    requires Ends(q, e)
  {
    if Dropped(q, e) then q
    else if e.Paused? || e.Closed? then Before(q, e)
    else Tick(Before(q, e), e.at)
  }
}
