/**
 * The transitions of the circuit breaker on its abstract state, and what they
 * guarantee in every interleaving of concurrent calls.
 */
module BreakerSpec {
  import opened Basics
  import opened RollingWindows

  datatype Mode = Closed | Open | HalfOpen

  datatype Settings = Settings(
    failureThreshold: real,
    volumeThreshold: int,
    bucketMs: int,
    bucketCount: nat,
    resetTimeoutMs: int,
    successesToClose: int,
    halfOpenMaxCalls: int)

  /** log holds every outcome recorded since the window was last reset. */
  datatype Breaker = Breaker(mode: Mode, openedAt: Option<int>, successes: int, inFlight: int, log: seq<Outcome>)

  const FRESH: Breaker := Breaker(Closed, None, 0, 0, [])

  // ---------- Transitions ----------

  ghost function MaybeHalfOpen(s: Settings, b: Breaker, now: int): Breaker {
    if b.mode == Open && b.openedAt.Some? && now - b.openedAt.value >= s.resetTimeoutMs
    then b.(mode := HalfOpen, successes := 0, inFlight := 0)
    else b
  }

  /** A call asks to start: the state afterwards, and whether its operation is run. */
  ghost function Begin(s: Settings, b: Breaker, now: int): (Breaker, bool) {
    var c := MaybeHalfOpen(s, b, now);
    match c.mode
    case Open => (c, false)
    case HalfOpen => if c.inFlight >= s.halfOpenMaxCalls then (c, false) else (c.(inFlight := c.inFlight + 1), true)
    case Closed => (c, true)
  }

  ghost function Tripped(b: Breaker, now: int): Breaker {
    if b.mode == Open then b else b.(mode := Open, openedAt := Some(now), successes := 0, inFlight := 0)
  }

  ghost function Logged(s: Settings, b: Breaker, success: bool, now: int): Breaker
    requires s.bucketMs > 0
  {
    b.(log := b.log + [Outcome(now / s.bucketMs, success)])
  }

  ghost function RecordSuccess(s: Settings, b: Breaker, now: int): Breaker
    requires s.bucketMs > 0
  {
    var c := Logged(s, b, true, now);
    if c.mode != HalfOpen then c
    else if c.successes + 1 >= s.successesToClose then c.(mode := Closed, openedAt := None, successes := 0, log := [])
    else c.(successes := c.successes + 1)
  }

  /** The recent part of the log reaches both the volume and the failure rate. */
  ghost predicate OverThreshold(s: Settings, log: seq<Outcome>, now: int)
    requires s.bucketMs > 0
  {
    var r := SnapshotOf(log, now / s.bucketMs, s.bucketCount);
    r.total >= s.volumeThreshold && r.failureRate >= s.failureThreshold
  }

  ghost function RecordFailure(s: Settings, b: Breaker, now: int): Breaker
    requires s.bucketMs > 0
  {
    var c := Logged(s, b, false, now);
    match c.mode
    case HalfOpen => Tripped(c, now)
    case Closed => if OverThreshold(s, c.log, now) then Tripped(c, now) else c
    case Open => c
  }

  /** An admitted call ends: its outcome is recorded and its trial slot, if the breaker is now half-open, given back. */
  ghost function End(s: Settings, b: Breaker, failed: bool, now: int): Breaker
    requires s.bucketMs > 0
  {
    var c := if failed then RecordFailure(s, b, now) else RecordSuccess(s, b, now);
    if c.mode == HalfOpen && c.inFlight > 0 then c.(inFlight := c.inFlight - 1) else c
  }

  // ---------- Every interleaving of calls ----------

  /** A running call remembers the half-open period it is a trial of, if any. */
  datatype World = World(
    b: Breaker,
    now: int,
    calls: map<nat, Option<nat>>,   // running calls: None, or Some(period) for a trial of that period
    period: nat,                    // number of half-open periods entered
    recorded: seq<bool>,            // successes and failures recorded since the latest period was entered
    older: nat,                     // calls that ended in the current period without being trials of it
    quiet: bool)                    // no call was running when the latest period was entered

  datatype Event =
    | Start(id: nat, at: int)
    | Finish(id: nat, failed: bool, at: int)
    | Look(at: int)                 // the state is read, which may turn an open breaker half-open

  /** Time never goes back, fresh identifiers start, running calls finish. */
  ghost predicate Possible(w: World, e: Event) {
    && w.now <= e.at
    && (e.Start? ==> e.id !in w.calls)
    && (e.Finish? ==> e.id in w.calls)
  }

  /** The world after the breaker may have turned half-open: a new period has no recorded outcomes. */
  ghost function Enter(s: Settings, w: World, at: int): World {
    var c := MaybeHalfOpen(s, w.b, at);
    if c.mode == HalfOpen && w.b.mode == Open
    then w.(b := c, now := at, period := w.period + 1, recorded := [], older := 0, quiet := w.calls == map[])
    else w.(now := at)
  }

  ghost function Step(s: Settings, w: World, e: Event): World
    requires s.bucketMs > 0 && Possible(w, e)
  {
    match e
    case Look(at) => Enter(s, w, at)
    case Start(id, at) =>
      var v, r := Enter(s, w, at), Begin(s, w.b, at);
      if r.1 then v.(b := r.0, calls := v.calls[id := if r.0.mode == HalfOpen then Some(v.period) else None])
      else v.(b := r.0)
    case Finish(id, failed, at) =>
      var stale := w.calls[id] != Some(w.period);
      w.(b := End(s, w.b, failed, at), now := at, calls := w.calls - {id},
         recorded := w.recorded + [!failed], older := if stale then w.older + 1 else w.older)
  }

  ghost const INITIAL: World := World(FRESH, 0, map[], 0, [], 0, false)

  /** The events lead from the first world to the second. */
  ghost predicate Path(s: Settings, from: World, events: seq<Event>, to: World)
    requires s.bucketMs > 0
    decreases |events|
  {
    if events == [] then from == to
    else
      var n := |events| - 1;
      exists v :: Path(s, from, events[..n], v) && Possible(v, events[n]) && to == Step(s, v, events[n])
  }

  ghost predicate Reachable(s: Settings, w: World, events: seq<Event>)
    requires s.bucketMs > 0
  {
    Path(s, INITIAL, events, w)
  }

  /** The running trials of the current half-open period. */
  ghost function Trials(w: World): set<nat> {
    set id | id in w.calls && w.calls[id] == Some(w.period)
  }

  ghost predicate KnownPeriod(w: World, id: nat) {
    id in w.calls && w.calls[id].Some? ==> w.calls[id].value <= w.period
  }

  ghost predicate AllTrue(r: seq<bool>) {
    forall i :: 0 <= i < |r| ==> r[i]
  }

  /** What holds in every mode. */
  ghost predicate Timed(w: World) {
    && (w.b.openedAt.None? <==> w.b.mode == Closed)
    && (w.b.openedAt.Some? ==> w.b.openedAt.value <= w.now)
    && (forall id {:trigger KnownPeriod(w, id)} :: KnownPeriod(w, id))
  }

  /** What the counters of a half-open breaker mean. */
  ghost predicate Counted(s: Settings, w: World) {
    && 0 <= w.b.inFlight <= Max(0, s.halfOpenMaxCalls)
    && w.b.inFlight <= |Trials(w)| <= w.b.inFlight + w.older
    && w.b.successes == |w.recorded| && AllTrue(w.recorded)
    && (w.recorded != [] ==> w.b.successes < s.successesToClose)
    && w.older <= |w.recorded|
    && (s.halfOpenMaxCalls <= 0 ==> Trials(w) == {})
    && (w.quiet ==> w.older == 0 && Trials(w) == w.calls.Keys)
  }

  ghost predicate Invariant(s: Settings, w: World) {
    Timed(w) && (w.b.mode == HalfOpen ==> Counted(s, w))
  }

  lemma EnterKeeps(s: Settings, w: World, at: int)
    requires Invariant(s, w) && w.now <= at
    ensures Invariant(s, Enter(s, w, at))
    ensures Enter(s, w, at).b == MaybeHalfOpen(s, w.b, at)
    ensures Enter(s, w, at).calls == w.calls
  {
    var v := Enter(s, w, at);
    forall id ensures KnownPeriod(v, id) { assert KnownPeriod(w, id); }
    if w.b.mode == Open && v.b.mode == HalfOpen {
      forall id | id in v.calls ensures id !in Trials(v) { assert KnownPeriod(w, id); }
      assert Trials(v) == {};
    } else {
      assert Trials(v) == Trials(w);
    }
  }

  /** The world once a call has been let in: a trial if the breaker is half-open. */
  ghost function Admit(v: World, b: Breaker, id: nat): World {
    v.(b := b, calls := v.calls[id := if b.mode == HalfOpen then Some(v.period) else None])
  }

  lemma AdmitTimed(v: World, b: Breaker, id: nat)
    requires Timed(v) && b.mode == v.b.mode && b.openedAt == v.b.openedAt
    ensures Timed(Admit(v, b, id))
  {
    var v' := Admit(v, b, id);
    forall k ensures KnownPeriod(v', k) { assert KnownPeriod(v, k); }
  }

  lemma AdmitTrial(s: Settings, v: World, id: nat)
    requires v.b.mode == HalfOpen && Counted(s, v) && id !in v.calls && v.b.inFlight < s.halfOpenMaxCalls
    ensures Counted(s, Admit(v, v.b.(inFlight := v.b.inFlight + 1), id))
  {
    var v' := Admit(v, v.b.(inFlight := v.b.inFlight + 1), id);
    assert Trials(v') == Trials(v) + {id};
    assert v'.calls.Keys == v.calls.Keys + {id};
  }

  lemma StartKeeps(s: Settings, w: World, id: nat, at: int)
    requires s.bucketMs > 0 && Invariant(s, w) && Possible(w, Start(id, at))
    ensures Invariant(s, Step(s, w, Start(id, at)))
  {
    EnterKeeps(s, w, at);
    var v, r := Enter(s, w, at), Begin(s, w.b, at);
    if r.1 {
      AdmitTimed(v, r.0, id);
      assert Step(s, w, Start(id, at)) == Admit(v, r.0, id);
      if v.b.mode == HalfOpen { AdmitTrial(s, v, id); }
    } else {
      assert Step(s, w, Start(id, at)) == v;
    }
  }

  /** What an outcome can do to the mode and to the trial counters. */
  lemma EndEffect(s: Settings, b: Breaker, failed: bool, at: int)
    requires s.bucketMs > 0
    ensures var c := End(s, b, failed, at);
            && (c.mode == HalfOpen <==> b.mode == HalfOpen && !failed && b.successes + 1 < s.successesToClose)
            && (c.mode == HalfOpen ==>
                  && c.successes == b.successes + 1 && c.openedAt == b.openedAt
                  && c.inFlight == if b.inFlight > 0 then b.inFlight - 1 else b.inFlight)
            && (c.mode == Closed ==> c.openedAt == if b.mode == HalfOpen then None else b.openedAt)
            && (c.mode == Open ==> c.openedAt == if b.mode == Open then b.openedAt else Some(at))
  {
  }

  lemma FinishKeeps(s: Settings, w: World, id: nat, failed: bool, at: int)
    requires s.bucketMs > 0 && Invariant(s, w) && Possible(w, Finish(id, failed, at))
    ensures Invariant(s, Step(s, w, Finish(id, failed, at)))
  {
    var v := Step(s, w, Finish(id, failed, at));
    EndEffect(s, w.b, failed, at);
    FinishTimed(s, w, id, failed, at);
    if v.b.mode == HalfOpen {
      assert Trials(v) == Trials(w) - {id};
      assert v.calls.Keys == w.calls.Keys - {id};
      assert v.recorded == w.recorded + [true];
    }
  }

  lemma FinishTimed(s: Settings, w: World, id: nat, failed: bool, at: int)
    requires s.bucketMs > 0 && Timed(w) && Possible(w, Finish(id, failed, at))
    ensures Timed(Step(s, w, Finish(id, failed, at)))
  {
    var v := Step(s, w, Finish(id, failed, at));
    EndEffect(s, w.b, failed, at);
    forall k ensures KnownPeriod(v, k) { assert KnownPeriod(w, k); }
  }

  lemma StepKeeps(s: Settings, w: World, e: Event)
    requires s.bucketMs > 0 && Invariant(s, w) && Possible(w, e)
    ensures Invariant(s, Step(s, w, e))
  {
    match e
    case Look(at) => EnterKeeps(s, w, at);
    case Start(id, at) => StartKeeps(s, w, id, at);
    case Finish(id, failed, at) => FinishKeeps(s, w, id, failed, at);
  }

  lemma {:induction false} PathKeeps(s: Settings, from: World, events: seq<Event>, to: World)
    requires s.bucketMs > 0 && Path(s, from, events, to) && Invariant(s, from)
    ensures Invariant(s, to) && from.now <= to.now
    decreases |events|
  {
    if events != [] {
      var n := |events| - 1;
      var v :| Path(s, from, events[..n], v) && Possible(v, events[n]) && to == Step(s, v, events[n]);
      PathKeeps(s, from, events[..n], v);
      StepKeeps(s, v, events[n]);
    }
  }

  // ---------- What a caller may rely on ----------

  lemma StartIsSound(s: Settings)
    ensures Invariant(s, INITIAL)
  {
    forall id ensures KnownPeriod(INITIAL, id) {}
  }

  /**
   * In every interleaving: openedAt is set exactly while the circuit is not
   * closed, and while it is half-open the trial counter exceeds neither the
   * limit nor the number of trials running.  The running trials themselves
   * exceed the limit by at most the number of older calls that have ended in
   * this period, so not at all if no call was running when it began.
   */
  lemma TrialsAreBounded(s: Settings, w: World, events: seq<Event>)
    requires s.bucketMs > 0 && Reachable(s, w, events)
    ensures w.b.openedAt.None? <==> w.b.mode == Closed
    ensures w.b.mode == HalfOpen ==>
              && 0 <= w.b.inFlight <= Max(0, s.halfOpenMaxCalls)
              && w.b.inFlight <= |Trials(w)| <= w.b.inFlight + w.older
              && (w.quiet ==> w.b.inFlight == |Trials(w)| == |w.calls|)
  {
    StartIsSound(s);
    PathKeeps(s, INITIAL, events, w);
  }

  ghost predicate Admits(s: Settings, w: World, at: int) {
    Begin(s, w.b, at).1
  }

  /**
   * A half-open breaker lets the next call in whenever fewer trials run than
   * are allowed, whatever older calls are still running, so it never waits for
   * a call that is not there.
   */
  lemma HalfOpenCannotWedge(s: Settings, w: World, events: seq<Event>, at: int)
    requires s.bucketMs > 0 && Reachable(s, w, events) && w.now <= at && w.b.mode == HalfOpen
    ensures |Trials(w)| < s.halfOpenMaxCalls ==> Admits(s, w, at)
    ensures s.halfOpenMaxCalls <= 0 ==> !Admits(s, w, at)
  {
    TrialsAreBounded(s, w, events);
  }

  /** How long a rejected caller is told to wait. */
  ghost function RetryAfter(s: Settings, b: Breaker, now: int): int {
    if b.mode == Open && b.openedAt.Some? then Max(0, s.resetTimeoutMs - (now - b.openedAt.value)) else 0
  }

  /**
   * The advice is exact: undisturbed, an open circuit lets a call in from that
   * moment on and not before.  A circuit that is not open advises no wait.
   */
  lemma RetryAfterIsExact(s: Settings, b: Breaker, now: int, at: int)
    requires b.mode == Open ==> b.openedAt.Some? && b.openedAt.value <= now <= at && s.halfOpenMaxCalls >= 1
    ensures b.mode == Open ==> (Begin(s, b, at).1 <==> at >= now + RetryAfter(s, b, now))
    ensures b.mode == Open ==> (Begin(s, b, at).1 <==> at >= b.openedAt.value + s.resetTimeoutMs)
    ensures b.mode != Open ==> RetryAfter(s, b, now) == 0
  {
    if b.mode == Open { assert now - b.openedAt.value >= s.resetTimeoutMs <==> RetryAfter(s, b, now) == 0; }
  }

  /** After the circuit opened at time t, nothing is let in before t plus the reset timeout, whatever happens meanwhile. */
  lemma {:induction false} NothingStartsBeforeReset(s: Settings, tripped: World, events: seq<Event>, w: World, at: int)
    requires s.bucketMs > 0 && Invariant(s, tripped) && tripped.b.mode == Open && Path(s, tripped, events, w)
    requires w.now <= at && Admits(s, w, at)
    ensures at >= tripped.b.openedAt.value + s.resetTimeoutMs
  {
    StaysShut(s, tripped, events, w);
  }

  lemma {:induction false} StaysShut(s: Settings, tripped: World, events: seq<Event>, w: World)
    requires s.bucketMs > 0 && Invariant(s, tripped) && tripped.b.mode == Open && Path(s, tripped, events, w)
    ensures ShutSince(s, tripped.b.openedAt.value, w)
    decreases |events|
  {
    if events != [] {
      var n := |events| - 1;
      var v :| Path(s, tripped, events[..n], v) && Possible(v, events[n]) && w == Step(s, v, events[n]);
      StaysShut(s, tripped, events[..n], v);
      StaysShutStep(s, tripped.b.openedAt.value, v, events[n]);
    }
  }

  ghost predicate ShutSince(s: Settings, t: int, w: World) {
    w.now >= t + s.resetTimeoutMs || (w.b.mode == Open && w.b.openedAt.Some? && w.b.openedAt.value >= t)
  }

  lemma StaysShutStep(s: Settings, t: int, w: World, e: Event)
    requires s.bucketMs > 0 && Possible(w, e) && ShutSince(s, t, w)
    ensures ShutSince(s, t, Step(s, w, e))
  {
  }

  /**
   * A step that closes the circuit completes a row of successes: every outcome
   * recorded since it became half-open, this one included, succeeded, and they
   * are exactly as many as configured (at least one).  It empties the log.
   */
  lemma ClosingNeedsSuccesses(s: Settings, w: World, events: seq<Event>, e: Event)
    requires s.bucketMs > 0 && Reachable(s, w, events) && Possible(w, e)
    requires w.b.mode != Closed
    ensures var v := Step(s, w, e);
            v.b.mode == Closed <==>
              (w.b.mode == HalfOpen && e.Finish? && !e.failed
               && AllTrue(v.recorded) && |v.recorded| == Max(1, s.successesToClose))
    ensures Step(s, w, e).b.mode == Closed ==> Step(s, w, e).b.log == []
  {
    StartIsSound(s);
    PathKeeps(s, INITIAL, events, w);
  }

  lemma ShareReaches(part: real, whole: real, share: real)
    requires whole > 0.0
    ensures part / whole >= share <==> part >= share * whole
  {
    var q := part / whole;
    assert q * whole == part;
    if q >= share { assert (q - share) * whole >= 0.0; } else { assert (share - q) * whole > 0.0; }
  }

  lemma OverThresholdMeans(s: Settings, log: seq<Outcome>, now: int)
    requires s.bucketMs > 0 && Recent(log, now / s.bucketMs, s.bucketCount) != {}
    ensures OverThreshold(s, log, now) <==>
              (|Recent(log, now / s.bucketMs, s.bucketCount)| >= s.volumeThreshold
               && |RecentFailures(log, now / s.bucketMs, s.bucketCount)| as real
                  >= s.failureThreshold * |Recent(log, now / s.bucketMs, s.bucketCount)| as real)
  {
    var k, n := now / s.bucketMs, s.bucketCount;
    SnapshotMeans(log, k, n);
    ShareReaches(|RecentFailures(log, k, n)| as real, |Recent(log, k, n)| as real, s.failureThreshold);
  }

  /** The outcomes of the calls that end in a run, with their buckets. */
  ghost function Outcomes(s: Settings, events: seq<Event>): seq<Outcome>
    requires s.bucketMs > 0
  {
    if events == [] then [] else Outcomes(s, events[..|events| - 1]) + OutcomeOf(s, events[|events| - 1])
  }

  ghost function OutcomeOf(s: Settings, e: Event): seq<Outcome>
    requires s.bucketMs > 0
  {
    if e.Finish? then [Outcome(e.at / s.bucketMs, !e.failed)] else []
  }

  /** A run during which the circuit is closed all the time. */
  ghost predicate StaysClosed(s: Settings, from: World, events: seq<Event>, to: World)
    requires s.bucketMs > 0
    decreases |events|
  {
    to.b.mode == Closed &&
    if events == [] then from == to
    else
      var n := |events| - 1;
      exists v :: StaysClosed(s, from, events[..n], v) && Possible(v, events[n]) && to == Step(s, v, events[n])
  }

  lemma ClosedStepLogs(s: Settings, w: World, e: Event)
    requires s.bucketMs > 0 && Possible(w, e) && w.b.mode == Closed && Step(s, w, e).b.mode == Closed
    ensures Step(s, w, e).b.log == w.b.log + OutcomeOf(s, e)
  {
  }

  lemma {:induction false} LogIsOutcomes(s: Settings, from: World, events: seq<Event>, to: World)
    requires s.bucketMs > 0 && StaysClosed(s, from, events, to) && from.b.log == []
    ensures to.b.log == Outcomes(s, events)
    decreases |events|
  {
    if events != [] {
      var n := |events| - 1;
      var v :| StaysClosed(s, from, events[..n], v) && Possible(v, events[n]) && to == Step(s, v, events[n]);
      LogIsOutcomes(s, from, events[..n], v);
      ClosedStepLogs(s, v, events[n]);
    }
  }

  lemma StepOpens(s: Settings, w: World, e: Event)
    requires s.bucketMs > 0 && Possible(w, e) && w.b.mode != Open
    ensures Step(s, w, e).b.mode == Open <==>
              e.Finish? && e.failed && (w.b.mode == HalfOpen || OverThreshold(s, w.b.log + OutcomeOf(s, e), e.at))
    ensures Step(s, w, e).b.mode == Open ==> Step(s, w, e).b.openedAt == Some(e.at)
  {
  }

  lemma OutcomesPush(s: Settings, events: seq<Event>, e: Event)
    requires s.bucketMs > 0
    ensures Outcomes(s, events + [e]) == Outcomes(s, events) + OutcomeOf(s, e)
  {
    assert (events + [e])[..|events|] == events;
  }

  /** In the bucket of now, or in one of those kept before it. */
  ghost predicate Lately(s: Settings, at: int, now: int)
    requires s.bucketMs > 0
  {
    now / s.bucketMs - s.bucketCount < at / s.bucketMs <= now / s.bucketMs
  }

  /** The positions of the events of a run in which a call ended lately. */
  ghost function EndedLately(s: Settings, events: seq<Event>, now: int): set<nat>
    requires s.bucketMs > 0
  {
    set i | 0 <= i < |events| && events[i].Finish? && Lately(s, events[i].at, now)
  }

  ghost function FailedLately(s: Settings, events: seq<Event>, now: int): set<nat>
    requires s.bucketMs > 0
  {
    set i | 0 <= i < |events| && events[i].Finish? && Lately(s, events[i].at, now) && events[i].failed
  }

  lemma EndedLatelyPush(s: Settings, events: seq<Event>, e: Event, now: int)
    requires s.bucketMs > 0
    ensures |EndedLately(s, events + [e], now)| == |EndedLately(s, events, now)| + if e.Finish? && Lately(s, e.at, now) then 1 else 0
  {
    assert EndedLately(s, events + [e], now) ==
           EndedLately(s, events, now) + if e.Finish? && Lately(s, e.at, now) then {|events|} else {};
  }

  lemma FailedLatelyPush(s: Settings, events: seq<Event>, e: Event, now: int)
    requires s.bucketMs > 0
    ensures |FailedLately(s, events + [e], now)| ==
            |FailedLately(s, events, now)| + if e.Finish? && Lately(s, e.at, now) && e.failed then 1 else 0
  {
    assert FailedLately(s, events + [e], now) ==
           FailedLately(s, events, now) + if e.Finish? && Lately(s, e.at, now) && e.failed then {|events|} else {};
  }

  /** The ends of the run counted so far are the outcomes in the log. */
  ghost predicate SameCounts(s: Settings, log: seq<Outcome>, events: seq<Event>, now: int)
    requires s.bucketMs > 0
  {
    && |Recent(log, now / s.bucketMs, s.bucketCount)| == |EndedLately(s, events, now)|
    && |RecentFailures(log, now / s.bucketMs, s.bucketCount)| == |FailedLately(s, events, now)|
  }

  lemma SameCountsPush(s: Settings, log: seq<Outcome>, events: seq<Event>, e: Event, now: int)
    requires s.bucketMs > 0 && SameCounts(s, log, events, now)
    ensures SameCounts(s, log + OutcomeOf(s, e), events + [e], now)
  {
    EndedLatelyPush(s, events, e, now);
    FailedLatelyPush(s, events, e, now);
    if e.Finish? {
      RecentPush(log, Outcome(e.at / s.bucketMs, !e.failed), now / s.bucketMs, s.bucketCount);
    } else {
      assert log + [] == log;
    }
  }

  lemma {:induction false} OutcomesAreEnds(s: Settings, events: seq<Event>, now: int)
    requires s.bucketMs > 0
    ensures SameCounts(s, Outcomes(s, events), events, now)
  {
    if events != [] {
      var front, e := events[..|events| - 1], events[|events| - 1];
      assert events == front + [e];
      OutcomesAreEnds(s, front, now);
      SameCountsPush(s, Outcomes(s, front), front, e, now);
    }
  }

  /** Of the calls that ended lately there are enough, and the failed ones among them reach the failure rate. */
  ghost predicate EnoughFailedLately(s: Settings, events: seq<Event>, now: int)
    requires s.bucketMs > 0
  {
    && |EndedLately(s, events, now)| >= s.volumeThreshold
    && |FailedLately(s, events, now)| as real >= s.failureThreshold * |EndedLately(s, events, now)| as real
  }

  lemma EnoughIsOverThreshold(s: Settings, events: seq<Event>, e: Event)
    requires s.bucketMs > 0 && s.bucketCount > 0 && e.Finish?
    ensures OverThreshold(s, Outcomes(s, events + [e]), e.at) <==> EnoughFailedLately(s, events + [e], e.at)
  {
    OutcomesAreEnds(s, events + [e], e.at);
    JustEndedCounts(s, events, e);
    OverThresholdMeans(s, Outcomes(s, events + [e]), e.at);
  }

  lemma JustEndedCounts(s: Settings, events: seq<Event>, e: Event)
    requires s.bucketMs > 0 && s.bucketCount > 0 && e.Finish?
    ensures |events| in EndedLately(s, events + [e], e.at)
  {
  }

  /**
   * The circuit opens exactly when a failure is recorded while it is half-open,
   * or when a failure ends a call of a circuit that has been closed since the
   * log was empty, and of the calls that ended in that time and in the latest
   * buckets there are as many as the volume threshold asks for, with the failed
   * ones among them reaching the failure rate.
   */
  lemma OpensExactly(s: Settings, from: World, events: seq<Event>, w: World, e: Event)
    requires s.bucketMs > 0 && s.bucketCount > 0 && Possible(w, e) && w.b.mode != Open
    requires w.b.mode == Closed ==> from.b.log == [] && StaysClosed(s, from, events, w)
    ensures Step(s, w, e).b.mode == Open <==>
              && e.Finish? && e.failed
              && (w.b.mode == HalfOpen || EnoughFailedLately(s, events + [e], e.at))
    ensures Step(s, w, e).b.mode == Open ==> Step(s, w, e).b.openedAt == Some(e.at)
  {
    StepOpens(s, w, e);
    if w.b.mode == Closed {
      LogIsOutcomes(s, from, events, w);
      OutcomesPush(s, events, e);
      if e.Finish? { EnoughIsOverThreshold(s, events, e); }
    }
  }

  // ---------- What it does not guarantee ----------

  lemma PathExtend(s: Settings, from: World, events: seq<Event>, v: World, e: Event)
    requires s.bucketMs > 0 && Path(s, from, events, v) && Possible(v, e)
    ensures Path(s, from, events + [e], Step(s, v, e))
  {
    var all := events + [e];
    assert all[..|events|] == events && all[|events|] == e;
  }

  lemma OneStep(s: Settings, events: seq<Event>, v: World, e: Event) returns (more: seq<Event>, w: World)
    requires s.bucketMs > 0 && Reachable(s, v, events) && Possible(v, e)
    ensures w == Step(s, v, e) && Reachable(s, w, more)
  {
    PathExtend(s, INITIAL, events, v, e);
    more, w := events + [e], Step(s, v, e);
  }

  /** The most trials that can run at once: an older call frees a slot each time it counts as a success. */
  ghost function MostTrials(s: Settings): int {
    if s.halfOpenMaxCalls <= 0 then 0 else s.halfOpenMaxCalls + Max(0, s.successesToClose - 1)
  }

  lemma TrialsNeverExceed(s: Settings, w: World, events: seq<Event>)
    requires s.bucketMs > 0 && Reachable(s, w, events) && w.b.mode == HalfOpen
    ensures |Trials(w)| <= MostTrials(s)
  {
    StartIsSound(s);
    PathKeeps(s, INITIAL, events, w);
  }

  // ---------- How that many trials come about ----------

  /** Failures it takes to open a closed circuit that has seen nothing else. */
  ghost function Enough(s: Settings): (n: nat)
    ensures n >= 1
  {
    Max(1, s.volumeThreshold)
  }

  ghost predicate FirstBucketFailures(log: seq<Outcome>) {
    forall i :: 0 <= i < |log| ==> log[i] == Outcome(0, false)
  }

  lemma {:induction false} FailuresCounted(log: seq<Outcome>, n: nat)
    requires FirstBucketFailures(log) && n > 0
    ensures CountRecent(log, 0, n, false) == |log| && CountRecent(log, 0, n, true) == 0
    decreases |log|
  {
    if log != [] { FailuresCounted(log[..|log| - 1], n); }
  }

  /** Calls id, ..., last - 1 run, all begun while closed, and the calls before them have failed. */
  ghost predicate Failing(w: World, id: nat, last: nat) {
    && w.now == 0 && w.period == 0 && |w.b.log| == id && FirstBucketFailures(w.b.log)
    && RunsOnly(w, id, last, 0, 0)
  }

  /** The running calls are the older ones from id to last - 1 and the trials from first to next - 1. */
  ghost predicate RunsOnly(w: World, id: nat, last: nat, first: nat, next: nat) {
    forall k {:trigger CallAt(w, id, last, first, next, k)} :: CallAt(w, id, last, first, next, k)
  }

  ghost predicate CallAt(w: World, id: nat, last: nat, first: nat, next: nat, k: nat) {
    if id <= k < last then k in w.calls && w.calls[k] == None
    else if first <= k < next then k in w.calls && w.calls[k] == Some(w.period)
    else k !in w.calls
  }

  lemma {:induction false} CallsStart(s: Settings, last: nat) returns (events: seq<Event>, w: World)
    requires s.bucketMs > 0
    ensures Reachable(s, w, events) && Failing(w, 0, last) && w.b == FRESH
  {
    if last == 0 {
      events, w := [], INITIAL;
      forall k ensures CallAt(w, 0, 0, 0, 0, k) {}
    } else {
      var es, v := CallsStart(s, last - 1);
      assert CallAt(v, 0, last - 1, 0, 0, last - 1);
      events, w := OneStep(s, es, v, Start(last - 1, 0));
      forall k ensures CallAt(w, 0, last, 0, 0, k) { assert CallAt(v, 0, last - 1, 0, 0, k); }
    }
  }

  /** Nothing but failures reaches both thresholds exactly if they are enough. */
  lemma OnlyFailures(s: Settings, log: seq<Outcome>)
    requires s.bucketMs > 0 && s.bucketCount > 0 && s.failureThreshold <= 1.0
    requires FirstBucketFailures(log) && log != []
    ensures OverThreshold(s, log, 0) <==> |log| >= Enough(s)
  {
    FailuresCounted(log, s.bucketCount);
    assert 0 / s.bucketMs == 0;
    assert SnapshotOf(log, 0, s.bucketCount).failureRate == 1.0;
  }

  /** One more failure opens the circuit exactly if it is the last of enough. */
  lemma OneMoreFails(s: Settings, w: World, id: nat, last: nat)
    requires s.bucketMs > 0 && s.bucketCount > 0 && s.failureThreshold <= 1.0
    requires Failing(w, id, last) && w.b.mode == Closed && id < last && id < Enough(s)
    ensures Possible(w, Finish(id, true, 0))
    ensures var v := Step(s, w, Finish(id, true, 0));
            Failing(v, id + 1, last) && v.b.mode == (if id + 1 == Enough(s) then Open else Closed)
            && (v.b.mode == Open ==> v.b.openedAt == Some(0))
  {
    assert CallAt(w, id, last, 0, 0, id);
    var v := Step(s, w, Finish(id, true, 0));
    var log := w.b.log + [Outcome(0, false)];
    assert 0 / s.bucketMs == 0;
    OnlyFailures(s, log);
    assert v.b.log == log;
    var after := id + 1;
    forall k ensures CallAt(v, after, last, 0, 0, k) { assert CallAt(w, id, last, 0, 0, k); }
  }

  lemma {:induction false} CallsFail(s: Settings, id: nat, last: nat) returns (events: seq<Event>, w: World)
    requires s.bucketMs > 0 && s.bucketCount > 0 && s.failureThreshold <= 1.0 && id <= Enough(s) <= last
    ensures Reachable(s, w, events) && Failing(w, id, last)
    ensures w.b.mode == if id == Enough(s) then Open else Closed
    ensures w.b.mode == Open ==> w.b.openedAt == Some(0)
  {
    if id == 0 {
      events, w := CallsStart(s, last);
    } else {
      var es, v := CallsFail(s, id - 1, last);
      OneMoreFails(s, v, id - 1, last);
      events, w := OneStep(s, es, v, Finish(id - 1, true, 0));
    }
  }

  /** Half-open: the older calls from id on still run, the trials from last to next - 1 too, and done older calls have counted as successes. */
  ghost predicate Trying(s: Settings, w: World, id: nat, last: nat, next: nat, done: nat) {
    && w.b.mode == HalfOpen && w.b.openedAt == Some(0) && w.now == Max(0, s.resetTimeoutMs)
    && w.b.inFlight == next - last - done && w.b.successes == done == |w.recorded| == w.older
    && id <= last <= next && RunsOnly(w, id, last, last, next)
  }

  lemma TrialStarts(s: Settings, w: World, id: nat, last: nat, next: nat, done: nat)
    requires s.bucketMs > 0 && Trying(s, w, id, last, next, done) && next - last - done < s.halfOpenMaxCalls
    ensures var e := Start(next, w.now); Possible(w, e) && Trying(s, Step(s, w, e), id, last, next + 1, done)
  {
    assert CallAt(w, id, last, last, next, next);
    var v := Step(s, w, Start(next, w.now));
    var after := next + 1;
    forall k ensures CallAt(v, id, last, last, after, k) { assert CallAt(w, id, last, last, next, k); }
  }

  lemma OlderEnds(s: Settings, w: World, id: nat, last: nat, next: nat, done: nat)
    requires s.bucketMs > 0 && Trying(s, w, id, last, next, done) && id < last
    requires next - last - done > 0 && done + 1 < s.successesToClose
    ensures var e := Finish(id, false, w.now); Possible(w, e) && Trying(s, Step(s, w, e), id + 1, last, next, done + 1)
  {
    assert CallAt(w, id, last, last, next, id);
    var v := Step(s, w, Finish(id, false, w.now));
    var after := id + 1;
    forall k ensures CallAt(v, after, last, last, next, k) { assert CallAt(w, id, last, last, next, k); }
  }

  /** At the timeout an open circuit turns half-open. */
  lemma TurnsHalfOpen(s: Settings, w: World, id: nat, last: nat)
    requires s.bucketMs > 0 && Failing(w, id, last) && w.b.mode == Open && w.b.openedAt == Some(0) && id <= last
    ensures var e := Look(Max(0, s.resetTimeoutMs)); Possible(w, e) && Trying(s, Step(s, w, e), id, last, last, 0)
  {
    var v := Step(s, w, Look(Max(0, s.resetTimeoutMs)));
    forall k ensures CallAt(v, id, last, last, last, k) { assert CallAt(w, id, last, 0, 0, k); }
  }

  lemma {:induction false} TrialsStart(s: Settings, last: nat, n: nat) returns (events: seq<Event>, w: World)
    requires s.bucketMs > 0 && s.bucketCount > 0 && s.failureThreshold <= 1.0 && Enough(s) <= last && n <= s.halfOpenMaxCalls
    ensures Reachable(s, w, events) && Trying(s, w, Enough(s), last, last + n, 0)
    decreases n
  {
    if n == 0 {
      var es, v := CallsFail(s, Enough(s), last);
      TurnsHalfOpen(s, v, Enough(s), last);
      events, w := OneStep(s, es, v, Look(Max(0, s.resetTimeoutMs)));
    } else {
      var es, v := TrialsStart(s, last, n - 1);
      TrialStarts(s, v, Enough(s), last, last + n - 1, 0);
      events, w := OneStep(s, es, v, Start(last + n - 1, v.now));
    }
  }

  /** An older call ends, and the slot it frees lets in one more trial. */
  lemma SlotIsFreed(s: Settings, events: seq<Event>, w: World, id: nat, last: nat, next: nat, done: nat)
    returns (more: seq<Event>, v: World)
    requires s.bucketMs > 0 && Reachable(s, w, events) && Trying(s, w, id, last, next, done) && id < last
    requires next - last - done == s.halfOpenMaxCalls > 0 && done + 1 < s.successesToClose
    ensures Reachable(s, v, more) && Trying(s, v, id + 1, last, next + 1, done + 1)
  {
    OlderEnds(s, w, id, last, next, done);
    var es, u := OneStep(s, events, w, Finish(id, false, w.now));
    TrialStarts(s, u, id + 1, last, next, done + 1);
    more, v := OneStep(s, es, u, Start(next, u.now));
  }

  lemma {:induction false} SlotsAreFreed(s: Settings, last: nat, done: nat) returns (events: seq<Event>, w: World)
    requires s.bucketMs > 0 && s.bucketCount > 0 && s.failureThreshold <= 1.0 && s.halfOpenMaxCalls > 0
    requires Enough(s) + done <= last && (done > 0 ==> done < s.successesToClose)
    ensures Reachable(s, w, events) && Trying(s, w, Enough(s) + done, last, last + s.halfOpenMaxCalls + done, done)
    decreases done
  {
    if done == 0 {
      events, w := TrialsStart(s, last, s.halfOpenMaxCalls);
    } else {
      events, w := SlotsAreFreed(s, last, done - 1);
      events, w := SlotIsFreed(s, events, w, Enough(s) + done - 1, last, last + s.halfOpenMaxCalls + done - 1, done - 1);
    }
  }

  ghost function Range(lo: nat, hi: nat): (r: set<nat>)
    requires lo <= hi
    ensures |r| == hi - lo && forall k {:trigger k in r} :: k in r <==> lo <= k < hi
  {
    if lo == hi then {} else Range(lo, hi - 1) + {hi - 1}
  }

  lemma TrialsCounted(s: Settings, w: World, id: nat, last: nat, next: nat, done: nat)
    requires Trying(s, w, id, last, next, done)
    ensures |Trials(w)| == next - last
  {
    forall k ensures k in Trials(w) <==> k in Range(last, next) { assert CallAt(w, id, last, last, next, k); }
    assert Trials(w) == Range(last, next);
  }

  /**
   * A call begun while the circuit was closed can end while it is half-open.
   * It counts towards closing and gives back a trial slot it never took.  With
   * every setting under which the circuit can trip and tries at all, the bound
   * is reached in this way: all successes recorded so far are those of older
   * calls, and each has let in one more trial.
   */
  lemma OlderCallsFreeSlots(s: Settings) returns (events: seq<Event>, w: World)
    requires s.bucketMs > 0 && s.bucketCount > 0 && s.failureThreshold <= 1.0 && s.halfOpenMaxCalls > 0
    ensures Reachable(s, w, events) && w.b.mode == HalfOpen && |Trials(w)| == MostTrials(s)
    ensures w.older == |w.recorded| == Max(0, s.successesToClose - 1)
  {
    var done: nat := Max(0, s.successesToClose - 1);
    var last: nat := Enough(s) + done;
    events, w := SlotsAreFreed(s, last, done);
    TrialsCounted(s, w, last, last, last + s.halfOpenMaxCalls + done, done);
  }

  lemma MoreThanWhole(share: real, whole: real)
    requires share > 1.0 && whole > 0.0
    ensures share * whole > whole
  {
    assert (share - 1.0) * whole > 0.0;
  }

  lemma ShareAtMostOne(part: real, whole: real)
    requires 0.0 <= part <= whole && whole > 0.0
    ensures part / whole <= 1.0
  {
    var share := part / whole;
    assert share * whole == part;
    if share > 1.0 { MoreThanWhole(share, whole); }
  }

  lemma RateAtMostOne(log: seq<Outcome>, now: int, n: nat)
    ensures SnapshotOf(log, now, n).failureRate <= 1.0
  {
    var s, f := CountRecent(log, now, n, true), CountRecent(log, now, n, false);
    if s + f > 0 { ShareAtMostOne(f as real, (s + f) as real); }
  }

  lemma {:induction false} NeverTrips(s: Settings, events: seq<Event>, w: World)
    requires s.bucketMs > 0 && s.failureThreshold > 1.0 && Reachable(s, w, events)
    ensures w.b.mode == Closed
    decreases |events|
  {
    if events != [] {
      var n := |events| - 1;
      var v :| Path(s, INITIAL, events[..n], v) && Possible(v, events[n]) && w == Step(s, v, events[n]);
      NeverTrips(s, events[..n], v);
      if events[n].Finish? {
        RateAtMostOne(v.b.log + [Outcome(events[n].at / s.bucketMs, false)], events[n].at / s.bucketMs, s.bucketCount);
      }
    }
  }

  /** In no run of a half-open circuit do more trials run at once than are configured. */
  ghost predicate LimitHolds(s: Settings)
    requires s.bucketMs > 0
  {
    forall w, events :: Reachable(s, w, events) && w.b.mode == HalfOpen ==> |Trials(w)| <= Max(0, s.halfOpenMaxCalls)
  }

  /** The configured limit holds in every run exactly if one success closes, no trial is allowed, or the circuit cannot open. */
  lemma LimitHoldsExactly(s: Settings)
    requires s.bucketMs > 0 && s.bucketCount > 0
    ensures LimitHolds(s) <==> s.successesToClose <= 1 || s.halfOpenMaxCalls <= 0 || s.failureThreshold > 1.0
  {
    if s.successesToClose <= 1 || s.halfOpenMaxCalls <= 0 || s.failureThreshold > 1.0 {
      forall w, events | Reachable(s, w, events) && w.b.mode == HalfOpen ensures |Trials(w)| <= Max(0, s.halfOpenMaxCalls) {
        if s.failureThreshold > 1.0 { NeverTrips(s, events, w); }
        TrialsNeverExceed(s, w, events);
      }
    } else {
      var events, w := OlderCallsFreeSlots(s);
      assert Reachable(s, w, events);
    }
  }
}
