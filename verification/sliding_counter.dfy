/** packages/algorithms/src/sliding-window.ts: the approximate sliding window, interpolating between two fixed windows. */
module SlidingCounters {
  import opened Basics
  import opened Rings

  type Key(==, !new)

  datatype CounterState = CounterState(windowIndex: int, currentCount: real, previousCount: real)

  datatype Limits = Limits(limit: real, windowMs: int)

  datatype Decision = Decision(allowed: bool, remaining: int, retryAfterMs: int, used: real)

  /** What the constructor insists on. */
  ghost predicate Valid(l: Limits) {
    l.limit > 0.0 && l.windowMs > 0
  }

  /** How far into its fixed window a time lies. */
  function Fraction(l: Limits, now: int): (f: real)
    requires l.windowMs > 0
    ensures 0.0 <= f < 1.0
  {
    (now % l.windowMs) as real / l.windowMs as real
  }

  function Roll(s: CounterState, windowIndex: int): CounterState {
    if s.windowIndex == windowIndex then s
    else CounterState(windowIndex, 0.0, if windowIndex - s.windowIndex == 1 then s.currentCount else 0.0)
  }

  function Weighted(s: CounterState, f: real): real {
    s.previousCount * (1.0 - f) + s.currentCount
  }

  /** How long until enough of the previous window has decayed. */
  function RetryAfter(s: CounterState, l: Limits, f: real, overflow: real): int {
    var retryAfterMs :=
      if s.previousCount > 0.0 then Ceil((overflow / s.previousCount) * l.windowMs as real)
      else Ceil(l.windowMs as real * (1.0 - f));
    Max(1, Min(retryAfterMs, l.windowMs))
  }

  /** The counters a hit at this time works with. */
  function Rolled(s: Option<CounterState>, l: Limits, now: int): CounterState
    requires l.windowMs > 0
  {
    Roll(if s.Some? then s.value else CounterState(now / l.windowMs, 0.0, 0.0), now / l.windowMs)
  }

  predicate Admits(c: CounterState, l: Limits, now: int, cost: real)
    requires l.windowMs > 0
  {
    Weighted(c, Fraction(l, now)) + cost <= l.limit
  }

  /** The counters a hit leaves behind. */
  function Hit(s: Option<CounterState>, l: Limits, now: int, cost: real): CounterState
    requires l.windowMs > 0
  {
    var c := Rolled(s, l, now);
    if Admits(c, l, now, cost) then c.(currentCount := c.currentCount + cost) else c
  }

  /** The answer to a hit that works with these counters. */
  function Answer(c: CounterState, l: Limits, now: int, cost: real): Decision
    requires l.windowMs > 0
  {
    var weighted := Weighted(c, Fraction(l, now));
    if Admits(c, l, now, cost) then Decision(true, Max(0, (l.limit - weighted - cost).Floor), 0, weighted + cost)
    else Decision(false, Max(0, (l.limit - weighted).Floor), RetryAfter(c, l, Fraction(l, now), weighted + cost - l.limit), weighted)
  }

  // ---------- Runs for one key ----------

  datatype Event = Request(cost: real, at: int) | Prune(at: int)

  ghost predicate Stale(s: CounterState, l: Limits, now: int)
    requires l.windowMs > 0
  {
    now / l.windowMs - s.windowIndex > 1
  }

  ghost function After(s: Option<CounterState>, l: Limits, e: Event): Option<CounterState>
    requires l.windowMs > 0
  {
    match e
    case Request(cost, at) => Some(Hit(s, l, at, cost))
    case Prune(at) => if s.Some? && Stale(s.value, l, at) then None else s
  }

  /** A run from time now on: time does not go back and costs are not negative. */
  ghost predicate Run(events: seq<Event>, now: int) {
    events != [] ==> now <= events[0].at && (events[0].Request? ==> events[0].cost >= 0.0) && Run(events[1..], events[0].at)
  }

  /** An admitted request: its cost and time. */
  datatype Admitted = Admitted(cost: real, at: int)

  ghost function Admissions(s: Option<CounterState>, l: Limits, e: Event): seq<Admitted>
    requires l.windowMs > 0
  {
    if e.Request? && Admits(Rolled(s, l, e.at), l, e.at, e.cost) then [Admitted(e.cost, e.at)] else []
  }

  // ---------- The bound on what is admitted ----------

  /** Admitted cost in one fixed window, and in the sliding window of full length that ends at a time. */
  ghost function InFixed(log: seq<Admitted>, l: Limits, index: int): real
    requires l.windowMs > 0
  {
    if log == [] then 0.0
    else InFixed(log[..|log| - 1], l, index) + if log[|log| - 1].at / l.windowMs == index then log[|log| - 1].cost else 0.0
  }

  ghost function InSliding(log: seq<Admitted>, l: Limits, end: int): real {
    if log == [] then 0.0
    else InSliding(log[..|log| - 1], l, end)
         + if end - l.windowMs < log[|log| - 1].at <= end then log[|log| - 1].cost else 0.0
  }

  ghost predicate Costly(log: seq<Admitted>, l: Limits, last: int)
    requires l.windowMs > 0
  {
    forall i :: 0 <= i < |log| ==> log[i].cost >= 0.0 && log[i].at / l.windowMs <= last
  }

  lemma {:induction false} NothingLater(log: seq<Admitted>, l: Limits, last: int, index: int)
    requires l.windowMs > 0 && Costly(log, l, last) && index > last
    ensures InFixed(log, l, index) == 0.0
    decreases |log|
  {
    if log != [] { NothingLater(log[..|log| - 1], l, last, index); }
  }

  /** A sliding window lies in the fixed window of its end and the one before. */
  lemma {:induction false} SlidingIsTwoFixed(log: seq<Admitted>, l: Limits, last: int, end: int)
    requires l.windowMs > 0 && Costly(log, l, last)
    ensures 0.0 <= InSliding(log, l, end) <= InFixed(log, l, end / l.windowMs) + InFixed(log, l, end / l.windowMs - 1)
    ensures 0.0 <= InFixed(log, l, end / l.windowMs) && 0.0 <= InFixed(log, l, end / l.windowMs - 1)
    decreases |log|
  {
    if log != [] {
      SlidingIsTwoFixed(log[..|log| - 1], l, last, end);
      var a := log[|log| - 1];
      if end - l.windowMs < a.at <= end { IndexStep(a.at, end, l.windowMs); }
    }
  }

  /**
   * The counters are the admitted costs of the two latest fixed windows, and
   * at the latest admission the interpolated usage was within the limit.
   */
  ghost predicate Counts(s: Option<CounterState>, log: seq<Admitted>, l: Limits, now: int)
    requires Valid(l)
  {
    match s
    case None => Costly(log, l, now / l.windowMs - 2)
    case Some(c) =>
      && c.windowIndex <= now / l.windowMs && Costly(log, l, c.windowIndex)
      && c.currentCount == InFixed(log, l, c.windowIndex) && c.previousCount == InFixed(log, l, c.windowIndex - 1)
      && 0.0 <= c.previousCount <= l.limit && 0.0 <= c.currentCount <= l.limit
      && (c.windowIndex == now / l.windowMs && c.currentCount > 0.0 ==> Weighted(c, Fraction(l, now)) <= l.limit)
  }

  lemma FractionGrows(l: Limits, now: int, later: int)
    requires l.windowMs > 0 && now <= later && now / l.windowMs == later / l.windowMs
    ensures Fraction(l, now) <= Fraction(l, later)
  {
    RemainderGrows(now, later, l.windowMs);
    QuotientGrows((now % l.windowMs) as real, (later % l.windowMs) as real, l.windowMs as real);
  }

  lemma RemainderGrows(now: int, later: int, w: int)
    requires w > 0 && now <= later && now / w == later / w
    ensures now % w <= later % w
  {
    assert now == w * (now / w) + now % w && later == w * (later / w) + later % w;
  }

  lemma QuotientGrows(x: real, y: real, w: real)
    requires x <= y && w > 0.0
    ensures x / w <= y / w
  {
    assert y / w - x / w == (y - x) / w;
  }

  lemma WeightFalls(c: CounterState, f: real, g: real)
    requires c.previousCount >= 0.0 && f <= g
    ensures Weighted(c, g) <= Weighted(c, f)
  {
    NotNegative(c.previousCount, g - f);
    assert c.previousCount * (1.0 - f) - c.previousCount * (1.0 - g) == c.previousCount * (g - f);
  }

  lemma CountsLater(s: Option<CounterState>, log: seq<Admitted>, l: Limits, now: int, later: int)
    requires Valid(l) && Counts(s, log, l, now) && now <= later
    ensures Counts(s, log, l, later)
  {
    IndexGrows(now, later, l.windowMs);
    if s.Some? && s.value.windowIndex == later / l.windowMs {
      FractionGrows(l, now, later);
      WeightFalls(s.value, Fraction(l, now), Fraction(l, later));
    }
  }

  /** Rolled to the current window the counters still count. */
  lemma CountsRolled(s: Option<CounterState>, log: seq<Admitted>, l: Limits, now: int)
    requires Valid(l) && Counts(s, log, l, now)
    ensures var c := Rolled(s, l, now);
            Counts(Some(c), log, l, now) && c.windowIndex == now / l.windowMs
  {
    var k := now / l.windowMs;
    match s
    case None =>
      NothingLater(log, l, k - 2, k);
      NothingLater(log, l, k - 2, k - 1);
    case Some(c) =>
      if c.windowIndex < k {
        NothingLater(log, l, c.windowIndex, k);
        if c.windowIndex < k - 1 { NothingLater(log, l, c.windowIndex, k - 1); }
      }
  }

  lemma InFixedPush(log: seq<Admitted>, a: Admitted, l: Limits, index: int)
    requires l.windowMs > 0
    ensures InFixed(log + [a], l, index) == InFixed(log, l, index) + if a.at / l.windowMs == index then a.cost else 0.0
  {
    assert (log + [a])[..|log|] == log;
  }

  lemma CountsAfter(s: Option<CounterState>, log: seq<Admitted>, l: Limits, now: int, e: Event)
    requires Valid(l) && Counts(s, log, l, now) && now <= e.at && (e.Request? ==> e.cost >= 0.0)
    ensures Counts(After(s, l, e), log + Admissions(s, l, e), l, e.at)
  {
    CountsLater(s, log, l, now, e.at);
    assert log + [] == log;
    if e.Request? {
      CountsRolled(s, log, l, e.at);
      if Admits(Rolled(s, l, e.at), l, e.at, e.cost) { CountsAdmitted(Rolled(s, l, e.at), log, l, e.at, e.cost); }
    }
  }

  lemma CountsAdmitted(c: CounterState, log: seq<Admitted>, l: Limits, now: int, cost: real)
    requires Valid(l) && Counts(Some(c), log, l, now) && c.windowIndex == now / l.windowMs && cost >= 0.0
    requires Admits(c, l, now, cost)
    ensures Counts(Some(c.(currentCount := c.currentCount + cost)), log + [Admitted(cost, now)], l, now)
  {
    var k := c.windowIndex;
    InFixedPush(log, Admitted(cost, now), l, k);
    InFixedPush(log, Admitted(cost, now), l, k - 1);
    AdmittedFits(c, l.limit, Fraction(l, now), cost);
  }

  lemma AdmittedFits(c: CounterState, limit: real, f: real, cost: real)
    requires c.previousCount >= 0.0 && f < 1.0 && Weighted(c, f) + cost <= limit
    ensures var c' := c.(currentCount := c.currentCount + cost);
            Weighted(c', f) <= limit && c'.currentCount <= limit
  {
    WeightCovers(c.(currentCount := c.currentCount + cost), f);
  }

  lemma WeightCovers(c: CounterState, f: real)
    requires c.previousCount >= 0.0 && f < 1.0
    ensures Weighted(c, f) >= c.currentCount
  {
    NotNegative(c.previousCount, 1.0 - f);
  }

  lemma NotNegative(x: real, y: real)
    requires x >= 0.0 && y >= 0.0
    ensures x * y >= 0.0
  {
  }

  /** At most limit times one plus the elapsed fraction, which is less than twice the limit. */
  ghost predicate WithinShare(amount: real, limit: real, f: real) {
    amount <= limit * (1.0 + f) < 2.0 * limit
  }

  lemma BoundFollows(amount: real, limit: real, c: CounterState, f: real)
    requires amount <= c.previousCount + c.currentCount && limit > 0.0 && 0.0 <= f < 1.0
    requires 0.0 <= c.previousCount <= limit && 0.0 <= c.currentCount
    requires c.currentCount > 0.0 ==> Weighted(c, f) <= limit
    ensures WithinShare(amount, limit, f)
  {
    var previous, current := c.previousCount, c.currentCount;
    NotNegative(limit - previous, f);
    NotNegative(limit, f);
    assert (limit - previous) * f == limit * f - previous * f;
    assert previous * (1.0 - f) == previous - previous * f;
    assert limit * (1.0 + f) == limit + limit * f;
    assert limit * (1.0 - f) > 0.0 && limit * (1.0 - f) == limit - limit * f;
  }

  /** The rolled counters, with what the sliding window holds below their sum. */
  lemma RolledCounters(s: Option<CounterState>, log: seq<Admitted>, l: Limits, now: int) returns (c: CounterState)
    requires Valid(l) && Counts(s, log, l, now)
    ensures InSliding(log, l, now) <= c.previousCount + c.currentCount
    ensures 0.0 <= c.previousCount <= l.limit && 0.0 <= c.currentCount
    ensures c.currentCount > 0.0 ==> Weighted(c, Fraction(l, now)) <= l.limit
  {
    var k := now / l.windowMs;
    CountsRolled(s, log, l, now);
    c := Rolled(s, l, now);
    SlidingIsTwoFixed(log, l, k, now);
  }

  /** What the sliding window that ends now may hold at most. */
  ghost predicate Bounded(log: seq<Admitted>, l: Limits, now: int)
    requires Valid(l)
  {
    WithinShare(InSliding(log, l, now), l.limit, Fraction(l, now))
  }

  lemma SlidingBound(s: Option<CounterState>, log: seq<Admitted>, l: Limits, now: int)
    requires Valid(l) && Counts(s, log, l, now)
    ensures Bounded(log, l, now)
  {
    var c := RolledCounters(s, log, l, now);
    BoundFollows(InSliding(log, l, now), l.limit, c, Fraction(l, now));
  }

  /** Everything a run admits. */
  ghost function LogOf(s: Option<CounterState>, l: Limits, events: seq<Event>): seq<Admitted>
    requires l.windowMs > 0
    decreases |events|
  {
    if events == [] then [] else Admissions(s, l, events[0]) + LogOf(After(s, l, events[0]), l, events[1..])
  }

  lemma LogGrows(s: Option<CounterState>, log: seq<Admitted>, l: Limits, events: seq<Event>)
    requires l.windowMs > 0 && events != []
    ensures log + LogOf(s, l, events) == log + Admissions(s, l, events[0]) + LogOf(After(s, l, events[0]), l, events[1..])
  {
  }

  lemma BoundedLater(s: Option<CounterState>, log: seq<Admitted>, l: Limits, now: int, end: int)
    requires Valid(l) && Counts(s, log, l, now) && now <= end
    ensures Bounded(log, l, end)
  {
    CountsLater(s, log, l, now, end);
    SlidingBound(s, log, l, end);
  }

  lemma {:induction false} RunCounts(s: Option<CounterState>, log: seq<Admitted>, l: Limits, events: seq<Event>, now: int, end: int)
    requires Valid(l) && Counts(s, log, l, now) && Run(events, now) && now <= end
    requires events != [] ==> events[|events| - 1].at <= end
    ensures Bounded(log + LogOf(s, l, events), l, end)
    decreases |events|
  {
    if events == [] {
      BoundedLater(s, log, l, now, end);
      assert log + [] == log;
    } else {
      var e, rest := events[0], events[1..];
      LastIsLatest(events, now);
      assert rest != [] ==> rest[|rest| - 1] == events[|events| - 1];
      CountsAfter(s, log, l, now, e);
      LogGrows(s, log, l, events);
      RunCounts(After(s, l, e), log + Admissions(s, l, e), l, rest, e.at, end);
    }
  }

  lemma {:induction false} LastIsLatest(events: seq<Event>, now: int)
    requires events != [] && Run(events, now)
    ensures events[0].at <= events[|events| - 1].at
  {
    if |events| > 1 { LastIsLatest(events[1..], events[0].at); }
  }

  /**
   * In every run, at every moment, what was admitted within the last window
   * length costs at most limit * (1 + f), where f is the elapsed fraction of
   * the current fixed window: less than twice the limit.
   */
  lemma WindowIsBounded(l: Limits, events: seq<Event>, start: int, end: int)
    requires Valid(l) && Run(events, start) && start <= end && (events != [] ==> events[|events| - 1].at <= end)
    ensures WithinShare(InSliding(LogOf(None, l, events), l, end), l.limit, Fraction(l, end))
  {
    RunCounts(None, [], l, events, start, end);
    assert [] + LogOf(None, l, events) == LogOf(None, l, events);
  }

  // ---------- Every answer in terms of what was admitted ----------

  ghost function StateAfter(s: Option<CounterState>, l: Limits, events: seq<Event>): Option<CounterState>
    requires l.windowMs > 0
    decreases |events|
  {
    if events == [] then s else StateAfter(After(s, l, events[0]), l, events[1..])
  }

  lemma {:induction false} CountsAtTheEnd(s: Option<CounterState>, log: seq<Admitted>, l: Limits, events: seq<Event>, now: int, end: int)
    requires Valid(l) && Counts(s, log, l, now) && Run(events, now) && now <= end
    requires events != [] ==> events[|events| - 1].at <= end
    ensures Counts(StateAfter(s, l, events), log + LogOf(s, l, events), l, end)
    decreases |events|
  {
    if events == [] {
      CountsLater(s, log, l, now, end);
      assert log + [] == log;
    } else {
      var e, rest := events[0], events[1..];
      LastIsLatest(events, now);
      assert rest != [] ==> rest[|rest| - 1] == events[|events| - 1];
      CountsAfter(s, log, l, now, e);
      LogGrows(s, log, l, events);
      CountsAtTheEnd(After(s, l, e), log + Admissions(s, l, e), l, rest, e.at, end);
    }
  }

  /** u is what was admitted in the current fixed window, and the part of the one before that the sliding window still covers. */
  ghost predicate IsUsage(u: real, log: seq<Admitted>, l: Limits, now: int)
    requires l.windowMs > 0
  {
    var k := now / l.windowMs;
    Interpolated(u, InFixed(log, l, k), InFixed(log, l, k - 1), l.windowMs as real, (now % l.windowMs) as real)
  }

  /** u is the current amount, and the previous one without the elapsed part of it. */
  ghost predicate Interpolated(u: real, current: real, previous: real, window: real, elapsed: real) {
    u * window == current * window + previous * (window - elapsed)
  }

  lemma WeightedIsUsage(c: CounterState, log: seq<Admitted>, l: Limits, now: int)
    requires Valid(l) && c.currentCount == InFixed(log, l, now / l.windowMs) && c.previousCount == InFixed(log, l, now / l.windowMs - 1)
    ensures IsUsage(Weighted(c, Fraction(l, now)), log, l, now)
  {
    var w, elapsed := l.windowMs as real, (now % l.windowMs) as real;
    FractionOf(l, now);
    WeightInterpolates(c, Fraction(l, now), w, elapsed);
  }

  lemma FractionOf(l: Limits, now: int)
    requires l.windowMs > 0
    ensures Fraction(l, now) * l.windowMs as real == (now % l.windowMs) as real
  {
  }

  lemma WeightInterpolates(c: CounterState, f: real, window: real, elapsed: real)
    requires f * window == elapsed
    ensures Interpolated(Weighted(c, f), c.currentCount, c.previousCount, window, elapsed)
  {
    assert c.previousCount * (1.0 - f) * window == c.previousCount * (window - f * window);
  }

  /** After any run a request is admitted exactly when the interpolated usage leaves room for it, and the answer tells the usage. */
  lemma AdmittedByUsage(l: Limits, events: seq<Event>, start: int, now: int, cost: real) returns (u: real)
    requires Valid(l) && Run(events, start) && start <= now && (events != [] ==> events[|events| - 1].at <= now)
    ensures IsUsage(u, LogOf(None, l, events), l, now)
    ensures var a := Answer(Rolled(StateAfter(None, l, events), l, now), l, now, cost);
            (a.allowed <==> u + cost <= l.limit) && a.used == if a.allowed then u + cost else u
  {
    var log, s := LogOf(None, l, events), StateAfter(None, l, events);
    CountsAtTheEnd(None, [], l, events, start, now);
    assert [] + log == log;
    u := UsageOf(s, log, l, now, cost);
  }

  lemma UsageOf(s: Option<CounterState>, log: seq<Admitted>, l: Limits, now: int, cost: real) returns (u: real)
    requires Valid(l) && Counts(s, log, l, now)
    ensures IsUsage(u, log, l, now)
    ensures var a := Answer(Rolled(s, l, now), l, now, cost);
            (a.allowed <==> u + cost <= l.limit) && a.used == if a.allowed then u + cost else u
  {
    CountsRolled(s, log, l, now);
    WeightedIsUsage(Rolled(s, l, now), log, l, now);
    u := Weighted(Rolled(s, l, now), Fraction(l, now));
  }

  /** What a hit says remains is exact: the largest whole cost that a further request at the same time could have. */
  lemma RemainingIsExact(s: Option<CounterState>, l: Limits, now: int, cost: real, n: int)
    requires Valid(l) && n > 0
    ensures var a, next := Answer(Rolled(s, l, now), l, now, cost), Some(Hit(s, l, now, cost));
            a.remaining >= 0 && (Answer(Rolled(next, l, now), l, now, n as real).allowed <==> n <= a.remaining)
  {
    var c, f := Rolled(s, l, now), Fraction(l, now);
    assert Weighted(c.(currentCount := c.currentCount + cost), f) == Weighted(c, f) + cost;
  }

  /** Counters are pruned exactly from two windows on: once the window after theirs has ended. */
  lemma StaleExactly(s: CounterState, l: Limits, now: int)
    requires l.windowMs > 0
    ensures Stale(s, l, now) <==> now >= (s.windowIndex + 2) * l.windowMs
  {
    var k, w := s.windowIndex + 2, l.windowMs;
    assert now == w * (now / w) + now % w && w * k == k * w;
    QuotientIs(k, w, 0);
    if now >= k * w { IndexGrows(k * w, now, w); } else { IndexGrows(now, k * w, w); }
  }

  // ---------- Pruning cannot be observed ----------

  ghost function Decisions(s: Option<CounterState>, l: Limits, events: seq<Event>): seq<Decision>
    requires l.windowMs > 0
    decreases |events|
  {
    if events == [] then []
    else
      (if events[0].Request? then [Answer(Rolled(s, l, events[0].at), l, events[0].at, events[0].cost)] else [])
      + Decisions(After(s, l, events[0]), l, events[1..])
  }

  ghost function WithoutPrunes(events: seq<Event>): seq<Event> {
    if events == [] then []
    else (if events[0].Prune? then [] else [events[0]]) + WithoutPrunes(events[1..])
  }

  /** The same, or the first was pruned and the second is of no use any more. */
  ghost predicate Alike(a: Option<CounterState>, b: Option<CounterState>, l: Limits, now: int)
    requires l.windowMs > 0
  {
    a == b || (a.None? && Stale(b.value, l, now))
  }

  lemma {:induction false} PruningIsUnobservable(a: Option<CounterState>, b: Option<CounterState>, l: Limits, events: seq<Event>, now: int)
    requires Valid(l) && Alike(a, b, l, now) && Run(events, now)
    ensures Decisions(a, l, events) == Decisions(b, l, WithoutPrunes(events))
    decreases |events|
  {
    if events != [] {
      var e, rest := events[0], events[1..];
      IndexGrows(now, e.at, l.windowMs);
      if e.Request? {
        assert Rolled(a, l, e.at) == Rolled(b, l, e.at);
        PruningIsUnobservable(After(a, l, e), After(b, l, e), l, rest, e.at);
        assert WithoutPrunes(events)[1..] == WithoutPrunes(rest);
      } else {
        PruningIsUnobservable(After(a, l, e), b, l, rest, e.at);
        assert [] + WithoutPrunes(rest) == WithoutPrunes(rest);
      }
    }
  }

  /** Whenever prune is called during a run, every decision is the same as without it. */
  lemma PruneChangesNoDecision(s: Option<CounterState>, l: Limits, events: seq<Event>, now: int)
    requires Valid(l) && Run(events, now)
    ensures Decisions(s, l, events) == Decisions(s, l, WithoutPrunes(events))
  {
    PruningIsUnobservable(s, s, l, events, now);
  }

  // ---------- The advised wait ----------

  lemma FractionStep(l: Limits, now: int, later: int)
    requires l.windowMs > 0 && now / l.windowMs == later / l.windowMs
    ensures (Fraction(l, later) - Fraction(l, now)) * l.windowMs as real == (later - now) as real
  {
    var w := l.windowMs;
    assert now == w * (now / w) + now % w && later == w * (later / w) + later % w;
    assert Fraction(l, now) * w as real == (now % w) as real && Fraction(l, later) * w as real == (later % w) as real;
  }

  /** Weighing time against what has to decay. */
  lemma DecayCovers(previous: real, overflow: real, w: real, df: real, ms: int)
    requires previous > 0.0 && w > 0.0 && df * w == ms as real
    ensures previous * df >= overflow <==> ms >= Ceil((overflow / previous) * w)
  {
    var needed := overflow / previous;
    assert needed * previous == overflow;
    if df >= needed { NotNegative(df - needed, previous); NotNegative(df - needed, w); } else { Positive(needed - df, previous); Positive(needed - df, w); }
    assert (df - needed) * previous == previous * df - overflow && (df - needed) * w == ms as real - needed * w;
    assert df >= needed <==> ms as real >= needed * w;
  }

  lemma Positive(x: real, y: real)
    requires x > 0.0 && y > 0.0
    ensures x * y > 0.0
  {
  }

  lemma WeightDifference(c: CounterState, f: real, g: real)
    ensures Weighted(c, f) - Weighted(c, g) == c.previousCount * (g - f)
  {
  }

  /** Weights fall below the limit exactly after the advised time, within a window. */
  lemma Decayed(c: CounterState, l: Limits, f: real, g: real, cost: real, ms: int)
    requires c.previousCount > 0.0 && Valid(l) && (g - f) * l.windowMs as real == ms as real
    requires Weighted(c, f) + cost > l.limit && 0 <= ms < l.windowMs
    ensures Weighted(c, g) + cost <= l.limit <==> ms >= RetryAfter(c, l, f, Weighted(c, f) + cost - l.limit)
  {
    var overflow := Weighted(c, f) + cost - l.limit;
    WeightDifference(c, f, g);
    DecayCovers(c.previousCount, overflow, l.windowMs as real, g - f, ms);
    DecayCovers(c.previousCount, overflow, l.windowMs as real, 0.0, 0);
  }

  lemma WindowDistance(now: int, later: int, w: int)
    requires w > 0 && now <= later && now / w == later / w
    ensures later - now < w
  {
    assert now == w * (now / w) + now % w && later == w * (later / w) + later % w;
  }

  /** Within the same fixed window the advised wait is exact, if the previous window counts at all. */
  lemma WaitIsExactWithinWindow(c: CounterState, l: Limits, now: int, later: int, cost: real)
    requires Valid(l) && now <= later && now / l.windowMs == later / l.windowMs && c.previousCount > 0.0
    requires !Admits(c, l, now, cost)
    ensures Admits(c, l, later, cost) <==> later >= now + Answer(c, l, now, cost).retryAfterMs
  {
    FractionStep(l, now, later);
    WindowDistance(now, later, l.windowMs);
    Decayed(c, l, Fraction(l, now), Fraction(l, later), cost, later - now);
  }

  /**
   * With nothing in the previous window the advice is the start of the next
   * one.  That is always too early: there the current window has become the
   * previous one and weighs just as much.
   */
  lemma WaitIsTooShortWithoutHistory(c: CounterState, l: Limits, now: int, cost: real)
    requires Valid(l) && c.windowIndex == now / l.windowMs && c.previousCount == 0.0 && !Admits(c, l, now, cost)
    ensures var later := now + Answer(c, l, now, cost).retryAfterMs;
            !Admits(Rolled(Some(c), l, later), l, later, cost)
  {
    RestOfWindow(l, now);
    NextWindowStarts(l, now);
    assert Answer(c, l, now, cost).retryAfterMs == l.windowMs - now % l.windowMs;
    assert Weighted(c, Fraction(l, now)) == c.currentCount;
  }

  lemma RestOfWindow(l: Limits, now: int)
    requires l.windowMs > 0
    ensures Ceil(l.windowMs as real * (1.0 - Fraction(l, now))) == l.windowMs - now % l.windowMs
  {
    assert Fraction(l, now) * l.windowMs as real == (now % l.windowMs) as real;
    assert l.windowMs as real * (1.0 - Fraction(l, now)) == (l.windowMs - now % l.windowMs) as real;
  }

  lemma NextWindowStarts(l: Limits, now: int)
    requires l.windowMs > 0
    ensures var later := now + (l.windowMs - now % l.windowMs);
            later / l.windowMs == now / l.windowMs + 1 && later % l.windowMs == 0 && Fraction(l, later) == 0.0
  {
    var w := l.windowMs;
    var q := now / w;
    assert now == w * q + now % w;
    assert w * (q + 1) == w * q + w;
    QuotientIs(q + 1, w, 0);
    RemainderIs(q + 1, w, 0);
    StartHasNoFraction(l, w * (q + 1));
  }

  lemma StartHasNoFraction(l: Limits, start: int)
    requires l.windowMs > 0 && start % l.windowMs == 0
    ensures Fraction(l, start) == 0.0
  {
  }

  lemma AtMostOneWindowOn(now: int, later: int, w: int)
    requires w > 0 && now <= later <= now + w
    ensures later / w == now / w || later / w == now / w + 1
  {
    assert now + w == w * (now / w + 1) + now % w;
    QuotientIs(now / w + 1, w, now % w);
    IndexGrows(now, later, w);
    IndexGrows(later, now + w, w);
  }

  /** In the next window the current count has become the previous one. */
  lemma AdmitsInNextWindow(c: CounterState, l: Limits, later: int, cost: real)
    requires Valid(l) && later / l.windowMs == c.windowIndex + 1
    ensures Admits(Rolled(Some(c), l, later), l, later, cost) <==>
              c.currentCount * Fraction(l, later) >= c.currentCount + cost - l.limit
  {
    var g := Fraction(l, later);
    assert c.currentCount * (1.0 - g) == c.currentCount - c.currentCount * g;
  }

  /** The moment at which a rejected caller is told to come back. */
  ghost function Advised(c: CounterState, l: Limits, now: int, cost: real): int
    requires l.windowMs > 0
  {
    now + Answer(c, l, now, cost).retryAfterMs
  }

  /**
   * When the advice is right: a request rejected now is admitted at the moment
   * it was told, if nothing else happens, exactly when the previous window
   * counts for something, and either the current count leaves room for the
   * cost by itself, or enough of it will have decayed in the next window.
   * Before that moment the current window never admits it.
   */
  lemma AdviceIsRightExactly(c: CounterState, l: Limits, now: int, cost: real)
    requires Valid(l) && c.windowIndex == now / l.windowMs && c.previousCount >= 0.0 && c.currentCount >= 0.0
    requires !Admits(c, l, now, cost)
    ensures var later := Advised(c, l, now, cost);
            Admits(Rolled(Some(c), l, later), l, later, cost) <==>
              (c.previousCount > 0.0
               && (c.currentCount + cost <= l.limit
                   || c.currentCount * Fraction(l, later) >= c.currentCount + cost - l.limit))
    ensures forall t {:trigger Admits(c, l, t, cost)} ::
              now <= t < Advised(c, l, now, cost) && t / l.windowMs == now / l.windowMs ==> !Admits(c, l, t, cost)
  {
    var later := Advised(c, l, now, cost);
    if c.previousCount == 0.0 {
      WaitIsTooShortWithoutHistory(c, l, now, cost);
    } else {
      AtMostOneWindowOn(now, later, l.windowMs);
      if later / l.windowMs == now / l.windowMs {
        WaitIsExactWithinWindow(c, l, now, later, cost);
        WeightCovers(c, Fraction(l, later));
      } else {
        AdmitsInNextWindow(c, l, later, cost);
        NotNegative(c.currentCount, Fraction(l, later));
      }
      forall t | now <= t < later && t / l.windowMs == now / l.windowMs ensures !Admits(c, l, t, cost) {
        WaitIsExactWithinWindow(c, l, now, t, cost);
      }
    }
  }

  lemma HitAdds(s: CounterState, l: Limits, now: int, cost: real, f: real)
    requires l.windowMs > 0 && f == Fraction(l, now)
    requires Weighted(Roll(s, now / l.windowMs), f) + cost <= l.limit
    ensures Hit(Some(s), l, now, cost) == var c := Roll(s, now / l.windowMs); c.(currentCount := c.currentCount + cost)
  {
  }

  lemma FirstHitCounts(l: Limits, now: int, cost: real)
    requires l.windowMs > 0 && cost <= l.limit
    ensures Hit(None, l, now, cost) == CounterState(now / l.windowMs, cost, 0.0)
  {
  }

  lemma RejectionAdvises(c: CounterState, l: Limits, now: int, cost: real, f: real)
    requires l.windowMs > 0 && f == Fraction(l, now) && Weighted(c, f) + cost > l.limit
    ensures !Admits(c, l, now, cost) && Advised(c, l, now, cost) == now + RetryAfter(c, l, f, Weighted(c, f) + cost - l.limit)
  {
  }

  /** The times 0, 1500 and 2100 in windows of a second. */
  lemma ThreeTimes(l: Limits)
    requires l.windowMs == 1000
    ensures 0 / l.windowMs == 0 && 1500 / l.windowMs == 1 && 2100 / l.windowMs == 2
    ensures Fraction(l, 1500) == 0.5 && Fraction(l, 2100) == 0.1
  {
  }

  lemma TenAtStart(l: Limits)
    requires l == Limits(10.0, 1000)
    ensures Hit(None, l, 0, 10.0) == CounterState(0, 10.0, 0.0)
  {
    ThreeTimes(l);
    FirstHitCounts(l, 0, 10.0);
  }

  lemma FiveMore(l: Limits)
    requires l == Limits(10.0, 1000)
    ensures Hit(Some(CounterState(0, 10.0, 0.0)), l, 1500, 5.0) == CounterState(1, 5.0, 10.0)
  {
    ThreeTimes(l);
    assert Roll(CounterState(0, 10.0, 0.0), 1) == CounterState(1, 0.0, 10.0);
    HitAdds(CounterState(0, 10.0, 0.0), l, 1500, 5.0, 0.5);
  }

  /** A request of six is told to wait 600 ms... */
  lemma SixIsToldToWait(c: CounterState, l: Limits)
    requires l == Limits(10.0, 1000) && c == CounterState(1, 5.0, 10.0)
    ensures !Admits(c, l, 1500, 6.0) && Advised(c, l, 1500, 6.0) == 2100
  {
    ThreeTimes(l);
    assert RetryAfter(c, l, 0.5, 6.0) == 600 && Weighted(c, 0.5) == 10.0;
    RejectionAdvises(c, l, 1500, 6.0, 0.5);
  }

  /** ...and is rejected again then. */
  lemma SixIsRejectedAgain(c: CounterState, l: Limits)
    requires l == Limits(10.0, 1000) && c == CounterState(1, 5.0, 10.0)
    ensures !Admits(Rolled(Some(c), l, 2100), l, 2100, 6.0)
  {
    ThreeTimes(l);
    RejectionAdvises(Roll(c, 2), l, 2100, 6.0, 0.1);
  }

  /** The advice fails in a run with a limit of ten a second: ten at 0, five at 1500, six at 1500, six again at 2100. */
  lemma AdviceIsTooEarlyWithHistory(l: Limits)
    requires l == Limits(10.0, 1000)
    ensures var c := Hit(Some(Hit(None, l, 0, 10.0)), l, 1500, 5.0);
            && c.previousCount == 10.0 && !Admits(c, l, 1500, 6.0)
            && !Admits(Rolled(Some(c), l, Advised(c, l, 1500, 6.0)), l, Advised(c, l, 1500, 6.0), 6.0)
  {
    var c := CounterState(1, 5.0, 10.0);
    TenAtStart(l);
    FiveMore(l);
    SixIsToldToWait(c, l);
    SixIsRejectedAgain(c, l);
  }

  // ---------- The class ----------

  ghost function StateOf(states: map<Key, CounterState>, key: Key): Option<CounterState> {
    if key in states then Some(states[key]) else None
  }

  class SlidingWindowCounter {
    const limits: Limits
    var states: map<Key, CounterState>

    constructor (limit: real, windowMs: int)
      requires limit > 0.0 && windowMs > 0
      ensures limits == Limits(limit, windowMs) && states == map[]
    {
      limits := Limits(limit, windowMs);
      states := map[];
    }

    method HitKey(key: Key, now: int, cost: real := 1.0) returns (d: Decision)
      requires Valid(limits)
      modifies this
      ensures d == Answer(Rolled(StateOf(old(states), key), limits, now), limits, now, cost)
      ensures StateOf(states, key) == After(StateOf(old(states), key), limits, Request(cost, now))
      ensures forall k :: k != key ==> StateOf(states, k) == StateOf(old(states), k)
    {
      var state := Rolled(if key in states then Some(states[key]) else None, limits, now);
      d := Answer(state, limits, now, cost);
      if d.allowed { state := state.(currentCount := state.currentCount + cost); }
      states := states[key := state];
    }

    method Reset(key: Key)
      modifies this
      ensures states == old(states) - {key}
    {
      states := states - {key};
    }

    method PruneStale(now: int) returns (removed: nat)
      requires Valid(limits)
      modifies this
      ensures removed == |old(states)| - |states|
      ensures forall k {:trigger StateOf(states, k)} :: StateOf(states, k) == After(StateOf(old(states), k), limits, Prune(now))
    {
      ghost var all := states;
      var todo := states.Keys;
      removed := 0;
      while todo != {}
        invariant todo <= states.Keys && removed == |all| - |states|
        invariant forall k {:trigger StateOf(states, k)} ::
          StateOf(states, k) == if k in todo then StateOf(all, k) else After(StateOf(all, k), limits, Prune(now))
        decreases |todo|
      {
        ghost var before := states;
        var key :| key in todo;
        assert StateOf(before, key) == StateOf(all, key);
        todo := todo - {key};
        if now / limits.windowMs - states[key].windowIndex > 1 {
          states := states - {key};
          assert states.Keys == before.Keys - {key};
          removed := removed + 1;
        }
        forall k
          ensures StateOf(states, k) == if k in todo then StateOf(all, k) else After(StateOf(all, k), limits, Prune(now))
        {
          assert k != key ==> StateOf(states, k) == StateOf(before, k);
        }
      }
    }
  }
}
