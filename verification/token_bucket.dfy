/** packages/algorithms/src/token-bucket.ts: the token bucket and the single-process limiter. */
module TokenBuckets {
  import opened Basics

  type Key(==, !new)

  datatype Bucket = Bucket(tokens: real, updatedAt: int)

  datatype Options = Options(capacity: real, refillPerSecond: real)

  /** retryAfterMs is None where the original says Infinity. */
  datatype Decision = Decision(allowed: bool, remaining: int, retryAfterMs: Option<int>, resetAt: real)

  function MinReal(x: real, y: real): real {
    if x <= y then x else y
  }

  /** Tokens gained in so many milliseconds. */
  function Gain(o: Options, ms: int): real {
    (ms as real / 1000.0) * o.refillPerSecond
  }

  function Refill(b: Bucket, o: Options, now: int): Bucket {
    var elapsed := if now - b.updatedAt > 0 then now - b.updatedAt else 0;
    if elapsed == 0 then b else Bucket(MinReal(o.capacity, b.tokens + Gain(o, elapsed)), now)
  }

  function Consume(b: Bucket, o: Options, now: int, cost: real): (Bucket, Decision) {
    var refilled := Refill(b, o, now);
    var deficitToFull := o.capacity - refilled.tokens;
    var msToFull := if o.refillPerSecond > 0.0 then (deficitToFull / o.refillPerSecond) * 1000.0 else 0.0;
    if refilled.tokens >= cost then
      var next := Bucket(refilled.tokens - cost, now);
      (next, Decision(true, next.tokens.Floor, Some(0), now as real + msToFull))
    else
      var missing := cost - refilled.tokens;
      var retryAfterMs := if o.refillPerSecond > 0.0 then Some(Ceil((missing / o.refillPerSecond) * 1000.0)) else None;
      (refilled, Decision(false, refilled.tokens.Floor, retryAfterMs, now as real + msToFull))
  }

  // ---------- One bucket ----------

  /** What the limiter's constructor insists on. */
  ghost predicate Valid(o: Options) {
    o.capacity > 0.0 && o.refillPerSecond > 0.0
  }

  ghost predicate Within(b: Bucket, o: Options, now: int) {
    0.0 <= b.tokens <= o.capacity && b.updatedAt <= now
  }

  lemma GainAdds(o: Options, a: int, b: int)
    ensures Gain(o, a + b) == Gain(o, a) + Gain(o, b)
  {
  }

  lemma GainGrows(o: Options, ms: int)
    requires Valid(o) && ms >= 0
    ensures Gain(o, ms) >= 0.0
  {
  }

  /** Refilling in two steps is refilling in one. */
  lemma RefillTwice(b: Bucket, o: Options, now: int, later: int)
    requires Valid(o) && Within(b, o, now) && now <= later
    ensures Refill(Refill(b, o, now), o, later) == Refill(b, o, later)
    ensures Within(Refill(b, o, now), o, now) && Refill(b, o, now).updatedAt == now
  {
    GainAdds(o, now - b.updatedAt, later - now);
    GainGrows(o, now - b.updatedAt);
    GainGrows(o, later - now);
  }

  /** The tokens always stay between zero and the capacity. */
  lemma TokensStayWithin(b: Bucket, o: Options, now: int, cost: real)
    requires Valid(o) && Within(b, o, now) && cost >= 0.0
    ensures Within(Consume(b, o, now, cost).0, o, now)
  {
    RefillTwice(b, o, now, now);
  }

  /** Scaling a gain to milliseconds and back. */
  lemma WaitCovers(o: Options, missing: real, ms: int)
    requires Valid(o)
    ensures Gain(o, ms) >= missing <==> ms >= Ceil((missing / o.refillPerSecond) * 1000.0)
  {
    var rate := o.refillPerSecond;
    var needed := (missing / rate) * 1000.0;
    assert needed * rate == missing * 1000.0;
    assert Gain(o, ms) * 1000.0 == ms as real * rate;
    Scale(ms as real, needed, rate);
    assert Gain(o, ms) >= missing <==> ms as real >= needed;
    CeilIs(needed, ms);
  }

  lemma Scale(x: real, y: real, rate: real)
    requires rate > 0.0
    ensures x * rate >= y * rate <==> x >= y
  {
    if x < y {
      assert (y - x) * rate > 0.0;
    } else {
      assert (x - y) * rate >= 0.0;
    }
  }

  /**
   * The advice given with a denial is exact: if nothing else happens, a
   * request of the same cost is admitted from that moment on and not before,
   * unless it costs more than the bucket can hold, and then it never is.
   */
  lemma RetryAfterIsExact(b: Bucket, o: Options, now: int, cost: real, later: int)
    requires Valid(o) && Within(b, o, now) && now <= later && !Consume(b, o, now, cost).1.allowed
    ensures var (rest, decision) := Consume(b, o, now, cost);
            && decision.retryAfterMs.Some?
            && (Consume(rest, o, later, cost).1.allowed <==> cost <= o.capacity && later >= now + decision.retryAfterMs.value)
  {
    RefillTwice(b, o, now, later);
    var r := Refill(b, o, now);
    WaitCovers(o, cost - r.tokens, later - now);
    WaitCovers(o, cost - r.tokens, 0);
  }

  /** What remains is exact: the largest whole cost that a further request at the same time could have. */
  lemma RemainingIsExact(b: Bucket, o: Options, now: int, cost: real, n: int)
    ensures var (rest, decision) := Consume(b, o, now, cost);
            Consume(rest, o, now, n as real).1.allowed <==> n <= decision.remaining
  {
  }

  /** The reset time is exact for a bucket left alone: the request that is told the time does not count. */
  lemma ResetIsExactWithoutTheRequest(b: Bucket, o: Options, now: int, cost: real, later: int)
    requires Valid(o) && Within(b, o, now) && now <= later
    ensures Refill(b, o, later).tokens == o.capacity <==> later as real >= Consume(b, o, now, cost).1.resetAt
  {
    RefillTwice(b, o, now, later);
    var r := Refill(b, o, now);
    var needed := ((o.capacity - r.tokens) / o.refillPerSecond) * 1000.0;
    WaitCovers(o, o.capacity - r.tokens, later - now);
    CeilIs(needed, later - now);
    WaitCovers(o, o.capacity - r.tokens, 0);
    CeilIs(needed, 0);
  }

  /** After a request was admitted the bucket is full later than told, by as long as its cost takes to come back. */
  lemma ResetIsTooEarly(b: Bucket, o: Options, now: int, cost: real, later: int)
    requires Valid(o) && Within(b, o, now) && now <= later && cost >= 0.0 && Consume(b, o, now, cost).1.allowed
    ensures var (rest, decision) := Consume(b, o, now, cost);
            Refill(rest, o, later).tokens == o.capacity <==> later as real >= decision.resetAt + (cost / o.refillPerSecond) * 1000.0
  {
    RefillTwice(b, o, now, now);
    var r := Refill(b, o, now);
    ResetIsExactWithoutTheRequest(r.(tokens := r.tokens - cost), o, now, 0.0, later);
    SumOfQuotients(o.capacity - r.tokens, cost, o.refillPerSecond);
  }

  lemma SumOfQuotients(x: real, y: real, rate: real)
    requires rate > 0.0
    ensures (x + y) / rate == x / rate + y / rate
  {
  }

  // ---------- Many keys ----------

  type Buckets = map<Key, Bucket>

  /** The bucket of a key; a key without one has a full bucket. */
  function BucketFor(m: Buckets, o: Options, key: Key, now: int): Bucket {
    if key in m then m[key] else Bucket(o.capacity, now)
  }

  /** It has been idle for longer than it takes to fill up. */
  predicate Idle(b: Bucket, o: Options, now: int)
    requires o.refillPerSecond != 0.0
  {
    (now - b.updatedAt) as real > (o.capacity / o.refillPerSecond) * 1000.0
  }

  /** It is pruned exactly when even an empty bucket would be more than full by now. */
  lemma IdleExactly(b: Bucket, o: Options, now: int)
    requires Valid(o)
    ensures Idle(b, o, now) <==> Gain(o, now - b.updatedAt) > o.capacity
  {
    var ms, rate := (now - b.updatedAt) as real, o.refillPerSecond;
    var needed := (o.capacity / rate) * 1000.0;
    assert needed * rate == o.capacity * 1000.0;
    Scale(needed, ms, rate);
    assert Gain(o, now - b.updatedAt) * 1000.0 == ms * rate;
  }

  ghost function Pruned(m: Buckets, o: Options, now: int): Buckets
    requires Valid(o)
  {
    map key | key in m && !Idle(m[key], o, now) :: m[key]
  }

  ghost predicate KeyWithin(m: Buckets, o: Options, now: int, key: Key) {
    key in m ==> Within(m[key], o, now)
  }

  ghost predicate AllWithin(m: Buckets, o: Options, now: int) {
    forall key {:trigger KeyWithin(m, o, now, key)} :: KeyWithin(m, o, now, key)
  }

  datatype Event = Try(key: Key, cost: real, at: int) | Prune(at: int)

  ghost function After(m: Buckets, o: Options, e: Event): Buckets
    requires Valid(o)
  {
    match e
    case Try(key, cost, at) => m[key := Consume(BucketFor(m, o, key, at), o, at, cost).0]
    case Prune(at) => Pruned(m, o, at)
  }

  /** A run from time now on: time does not go back and costs are not negative. */
  ghost predicate Run(events: seq<Event>, now: int) {
    events != [] ==> now <= events[0].at && (events[0].Try? ==> events[0].cost >= 0.0) && Run(events[1..], events[0].at)
  }

  lemma AfterWithin(m: Buckets, o: Options, now: int, e: Event)
    requires Valid(o) && AllWithin(m, o, now) && now <= e.at && (e.Try? ==> e.cost >= 0.0)
    ensures AllWithin(After(m, o, e), o, e.at)
  {
    forall key
      ensures KeyWithin(After(m, o, e), o, e.at, key)
    {
      assert KeyWithin(m, o, now, key);
      if e.Try? && key == e.key { TokensStayWithin(BucketFor(m, o, key, e.at), o, e.at, e.cost); }
    }
  }

  // ---------- The bound on what is admitted ----------

  ghost function AdmittedBy(m: Buckets, o: Options, e: Event, key: Key): real {
    if e.Try? && e.key == key && Consume(BucketFor(m, o, key, e.at), o, e.at, e.cost).1.allowed then e.cost else 0.0
  }

  /** The cost admitted for a key over a run. */
  ghost function Admitted(m: Buckets, o: Options, events: seq<Event>, key: Key): real
    requires Valid(o)
    decreases |events|
  {
    if events == [] then 0.0
    else AdmittedBy(m, o, events[0], key) + Admitted(After(m, o, events[0]), o, events[1..], key)
  }

  /** What the key could spend at this moment. */
  ghost function Available(m: Buckets, o: Options, key: Key, now: int): real {
    Refill(BucketFor(m, o, key, now), o, now).tokens
  }

  lemma FullWhenIdle(b: Bucket, o: Options, now: int)
    requires Valid(o) && Within(b, o, now) && Idle(b, o, now)
    ensures Refill(b, o, now) == Bucket(o.capacity, now)
  {
    var ms, rate := (now - b.updatedAt) as real, o.refillPerSecond;
    var needed := (o.capacity / rate) * 1000.0;
    assert needed * rate == o.capacity * 1000.0;
    Scale(needed, ms, rate);
    Scale(ms, needed, rate);
    assert Gain(o, now - b.updatedAt) * 1000.0 == ms * rate;
    assert needed > 0.0;
  }

  /** Time adds at most the refill; an admitted request takes its cost; pruning takes and adds nothing. */
  lemma AvailableAfter(m: Buckets, o: Options, now: int, e: Event, key: Key)
    requires Valid(o) && AllWithin(m, o, now) && now <= e.at && (e.Try? ==> e.cost >= 0.0)
    ensures Available(m, o, key, e.at) <= Available(m, o, key, now) + Gain(o, e.at - now)
    ensures Available(After(m, o, e), o, key, e.at) == Available(m, o, key, e.at) - AdmittedBy(m, o, e, key)
    ensures Available(m, o, key, now) <= o.capacity
  {
    assert KeyWithin(m, o, now, key);
    var b := BucketFor(m, o, key, now);
    GainGrows(o, e.at - now);
    if key in m {
      RefillTwice(b, o, now, e.at);
      RefillTwice(b, o, e.at, e.at);
      if e.Prune? && Idle(b, o, e.at) { FullWhenIdle(b, o, e.at); }
    }
  }

  lemma {:induction false} AdmittedIsCovered(m: Buckets, o: Options, events: seq<Event>, key: Key, now: int, end: int)
    requires Valid(o) && AllWithin(m, o, now) && Run(events, now)
    requires now <= end && (events != [] ==> events[|events| - 1].at <= end)
    ensures Admitted(m, o, events, key) <= Available(m, o, key, now) + Gain(o, end - now)
    decreases |events|
  {
    if events == [] {
      assert KeyWithin(m, o, now, key);
      RefillNotNegative(m, o, key, now);
      GainGrows(o, end - now);
    } else {
      var e, rest := events[0], events[1..];
      LastIsLatest(events, now);
      AfterWithin(m, o, now, e);
      assert rest != [] ==> rest[|rest| - 1] == events[|events| - 1];
      AdmittedIsCovered(After(m, o, e), o, rest, key, e.at, end);
      AvailableAfter(m, o, now, e, key);
      GainAdds(o, e.at - now, end - e.at);
    }
  }

  lemma RefillNotNegative(m: Buckets, o: Options, key: Key, now: int)
    requires Valid(o) && KeyWithin(m, o, now, key)
    ensures Available(m, o, key, now) >= 0.0
  {
    if key in m { RefillTwice(m[key], o, now, now); }
  }

  lemma {:induction false} LastIsLatest(events: seq<Event>, now: int)
    requires events != [] && Run(events, now)
    ensures events[0].at <= events[|events| - 1].at
  {
    if |events| > 1 { LastIsLatest(events[1..], events[0].at); }
  }

  /**
   * Over any stretch of any run, from time start to time end, what is admitted
   * for a key costs at most the capacity plus the refill for that time.
   */
  lemma RateIsBounded(m: Buckets, o: Options, events: seq<Event>, key: Key, start: int, end: int)
    requires Valid(o) && AllWithin(m, o, start) && Run(events, start)
    requires start <= end && (events != [] ==> events[|events| - 1].at <= end)
    ensures Admitted(m, o, events, key) <= o.capacity + Gain(o, end - start)
  {
    AdmittedIsCovered(m, o, events, key, start, end);
    AvailableAfter(m, o, start, Prune(start), key);
  }

  // ---------- Pruning cannot be observed ----------

  ghost function Decisions(m: Buckets, o: Options, events: seq<Event>): seq<Decision>
    requires Valid(o)
    decreases |events|
  {
    if events == [] then []
    else
      var e := events[0];
      (if e.Try? then [Consume(BucketFor(m, o, e.key, e.at), o, e.at, e.cost).1] else [])
      + Decisions(After(m, o, e), o, events[1..])
  }

  ghost function WithoutPrunes(events: seq<Event>): seq<Event> {
    if events == [] then []
    else (if events[0].Prune? then [] else [events[0]]) + WithoutPrunes(events[1..])
  }

  /** The key has the same bucket in both once refilled. */
  ghost predicate SameBucket(a: Buckets, b: Buckets, o: Options, now: int, key: Key) {
    Refill(BucketFor(a, o, key, now), o, now) == Refill(BucketFor(b, o, key, now), o, now)
  }

  ghost predicate Alike(a: Buckets, b: Buckets, o: Options, now: int) {
    forall key {:trigger SameBucket(a, b, o, now, key)} :: SameBucket(a, b, o, now, key)
  }

  lemma StaysSame(a: Buckets, b: Buckets, o: Options, now: int, later: int, key: Key)
    requires Valid(o) && AllWithin(a, o, now) && AllWithin(b, o, now) && now <= later && SameBucket(a, b, o, now, key)
    ensures SameBucket(a, b, o, later, key)
  {
    assert KeyWithin(a, o, now, key) && KeyWithin(b, o, now, key);
    GainGrows(o, later - now);
    RefillTwice(BucketFor(a, o, key, now), o, now, later);
    RefillTwice(BucketFor(b, o, key, now), o, now, later);
  }

  /** The decision and the bucket afterwards depend on the refilled bucket only. */
  lemma SameConsumption(b: Bucket, c: Bucket, o: Options, now: int, cost: real)
    requires Valid(o) && Within(b, o, now) && Within(c, o, now) && Refill(b, o, now) == Refill(c, o, now)
    ensures Consume(b, o, now, cost) == Consume(c, o, now, cost)
  {
  }

  lemma TryKeepsAlike(a: Buckets, b: Buckets, o: Options, now: int, e: Event)
    requires Valid(o) && AllWithin(a, o, now) && AllWithin(b, o, now) && Alike(a, b, o, now)
    requires e.Try? && now <= e.at && e.cost >= 0.0
    ensures Consume(BucketFor(a, o, e.key, e.at), o, e.at, e.cost) == Consume(BucketFor(b, o, e.key, e.at), o, e.at, e.cost)
    ensures Alike(After(a, o, e), After(b, o, e), o, e.at)
  {
    assert KeyWithin(a, o, now, e.key) && KeyWithin(b, o, now, e.key) && SameBucket(a, b, o, now, e.key);
    StaysSame(a, b, o, now, e.at, e.key);
    SameConsumption(BucketFor(a, o, e.key, e.at), BucketFor(b, o, e.key, e.at), o, e.at, e.cost);
    forall key
      ensures SameBucket(After(a, o, e), After(b, o, e), o, e.at, key)
    {
      assert SameBucket(a, b, o, now, key);
      StaysSame(a, b, o, now, e.at, key);
    }
  }

  lemma PruneKeepsAlike(a: Buckets, b: Buckets, o: Options, now: int, at: int)
    requires Valid(o) && AllWithin(a, o, now) && AllWithin(b, o, now) && Alike(a, b, o, now) && now <= at
    ensures Alike(Pruned(a, o, at), b, o, at)
  {
    forall key
      ensures SameBucket(Pruned(a, o, at), b, o, at, key)
    {
      assert SameBucket(a, b, o, now, key) && KeyWithin(a, o, now, key);
      StaysSame(a, b, o, now, at, key);
      if key in a && Idle(a[key], o, at) { FullWhenIdle(a[key], o, at); }
    }
  }

  lemma LaterWithin(m: Buckets, o: Options, now: int, later: int)
    requires AllWithin(m, o, now) && now <= later
    ensures AllWithin(m, o, later)
  {
    forall key ensures KeyWithin(m, o, later, key) { assert KeyWithin(m, o, now, key); }
  }

  lemma {:induction false} PruningIsUnobservable(a: Buckets, b: Buckets, o: Options, events: seq<Event>, now: int)
    requires Valid(o) && AllWithin(a, o, now) && AllWithin(b, o, now) && Alike(a, b, o, now) && Run(events, now)
    ensures Decisions(a, o, events) == Decisions(b, o, WithoutPrunes(events))
    decreases |events|
  {
    if events != [] {
      var e := events[0];
      AfterWithin(a, o, now, e);
      if e.Try? {
        TryKeepsAlike(a, b, o, now, e);
        AfterWithin(b, o, now, e);
        PruningIsUnobservable(After(a, o, e), After(b, o, e), o, events[1..], e.at);
        assert WithoutPrunes(events)[1..] == WithoutPrunes(events[1..]);
      } else {
        PruneKeepsAlike(a, b, o, now, e.at);
        LaterWithin(b, o, now, e.at);
        PruningIsUnobservable(After(a, o, e), b, o, events[1..], e.at);
        assert [] + WithoutPrunes(events[1..]) == WithoutPrunes(events[1..]);
      }
    }
  }

  /** Whenever prune is called during a run, every decision is the same as without it. */
  lemma PruneChangesNoDecision(m: Buckets, o: Options, events: seq<Event>, now: int)
    requires Valid(o) && AllWithin(m, o, now) && Run(events, now)
    ensures Decisions(m, o, events) == Decisions(m, o, WithoutPrunes(events))
  {
    forall key ensures SameBucket(m, m, o, now, key) {}
    PruningIsUnobservable(m, m, o, events, now);
  }

  // ---------- The class ----------

  class TokenBucketLimiter {
    const options: Options
    var buckets: Buckets

    constructor (options: Options)
      requires Valid(options)
      ensures this.options == options && buckets == map[]
    {
      this.options := options;
      buckets := map[];
    }

    method TryConsume(key: Key, now: int, cost: real := 1.0) returns (decision: Decision)
      requires Valid(options)
      modifies this
      ensures buckets == After(old(buckets), options, Try(key, cost, now))
      ensures decision == Consume(BucketFor(old(buckets), options, key, now), options, now, cost).1
    {
      var current := BucketFor(buckets, options, key, now);
      var (state, d) := Consume(current, options, now, cost);
      buckets := buckets[key := state];
      decision := d;
    }

    /** The dearest request in whole tokens that would be admitted now. */
    method Peek(key: Key, now: int) returns (tokens: int)
      ensures forall cost: int {:trigger cost as real} ::
                cost <= tokens <==> Consume(BucketFor(buckets, options, key, now), options, now, cost as real).1.allowed
    {
      tokens := Refill(BucketFor(buckets, options, key, now), options, now).tokens.Floor;
    }

    method Reset(key: Key)
      modifies this
      ensures buckets == old(buckets) - {key}
    {
      buckets := buckets - {key};
    }

    method PruneIdle(now: int) returns (removed: nat)
      requires Valid(options)
      modifies this
      ensures buckets == After(old(buckets), options, Prune(now)) && removed == |old(buckets)| - |buckets|
    {
      ghost var all := buckets;
      var todo := buckets.Keys;
      removed := 0;
      while todo != {}
        invariant todo <= buckets.Keys <= all.Keys && removed == |all| - |buckets|
        invariant forall key {:trigger Swept(all, buckets, options, now, todo, key)} :: key in all ==> Swept(all, buckets, options, now, todo, key)
        decreases |todo|
      {
        ghost var before, todoBefore := buckets, todo;
        var key :| key in todo;
        todo := todo - {key};
        assert Swept(all, before, options, now, todoBefore, key);
        if Idle(buckets[key], options, now) {
          buckets := buckets - {key};
          assert buckets.Keys == before.Keys - {key};
          removed := removed + 1;
        }
        forall k | k in all
          ensures Swept(all, buckets, options, now, todo, k)
        {
          assert Swept(all, before, options, now, todoBefore, k);
        }
      }
      forall k | k in all
        ensures k in buckets <==> !Idle(all[k], options, now)
      {
        assert Swept(all, buckets, options, now, todo, k);
      }
      assert buckets == Pruned(all, options, now) by {
        forall k | k in buckets ensures k in all && buckets[k] == all[k] { assert Swept(all, buckets, options, now, todo, k); }
      }
    }
  }

  /** During the sweep: a key still to visit is untouched, and one already visited is gone if it was idle. */
  ghost predicate Swept(all: Buckets, m: Buckets, o: Options, now: int, todo: set<Key>, key: Key)
    requires Valid(o) && key in all
  {
    && (key in m ==> m[key] == all[key])
    && (key in todo ==> key in m)
    && (key !in todo ==> (key in m <==> !Idle(all[key], o, now)))
  }
}
