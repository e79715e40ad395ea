/**
 * packages/runtime/src/resilience/rate-limiter.ts: the token bucket a second
 * time, as a script run inside Redis on a hash that expires.
 */
module RedisBuckets {
  import opened Basics
  import opened TokenBuckets

  datatype Policy = Policy(limit: real, windowSeconds: real, burst: Option<real>)

  ghost predicate ValidPolicy(p: Policy) {
    p.limit > 0.0 && p.windowSeconds > 0.0 && (p.burst.Some? ==> p.burst.value > 0.0)
  }

  function OptionsOf(p: Policy): Options
    requires p.windowSeconds != 0.0
  {
    Options(if p.burst.Some? then p.burst.value else p.limit, p.limit / p.windowSeconds)
  }

  /** Seconds a bucket is kept after its last use. */
  function Ttl(p: Policy): int {
    Ceil(p.windowSeconds * 2.0)
  }

  lemma PolicyIsValid(p: Policy)
    requires ValidPolicy(p)
    ensures Valid(OptionsOf(p)) && Ttl(p) as real >= p.windowSeconds * 2.0 && Ttl(p) > 0
  {
    CeilIs(p.windowSeconds * 2.0, Ttl(p));
  }

  /** The hash Redis keeps under a key, and the time in milliseconds at which it disappears. */
  class RedisHash {
    var fields: Option<Bucket>
    var expiresAt: int

    constructor ()
      ensures fields == None
    {
      fields, expiresAt := None, 0;
    }

    method Read(now: int) returns (b: Option<Bucket>)
      ensures b == if fields.Some? && now < expiresAt then fields else None
    {
      b := if fields.Some? && now < expiresAt then fields else None;
    }

    /** The script: the reply is allowed, thousandths of a token left, milliseconds to wait, and when the bucket is full. */
    method RunScript(o: Options, now: int, cost: real, ttl: int) returns (allowed: int, milliTokens: int, retryAfter: int, resetAt: int)
      requires Valid(o)
      requires fields.Some? ==> Within(fields.value, o, now)
      modifies this
      ensures var b := if old(fields).Some? && now < old(expiresAt) then old(fields).value else Bucket(o.capacity, now);
              && fields.Some? && expiresAt == now + ttl * 1000
              && Replied(b, o, now, cost, fields.value, allowed, milliTokens, retryAfter, resetAt)
    {
      var bucket := Read(now);
      var tokens, updated := o.capacity, now;
      if bucket.Some? { tokens, updated := bucket.value.tokens, bucket.value.updatedAt; }
      tokens := LazyRefill(tokens, updated, o, now);
      allowed, retryAfter := 0, 0;
      if tokens >= cost {
        allowed := 1;
        tokens := tokens - cost;
      } else {
        var missing := cost - tokens;
        retryAfter := Ceil((missing / o.refillPerSecond) * 1000.0);
      }
      fields, expiresAt := Some(Bucket(tokens, now)), now + ttl * 1000;
      var toFull := ((o.capacity - tokens) / o.refillPerSecond) * 1000.0;
      milliTokens, resetAt := (tokens * 1000.0).Floor, (now as real + toFull).Floor;
    }

    method LazyRefill(before: real, updated: int, o: Options, now: int) returns (tokens: real)
      requires Valid(o) && Within(Bucket(before, updated), o, now)
      ensures tokens == Refill(Bucket(before, updated), o, now).tokens
    {
      var elapsed := (if now - updated > 0 then now - updated else 0) as real / 1000.0;
      tokens := MinReal(o.capacity, before + elapsed * o.refillPerSecond);
      RefilledTo(Bucket(before, updated), o, now);
    }

    /** RedisRateLimiter.check for one key. */
    method Check(p: Policy, now: int, cost: real) returns (d: Decision)
      requires ValidPolicy(p)
      requires fields.Some? ==> Within(fields.value, OptionsOf(p), now)
      modifies this
      ensures var b := if old(fields).Some? && now < old(expiresAt) then old(fields).value else Bucket(OptionsOf(p).capacity, now);
              var (next, twin) := Consume(b, OptionsOf(p), now, cost);
              && fields == Some(next) && expiresAt == now + Ttl(p) * 1000
              && d.allowed == twin.allowed && d.remaining == twin.remaining && d.retryAfterMs == twin.retryAfterMs
              && d.resetAt == LaterReset(OptionsOf(p), twin, cost).Floor as real
    {
      PolicyIsValid(p);
      ghost var b := if fields.Some? && now < expiresAt then fields.value else Bucket(OptionsOf(p).capacity, now);
      var allowed, milliTokens, retryAfter, resetAt := RunScript(OptionsOf(p), now, cost, Ttl(p));
      d := Decision(allowed == 1, (milliTokens as real / 1000.0).Floor, Some(retryAfter), resetAt as real);
      ReplyIsConsumption(b, OptionsOf(p), now, cost, fields.value, allowed, milliTokens, retryAfter, resetAt);
      ThousandthsFloor(fields.value.tokens);
      ResetShifts(b, OptionsOf(p), now, cost);
    }
  }

  /** The bucket the script leaves and its reply, in terms of the tokens after the refill. */
  ghost predicate Replied(b: Bucket, o: Options, now: int, cost: real,
                          next: Bucket, allowed: int, milliTokens: int, retryAfter: int, resetAt: int)
    requires Valid(o)
  {
    var tokens := Refill(b, o, now).tokens;
    && next == Bucket(if tokens >= cost then tokens - cost else tokens, now)
    && (allowed == 1 <==> tokens >= cost)
    && milliTokens == (next.tokens * 1000.0).Floor
    && retryAfter == (if tokens >= cost then 0 else Ceil(((cost - tokens) / o.refillPerSecond) * 1000.0))
    && resetAt == (now as real + ((o.capacity - next.tokens) / o.refillPerSecond) * 1000.0).Floor
  }

  lemma ReplyIsConsumption(b: Bucket, o: Options, now: int, cost: real,
                           next: Bucket, allowed: int, milliTokens: int, retryAfter: int, resetAt: int)
    requires Valid(o) && Within(b, o, now) && Replied(b, o, now, cost, next, allowed, milliTokens, retryAfter, resetAt)
    ensures var (rest, d) := Consume(b, o, now, cost);
            rest == next && (allowed == 1 <==> d.allowed) && d.retryAfterMs == Some(retryAfter) && d.remaining == next.tokens.Floor
  {
    RefillTwice(b, o, now, now);
  }

  lemma RefilledTo(b: Bucket, o: Options, now: int)
    requires Valid(o) && Within(b, o, now)
    ensures Refill(b, o, now) == Bucket(MinReal(o.capacity, b.tokens + ((if now - b.updatedAt > 0 then now - b.updatedAt else 0) as real / 1000.0) * o.refillPerSecond), now)
  {
  }

  /** Scaling to whole thousandths on the way out of the script does not change the whole tokens. */
  lemma ThousandthsFloor(x: real)
    ensures ((x * 1000.0).Floor as real / 1000.0).Floor == x.Floor
  {
    var n := x.Floor;
    var m := (x * 1000.0).Floor;
    assert n as real * 1000.0 <= x * 1000.0 < (n as real + 1.0) * 1000.0;
    assert (n * 1000) as real == n as real * 1000.0;
    assert n * 1000 <= m < (n + 1) * 1000;
    assert n as real <= m as real / 1000.0 < n as real + 1.0;
  }

  /** The script reckons the reset from the tokens left, the other implementation from those before the request. */
  ghost function LaterReset(o: Options, d: Decision, cost: real): real
    requires o.refillPerSecond != 0.0
  {
    if d.allowed then d.resetAt + (cost / o.refillPerSecond) * 1000.0 else d.resetAt
  }

  lemma ResetShifts(b: Bucket, o: Options, now: int, cost: real)
    requires Valid(o)
    ensures var (next, d) := Consume(b, o, now, cost);
            now as real + ((o.capacity - next.tokens) / o.refillPerSecond) * 1000.0 == LaterReset(o, d, cost)
  {
    var tokens, rate := Refill(b, o, now).tokens, o.refillPerSecond;
    assert (o.capacity - (tokens - cost)) / rate == (o.capacity - tokens) / rate + cost / rate;
  }

  // ---------- Expiry ----------

  /** A bucket that has expired would have been full again. */
  ghost predicate ExpiryHidden(p: Policy)
    requires ValidPolicy(p)
  {
    forall b: Bucket, now: int {:trigger Refill(b, OptionsOf(p), now)} ::
      (0.0 <= b.tokens <= OptionsOf(p).capacity && now >= b.updatedAt + Ttl(p) * 1000)
      ==> Refill(b, OptionsOf(p), now) == Bucket(OptionsOf(p).capacity, now)
  }

  lemma GainInTtl(p: Policy, ms: int)
    requires ValidPolicy(p) && ms >= Ttl(p) * 1000
    ensures Gain(OptionsOf(p), ms) >= Ttl(p) as real * OptionsOf(p).refillPerSecond
    ensures Gain(OptionsOf(p), Ttl(p) * 1000) == Ttl(p) as real * OptionsOf(p).refillPerSecond
  {
    PolicyIsValid(p);
    var rate, ttl := OptionsOf(p).refillPerSecond, Ttl(p);
    Scale(ms as real / 1000.0, ttl as real, rate);
  }

  /** A bucket fills up within the time it is kept. */
  ghost predicate FillsUp(p: Policy)
    requires ValidPolicy(p)
  {
    OptionsOf(p).capacity <= Ttl(p) as real * OptionsOf(p).refillPerSecond
  }

  /** Expiry goes unnoticed exactly when a bucket fills up within the time it is kept. */
  lemma ExpiryIsHiddenExactly(p: Policy)
    requires ValidPolicy(p)
    ensures ExpiryHidden(p) <==> FillsUp(p)
  {
    var o, ttl := OptionsOf(p), Ttl(p);
    PolicyIsValid(p);
    GainInTtl(p, ttl * 1000);
    if o.capacity <= ttl as real * o.refillPerSecond {
      forall b: Bucket, now: int | 0.0 <= b.tokens <= o.capacity && now >= b.updatedAt + ttl * 1000
        ensures Refill(b, o, now) == Bucket(o.capacity, now)
      {
        GainInTtl(p, now - b.updatedAt);
      }
    } else {
      assert Refill(Bucket(0.0, 0), o, ttl * 1000).tokens < o.capacity;
    }
  }

  /** In two windows or more, at least twice the limit is regained. */
  lemma TwoWindowsRegain(limit: real, window: real, ttl: real, rate: real)
    requires window > 0.0 && rate > 0.0 && rate == limit / window && ttl >= window * 2.0
    ensures ttl * rate >= 2.0 * limit
  {
    assert rate * window == limit;
    assert (window * 2.0) * rate == 2.0 * (rate * window);
    Scale(ttl, window * 2.0, rate);
  }

  /** A burst of up to twice the limit is enough. */
  lemma TwiceTheLimitIsHidden(p: Policy)
    requires ValidPolicy(p) && (p.burst.Some? ==> p.burst.value <= 2.0 * p.limit)
    ensures ExpiryHidden(p)
  {
    PolicyIsValid(p);
    TwoWindowsRegain(p.limit, p.windowSeconds, Ttl(p) as real, OptionsOf(p).refillPerSecond);
    ExpiryIsHiddenExactly(p);
  }

  // ---------- Whole runs of one key ----------

  datatype Request = Request(cost: real, at: int)

  datatype Store = Store(fields: Option<Bucket>, expiresAt: int)

  /** What Check does to the store, and the part of its answer that decides. */
  ghost function Answer(s: Store, p: Policy, r: Request): (Store, (bool, int, Option<int>))
    requires p.windowSeconds != 0.0
  {
    var b := if s.fields.Some? && r.at < s.expiresAt then s.fields.value else Bucket(OptionsOf(p).capacity, r.at);
    var (next, d) := Consume(b, OptionsOf(p), r.at, r.cost);
    (Store(Some(next), r.at + Ttl(p) * 1000), (d.allowed, d.remaining, d.retryAfterMs))
  }

  ghost function Answers(s: Store, p: Policy, requests: seq<Request>): seq<(bool, int, Option<int>)>
    requires p.windowSeconds != 0.0
    decreases |requests|
  {
    if requests == [] then []
    else
      var (next, a) := Answer(s, p, requests[0]);
      [a] + Answers(next, p, requests[1..])
  }

  /** The same requests put to a bucket held in memory. */
  ghost function InMemory(b: Bucket, o: Options, requests: seq<Request>): seq<(bool, int, Option<int>)>
    decreases |requests|
  {
    if requests == [] then []
    else
      var (next, d) := Consume(b, o, requests[0].at, requests[0].cost);
      [(d.allowed, d.remaining, d.retryAfterMs)] + InMemory(next, o, requests[1..])
  }

  ghost predicate Ordered(requests: seq<Request>, now: int) {
    requests != [] ==> now <= requests[0].at && requests[0].cost >= 0.0 && Ordered(requests[1..], requests[0].at)
  }

  /** The hash is the bucket in memory, kept for the time to live after its last use. */
  ghost predicate Mirrors(s: Store, p: Policy, b: Bucket, now: int)
    requires p.windowSeconds != 0.0
  {
    && Within(b, OptionsOf(p), now)
    && (s.fields.Some? ==> s.fields.value == b && s.expiresAt == b.updatedAt + Ttl(p) * 1000)
    && (s.fields.None? ==> Refill(b, OptionsOf(p), now) == Bucket(OptionsOf(p).capacity, now))
  }

  lemma AnswersAgree(s: Store, p: Policy, b: Bucket, now: int, r: Request)
    requires ValidPolicy(p) && ExpiryHidden(p) && Mirrors(s, p, b, now) && now <= r.at && r.cost >= 0.0
    ensures var (next, a) := Answer(s, p, r);
            var (after, d) := Consume(b, OptionsOf(p), r.at, r.cost);
            a == (d.allowed, d.remaining, d.retryAfterMs) && Mirrors(next, p, after, r.at)
  {
    var o := OptionsOf(p);
    PolicyIsValid(p);
    RefillTwice(b, o, now, r.at);
    RefillTwice(b, o, r.at, r.at);
    TokensStayWithin(b, o, r.at, r.cost);
    if s.fields.None? || r.at >= s.expiresAt {
      FullStays(o, now, r.at);
      assert Refill(b, o, r.at) == Bucket(o.capacity, r.at);
      SameConsumption(b, Bucket(o.capacity, r.at), o, r.at, r.cost);
    }
  }

  lemma FullStays(o: Options, now: int, later: int)
    requires Valid(o) && now <= later
    ensures Refill(Bucket(o.capacity, now), o, later) == Bucket(o.capacity, later)
  {
    GainGrows(o, later - now);
  }

  /**
   * In every run of requests for a key the script admits exactly what the
   * in-memory bucket admits, with the same tokens left and the same waiting
   * times, however often the hash expires in between.
   */
  lemma {:induction false} ScriptIsTheBucket(s: Store, p: Policy, b: Bucket, now: int, requests: seq<Request>)
    requires ValidPolicy(p) && ExpiryHidden(p) && Mirrors(s, p, b, now) && Ordered(requests, now)
    ensures Answers(s, p, requests) == InMemory(b, OptionsOf(p), requests)
    decreases |requests|
  {
    if requests != [] {
      var r := requests[0];
      AnswersAgree(s, p, b, now, r);
      ScriptIsTheBucket(Answer(s, p, r).0, p, Consume(b, OptionsOf(p), r.at, r.cost).0, r.at, requests[1..]);
    }
  }

  /** No hash, and a full bucket in memory. */
  ghost predicate AgreesFromTheStart(p: Policy, now: int, requests: seq<Request>)
    requires p.windowSeconds != 0.0
  {
    Answers(Store(None, 0), p, requests) == InMemory(Bucket(OptionsOf(p).capacity, now), OptionsOf(p), requests)
  }

  lemma TwoAnswers(s: Store, p: Policy, first: Request, second: Request)
    requires p.windowSeconds != 0.0
    ensures Answers(s, p, [first, second]) == [Answer(s, p, first).1, Answer(Answer(s, p, first).0, p, second).1]
  {
    assert [first, second][1..] == [second];
    assert Answers(Answer(s, p, first).0, p, [second]) == [Answer(Answer(s, p, first).0, p, second).1];
  }

  lemma TwoInMemory(b: Bucket, o: Options, first: Request, second: Request)
    ensures var (next, d) := Consume(b, o, first.at, first.cost);
            var (_, e) := Consume(next, o, second.at, second.cost);
            InMemory(b, o, [first, second]) == [(d.allowed, d.remaining, d.retryAfterMs), (e.allowed, e.remaining, e.retryAfterMs)]
  {
    var next := Consume(b, o, first.at, first.cost).0;
    assert [first, second][1..] == [second];
    assert |InMemory(next, o, [second])| == 1;
  }

  lemma EmptiedInMemory(o: Options, later: int)
    requires Valid(o) && later > 0 && Gain(o, later) < o.capacity
    ensures var b := Consume(Bucket(o.capacity, 0), o, 0, o.capacity).0;
            !Consume(b, o, later, o.capacity).1.allowed
  {
  }

  lemma FullAfterExpiry(s: Store, p: Policy, at: int)
    requires ValidPolicy(p) && (s.fields.Some? ==> s.expiresAt <= at)
    ensures Answer(s, p, Request(OptionsOf(p).capacity, at)).1.0
  {
  }

  /** Emptying the bucket, and coming back for all of it when the hash expires. */
  lemma EmptyingTwiceDiffers(p: Policy)
    requires ValidPolicy(p) && !FillsUp(p)
    ensures !AgreesFromTheStart(p, 0, [Request(OptionsOf(p).capacity, 0), Request(OptionsOf(p).capacity, Ttl(p) * 1000)])
  {
    var o, later := OptionsOf(p), Ttl(p) * 1000;
    var first, second := Request(o.capacity, 0), Request(o.capacity, later);
    PolicyIsValid(p);
    GainInTtl(p, later);
    TwoAnswers(Store(None, 0), p, first, second);
    TwoInMemory(Bucket(o.capacity, 0), o, first, second);
    EmptiedInMemory(o, later);
    FullAfterExpiry(Answer(Store(None, 0), p, first).0, p, later);
  }

  ghost predicate AgreesAlways(p: Policy)
    requires p.windowSeconds != 0.0
  {
    forall now, requests :: Ordered(requests, now) ==> AgreesFromTheStart(p, now, requests)
  }

  lemma EmptyingTwiceIsOrdered(p: Policy)
    requires ValidPolicy(p)
    ensures Ordered([Request(OptionsOf(p).capacity, 0), Request(OptionsOf(p).capacity, Ttl(p) * 1000)], 0)
  {
    var first, second := Request(OptionsOf(p).capacity, 0), Request(OptionsOf(p).capacity, Ttl(p) * 1000);
    PolicyIsValid(p);
    assert [first, second][1..] == [second];
  }

  /** The time to live is the least whole number of seconds that covers two windows. */
  lemma TtlIs(p: Policy, seconds: int)
    requires ValidPolicy(p) && 2.0 * p.windowSeconds <= seconds as real < 2.0 * p.windowSeconds + 1.0
    ensures Ttl(p) == seconds
  {
    CeilIs(p.windowSeconds * 2.0, seconds);
    CeilIs(p.windowSeconds * 2.0, seconds - 1);
  }

  /** What a bucket holds is regained in so many seconds, at the rate of limit per window. */
  ghost predicate Regained(capacity: real, limit: real, window: real, seconds: real) {
    capacity * window <= limit * seconds
  }

  lemma RegainedAtRate(capacity: real, limit: real, window: real, rate: real, seconds: real)
    requires window > 0.0 && rate == limit / window
    ensures capacity <= seconds * rate <==> Regained(capacity, limit, window, seconds)
  {
    assert rate * window == limit;
    assert (seconds * rate) * window == seconds * (rate * window);
    Scale(seconds * rate, capacity, window);
  }

  lemma FillsUpExactly(p: Policy)
    requires ValidPolicy(p)
    ensures FillsUp(p) <==> Regained(if p.burst.Some? then p.burst.value else p.limit, p.limit, p.windowSeconds, Ttl(p) as real)
  {
    var o := OptionsOf(p);
    RegainedAtRate(o.capacity, p.limit, p.windowSeconds, o.refillPerSecond, Ttl(p) as real);
  }

  /**
   * Script and memory agree in every run of requests exactly when what a bucket
   * holds, the burst if there is one and else the limit, is regained within the
   * whole seconds that cover two windows.
   */
  lemma AgreementExactly(p: Policy, seconds: int)
    requires ValidPolicy(p) && 2.0 * p.windowSeconds <= seconds as real < 2.0 * p.windowSeconds + 1.0
    ensures AgreesAlways(p) <==> Regained(if p.burst.Some? then p.burst.value else p.limit, p.limit, p.windowSeconds, seconds as real)
  {
    TtlIs(p, seconds);
    FillsUpExactly(p);
    AgreesWhenRegained(p);
  }

  lemma AgreesWhenRegained(p: Policy)
    requires ValidPolicy(p)
    ensures AgreesAlways(p) <==> FillsUp(p)
  {
    if FillsUp(p) {
      ExpiryIsHiddenExactly(p);
      PolicyIsValid(p);
      forall now, requests | Ordered(requests, now) ensures AgreesFromTheStart(p, now, requests) {
        ScriptIsTheBucket(Store(None, 0), p, Bucket(OptionsOf(p).capacity, now), now, requests);
      }
    } else {
      EmptyingTwiceDiffers(p);
      EmptyingTwiceIsOrdered(p);
    }
  }
}
