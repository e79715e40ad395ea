/** packages/algorithms/src/sliding-window.ts: the exact sliding window, a ring buffer of timestamps for one subject. */
module SlidingLogs {
  import opened Rings

  // ---------- The unbounded log ----------

  ghost predicate Sorted(hits: seq<int>) {
    forall i, j {:trigger ApartAt(hits, 0, i, j)} :: 0 <= i < j < |hits| ==> ApartAt(hits, 0, i, j)
  }

  ghost predicate ApartAt(hits: seq<int>, ms: int, i: nat, j: nat)
    requires i < |hits| && j < |hits|
  {
    hits[j] - hits[i] >= ms
  }

  /** How many of the logged times lie after the cutoff. */
  ghost function Recent(hits: seq<int>, cutoff: int): (n: nat)
    ensures n <= |hits|
    decreases |hits|, 1
  {
    if hits == [] then 0 else RecentOfSome(hits, cutoff)
  }

  /** Split off so that a proof unfolds one step at a time. */
  ghost function RecentOfSome(hits: seq<int>, cutoff: int): (n: nat)
    requires hits != []
    ensures n <= |hits|
    decreases |hits|, 0
  {
    Recent(hits[..|hits| - 1], cutoff) + if hits[|hits| - 1] > cutoff then 1 else 0
  }

  ghost predicate NotAfter(hits: seq<int>, now: int) {
    hits != [] ==> hits[|hits| - 1] <= now
  }

  /** The log as it should be: a hit is admitted when fewer than limit lie in the window that ends now. */
  ghost function Logged(hits: seq<int>, limit: int, windowMs: int, now: int): seq<int> {
    if Recent(hits, now - windowMs) < limit then hits + [now] else hits
  }

  lemma SortedFront(hits: seq<int>)
    requires Sorted(hits) && hits != []
    ensures Sorted(hits[..|hits| - 1])
  {
    var front := hits[..|hits| - 1];
    forall i, j | 0 <= i < j < |front| ensures ApartAt(front, 0, i, j) { assert ApartAt(hits, 0, i, j); }
  }

  /** In a sorted log the recent times are the last ones. */
  lemma {:induction false} LastAreRecent(hits: seq<int>, cutoff: int, n: nat)
    requires Sorted(hits) && 0 < n <= |hits|
    ensures Recent(hits, cutoff) >= n <==> hits[|hits| - n] > cutoff
    decreases |hits|
  {
    var last := |hits| - 1;
    SortedFront(hits);
    if n > 1 {
      LastAreRecent(hits[..last], cutoff, n - 1);
      assert ApartAt(hits, 0, |hits| - n, last);
    } else if hits[last] <= cutoff {
      NoneRecent(hits, cutoff);
    }
  }

  lemma {:induction false} NoneRecent(hits: seq<int>, cutoff: int)
    requires Sorted(hits) && (hits != [] ==> hits[|hits| - 1] <= cutoff)
    ensures Recent(hits, cutoff) == 0
    decreases |hits|
  {
    if hits != [] {
      SortedFront(hits);
      if |hits| > 1 { assert ApartAt(hits, 0, |hits| - 2, |hits| - 1); }
      NoneRecent(hits[..|hits| - 1], cutoff);
    }
  }

  lemma RecentAreLast(hits: seq<int>, cutoff: int, n: nat)
    requires Sorted(hits) && n <= |hits|
    requires n > 0 ==> hits[|hits| - n] > cutoff
    requires n < |hits| ==> hits[|hits| - n - 1] <= cutoff
    ensures Recent(hits, cutoff) == n
  {
    if n > 0 { LastAreRecent(hits, cutoff, n); }
    if n < |hits| { LastAreRecent(hits, cutoff, n + 1); }
  }

  /** Any two admitted hits that are limit or more places apart are a whole window apart. */
  ghost predicate Spaced(hits: seq<int>, limit: int, windowMs: int) {
    forall i, j {:trigger ApartAt(hits, windowMs, i, j)} :: 0 <= i < j < |hits| && j - i >= limit ==> ApartAt(hits, windowMs, i, j)
  }

  lemma OldestExpired(hits: seq<int>, limit: int, windowMs: int, now: int, i: nat)
    requires 0 < limit <= |hits| && i + limit <= |hits| && Sorted(hits) && Recent(hits, now - windowMs) < limit
    ensures now - hits[i] >= windowMs
  {
    LastAreRecent(hits, now - windowMs, limit);
    if i < |hits| - limit { assert ApartAt(hits, 0, i, |hits| - limit); }
  }

  lemma LoggedStaysSpaced(hits: seq<int>, limit: int, windowMs: int, now: int)
    requires limit > 0 && Sorted(hits) && NotAfter(hits, now) && Spaced(hits, limit, windowMs)
    ensures var after := Logged(hits, limit, windowMs, now);
            Sorted(after) && NotAfter(after, now) && Spaced(after, limit, windowMs)
  {
    if Recent(hits, now - windowMs) < limit {
      var after := hits + [now];
      forall i, j | 0 <= i < j < |after| && j - i >= limit
        ensures ApartAt(after, windowMs, i, j)
      {
        if j < |hits| { assert ApartAt(hits, windowMs, i, j); } else { OldestExpired(hits, limit, windowMs, now, i); }
      }
      forall i, j | 0 <= i < j < |after|
        ensures ApartAt(after, 0, i, j)
      {
        if j < |hits| { assert ApartAt(hits, 0, i, j); } else if i < |hits| - 1 { assert ApartAt(hits, 0, i, |hits| - 1); }
      }
    }
  }

  /** The log after requests at the given times, none of them before the previous one. */
  ghost function LogOf(requests: seq<int>, limit: int, windowMs: int): seq<int> {
    if requests == [] then []
    else Logged(LogOf(requests[..|requests| - 1], limit, windowMs), limit, windowMs, requests[|requests| - 1])
  }

  /** In every run, no more than limit hits fall into any window. */
  lemma {:induction false} NoWindowIsOverfull(requests: seq<int>, limit: int, windowMs: int)
    requires limit > 0 && Sorted(requests)
    ensures var hits := LogOf(requests, limit, windowMs);
            Sorted(hits) && Spaced(hits, limit, windowMs) && (hits != [] ==> requests != [] && NotAfter(hits, requests[|requests| - 1]))
    decreases |requests|
  {
    if requests != [] {
      var front, now := requests[..|requests| - 1], requests[|requests| - 1];
      SortedFront(requests);
      if front != [] { assert ApartAt(requests, 0, |requests| - 2, |requests| - 1); }
      NoWindowIsOverfull(front, limit, windowMs);
      LoggedStaysSpaced(LogOf(front, limit, windowMs), limit, windowMs, now);
    }
  }

  /** The wait told to a rejected caller is exact. */
  lemma RetryAfterIsExact(hits: seq<int>, limit: int, windowMs: int, now: int, later: int)
    requires limit > 0 && Sorted(hits) && Recent(hits, now - windowMs) >= limit && now <= later
    ensures |hits| >= limit
    ensures Recent(hits, later - windowMs) < limit <==> later >= hits[|hits| - limit] + windowMs
  {
    LastAreRecent(hits, later - windowMs, limit);
  }

  // ---------- The ring ----------

  datatype Decision = Decision(allowed: bool, remaining: int, retryAfterMs: int, used: int)

  /** The last count hits are in the ring, each at its number modulo the size. */
  ghost predicate RingHolds(ring: seq<int>, hits: seq<int>, count: int)
    requires |ring| > 0
  {
    && 0 <= count <= |ring| && count <= |hits|
    && forall j {:trigger SlotHolds(ring, hits, j)} :: |hits| - count <= j < |hits| ==> SlotHolds(ring, hits, j)
  }

  ghost predicate SlotHolds(ring: seq<int>, hits: seq<int>, j: nat)
    requires |ring| > 0 && j < |hits|
  {
    ring[j % |ring|] == hits[j]
  }

  lemma StoreHit(ring: seq<int>, hits: seq<int>, count: int, now: int)
    requires |ring| > 0 && RingHolds(ring, hits, count) && count < |ring|
    ensures RingHolds(ring[|hits| % |ring| := now], hits + [now], count + 1)
  {
    var n := |ring|;
    var after := ring[|hits| % n := now];
    forall j | |hits| - count <= j < |hits| + 1
      ensures SlotHolds(after, hits + [now], j)
    {
      if j < |hits| {
        SlotsDiffer(j, |hits|, n);
        assert SlotHolds(ring, hits, j);
      }
    }
  }

  class TimestampRing {
    const limit: int
    const windowMs: int
    const buffer: array<int>
    var head: int
    var count: int
    /** Every admitted hit. */
    ghost var hits: seq<int>
    /** The latest time read from the clock. */
    ghost var clock: int

    ghost predicate Valid()
      reads this, buffer
    {
      && buffer.Length == limit > 0 && head == |hits| % limit
      && RingHolds(buffer[..], hits, count)
      && Sorted(hits) && NotAfter(hits, clock) && Spaced(hits, limit, windowMs)
      && (count < |hits| ==> hits[|hits| - count - 1] <= clock - windowMs)
    }

    constructor (limit: int, windowMs: int, now: int)
      requires limit > 0
      ensures Valid() && hits == [] && clock == now && this.limit == limit && this.windowMs == windowMs && fresh(buffer)
    {
      this.limit, this.windowMs := limit, windowMs;
      buffer := new int[limit](_ => 0);
      head, count, hits, clock := 0, 0, [], now;
      new;
      RemainderIs(0, limit, 0);
    }

    /** The ring decides as the unbounded log would. */
    method Hit(now: int) returns (d: Decision)
      requires Valid() && now >= clock
      modifies this, buffer
      ensures Valid() && clock == now && hits == Logged(old(hits), limit, windowMs, now)
      ensures d.allowed <==> Recent(old(hits), now - windowMs) < limit
      ensures d.used == Recent(old(hits), now - windowMs) + (if d.allowed then 1 else 0) && d.remaining == limit - d.used
      ensures d.allowed ==> d.retryAfterMs == 0
      ensures !d.allowed ==> |hits| >= limit && d.retryAfterMs == hits[|hits| - limit] + windowMs - now > 0
    {
      clock := now;
      Evict(now);
      RecentAreLast(hits, now - windowMs, count);
      if count >= limit {
        StepBack(|hits|, limit, count);
        var oldestIndex := (head - count + limit) % limit;
        var oldest := buffer[oldestIndex];
        assert SlotHolds(buffer[..], hits, |hits| - count);
        var wait := oldest + windowMs - now;
        return Decision(false, 0, if wait >= 1 then wait else 1, count);
      }
      Store(now);
      return Decision(true, limit - count, 0, count);
    }

    method Store(now: int)
      requires Valid() && now == clock && count < limit && Recent(hits, now - windowMs) < limit
      modifies this, buffer
      ensures Valid() && clock == old(clock) && hits == old(hits) + [now] && count == old(count) + 1
    {
      LoggedStaysSpaced(hits, limit, windowMs, now);
      StoreHit(buffer[..], hits, count, now);
      StepForward(|hits|, limit);
      ghost var before := buffer[..];
      buffer[head] := now;
      assert buffer[..] == before[head := now];
      head := (head + 1) % limit;
      count := count + 1;
      hits := hits + [now];
    }

    /** Drops entries at the tail that have left the window. */
    method Evict(now: int)
      requires Valid() && now == clock
      modifies this`count
      ensures Valid()
      ensures count > 0 ==> hits[|hits| - count] > now - windowMs
    {
      while count > 0
        invariant Valid()
        decreases count
      {
        StepBack(|hits|, limit, count);
        var tailIndex := (head - count + limit) % limit;
        assert SlotHolds(buffer[..], hits, |hits| - count);
        if buffer[tailIndex] > now - windowMs { break; }
        count := count - 1;
      }
    }
  }
}
