/** packages/runtime/src/metrics.ts: quantiles estimated from bucket counts. */
module Histograms {
  import opened Basics

  ghost predicate Ascending(bounds: seq<real>) {
    forall i, j {:trigger NotAbove(bounds, i, j)} :: 0 <= i < j < |bounds| ==> NotAbove(bounds, i, j)
  }

  ghost predicate NotAbove(bounds: seq<real>, i: nat, j: nat)
    requires i < |bounds| && j < |bounds|
  {
    bounds[i] <= bounds[j]
  }

  /** How many samples are at most x. */
  ghost function AtMost(samples: seq<real>, x: real): (n: nat)
    ensures n <= |samples|
  {
    if samples == [] then 0 else AtMost(samples[..|samples| - 1], x) + if samples[|samples| - 1] <= x then 1 else 0
  }

  /** The first bucket whose bound is not exceeded, or the one behind all bounds. */
  ghost function BucketOf(bounds: seq<real>, value: real): (i: nat)
    ensures i <= |bounds|
    ensures i < |bounds| ==> value <= bounds[i]
    ensures forall k :: 0 <= k < i ==> bounds[k] < value
  {
    if bounds == [] then 0
    else
      var n := |bounds| - 1;
      var i := BucketOf(bounds[..n], value);
      if i < n then i else if value <= bounds[n] then n else n + 1
  }

  /** How many samples lie in the first n buckets. */
  ghost function InBuckets(bounds: seq<real>, samples: seq<real>, n: nat): (c: nat)
    ensures c <= |samples|
  {
    if samples == [] then 0
    else InBuckets(bounds, samples[..|samples| - 1], n) + if BucketOf(bounds, samples[|samples| - 1]) < n then 1 else 0
  }

  /** The first i + 1 buckets hold exactly the samples up to the i-th bound. */
  lemma {:induction false} BucketsCountAtMost(bounds: seq<real>, samples: seq<real>, i: nat)
    requires Ascending(bounds) && i < |bounds|
    ensures InBuckets(bounds, samples, i + 1) == AtMost(samples, bounds[i])
  {
    if samples != [] {
      BucketsCountAtMost(bounds, samples[..|samples| - 1], i);
      var v := samples[|samples| - 1];
      var b := BucketOf(bounds, v);
      if b < i { assert NotAbove(bounds, b, i); }
    }
  }

  lemma {:induction false} AllInBuckets(bounds: seq<real>, samples: seq<real>)
    ensures InBuckets(bounds, samples, 0) == 0 && InBuckets(bounds, samples, |bounds| + 1) == |samples|
  {
    if samples != [] { AllInBuckets(bounds, samples[..|samples| - 1]); }
  }

  ghost predicate CountsBucket(counts: seq<int>, bounds: seq<real>, samples: seq<real>, i: nat)
    requires i < |counts|
  {
    counts[i] == InBuckets(bounds, samples, i + 1) - InBuckets(bounds, samples, i)
  }

  ghost predicate Counted(counts: seq<int>, bounds: seq<real>, samples: seq<real>) {
    |counts| == |bounds| + 1
    && forall i {:trigger CountsBucket(counts, bounds, samples, i)} :: 0 <= i < |counts| ==> CountsBucket(counts, bounds, samples, i)
  }

  lemma CountedPush(counts: seq<int>, bounds: seq<real>, samples: seq<real>, value: real)
    requires Counted(counts, bounds, samples)
    ensures var b := BucketOf(bounds, value); Counted(counts[b := counts[b] + 1], bounds, samples + [value])
  {
    var b, all := BucketOf(bounds, value), samples + [value];
    var counts' := counts[b := counts[b] + 1];
    assert all[..|samples|] == samples;
    forall i | 0 <= i < |counts'|
      ensures CountsBucket(counts', bounds, all, i)
    {
      assert CountsBucket(counts, bounds, samples, i);
    }
  }

  // ---------- Quantiles ----------

  /** The smallest sample with at least the target number of samples up to it. */
  ghost predicate IsQuantile(samples: seq<real>, target: real, q: real) {
    && q in samples && AtMost(samples, q) as real >= target
    && forall y {:trigger AtMost(samples, y)} :: y in samples && y < q ==> AtMost(samples, y) as real < target
  }

  ghost predicate IsLargest(samples: seq<real>, x: real) {
    x in samples && forall y {:trigger y in samples} :: y in samples ==> y <= x
  }

  ghost predicate IsSmallest(samples: seq<real>, x: real) {
    x in samples && forall y {:trigger y in samples} :: y in samples ==> x <= y
  }

  /** The bound of the bucket, or for the one behind all bounds the largest sample. */
  ghost predicate IsUpperEnd(bounds: seq<real>, samples: seq<real>, bucket: nat, r: real) {
    if bucket < |bounds| then r == bounds[bucket] else IsLargest(samples, r)
  }

  /** The estimate is the upper end of the very bucket that holds the true quantile. */
  ghost predicate Estimates(bounds: seq<real>, samples: seq<real>, target: real, r: real) {
    exists q :: IsQuantile(samples, target, q) && q <= r && IsUpperEnd(bounds, samples, BucketOf(bounds, q), r)
  }

  lemma {:induction false} AtMostGrows(samples: seq<real>, x: real, y: real)
    requires x <= y
    ensures AtMost(samples, x) <= AtMost(samples, y)
  {
    if samples != [] { AtMostGrows(samples[..|samples| - 1], x, y); }
  }

  lemma {:induction false} LargestCountsAll(samples: seq<real>, x: real)
    requires forall y {:trigger y in samples} :: y in samples ==> y <= x
    ensures AtMost(samples, x) == |samples|
  {
    if samples != [] {
      var front := samples[..|samples| - 1];
      assert samples[|samples| - 1] in samples;
      forall y | y in front ensures y <= x { assert y in samples; }
      LargestCountsAll(front, x);
    }
  }

  /** The largest sample up to x counts as many as x itself. */
  lemma {:induction false} LargestUpTo(samples: seq<real>, x: real) returns (y: real)
    requires AtMost(samples, x) > 0
    ensures y in samples && y <= x && AtMost(samples, y) == AtMost(samples, x)
  {
    var n := |samples| - 1;
    var last := samples[n];
    if AtMost(samples[..n], x) == 0 {
      y := last;
      AtMostGrows(samples[..n], y, x);
    } else {
      y := LargestUpTo(samples[..n], x);
      if y < last <= x {
        AtMostGrows(samples[..n], y, last);
        AtMostGrows(samples[..n], last, x);
        y := last;
      }
    }
  }

  /** Going down from a sample with enough samples up to it leads to the quantile. */
  lemma {:induction false} QuantileBelow(samples: seq<real>, target: real, x: real) returns (q: real)
    requires x in samples && AtMost(samples, x) as real >= target
    ensures IsQuantile(samples, target, q) && q <= x
    decreases AtMost(samples, x)
  {
    q := x;
    if y :| y in samples && y < x && AtMost(samples, y) as real >= target {
      StrictlyFewer(samples, y, x);
      q := QuantileBelow(samples, target, y);
    }
  }

  lemma {:induction false} StrictlyFewer(samples: seq<real>, y: real, x: real)
    requires x in samples && y < x
    ensures AtMost(samples, y) < AtMost(samples, x)
  {
    var n := |samples| - 1;
    AtMostGrows(samples[..n], y, x);
    if samples[n] != x { StrictlyFewer(samples[..n], y, x); }
  }

  /** The first bound that reaches the target is the end of the bucket of the quantile. */
  lemma FirstBoundEstimates(bounds: seq<real>, samples: seq<real>, target: real, i: nat)
    requires Ascending(bounds) && i < |bounds| && 0.0 < target <= AtMost(samples, bounds[i]) as real
    requires i > 0 ==> AtMost(samples, bounds[i - 1]) as real < target
    ensures Estimates(bounds, samples, target, bounds[i])
  {
    var y := LargestUpTo(samples, bounds[i]);
    var q := QuantileBelow(samples, target, y);
    var b := BucketOf(bounds, q);
    assert b < i - 1 ==> NotAbove(bounds, b, i - 1);
    if i > 0 && q <= bounds[i - 1] { AtMostGrows(samples, q, bounds[i - 1]); }
    assert b == i;
  }

  /** What counts more samples than the last bound lies in the bucket behind it. */
  lemma BehindAllBounds(bounds: seq<real>, samples: seq<real>, q: real)
    requires Ascending(bounds) && (bounds != [] ==> AtMost(samples, bounds[|bounds| - 1]) < AtMost(samples, q))
    ensures BucketOf(bounds, q) == |bounds|
  {
    var b, n := BucketOf(bounds, q), |bounds|;
    if n > 0 {
      if q <= bounds[n - 1] { AtMostGrows(samples, q, bounds[n - 1]); }
      assert b < n - 1 ==> NotAbove(bounds, b, n - 1);
    }
  }

  /** If no bound reaches the target the quantile lies behind all of them. */
  lemma LargestEstimates(bounds: seq<real>, samples: seq<real>, target: real, r: real)
    requires Ascending(bounds) && IsLargest(samples, r) && target <= |samples| as real
    requires bounds != [] ==> AtMost(samples, bounds[|bounds| - 1]) as real < target
    ensures Estimates(bounds, samples, target, r)
  {
    LargestCountsAll(samples, r);
    var q := QuantileBelow(samples, target, r);
    BehindAllBounds(bounds, samples, q);
  }

  class Histogram {
    const bounds: seq<real>
    var counts: seq<int>
    var sum: real
    var total: int
    var minValue: Option<real>
    var maxValue: Option<real>
    /** Every observed value. */
    ghost var samples: seq<real>

    ghost predicate Valid()
      reads this
    {
      && Ascending(bounds) && Counted(counts, bounds, samples) && total == |samples|
      && (samples == [] ==> minValue == None && maxValue == None)
      && (samples != [] ==> minValue.Some? && IsSmallest(samples, minValue.value) && maxValue.Some? && IsLargest(samples, maxValue.value))
    }

    /** The bounds come sorted. */
    constructor (bounds: seq<real>)
      requires Ascending(bounds)
      ensures Valid() && samples == [] && this.bounds == bounds
    {
      this.bounds := bounds;
      counts := seq(|bounds| + 1, _ => 0);
      sum, total, minValue, maxValue, samples := 0.0, 0, None, None, [];
      new;
      forall i | 0 <= i < |counts| ensures CountsBucket(counts, bounds, samples, i) {}
    }

    method Observe(value: real)
      requires Valid()
      modifies this
      ensures Valid() && samples == old(samples) + [value] && sum == old(sum) + value
    {
      sum, total := sum + value, total + 1;
      minValue := if minValue.Some? && minValue.value <= value then minValue else Some(value);
      maxValue := if maxValue.Some? && maxValue.value >= value then maxValue else Some(value);
      var index := FindBucket(value);
      CountedPush(counts, bounds, samples, value);
      counts := counts[index := counts[index] + 1];
      samples := samples + [value];
    }

    method FindBucket(value: real) returns (index: nat)
      ensures index == BucketOf(bounds, value)
    {
      index := 0;
      while index < |bounds| && value > bounds[index]
        invariant index <= |bounds| && forall k :: 0 <= k < index ==> bounds[k] < value
      {
        index := index + 1;
      }
    }

    /** Each estimate of a snapshot is the upper end of the bucket that holds the true quantile; there are none without samples. */
    method TakeQuantiles() returns (p50: Option<real>, p95: Option<real>, p99: Option<real>)
      requires Valid()
      ensures samples == [] ==> p50 == None && p95 == None && p99 == None
      ensures samples != [] ==>
                && p50.Some? && Estimates(bounds, samples, 0.5 * |samples| as real, p50.value)
                && p95.Some? && Estimates(bounds, samples, 0.95 * |samples| as real, p95.value)
                && p99.Some? && Estimates(bounds, samples, 0.99 * |samples| as real, p99.value)
    {
      if total == 0 { return None, None, None; }
      var a := FirstReaching(0.5 * total as real);
      var b := FirstReaching(0.95 * total as real);
      var c := FirstReaching(0.99 * total as real);
      return Some(a), Some(b), Some(c);
    }

    /** The bound of the first bucket at which the cumulative count reaches the target, or the largest sample. */
    method FirstReaching(target: real) returns (r: real)
      requires Valid() && samples != [] && 0.0 < target <= |samples| as real
      ensures Estimates(bounds, samples, target, r)
    {
      var cumulative := 0;
      AllInBuckets(bounds, samples);
      for i := 0 to |bounds|
        invariant cumulative == InBuckets(bounds, samples, i)
        invariant i > 0 ==> AtMost(samples, bounds[i - 1]) as real < target
      {
        assert CountsBucket(counts, bounds, samples, i);
        cumulative := cumulative + counts[i];
        BucketsCountAtMost(bounds, samples, i);
        if cumulative as real >= target {
          FirstBoundEstimates(bounds, samples, target, i);
          return bounds[i];
        }
      }
      LargestEstimates(bounds, samples, target, maxValue.value);
      r := maxValue.value;
    }
  }
}
