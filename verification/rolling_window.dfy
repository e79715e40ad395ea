/** packages/algorithms/src/sliding-window.ts: boolean outcomes counted in a ring of time buckets. */
module RollingWindows {
  import opened Rings

  /** One recorded call: the index of its time bucket and whether it succeeded. */
  datatype Outcome = Outcome(bucket: int, success: bool)

  /** How many recorded calls of the given kind fell into exactly this bucket. */
  ghost function CountIn(log: seq<Outcome>, bucket: int, success: bool): nat {
    if log == [] then 0
    else
      var last := log[|log| - 1];
      CountIn(log[..|log| - 1], bucket, success) + if last.bucket == bucket && last.success == success then 1 else 0
  }

  /** How many fell into the n buckets that end with the current one. */
  ghost function CountRecent(log: seq<Outcome>, current: int, n: nat, success: bool): nat {
    if log == [] then 0
    else
      var last := log[|log| - 1];
      CountRecent(log[..|log| - 1], current, n, success)
      + if current - n < last.bucket <= current && last.success == success then 1 else 0
  }

  ghost predicate WithinTime(log: seq<Outcome>, last: int) {
    forall i :: 0 <= i < |log| ==> 0 <= log[i].bucket <= last
  }

  lemma {:induction false} NothingOutside(log: seq<Outcome>, last: int, bucket: int, success: bool)
    requires WithinTime(log, last) && (bucket > last || bucket < 0)
    ensures CountIn(log, bucket, success) == 0
  {
    if log != [] { NothingOutside(log[..|log| - 1], last, bucket, success); }
  }

  lemma CountPush(log: seq<Outcome>, o: Outcome, bucket: int, success: bool)
    ensures CountIn(log + [o], bucket, success) ==
            CountIn(log, bucket, success) + if o.bucket == bucket && o.success == success then 1 else 0
  {
    assert (log + [o])[..|log|] == log;
  }

  // ---------- Slots ----------

  /** The one bucket of the n latest that uses slot s. */
  ghost function BucketAt(last: int, n: int, s: int): int
    requires n > 0
  {
    last - (last - s) % n
  }

  lemma SlotBucket(last: int, n: int, s: int, b: int)
    requires n > 0 && 0 <= s < n && last - n < b <= last
    ensures b % n == s <==> b == BucketAt(last, n, s)
    ensures last - n < BucketAt(last, n, s) <= last
  {
    var q, r := (last - s) / n, (last - s) % n;
    assert last - s == n * q + r;
    if b == BucketAt(last, n, s) {
      assert b == n * q + s;
      RemainderIs(q, n, s);
    }
    if b % n == s {
      var q' := b / n;
      assert b == n * q' + s;
      RemainderIs(q', n, s);
      assert last - s == n * q' + (last - b);
      RemainderIs(q', n, last - b);
    }
  }

  // ---------- Adding up the slots ----------

  ghost function SlotSum(log: seq<Outcome>, last: int, n: int, upTo: nat, success: bool): nat
    requires n > 0
  {
    if upTo == 0 then 0
    else SlotSum(log, last, n, upTo - 1, success) + CountIn(log, BucketAt(last, n, upTo - 1), success)
  }

  lemma {:induction false} SlotSumPush(log: seq<Outcome>, o: Outcome, last: int, n: int, upTo: nat, success: bool)
    requires 0 < n && upTo <= n
    ensures SlotSum(log + [o], last, n, upTo, success) ==
            SlotSum(log, last, n, upTo, success)
            + if last - n < o.bucket <= last && o.bucket % n < upTo && o.success == success then 1 else 0
  {
    if upTo > 0 {
      SlotSumPush(log, o, last, n, upTo - 1, success);
      CountPush(log, o, BucketAt(last, n, upTo - 1), success);
      if last - n < o.bucket <= last { SlotBucket(last, n, upTo - 1, o.bucket); }
      SlotBucket(last, n, upTo - 1, last);
    }
  }

  lemma {:induction false} SlotSumEmpty(last: int, n: int, upTo: nat, success: bool)
    requires n > 0
    ensures SlotSum([], last, n, upTo, success) == 0
  {
    if upTo > 0 { SlotSumEmpty(last, n, upTo - 1, success); }
  }

  /** The ring as a whole counts exactly the recent part of the log. */
  lemma {:induction false} RingCountsRecent(log: seq<Outcome>, last: int, n: int, success: bool)
    requires n > 0
    ensures SlotSum(log, last, n, n, success) == CountRecent(log, last, n, success)
  {
    if log == [] {
      SlotSumEmpty(last, n, n, success);
    } else {
      var rest, o := log[..|log| - 1], log[|log| - 1];
      assert log == rest + [o];
      RingCountsRecent(rest, last, n, success);
      SlotSumPush(rest, o, last, n, n, success);
    }
  }

  // ---------- The class ----------

  datatype Snapshot = Snapshot(successes: int, failures: int, total: int, failureRate: real)

  /** The counts a log gives for the n buckets that end with the current one. */
  ghost function SnapshotOf(log: seq<Outcome>, current: int, n: nat): Snapshot {
    var s, f := CountRecent(log, current, n, true), CountRecent(log, current, n, false);
    Snapshot(s, f, s + f, if s + f == 0 then 0.0 else f as real / (s + f) as real)
  }

  /** The positions of the outcomes in the n buckets that end with the current one. */
  ghost function Recent(log: seq<Outcome>, current: int, n: nat): set<nat> {
    set i | 0 <= i < |log| && current - n < log[i].bucket <= current
  }

  ghost function RecentFailures(log: seq<Outcome>, current: int, n: nat): set<nat> {
    set i | 0 <= i < |log| && current - n < log[i].bucket <= current && !log[i].success
  }

  lemma RecentPush(log: seq<Outcome>, o: Outcome, current: int, n: nat)
    ensures Recent(log + [o], current, n) == Recent(log, current, n) + if current - n < o.bucket <= current then {|log|} else {}
    ensures RecentFailures(log + [o], current, n) ==
            RecentFailures(log, current, n) + if current - n < o.bucket <= current && !o.success then {|log|} else {}
    ensures |Recent(log + [o], current, n)| == |Recent(log, current, n)| + if current - n < o.bucket <= current then 1 else 0
    ensures |RecentFailures(log + [o], current, n)| ==
            |RecentFailures(log, current, n)| + if current - n < o.bucket <= current && !o.success then 1 else 0
  {
  }

  lemma {:induction false} CountsAreSizes(log: seq<Outcome>, current: int, n: nat)
    ensures CountRecent(log, current, n, true) + CountRecent(log, current, n, false) == |Recent(log, current, n)|
    ensures CountRecent(log, current, n, false) == |RecentFailures(log, current, n)|
  {
    if log != [] {
      var front, last := log[..|log| - 1], log[|log| - 1];
      assert log == front + [last];
      CountsAreSizes(front, current, n);
      RecentPush(front, last, current, n);
    }
  }

  /** A snapshot counts the recent outcomes and the failures among them, and its rate is the share of failures. */
  lemma SnapshotMeans(log: seq<Outcome>, current: int, n: nat)
    ensures var r := SnapshotOf(log, current, n);
            && r.total == |Recent(log, current, n)| && r.failures == |RecentFailures(log, current, n)|
            && r.successes == r.total - r.failures
            && r.failureRate * r.total as real == r.failures as real && (r.total == 0 ==> r.failureRate == 0.0)
  {
    CountsAreSizes(log, current, n);
  }

  /** Each of the latest buckets has its count in its own slot. */
  ghost predicate RingHolds(ring: seq<int>, log: seq<Outcome>, last: int, success: bool)
    requires |ring| > 0
  {
    forall b {:trigger SlotHolds(ring, log, success, b)} :: last - |ring| < b <= last ==> SlotHolds(ring, log, success, b)
  }

  ghost predicate SlotHolds(ring: seq<int>, log: seq<Outcome>, success: bool, b: int)
    requires |ring| > 0
  {
    ring[b % |ring|] == CountIn(log, b, success)
  }

  class RollingOutcomeWindow {
    const successes: array<int>
    const failures: array<int>
    const bucketMs: int
    var lastBucketIndex: int
    /** Every outcome since construction or the last reset. */
    ghost var log: seq<Outcome>

    ghost predicate Valid()
      reads this, successes, failures
    {
      && bucketMs > 0 && successes != failures && successes.Length == failures.Length > 0
      && lastBucketIndex >= -1 && WithinTime(log, lastBucketIndex)
      && RingHolds(successes[..], log, lastBucketIndex, true)
      && RingHolds(failures[..], log, lastBucketIndex, false)
    }

    ghost function Bucket(now: int): int
      requires bucketMs > 0
    {
      now / bucketMs
    }

    constructor (windowMs: int, bucketCount: int)
      requires bucketCount > 0
      ensures Valid() && fresh(successes) && fresh(failures)
      ensures log == [] && lastBucketIndex == -1 && successes.Length == bucketCount
      ensures bucketMs == if windowMs / bucketCount >= 1 then windowMs / bucketCount else 1
    {
      successes := new int[bucketCount](_ => 0);
      failures := new int[bucketCount](_ => 0);
      bucketMs := if windowMs / bucketCount >= 1 then windowMs / bucketCount else 1;
      lastBucketIndex, log := -1, [];
    }

    /** Advance the ring to the bucket of the given time, clearing what it skips over. */
    method Rotate(now: int) returns (slot: int)
      requires Valid() && now >= 0 && Bucket(now) >= lastBucketIndex
      modifies this`lastBucketIndex, successes, failures
      ensures Valid() && lastBucketIndex == Bucket(now)
      ensures slot == Bucket(now) % successes.Length
    {
      var index := now / bucketMs;
      slot := index % successes.Length;
      if lastBucketIndex != index {
        var elapsed := if lastBucketIndex == -1 then successes.Length else index - lastBucketIndex;
        var toClear := if elapsed < successes.Length then elapsed else successes.Length;
        ClearBack(index, slot, toClear);
        AllCleared(successes[..], log, index, lastBucketIndex, toClear, true);
        AllCleared(failures[..], log, index, lastBucketIndex, toClear, false);
        lastBucketIndex := index;
      }
    }

    /** The clearing loop: one slot per skipped bucket, going back from the current one. */
    method ClearBack(index: int, slot: int, toClear: int)
      requires successes != failures && successes.Length == failures.Length > 0
      requires 0 <= toClear <= successes.Length && slot == index % successes.Length
      requires lastBucketIndex <= index
      requires RingHolds(successes[..], log, lastBucketIndex, true) && RingHolds(failures[..], log, lastBucketIndex, false)
      modifies successes, failures
      ensures Cleared(successes[..], log, index, lastBucketIndex, toClear, true)
      ensures Cleared(failures[..], log, index, lastBucketIndex, toClear, false)
    {
      var n := successes.Length;
      StartClearing(successes[..], log, index, lastBucketIndex, true);
      StartClearing(failures[..], log, index, lastBucketIndex, false);
      for i := 0 to toClear
        invariant Cleared(successes[..], log, index, lastBucketIndex, i, true)
        invariant Cleared(failures[..], log, index, lastBucketIndex, i, false)
      {
        var clearSlot := (slot - i + n) % n;
        StepBack(index, n, i);
        ClearOne(successes[..], log, index, lastBucketIndex, i, clearSlot, true);
        ClearOne(failures[..], log, index, lastBucketIndex, i, clearSlot, false);
        ghost var s1, f1 := successes[..], failures[..];
        successes[clearSlot] := 0;
        failures[clearSlot] := 0;
        assert successes[..] == s1[clearSlot := 0] && failures[..] == f1[clearSlot := 0];
      }
    }

    method Record(success: bool, now: int)
      requires Valid() && now >= 0 && Bucket(now) >= lastBucketIndex
      modifies this`lastBucketIndex, this`log, successes, failures
      ensures Valid() && lastBucketIndex == Bucket(now)
      ensures log == old(log) + [Outcome(Bucket(now), success)]
    {
      var slot := Rotate(now);
      ghost var o := Outcome(Bucket(now), success);
      ghost var s1, f1 := successes[..], failures[..];
      CountOne(s1, log, o, true);
      CountOne(f1, log, o, false);
      if success {
        successes[slot] := successes[slot] + 1;
        assert successes[..] == s1[slot := s1[slot] + 1] && failures[..] == f1;
      } else {
        failures[slot] := failures[slot] + 1;
        assert failures[..] == f1[slot := f1[slot] + 1] && successes[..] == s1;
      }
      log := log + [o];
    }

    /** The counts are those of the whole log filtered to the latest buckets, whatever the gaps between calls. */
    method TakeSnapshot(now: int) returns (r: Snapshot)
      requires Valid() && now >= 0 && Bucket(now) >= lastBucketIndex
      modifies this`lastBucketIndex, successes, failures
      ensures Valid() && lastBucketIndex == Bucket(now)
      ensures r == SnapshotOf(log, Bucket(now), successes.Length)
    {
      var _ := Rotate(now);
      var s, f := Totals();
      var total := s + f;
      r := Snapshot(s, f, total, if total == 0 then 0.0 else f as real / total as real);
    }

    method Totals() returns (s: int, f: int)
      requires Valid()
      ensures s == CountRecent(log, lastBucketIndex, successes.Length, true)
      ensures f == CountRecent(log, lastBucketIndex, successes.Length, false)
    {
      var n := successes.Length;
      s, f := 0, 0;
      for i := 0 to n
        invariant s == SlotSum(log, lastBucketIndex, n, i, true) && f == SlotSum(log, lastBucketIndex, n, i, false)
      {
        SlotValue(successes[..], log, lastBucketIndex, i, true);
        SlotValue(failures[..], log, lastBucketIndex, i, false);
        s := s + successes[i];
        f := f + failures[i];
      }
      RingCountsRecent(log, lastBucketIndex, n, true);
      RingCountsRecent(log, lastBucketIndex, n, false);
    }

    method Reset()
      requires Valid()
      modifies this`lastBucketIndex, this`log, successes, failures
      ensures Valid() && log == [] && lastBucketIndex == -1
    {
      forall i | 0 <= i < successes.Length { successes[i] := 0; }
      forall i | 0 <= i < failures.Length { failures[i] := 0; }
      lastBucketIndex, log := -1, [];
    }
  }

  /** i buckets back from index have been cleared; the older ones still hold their counts. */
  ghost predicate Cleared(ring: seq<int>, log: seq<Outcome>, index: int, last: int, i: int, success: bool)
    requires |ring| > 0
  {
    && (forall b {:trigger SlotIs(ring, b, 0)} :: index - i < b <= index && index - |ring| < b ==> SlotIs(ring, b, 0))
    && (forall b {:trigger SlotHolds(ring, log, success, b)} :: index - |ring| < b <= index - i && b <= last ==> SlotHolds(ring, log, success, b))
  }

  ghost predicate SlotIs(ring: seq<int>, b: int, v: int)
    requires |ring| > 0
  {
    ring[b % |ring|] == v
  }

  lemma StartClearing(ring: seq<int>, log: seq<Outcome>, index: int, last: int, success: bool)
    requires |ring| > 0 && RingHolds(ring, log, last, success) && last <= index
    ensures Cleared(ring, log, index, last, 0, success)
  {
  }

  /** The slot of a position of the ring holds the count of the bucket that uses it. */
  lemma SlotValue(ring: seq<int>, log: seq<Outcome>, last: int, i: int, success: bool)
    requires 0 <= i < |ring| && RingHolds(ring, log, last, success)
    ensures ring[i] == CountIn(log, BucketAt(last, |ring|, i), success)
  {
    SlotBucket(last, |ring|, i, last);
    SlotBucket(last, |ring|, i, BucketAt(last, |ring|, i));
    assert SlotHolds(ring, log, success, BucketAt(last, |ring|, i));
  }

  lemma ClearOne(ring: seq<int>, log: seq<Outcome>, index: int, last: int, i: int, slot: int, success: bool)
    requires 0 <= i < |ring| && slot == (index - i) % |ring| && Cleared(ring, log, index, last, i, success)
    ensures Cleared(ring[slot := 0], log, index, last, i + 1, success)
  {
    var n, c := |ring|, index - i;
    var ring' := ring[slot := 0];
    forall b | index - (i + 1) < b <= index && index - n < b
      ensures SlotIs(ring', b, 0)
    {
      if b != c {
        SlotsDiffer(b, c, n);
        assert SlotIs(ring, b, 0);
      }
    }
    forall b | index - n < b <= index - (i + 1) && b <= last
      ensures SlotHolds(ring', log, success, b)
    {
      SlotsDiffer(b, c, n);
      assert SlotHolds(ring, log, success, b);
    }
  }

  lemma AllCleared(ring: seq<int>, log: seq<Outcome>, index: int, last: int, i: int, success: bool)
    requires |ring| > 0 && -1 <= last <= index && 0 <= i && WithinTime(log, last)
    requires i == |ring| || (last != -1 && i == index - last)
    requires Cleared(ring, log, index, last, i, success)
    requires i == |ring| ==> last == -1 || index - last >= |ring|
    ensures RingHolds(ring, log, index, success) && WithinTime(log, index)
  {
    forall b | index - |ring| < b <= index
      ensures SlotHolds(ring, log, success, b)
    {
      if b > index - i {
        assert SlotIs(ring, b, 0);
        NothingOutside(log, last, b, success);
      }
    }
  }

  lemma CountOne(ring: seq<int>, log: seq<Outcome>, o: Outcome, success: bool)
    requires |ring| > 0 && RingHolds(ring, log, o.bucket, success)
    ensures var slot := o.bucket % |ring|;
            RingHolds(if o.success == success then ring[slot := ring[slot] + 1] else ring, log + [o], o.bucket, success)
  {
    var n, slot := |ring|, o.bucket % |ring|;
    var ring' := if o.success == success then ring[slot := ring[slot] + 1] else ring;
    forall b | o.bucket - n < b <= o.bucket
      ensures SlotHolds(ring', log + [o], success, b)
    {
      assert SlotHolds(ring, log, success, b);
      CountPush(log, o, b, success);
      if b != o.bucket { SlotsDiffer(b, o.bucket, n); }
    }
  }
}
