/**
 * What the LRU cache promises, said on a plain list of entries ordered from the
 * most to the least recently used one.
 */
module LruSpec {
  import opened Basics

  type Key(==, !new)
  type Value(!new)

  /** expiresAt 0 means the entry never expires. */
  datatype Entry = Entry(key: Key, value: Value, expiresAt: int)

  predicate Expired(expiresAt: int, now: int) {
    expiresAt != 0 && expiresAt <= now
  }

  function ExpiryFor(ttlMs: Option<int>, defaultTtlMs: int, now: int): int {
    var ttl := if ttlMs.Some? then ttlMs.value else defaultTtlMs;
    if ttl > 0 then now + ttl else 0
  }

  // ---------- Lists of entries ----------

  ghost predicate Holds(s: seq<Entry>, k: Key) {
    s != [] && (s[0].key == k || Holds(s[1..], k))
  }

  ghost predicate DistinctKeys(s: seq<Entry>) {
    s == [] || (!Holds(s[1..], s[0].key) && DistinctKeys(s[1..]))
  }

  ghost function Find(s: seq<Entry>, k: Key): (e: Entry)
    requires Holds(s, k)
    ensures e.key == k && e in s
  {
    if s[0].key == k then s[0] else Find(s[1..], k)
  }

  ghost function Without(s: seq<Entry>, k: Key): (r: seq<Entry>)
    ensures |r| <= |s|
    ensures forall j :: Holds(r, j) ==> Holds(s, j)
  {
    if s == [] then []
    else if s[0].key == k then s[1..]
    else [s[0]] + Without(s[1..], k)
  }

  /** The entries that a sweep at the given time keeps. */
  ghost function Fresh(s: seq<Entry>, now: int): (r: seq<Entry>)
    ensures |r| <= |s|
    ensures forall j :: Holds(r, j) ==> Holds(s, j)
  {
    if s == [] then []
    else if Expired(s[0].expiresAt, now) then Fresh(s[1..], now)
    else [s[0]] + Fresh(s[1..], now)
  }

  // ---------- Operations ----------

  datatype Op =
    | Get(key: Key, now: int)
    | Has(key: Key, now: int)
    | Put(key: Key, value: Value, expiresAt: int)
    | Delete(key: Key)
    | Prune(now: int)
    | Clear

  ghost predicate Alive(s: seq<Entry>, k: Key, now: int) {
    Holds(s, k) && !Expired(Find(s, k).expiresAt, now)
  }

  /** A read that hits moves its entry to the front; a read of an expired entry drops it. */
  ghost function GetResult(s: seq<Entry>, k: Key, now: int): seq<Entry> {
    if Alive(s, k, now) then [Find(s, k)] + Without(s, k)
    else Without(s, k)
  }

  /** A membership test drops an expired entry and otherwise changes nothing. */
  ghost function HasResult(s: seq<Entry>, k: Key, now: int): seq<Entry> {
    if Alive(s, k, now) then s else Without(s, k)
  }

  /** A write moves its entry to the front and drops the last entry if there are now too many. */
  ghost function PutResult(s: seq<Entry>, e: Entry, maxSize: int): seq<Entry> {
    var t := [e] + Without(s, e.key);
    if !Holds(s, e.key) && |t| > maxSize then t[..|t| - 1] else t
  }

  ghost function Apply(s: seq<Entry>, op: Op, maxSize: int): seq<Entry> {
    match op
    case Get(k, now) => GetResult(s, k, now)
    case Has(k, now) => HasResult(s, k, now)
    case Put(k, v, expiresAt) => PutResult(s, Entry(k, v, expiresAt), maxSize)
    case Delete(k) => Without(s, k)
    case Prune(now) => Fresh(s, now)
    case Clear => []
  }

  ghost function Run(ops: seq<Op>, maxSize: int): seq<Entry> {
    if ops == [] then []
    else Apply(Run(ops[..|ops| - 1], maxSize), ops[|ops| - 1], maxSize)
  }

  // ---------- Every run keeps the keys distinct and the size bounded ----------

  lemma {:induction false} WithoutDropsKey(s: seq<Entry>, k: Key)
    requires DistinctKeys(s)
    ensures DistinctKeys(Without(s, k)) && !Holds(Without(s, k), k)
    ensures forall j :: j != k ==> (Holds(Without(s, k), j) <==> Holds(s, j))
    ensures |Without(s, k)| == |s| - if Holds(s, k) then 1 else 0
  {
    if s != [] && s[0].key != k {
      WithoutDropsKey(s[1..], k);
      assert Without(s, k)[1..] == Without(s[1..], k);
    }
  }

  lemma {:induction false} WithoutKeepsEntries(s: seq<Entry>, k: Key, j: Key)
    requires j != k && Holds(s, j)
    ensures Holds(Without(s, k), j) && Find(Without(s, k), j) == Find(s, j)
  {
    if s[0].key != k {
      assert Without(s, k)[1..] == Without(s[1..], k);
      if s[0].key != j { WithoutKeepsEntries(s[1..], k, j); }
    }
  }

  lemma {:induction false} WithoutAbsent(s: seq<Entry>, k: Key)
    requires !Holds(s, k)
    ensures Without(s, k) == s
  {
    if s != [] { WithoutAbsent(s[1..], k); }
  }

  lemma {:induction false} FreshDistinct(s: seq<Entry>, now: int)
    requires DistinctKeys(s)
    ensures DistinctKeys(Fresh(s, now))
  {
    if s != [] {
      FreshDistinct(s[1..], now);
      if !Expired(s[0].expiresAt, now) {
        assert Fresh(s, now)[1..] == Fresh(s[1..], now);
      }
    }
  }

  lemma {:induction false} PrefixHolds(s: seq<Entry>, n: nat, k: Key)
    requires n <= |s| && Holds(s[..n], k)
    ensures Holds(s, k)
  {
    assert s[..n][1..] == s[1..][..n - 1];
    if s[0].key != k { PrefixHolds(s[1..], n - 1, k); }
  }

  lemma {:induction false} PrefixDistinct(s: seq<Entry>, n: nat)
    requires n <= |s| && DistinctKeys(s)
    ensures DistinctKeys(s[..n])
  {
    if n > 0 {
      assert s[..n][1..] == s[1..][..n - 1];
      PrefixDistinct(s[1..], n - 1);
      if Holds(s[1..][..n - 1], s[0].key) { PrefixHolds(s[1..], n - 1, s[0].key); }
    }
  }

  lemma ConsDistinct(e: Entry, s: seq<Entry>)
    requires DistinctKeys(s) && !Holds(s, e.key)
    ensures DistinctKeys([e] + s)
  {
    assert ([e] + s)[1..] == s;
  }

  ghost predicate Bounded(s: seq<Entry>, maxSize: int) {
    DistinctKeys(s) && |s| <= maxSize
  }

  lemma ApplyBounded(s: seq<Entry>, op: Op, maxSize: int)
    requires Bounded(s, maxSize) && maxSize > 0
    ensures Bounded(Apply(s, op, maxSize), maxSize)
  {
    match op
    case Get(k, now) =>
      WithoutDropsKey(s, k);
      if Alive(s, k, now) { ConsDistinct(Find(s, k), Without(s, k)); }
    case Has(k, now) => WithoutDropsKey(s, k);
    case Put(k, v, expiresAt) =>
      var e := Entry(k, v, expiresAt);
      WithoutDropsKey(s, k);
      ConsDistinct(e, Without(s, k));
      PrefixDistinct([e] + Without(s, k), |[e] + Without(s, k)| - 1);
    case Delete(k) => WithoutDropsKey(s, k);
    case Prune(now) => FreshDistinct(s, now);
    case Clear =>
  }

  /** In every run the keys stay distinct and the size stays within the capacity. */
  lemma {:induction false} RunBounded(ops: seq<Op>, maxSize: int)
    requires maxSize > 0
    ensures Bounded(Run(ops, maxSize), maxSize)
  {
    if ops != [] {
      RunBounded(ops[..|ops| - 1], maxSize);
      ApplyBounded(Run(ops[..|ops| - 1], maxSize), ops[|ops| - 1], maxSize);
    }
  }
}
