/** Properties of whole runs of the LRU cache, measured against the history of its calls. */
module LruRuns {
  import opened Basics
  import opened LruSpec

  /** Whether a call counts as a use of the key: a write, or a read that hits. */
  ghost predicate Uses(s: seq<Entry>, op: Op, k: Key) {
    match op
    case Put(key, _, _) => key == k
    case Get(key, now) => key == k && Alive(s, k, now)
    case _ => false
  }

  /** Position in the history of the latest call that used the key, or -1. */
  ghost function LastUse(ops: seq<Op>, k: Key, maxSize: int): (n: int)
    ensures -1 <= n < |ops|
  {
    if ops == [] then -1
    else
      var n := |ops| - 1;
      if Uses(Run(ops[..n], maxSize), ops[n], k) then n else LastUse(ops[..n], k, maxSize)
  }

  /** The entries appear in strictly decreasing order of last use, and each has been used. */
  ghost predicate ByRecency(s: seq<Entry>, ops: seq<Op>, maxSize: int) {
    s == [] ||
    (&& LastUse(ops, s[0].key, maxSize) >= 0
     && (forall k :: Holds(s[1..], k) ==> LastUse(ops, k, maxSize) < LastUse(ops, s[0].key, maxSize))
     && ByRecency(s[1..], ops, maxSize))
  }

  lemma {:induction false} WithoutByRecency(s: seq<Entry>, ops: seq<Op>, maxSize: int, k: Key)
    requires ByRecency(s, ops, maxSize)
    ensures ByRecency(Without(s, k), ops, maxSize)
  {
    if s != [] && s[0].key != k {
      WithoutByRecency(s[1..], ops, maxSize, k);
      assert Without(s, k)[1..] == Without(s[1..], k);
    }
  }

  lemma {:induction false} FreshByRecency(s: seq<Entry>, ops: seq<Op>, maxSize: int, now: int)
    requires ByRecency(s, ops, maxSize)
    ensures ByRecency(Fresh(s, now), ops, maxSize)
  {
    if s != [] {
      FreshByRecency(s[1..], ops, maxSize, now);
      if !Expired(s[0].expiresAt, now) {
        assert Fresh(s, now)[1..] == Fresh(s[1..], now);
      }
    }
  }

  lemma {:induction false} PrefixByRecency(s: seq<Entry>, ops: seq<Op>, maxSize: int, n: nat)
    requires n <= |s| && ByRecency(s, ops, maxSize)
    ensures ByRecency(s[..n], ops, maxSize)
  {
    if n > 0 {
      assert s[..n][1..] == s[1..][..n - 1];
      PrefixByRecency(s[1..], ops, maxSize, n - 1);
      forall k | Holds(s[1..][..n - 1], k)
        ensures Holds(s[1..], k)
      {
        PrefixHolds(s[1..], n - 1, k);
      }
    }
  }

  /** A further call leaves the order alone for keys it does not use. */
  lemma {:induction false} UnusedByRecency(s: seq<Entry>, ops: seq<Op>, op: Op, maxSize: int)
    requires ByRecency(s, ops, maxSize)
    requires forall k :: Holds(s, k) ==> !Uses(Run(ops, maxSize), op, k)
    ensures ByRecency(s, ops + [op], maxSize)
    ensures forall k :: Holds(s, k) ==> LastUse(ops + [op], k, maxSize) == LastUse(ops, k, maxSize)
  {
    assert (ops + [op])[..|ops|] == ops;
    if s != [] {
      UnusedByRecency(s[1..], ops, op, maxSize);
    }
  }

  /** A used key goes to the front of keys that the same call does not use. */
  lemma UsedToFront(e: Entry, s: seq<Entry>, ops: seq<Op>, op: Op, maxSize: int)
    requires ByRecency(s, ops, maxSize)
    requires Uses(Run(ops, maxSize), op, e.key)
    requires forall k :: Holds(s, k) ==> !Uses(Run(ops, maxSize), op, k)
    ensures ByRecency([e] + s, ops + [op], maxSize)
  {
    assert (ops + [op])[..|ops|] == ops;
    UnusedByRecency(s, ops, op, maxSize);
    assert ([e] + s)[1..] == s;
    assert LastUse(ops + [op], e.key, maxSize) == |ops|;
  }

  /** The list is always ordered by last use, whatever the calls were. */
  lemma {:induction false} AlwaysByRecency(ops: seq<Op>, maxSize: int)
    requires maxSize > 0
    ensures ByRecency(Run(ops, maxSize), ops, maxSize)
  {
    if ops != [] {
      var before, op := ops[..|ops| - 1], ops[|ops| - 1];
      var s := Run(before, maxSize);
      assert before + [op] == ops;
      AlwaysByRecency(before, maxSize);
      RunBounded(before, maxSize);
      StepByRecency(s, before, op, maxSize);
    }
  }

  lemma PutByRecency(s: seq<Entry>, ops: seq<Op>, k: Key, v: Value, expiresAt: int, maxSize: int)
    requires s == Run(ops, maxSize) && Bounded(s, maxSize) && ByRecency(s, ops, maxSize)
    ensures ByRecency(PutResult(s, Entry(k, v, expiresAt), maxSize), ops + [Put(k, v, expiresAt)], maxSize)
  {
    var op, e := Put(k, v, expiresAt), Entry(k, v, expiresAt);
    WithoutByRecency(s, ops, maxSize, k);
    WithoutDropsKey(s, k);
    var t := [e] + Without(s, k);
    UsedToFront(e, Without(s, k), ops, op, maxSize);
    PrefixByRecency(t, ops + [op], maxSize, |t| - 1);
  }

  lemma StepByRecency(s: seq<Entry>, ops: seq<Op>, op: Op, maxSize: int)
    requires s == Run(ops, maxSize) && Bounded(s, maxSize) && ByRecency(s, ops, maxSize)
    ensures ByRecency(Apply(s, op, maxSize), ops + [op], maxSize)
  {
    if op.Get? || op.Has? || op.Delete? {
      WithoutByRecency(s, ops, maxSize, op.key);
      WithoutDropsKey(s, op.key);
    }
    match op
    case Get(k, now) =>
      if Alive(s, k, now) {
        UsedToFront(Find(s, k), Without(s, k), ops, op, maxSize);
      } else {
        UnusedByRecency(Without(s, k), ops, op, maxSize);
      }
    case Has(k, now) =>
      UnusedByRecency(s, ops, op, maxSize);
      UnusedByRecency(Without(s, k), ops, op, maxSize);
    case Put(k, v, expiresAt) => PutByRecency(s, ops, k, v, expiresAt, maxSize);
    case Delete(k) =>
      UnusedByRecency(Without(s, k), ops, op, maxSize);
    case Prune(now) =>
      FreshByRecency(s, ops, maxSize, now);
      UnusedByRecency(Fresh(s, now), ops, op, maxSize);
    case Clear =>
  }

  lemma {:induction false} LastIsLeast(s: seq<Entry>, ops: seq<Op>, maxSize: int, k: Key)
    requires s != [] && ByRecency(s, ops, maxSize) && Holds(s, k) && k != s[|s| - 1].key
    ensures LastUse(ops, s[|s| - 1].key, maxSize) < LastUse(ops, k, maxSize)
    ensures Holds(s, s[|s| - 1].key)
  {
    if s[0].key == k {
      LastIsHeld(s[1..]);
      assert s[1..][|s| - 2] == s[|s| - 1];
    } else {
      LastIsLeast(s[1..], ops, maxSize, k);
    }
  }

  lemma {:induction false} LastIsHeld(s: seq<Entry>)
    requires s != []
    ensures Holds(s, s[|s| - 1].key)
  {
    if |s| > 1 { LastIsHeld(s[1..]); }
  }

  lemma {:induction false} DropLast(s: seq<Entry>, k: Key)
    requires s != [] && DistinctKeys(s)
    ensures Holds(s[..|s| - 1], k) <==> Holds(s, k) && k != s[|s| - 1].key
  {
    if |s| > 1 {
      assert s[..|s| - 1][1..] == s[1..][..|s| - 2];
      DropLast(s[1..], k);
      LastIsHeld(s[1..]);
    }
  }

  /** A new entry in front of a full list pushes out the last one. */
  lemma PutPushesOut(s: seq<Entry>, e: Entry, j: Key)
    requires s != [] && DistinctKeys(s) && !Holds(s, e.key)
    ensures Holds(PutResult(s, e, |s|), j) <==> j == e.key || (Holds(s, j) && j != s[|s| - 1].key)
  {
    WithoutAbsent(s, e.key);
    var t := [e] + s;
    assert t[..|t| - 1] == [e] + s[..|s| - 1] && ([e] + s[..|s| - 1])[1..] == s[..|s| - 1];
    DropLast(s, j);
  }

  /** Writing a new key to a full cache forgets exactly one key, the one used longest ago. */
  lemma EvictsLeastRecentlyUsed(ops: seq<Op>, k: Key, v: Value, expiresAt: int, maxSize: int) returns (victim: Key)
    requires maxSize > 0
    requires !Holds(Run(ops, maxSize), k) && |Run(ops, maxSize)| == maxSize
    ensures Holds(Run(ops, maxSize), victim)
    ensures forall j :: Holds(Run(ops, maxSize), j) && j != victim ==>
              LastUse(ops, victim, maxSize) < LastUse(ops, j, maxSize)
    ensures forall j :: Holds(Run(ops + [Put(k, v, expiresAt)], maxSize), j) <==>
              j == k || (Holds(Run(ops, maxSize), j) && j != victim)
  {
    var s, op, e := Run(ops, maxSize), Put(k, v, expiresAt), Entry(k, v, expiresAt);
    assert (ops + [op])[..|ops|] == ops && Run(ops + [op], maxSize) == PutResult(s, e, maxSize);
    AlwaysByRecency(ops, maxSize);
    RunBounded(ops, maxSize);
    victim := s[|s| - 1].key;
    LastIsHeld(s);
    forall j
      ensures Holds(Run(ops + [op], maxSize), j) <==> j == k || (Holds(s, j) && j != victim)
    {
      PutPushesOut(s, e, j);
    }
    forall j | Holds(s, j) && j != victim
      ensures LastUse(ops, victim, maxSize) < LastUse(ops, j, maxSize)
    {
      LastIsLeast(s, ops, maxSize, j);
    }
  }

  // ---------- The cache is the head of the list of everything used ----------

  ghost function KeysOf(s: seq<Entry>): (ks: seq<Key>)
    ensures |ks| == |s|
    ensures forall k :: Holds(s, k) <==> k in ks
  {
    if s == [] then [] else [s[0].key] + KeysOf(s[1..])
  }

  ghost function Dropped(ks: seq<Key>, k: Key): seq<Key> {
    if ks == [] then []
    else if ks[0] == k then ks[1..]
    else [ks[0]] + Dropped(ks[1..], k)
  }

  /** Every key ever used, most recently used first, with nothing ever forgotten. */
  ghost function Recency(ops: seq<Op>, maxSize: int): seq<Key> {
    if ops == [] then []
    else
      var n := |ops| - 1;
      var r := Recency(ops[..n], maxSize);
      var op := ops[n];
      if (op.Put? || op.Get?) && Uses(Run(ops[..n], maxSize), op, op.key) then [op.key] + Dropped(r, op.key) else r
  }

  ghost function Take(ks: seq<Key>, n: nat): seq<Key> {
    if |ks| <= n then ks else ks[..n]
  }

  /** Reads, membership tests and writes of entries that never expire. */
  ghost predicate Lasting(ops: seq<Op>) {
    forall i :: 0 <= i < |ops| ==>
      ops[i].Get? || ops[i].Has? || (ops[i].Put? && ops[i].expiresAt == 0)
  }

  ghost predicate NoneExpires(s: seq<Entry>) {
    s == [] || (s[0].expiresAt == 0 && NoneExpires(s[1..]))
  }

  lemma {:induction false} NoneExpiresWithout(s: seq<Entry>, k: Key)
    requires NoneExpires(s)
    ensures NoneExpires(Without(s, k))
  {
    if s != [] && s[0].key != k {
      NoneExpiresWithout(s[1..], k);
      assert Without(s, k)[1..] == Without(s[1..], k);
    }
  }

  lemma {:induction false} NoneExpiresPrefix(s: seq<Entry>, n: nat)
    requires NoneExpires(s) && n <= |s|
    ensures NoneExpires(s[..n])
  {
    if n > 0 {
      assert s[..n][1..] == s[1..][..n - 1];
      NoneExpiresPrefix(s[1..], n - 1);
    }
  }

  lemma {:induction false} NoneExpiresFind(s: seq<Entry>, k: Key)
    requires NoneExpires(s) && Holds(s, k)
    ensures Find(s, k).expiresAt == 0
  {
    if s[0].key != k { NoneExpiresFind(s[1..], k); }
  }

  lemma {:induction false} KeysWithout(s: seq<Entry>, k: Key)
    ensures KeysOf(Without(s, k)) == Dropped(KeysOf(s), k)
  {
    if s != [] {
      KeysWithout(s[1..], k);
      assert KeysOf(s)[1..] == KeysOf(s[1..]);
      if s[0].key != k {
        assert Without(s, k)[1..] == Without(s[1..], k);
      }
    }
  }

  lemma {:induction false} KeysPrefix(s: seq<Entry>, n: nat)
    requires n <= |s|
    ensures KeysOf(s[..n]) == KeysOf(s)[..n]
  {
    if n > 0 {
      assert s[..n][1..] == s[1..][..n - 1];
      KeysPrefix(s[1..], n - 1);
      assert KeysOf(s)[1..] == KeysOf(s[1..]);
    }
  }

  /** Moving a key of the retained head to the front keeps the same keys retained. */
  lemma {:induction false} TakeAfterHit(ks: seq<Key>, n: nat, k: Key)
    requires k in Take(ks, n)
    ensures Take([k] + Dropped(ks, k), n) == [k] + Dropped(Take(ks, n), k)
  {
    DroppedLength(ks, k);
    DroppedLength(Take(ks, n), k);
    if |ks| > n {
      DroppedPrefix(ks, n, k);
    }
  }

  lemma {:induction false} DroppedLength(ks: seq<Key>, k: Key)
    ensures |Dropped(ks, k)| == |ks| - if k in ks then 1 else 0
  {
    if ks != [] && ks[0] != k { DroppedLength(ks[1..], k); }
  }

  lemma {:induction false} DroppedPrefix(ks: seq<Key>, n: nat, k: Key)
    requires n <= |ks| && k in ks[..n]
    ensures |Dropped(ks, k)| == |ks| - 1
    ensures Dropped(ks, k)[..n - 1] == Dropped(ks[..n], k)
  {
    assert ks[..n][1..] == ks[1..][..n - 1];
    DroppedLength(ks, k);
    if ks[0] != k {
      DroppedPrefix(ks[1..], n - 1, k);
      assert Dropped(ks, k)[..n - 1] == [ks[0]] + Dropped(ks[1..], k)[..n - 2];
    }
  }

  /** A key outside the retained head displaces the last retained one. */
  lemma {:induction false} TakeAfterMiss(ks: seq<Key>, n: nat, k: Key)
    requires n > 0 && k !in Take(ks, n)
    ensures Take([k] + Dropped(ks, k), n) == Take([k] + Take(ks, n), n)
  {
    DroppedLength(ks, k);
    if |ks| >= n {
      DroppedBeyond(ks, n - 1, k);
    } else {
      DroppedAbsent(ks, k);
    }
  }

  lemma {:induction false} DroppedAbsent(ks: seq<Key>, k: Key)
    requires k !in ks
    ensures Dropped(ks, k) == ks
  {
    if ks != [] { DroppedAbsent(ks[1..], k); }
  }

  lemma {:induction false} DroppedBeyond(ks: seq<Key>, n: nat, k: Key)
    requires n < |ks| && k !in ks[..n + 1]
    ensures n <= |Dropped(ks, k)| && Dropped(ks, k)[..n] == ks[..n]
  {
    DroppedLength(ks, k);
    if n > 0 {
      assert ks[0] == ks[..n + 1][0];
      assert ks[..n + 1][1..] == ks[1..][..n];
      DroppedBeyond(ks[1..], n - 1, k);
      assert Dropped(ks, k)[..n] == [ks[0]] + Dropped(ks[1..], k)[..n - 1];
    }
  }

  /**
   * Without expiry, deletion or clearing, the cache holds exactly the maxSize most
   * recently used keys of the whole history, in order.
   */
  lemma {:induction false} KeepsMostRecentlyUsed(ops: seq<Op>, maxSize: nat)
    requires maxSize > 0 && Lasting(ops)
    ensures KeysOf(Run(ops, maxSize)) == Take(Recency(ops, maxSize), maxSize)
    ensures NoneExpires(Run(ops, maxSize))
  {
    if ops != [] {
      var n := |ops| - 1;
      var s, op, r := Run(ops[..n], maxSize), ops[n], Recency(ops[..n], maxSize);
      KeepsMostRecentlyUsed(ops[..n], maxSize);
      RunBounded(ops[..n], maxSize);
      WithoutMissing(s, op.key);
      if Holds(s, op.key) { NoneExpiresFind(s, op.key); }
      if op.Put? || (op.Get? && Holds(s, op.key)) {
        UseKeepsHead(s, if op.Put? then Entry(op.key, op.value, 0) else Find(s, op.key), r, maxSize);
      }
    }
  }

  lemma WithoutMissing(s: seq<Entry>, k: Key)
    ensures !Holds(s, k) ==> Without(s, k) == s
  {
    if !Holds(s, k) { WithoutAbsent(s, k); }
  }

  lemma UseKeepsHead(s: seq<Entry>, e: Entry, r: seq<Key>, maxSize: nat)
    requires maxSize > 0 && Bounded(s, maxSize) && NoneExpires(s) && e.expiresAt == 0
    requires KeysOf(s) == Take(r, maxSize)
    ensures KeysOf(PutResult(s, e, maxSize)) == Take([e.key] + Dropped(r, e.key), maxSize)
    ensures NoneExpires(PutResult(s, e, maxSize))
    ensures Holds(s, e.key) ==> PutResult(s, e, maxSize) == [e] + Without(s, e.key)
  {
    var t := [e] + Without(s, e.key);
    assert t[1..] == Without(s, e.key);
    NoneExpiresWithout(s, e.key);
    NoneExpiresPrefix(t, |t| - 1);
    KeysWithout(s, e.key);
    KeysPrefix(t, |t| - 1);
    assert KeysOf(t) == [e.key] + Dropped(KeysOf(s), e.key);
    if Holds(s, e.key) {
      TakeAfterHit(r, maxSize, e.key);
    } else {
      TakeAfterMiss(r, maxSize, e.key);
      DroppedAbsent(KeysOf(s), e.key);
    }
  }

  // ---------- How long an entry lives ----------

  /** The calls of the cache with the times at which they are made. */
  datatype Call =
    | Write(key: Key, value: Value, ttlMs: Option<int>, at: int)
    | Read(key: Key, at: int)
    | Test(key: Key, at: int)
    | Remove(key: Key, at: int)
    | Sweep(at: int)
    | Empty(at: int)

  ghost function OpOf(c: Call, defaultTtlMs: int): Op {
    match c
    case Write(k, v, ttlMs, at) => Put(k, v, ExpiryFor(ttlMs, defaultTtlMs, at))
    case Read(k, at) => Get(k, at)
    case Test(k, at) => Has(k, at)
    case Remove(k, at) => Delete(k)
    case Sweep(at) => Prune(at)
    case Empty(at) => Clear
  }

  ghost function AfterCalls(calls: seq<Call>, defaultTtlMs: int, maxSize: int): seq<Entry> {
    if calls == [] then []
    else Apply(AfterCalls(calls[..|calls| - 1], defaultTtlMs, maxSize), OpOf(calls[|calls| - 1], defaultTtlMs), maxSize)
  }

  /** Time does not go back, up to now. */
  ghost predicate Timed(calls: seq<Call>, now: int) {
    calls != [] ==> calls[|calls| - 1].at <= now && Timed(calls[..|calls| - 1], calls[|calls| - 1].at)
  }

  /** The call writes or removes the key, empties the cache, or pushes out the key as the last of a full cache. */
  ghost predicate Touches(s: seq<Entry>, c: Call, k: Key, maxSize: int) {
    || ((c.Write? || c.Remove?) && c.key == k) || c.Empty?
    || (c.Write? && !Holds(s, c.key) && |s| == maxSize && s != [] && s[|s| - 1].key == k)
  }

  /** Since the n-th call no call has touched the key. */
  ghost predicate LeftAlone(calls: seq<Call>, n: nat, k: Key, defaultTtlMs: int, maxSize: int)
    requires n < |calls|
    decreases |calls|
  {
    |calls| > n + 1 ==>
      var front := calls[..|calls| - 1];
      !Touches(AfterCalls(front, defaultTtlMs, maxSize), calls[|calls| - 1], k, maxSize)
      && LeftAlone(front, n, k, defaultTtlMs, maxSize)
  }

  /** The time to live a write asks for, or else that of the cache; none if it is not positive. */
  ghost function LifeOf(c: Call, defaultTtlMs: int): int
    requires c.Write?
  {
    match c.ttlMs
    case None => defaultTtlMs
    case Some(ms) => ms
  }

  /** The written value is still to be served: it lives for its time, or for ever; an expiry at time 0 stands for never. */
  ghost predicate StillLives(c: Call, defaultTtlMs: int, now: int)
    requires c.Write?
  {
    var life := LifeOf(c, defaultTtlMs);
    life <= 0 || now < c.at + life || c.at + life == 0
  }

  lemma {:induction false} PrefixFind(s: seq<Entry>, n: nat, k: Key)
    requires n <= |s| && Holds(s[..n], k)
    ensures Holds(s, k) && Find(s[..n], k) == Find(s, k)
  {
    assert s[..n][1..] == s[1..][..n - 1];
    if s[0].key != k { PrefixFind(s[1..], n - 1, k); }
  }

  lemma {:induction false} FreshFind(s: seq<Entry>, now: int, k: Key)
    requires DistinctKeys(s)
    ensures Holds(Fresh(s, now), k) <==> Alive(s, k, now)
    ensures Holds(Fresh(s, now), k) ==> Find(Fresh(s, now), k) == Find(s, k)
  {
    if s != [] {
      FreshFind(s[1..], now, k);
      if !Expired(s[0].expiresAt, now) { assert Fresh(s, now)[1..] == Fresh(s[1..], now); }
    }
  }

  lemma FoundInFront(e: Entry, s: seq<Entry>, k: Key)
    ensures Holds([e] + s, k) <==> e.key == k || Holds(s, k)
    ensures Holds([e] + s, k) ==> Find([e] + s, k) == if e.key == k then e else Find(s, k)
  {
    assert ([e] + s)[1..] == s;
  }

  /** The entry of the key, if it has one. */
  ghost function EntryOf(s: seq<Entry>, k: Key): Option<Entry> {
    if Holds(s, k) then Some(Find(s, k)) else None
  }

  /** A call that leaves the key alone keeps its entry, or drops it when it has expired by then. */
  ghost predicate KeepsOrDrops(s: seq<Entry>, t: seq<Entry>, k: Key, at: int) {
    || EntryOf(t, k) == EntryOf(s, k)
    || (EntryOf(t, k) == None && Holds(s, k) && Expired(Find(s, k).expiresAt, at))
  }

  lemma WithoutEntry(s: seq<Entry>, j: Key, k: Key)
    requires DistinctKeys(s)
    ensures EntryOf(Without(s, j), k) == if j == k then None else EntryOf(s, k)
  {
    WithoutDropsKey(s, j);
    if j != k && Holds(s, k) { WithoutKeepsEntries(s, j, k); }
  }

  lemma FrontKeeps(e: Entry, s: seq<Entry>, k: Key)
    requires e.key != k
    ensures EntryOf([e] + s, k) == EntryOf(s, k)
  {
    FoundInFront(e, s, k);
  }

  lemma DropKeeps(s: seq<Entry>, k: Key)
    requires s != [] && DistinctKeys(s) && s[|s| - 1].key != k
    ensures EntryOf(s[..|s| - 1], k) == EntryOf(s, k)
  {
    DropLast(s, k);
    if Holds(s[..|s| - 1], k) { PrefixFind(s, |s| - 1, k); }
  }

  lemma WriteNewKeeps(s: seq<Entry>, e: Entry, k: Key, maxSize: int)
    requires Bounded(s, maxSize) && maxSize > 0 && e.key != k && !Holds(s, e.key)
    requires |s| < maxSize || s == [] || s[|s| - 1].key != k
    ensures EntryOf(PutResult(s, e, maxSize), k) == EntryOf(s, k)
  {
    WithoutAbsent(s, e.key);
    if |s| < maxSize {
      FrontKeeps(e, s, k);
    } else {
      assert ([e] + s)[..|s|] == [e] + s[..|s| - 1];
      FrontKeeps(e, s[..|s| - 1], k);
      DropKeeps(s, k);
    }
  }

  lemma WriteKeeps(s: seq<Entry>, e: Entry, k: Key, maxSize: int)
    requires Bounded(s, maxSize) && maxSize > 0 && e.key != k
    requires Holds(s, e.key) || |s| < maxSize || s == [] || s[|s| - 1].key != k
    ensures EntryOf(PutResult(s, e, maxSize), k) == EntryOf(s, k)
  {
    if Holds(s, e.key) {
      WithoutEntry(s, e.key, k);
      FrontKeeps(e, Without(s, e.key), k);
    } else {
      WriteNewKeeps(s, e, k, maxSize);
    }
  }

  lemma StepKeeps(s: seq<Entry>, c: Call, k: Key, defaultTtlMs: int, maxSize: int)
    requires Bounded(s, maxSize) && maxSize > 0 && !Touches(s, c, k, maxSize)
    ensures KeepsOrDrops(s, Apply(s, OpOf(c, defaultTtlMs), maxSize), k, c.at)
  {
    match c
    case Write(j, v, ttlMs, at) => WriteKeeps(s, Entry(j, v, ExpiryFor(ttlMs, defaultTtlMs, at)), k, maxSize);
    case Read(j, at) =>
      WithoutEntry(s, j, k);
      if Alive(s, j, at) { FoundInFront(Find(s, j), Without(s, j), k); }
    case Test(j, at) => WithoutEntry(s, j, k);
    case Remove(j, at) => WithoutEntry(s, j, k);
    case Sweep(at) => FreshFind(s, at, k);
    case Empty(at) =>
  }

  lemma {:induction false} CallsBounded(calls: seq<Call>, defaultTtlMs: int, maxSize: int)
    requires maxSize > 0
    ensures Bounded(AfterCalls(calls, defaultTtlMs, maxSize), maxSize)
  {
    if calls != [] {
      CallsBounded(calls[..|calls| - 1], defaultTtlMs, maxSize);
      ApplyBounded(AfterCalls(calls[..|calls| - 1], defaultTtlMs, maxSize), OpOf(calls[|calls| - 1], defaultTtlMs), maxSize);
    }
  }

  /** The key has the written entry, or lost it to its expiry by some time up to now. */
  ghost predicate WrittenOrExpired(s: seq<Entry>, e: Entry, now: int) {
    EntryOf(s, e.key) == Some(e) || (EntryOf(s, e.key) == None && Expired(e.expiresAt, now))
  }

  lemma {:induction false} WrittenEntryStays(calls: seq<Call>, n: nat, defaultTtlMs: int, maxSize: int, now: int)
    requires maxSize > 0 && n < |calls| && calls[n].Write? && Timed(calls, now)
    requires LeftAlone(calls, n, calls[n].key, defaultTtlMs, maxSize)
    ensures var e := Entry(calls[n].key, calls[n].value, ExpiryFor(calls[n].ttlMs, defaultTtlMs, calls[n].at));
            WrittenOrExpired(AfterCalls(calls, defaultTtlMs, maxSize), e, now)
    decreases |calls|
  {
    var front, c := calls[..|calls| - 1], calls[|calls| - 1];
    var s := AfterCalls(front, defaultTtlMs, maxSize);
    CallsBounded(front, defaultTtlMs, maxSize);
    if |calls| == n + 1 {
      var e := Entry(c.key, c.value, ExpiryFor(c.ttlMs, defaultTtlMs, c.at));
      var t := [e] + Without(s, e.key);
      FoundInFront(e, Without(s, e.key), e.key);
      WithoutDropsKey(s, e.key);
      if !Holds(s, e.key) && |t| > maxSize {
        assert t[..|t| - 1] == [e] + Without(s, e.key)[..|t| - 2];
        FoundInFront(e, Without(s, e.key)[..|t| - 2], e.key);
      }
    } else {
      WrittenEntryStays(front, n, defaultTtlMs, maxSize, c.at);
      StepKeeps(s, c, calls[n].key, defaultTtlMs, maxSize);
    }
  }

  /**
   * In every run: when nothing has written, removed or pushed out the key since
   * a write, it is found at a later time, with the written value, exactly while
   * the write's time to live (its own, or else that of the cache) lasts.  A
   * read or test that does not find it, and a sweep, remove it.
   */
  lemma LivesForItsTtl(calls: seq<Call>, n: nat, defaultTtlMs: int, maxSize: int, now: int)
    requires maxSize > 0 && n < |calls| && calls[n].Write? && Timed(calls, now)
    requires LeftAlone(calls, n, calls[n].key, defaultTtlMs, maxSize)
    ensures var s, k, lives := AfterCalls(calls, defaultTtlMs, maxSize), calls[n].key, StillLives(calls[n], defaultTtlMs, now);
            && (Alive(s, k, now) <==> lives)
            && (lives ==> Find(s, k).value == calls[n].value)
            && (Holds(GetResult(s, k, now), k) <==> lives)
            && (Holds(HasResult(s, k, now), k) <==> lives)
            && (Holds(Fresh(s, now), k) <==> lives)
  {
    var s, k := AfterCalls(calls, defaultTtlMs, maxSize), calls[n].key;
    CallsBounded(calls, defaultTtlMs, maxSize);
    WrittenEntryStays(calls, n, defaultTtlMs, maxSize, now);
    FreshFind(s, now, k);
    WithoutDropsKey(s, k);
    if Alive(s, k, now) { FoundInFront(Find(s, k), Without(s, k), k); }
  }
}
