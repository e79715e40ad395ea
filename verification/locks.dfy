/** packages/runtime/src/resilience/lock.ts: leases with fresh tokens in a single process. */
module Locks {
  import opened Basics

  type Key(==, !new)

  /** Tokens are numbered in the order they are drawn, so each is new. */
  datatype Lease = Lease(token: nat, expiresAt: int)

  /** What the holder of a handle knows: its key, and until when it was last told to hold the lock (None once released). */
  datatype Handle = Handle(key: Key, until: Option<int>)

  datatype World = World(locks: map<Key, Lease>, handles: map<nat, Handle>, drawn: nat, clock: int)

  const START: World := World(map[], map[], 0, 0)

  datatype Event =
    | Acquire(key: Key, ttlMs: int, at: int)
    | Extend(token: nat, ttlMs: int, at: int)
    | Release(token: nat, at: int)
    | Prune(at: int)

  ghost predicate Possible(w: World, e: Event) {
    w.clock <= e.at && (e.Extend? ==> e.token in w.handles) && (e.Release? ==> e.token in w.handles)
  }

  function Granted(locks: map<Key, Lease>, key: Key, at: int): bool {
    !(key in locks && locks[key].expiresAt > at)
  }

  /** The lock still carries the token of the handle. */
  function Owned(locks: map<Key, Lease>, key: Key, token: nat): bool {
    key in locks && locks[key].token == token
  }

  ghost function Pruned(locks: map<Key, Lease>, at: int): map<Key, Lease> {
    map key | key in locks && locks[key].expiresAt > at :: locks[key]
  }

  ghost function Step(w: World, e: Event): World
    requires Possible(w, e)
  {
    match e
    case Acquire(key, ttlMs, at) =>
      if Granted(w.locks, key, at) then
        World(w.locks[key := Lease(w.drawn, at + ttlMs)], w.handles[w.drawn := Handle(key, Some(at + ttlMs))], w.drawn + 1, at)
      else w.(clock := at)
    case Extend(token, ttlMs, at) =>
      var h := w.handles[token];
      if Owned(w.locks, h.key, token) then
        World(w.locks[h.key := Lease(token, at + ttlMs)], w.handles[token := h.(until := Some(at + ttlMs))], w.drawn, at)
      else w.(handles := w.handles[token := h.(until := None)], clock := at)
    case Release(token, at) =>
      var h := w.handles[token];
      var rest := if Owned(w.locks, h.key, token) then w.locks - {h.key} else w.locks;
      World(rest, w.handles[token := h.(until := None)], w.drawn, at)
    case Prune(at) => w.(locks := Pruned(w.locks, at), clock := at)
  }

  ghost predicate Path(from: World, events: seq<Event>, to: World)
    decreases |events|
  {
    if events == [] then from == to
    else
      var n := |events| - 1;
      exists v :: Path(from, events[..n], v) && Possible(v, events[n]) && to == Step(v, events[n])
  }

  /** Going by what it was last told, the holder has the lock now. */
  ghost predicate Believes(w: World, token: nat, key: Key) {
    token in w.handles && w.handles[token].key == key
    && w.handles[token].until.Some? && w.handles[token].until.value > w.clock
  }

  /** A belief is right: the lock carries the token and the lease the holder was told of. */
  ghost predicate BeliefAt(w: World, token: nat) {
    && (token in w.handles ==> token < w.drawn)
    && (token in w.handles && w.handles[token].until.Some? && w.handles[token].until.value > w.clock ==>
          && Owned(w.locks, w.handles[token].key, token)
          && w.locks[w.handles[token].key].expiresAt == w.handles[token].until.value)
  }

  /** A lease is known to its holder. */
  ghost predicate LeaseAt(w: World, key: Key) {
    key in w.locks ==> w.locks[key].token in w.handles
                       && w.handles[w.locks[key].token] == Handle(key, Some(w.locks[key].expiresAt))
  }

  ghost predicate Sound(w: World) {
    && (forall token {:trigger BeliefAt(w, token)} :: BeliefAt(w, token))
    && (forall key {:trigger LeaseAt(w, key)} :: LeaseAt(w, key))
  }

  lemma StepSound(w: World, e: Event)
    requires Sound(w) && Possible(w, e)
    ensures Sound(Step(w, e))
  {
    var v := Step(w, e);
    assert BeliefAt(w, w.drawn);
    if e.Extend? || e.Release? { assert LeaseAt(w, w.handles[e.token].key) && BeliefAt(w, e.token); }
    if e.Acquire? { assert LeaseAt(w, e.key); }
    forall token ensures BeliefAt(v, token) { assert BeliefAt(w, token); }
    forall key ensures LeaseAt(v, key) { assert LeaseAt(w, key); }
  }

  lemma {:induction false} PathSound(from: World, events: seq<Event>, to: World)
    requires Sound(from) && Path(from, events, to)
    ensures Sound(to) && from.clock <= to.clock
    decreases |events|
  {
    if events != [] {
      var n := |events| - 1;
      var v :| Path(from, events[..n], v) && Possible(v, events[n]) && to == Step(v, events[n]);
      PathSound(from, events[..n], v);
      StepSound(v, events[n]);
    }
  }

  /** In every run, no two holders can believe at the same time that they have the lock of a key. */
  lemma MutualExclusion(events: seq<Event>, w: World, key: Key, a: nat, b: nat)
    requires Path(START, events, w) && Believes(w, a, key) && Believes(w, b, key)
    ensures a == b && !Granted(w.locks, key, w.clock)
  {
    forall token ensures BeliefAt(START, token) {}
    forall k ensures LeaseAt(START, k) {}
    PathSound(START, events, w);
    assert BeliefAt(w, a) && BeliefAt(w, b);
  }

  /** Going by what it was last told, the holder will still have the lock at that time. */
  ghost predicate HoldsUntilAfter(w: World, token: nat, key: Key, at: int) {
    token in w.handles && w.handles[token].key == key
    && w.handles[token].until.Some? && w.handles[token].until.value > at
  }

  /**
   * In every run, a lock is granted exactly when nobody has been told to hold
   * it any longer; the one to whom it is granted is told to hold it for the
   * time to live, and owns it.
   */
  lemma GrantedExactly(events: seq<Event>, w: World, key: Key, ttlMs: int, at: int)
    requires Path(START, events, w) && w.clock <= at
    ensures var v := Step(w, Acquire(key, ttlMs, at));
            if exists token :: HoldsUntilAfter(w, token, key, at) then v.handles == w.handles && v.locks == w.locks
            else w.drawn !in w.handles && v.handles == w.handles[w.drawn := Handle(key, Some(at + ttlMs))]
                 && Owned(v.locks, key, w.drawn)
  {
    forall token ensures BeliefAt(START, token) {}
    forall k ensures LeaseAt(START, k) {}
    PathSound(START, events, w);
    assert LeaseAt(w, key) && BeliefAt(w, w.drawn);
    if key in w.locks && w.locks[key].expiresAt > at { assert HoldsUntilAfter(w, w.locks[key].token, key, at); }
    forall token | HoldsUntilAfter(w, token, key, at) ensures key in w.locks && w.locks[key].expiresAt > at {
      assert BeliefAt(w, token);
    }
  }

  /**
   * In every run, extending succeeds exactly when the lock still carries the
   * token, which it does at least as long as the holder has been told; the
   * holder is then told to hold it for the new time to live.  Releasing ends
   * that, and frees the lock if it was owned.
   */
  lemma HoldersCanExtendAndRelease(events: seq<Event>, w: World, token: nat, key: Key, ttlMs: int, at: int)
    requires Path(START, events, w) && w.clock <= at && HoldsUntilAfter(w, token, key, at)
    ensures var v := Step(w, Extend(token, ttlMs, at));
            Owned(v.locks, key, token) && v.handles == w.handles[token := Handle(key, Some(at + ttlMs))]
    ensures var v := Step(w, Release(token, at));
            v.handles == w.handles[token := Handle(key, None)] && Granted(v.locks, key, at)
  {
    forall t ensures BeliefAt(START, t) {}
    forall k ensures LeaseAt(START, k) {}
    PathSound(START, events, w);
    assert BeliefAt(w, token);
  }

  /** The lock of the key has not carried the token since another one took it over. */
  ghost predicate Lost(w: World, token: nat) {
    token in w.handles && token < w.drawn && !Owned(w.locks, w.handles[token].key, token)
  }

  lemma StepKeepsLost(w: World, e: Event, token: nat)
    requires Possible(w, e) && Lost(w, token)
    ensures Lost(Step(w, e), token) && Step(w, e).handles[token].key == w.handles[token].key
  {
  }

  /** A lock once lost is never got back with the same token, so extend answers false for good. */
  lemma {:induction false} LostForGood(from: World, events: seq<Event>, to: World, token: nat)
    requires Path(from, events, to) && Lost(from, token)
    ensures Lost(to, token) && to.handles[token].key == from.handles[token].key
    decreases |events|
  {
    if events != [] {
      var n := |events| - 1;
      var v :| Path(from, events[..n], v) && Possible(v, events[n]) && to == Step(v, events[n]);
      LostForGood(from, events[..n], v, token);
      StepKeepsLost(v, events[n], token);
    }
  }

  /** So whatever happens after it was lost, extending or releasing with that token leaves every lock alone. */
  lemma StaleTokensAreHarmless(from: World, events: seq<Event>, to: World, token: nat, e: Event)
    requires Path(from, events, to) && Lost(from, token) && Possible(to, e)
    requires (e.Extend? || e.Release?) && e.token == token
    ensures Step(to, e).locks == to.locks
  {
    LostForGood(from, events, to, token);
  }

  /** Once a lock is granted again no older handle of its key ever owns it, so an extend that succeeds proves that nobody else was granted it since. */
  lemma AGrantEndsOlderHandles(from: World, events: seq<Event>, to: World, token: nat, key: Key, ttlMs: int, at: int)
    requires Sound(from) && token in from.handles && from.handles[token].key == key
    requires Possible(from, Acquire(key, ttlMs, at)) && Granted(from.locks, key, at)
    requires Path(Step(from, Acquire(key, ttlMs, at)), events, to)
    ensures token in to.handles && !Owned(to.locks, key, token)
  {
    var v := Step(from, Acquire(key, ttlMs, at));
    assert BeliefAt(from, token);
    LostForGood(v, events, to, token);
  }

  // ---------- The provider ----------

  class MemoryLockProvider {
    var locks: map<Key, Lease>

    constructor ()
      ensures locks == map[]
    {
      locks := map[];
    }

    method AcquireLock(ghost w: World, key: Key, token: nat, now: int, ttlMs: int := 30000) returns (granted: bool)
      requires locks == w.locks && token == w.drawn && Possible(w, Acquire(key, ttlMs, now))
      modifies this
      ensures locks == Step(w, Acquire(key, ttlMs, now)).locks
      ensures granted <==> Step(w, Acquire(key, ttlMs, now)).drawn == token + 1
      ensures granted ==> locks == old(locks)[key := Lease(token, now + ttlMs)]
    {
      if key in locks && locks[key].expiresAt > now { return false; }
      locks := locks[key := Lease(token, now + ttlMs)];
      granted := true;
    }

    method ExtendLock(ghost w: World, key: Key, token: nat, now: int, ttlMs: int) returns (extended: bool)
      requires locks == w.locks && Possible(w, Extend(token, ttlMs, now)) && w.handles[token].key == key
      modifies this
      ensures locks == Step(w, Extend(token, ttlMs, now)).locks
      ensures extended <==> Step(w, Extend(token, ttlMs, now)).handles[token].until == Some(now + ttlMs)
    {
      if key !in locks || locks[key].token != token { return false; }
      locks := locks[key := Lease(token, now + ttlMs)];
      extended := true;
    }

    method ReleaseLock(ghost w: World, key: Key, token: nat, now: int)
      requires locks == w.locks && Possible(w, Release(token, now)) && w.handles[token].key == key
      modifies this
      ensures locks == Step(w, Release(token, now)).locks
    {
      if key in locks && locks[key].token == token { locks := locks - {key}; }
    }
  }
}
