/**
 * packages/runtime/src/cache/cache-service.ts: concurrent callers of getOrSet
 * share one load.  Each function is one stretch of code between two awaits.
 */
module SingleFlights {
  import opened Basics

  type Key(==, !new)

  type Value(==, !new)

  /** How a load-and-store task ends; it fails too if storing the loaded value fails. */
  datatype Outcome = Returned(value: Value) | Failed(error: nat)

  /** A task calls the loader for a key and then may store what it returned. */
  datatype Task = Loading(key: Key) | Storing(key: Key, value: Value)

  /**
   * inFlight is the map of the cache service; tasks are numbered in the order
   * they were started; joined tells which task a caller of getOrSet waits for.
   */
  datatype World = World(
    inFlight: map<Key, nat>,
    running: map<nat, Task>,
    settled: map<nat, Outcome>,
    joined: map<nat, nat>,
    keyOf: map<nat, Key>,
    started: nat)

  const EMPTY: World := World(map[], map[], map[], map[], map[], 0)

  datatype Event =
    | Missed(caller: nat, key: Key)                   // a caller found nothing cached, and its loader is asynchronous
    | MissedThrowing(caller: nat, key: Key, error: nat) // the same, with a loader that throws before it returns a promise
    | Loaded(task: nat, outcome: Outcome, store: bool)  // a loader ends; store: its value is to be cached
    | Stored(task: nat, failure: Option<nat>)           // storing ends
    | Deleted(key: Key)                                 // delete(key) reaches the in-flight map

  ghost predicate Possible(w: World, e: Event) {
    match e
    case Missed(caller, key) => caller !in w.joined
    case MissedThrowing(caller, key, error) => caller !in w.joined
    case Loaded(task, outcome, store) => task in w.running && w.running[task].Loading? && (store ==> outcome.Returned?)
    case Stored(task, failure) => task in w.running && w.running[task].Storing?
    case Deleted(key) => true
  }

  // ---------- Steps ----------

  ghost function Join(w: World, caller: nat, task: nat): World {
    w.(joined := w.joined[caller := task])
  }

  /** A task starts: it runs, and the caller's promise is put into the map. */
  ghost function Start(w: World, key: Key): World {
    w.(inFlight := w.inFlight[key := w.started], running := w.running[w.started := Loading(key)],
       keyOf := w.keyOf[w.started := key], started := w.started + 1)
  }

  /** A loader that throws at once: the task is over, and has cleared the map, before its promise is put there. */
  ghost function StartThrowing(w: World, key: Key, error: nat): World {
    w.(inFlight := (w.inFlight - {key})[key := w.started], settled := w.settled[w.started := Failed(error)],
       keyOf := w.keyOf[w.started := key], started := w.started + 1)
  }

  /** The end of a task: the finally clause clears the entry of its key. */
  ghost function Settle(w: World, task: nat, outcome: Outcome): World
    requires task in w.running
  {
    w.(inFlight := w.inFlight - {w.running[task].key}, running := w.running - {task}, settled := w.settled[task := outcome])
  }

  ghost function Step(w: World, e: Event): World
    requires Possible(w, e)
  {
    match e
    case Missed(caller, key) =>
      if key in w.inFlight then Join(w, caller, w.inFlight[key]) else Join(Start(w, key), caller, w.started)
    case MissedThrowing(caller, key, error) =>
      if key in w.inFlight then Join(w, caller, w.inFlight[key]) else Join(StartThrowing(w, key, error), caller, w.started)
    case Loaded(task, outcome, store) =>
      if store then w.(running := w.running[task := Storing(w.running[task].key, outcome.value)]) else Settle(w, task, outcome)
    case Stored(task, failure) =>
      Settle(w, task, if failure.Some? then Failed(failure.value) else Returned(w.running[task].value))
    case Deleted(key) => w.(inFlight := w.inFlight - {key})
  }

  /** Event i leads from world i to world i + 1. */
  ghost predicate Leads(events: seq<Event>, worlds: seq<World>, i: nat)
    requires i < |events| && |worlds| == |events| + 1
  {
    Possible(worlds[i], events[i]) && worlds[i + 1] == Step(worlds[i], events[i])
  }

  /** An interleaving, with all the worlds it passes through. */
  ghost predicate Run(events: seq<Event>, worlds: seq<World>) {
    |worlds| == |events| + 1 && forall i {:trigger Leads(events, worlds, i)} :: 0 <= i < |events| ==> Leads(events, worlds, i)
  }

  // ---------- One load per key ----------

  /** The key is deleted under a running load, or a loader that throws at once is called for it. */
  ghost predicate Breaks(w: World, e: Event, key: Key) {
    (e.Deleted? && e.key == key && key in w.inFlight) || (e.MissedThrowing? && e.key == key && key !in w.inFlight)
  }

  /** A running task of the key is the one in the map. */
  ghost predicate InMap(w: World, key: Key, task: nat) {
    task in w.running && w.running[task].key == key ==> key in w.inFlight && w.inFlight[key] == task
  }

  /** The map has an entry for the key exactly while a task for it runs, and then only that one runs. */
  ghost predicate OneFlight(w: World, key: Key) {
    && (key in w.inFlight ==> w.inFlight[key] in w.running && w.running[w.inFlight[key]].key == key)
    && (forall task {:trigger InMap(w, key, task)} :: InMap(w, key, task))
  }

  ghost predicate TaskKnown(w: World, task: nat) {
    (task in w.running || task in w.settled ==> task < w.started && task in w.keyOf)
    && (task in w.running ==> task !in w.settled && w.keyOf[task] == w.running[task].key)
  }

  ghost predicate CallerWaits(w: World, caller: nat) {
    caller in w.joined ==> w.joined[caller] in w.running || w.joined[caller] in w.settled
  }

  ghost predicate EntryKnown(w: World, key: Key) {
    key in w.inFlight ==>
      && (w.inFlight[key] in w.running || w.inFlight[key] in w.settled)
      && w.inFlight[key] in w.keyOf && w.keyOf[w.inFlight[key]] == key
  }

  /** Tasks are running or settled, never both; every caller waits for one; every entry of the map is one. */
  ghost predicate Sound(w: World) {
    && (forall task {:trigger TaskKnown(w, task)} :: TaskKnown(w, task))
    && (forall caller {:trigger CallerWaits(w, caller)} :: CallerWaits(w, caller))
    && (forall key {:trigger EntryKnown(w, key)} :: EntryKnown(w, key))
  }

  lemma StepSound(w: World, e: Event)
    requires Sound(w) && Possible(w, e)
    ensures Sound(Step(w, e))
  {
    var v := Step(w, e);
    assert TaskKnown(w, w.started);
    if e.Missed? || e.MissedThrowing? { assert EntryKnown(w, e.key); }
    if e.Loaded? || e.Stored? { assert TaskKnown(w, e.task); }
    forall task ensures TaskKnown(v, task) { assert TaskKnown(w, task); }
    forall caller ensures CallerWaits(v, caller) { assert CallerWaits(w, caller); }
    forall key ensures EntryKnown(v, key) { assert EntryKnown(w, key); }
  }

  lemma StepKeepsOneFlight(w: World, e: Event, key: Key)
    requires Sound(w) && OneFlight(w, key) && Possible(w, e) && !Breaks(w, e, key)
    ensures OneFlight(Step(w, e), key)
  {
    var v := Step(w, e);
    assert TaskKnown(w, w.started);
    if e.Loaded? || e.Stored? { assert InMap(w, key, e.task); }
    forall task ensures InMap(v, key, task) { assert InMap(w, key, task); }
    if key in w.inFlight { assert InMap(w, key, w.inFlight[key]); }
  }

  /** One step keeps the flight of the key single exactly if it does not break it. */
  lemma StepOneFlight(w: World, e: Event, key: Key)
    requires Sound(w) && OneFlight(w, key) && Possible(w, e)
    ensures OneFlight(Step(w, e), key) <==> !Breaks(w, e, key)
  {
    if !Breaks(w, e, key) {
      StepKeepsOneFlight(w, e, key);
    } else if e.Deleted? {
      assert !InMap(Step(w, e), key, w.inFlight[key]);
    } else {
      assert TaskKnown(w, w.started);
    }
  }

  lemma {:induction false} RunSound(events: seq<Event>, worlds: seq<World>, i: nat)
    requires Run(events, worlds) && Sound(worlds[0]) && i <= |events|
    ensures Sound(worlds[i])
  {
    if i > 0 {
      RunSound(events, worlds, i - 1);
      assert Leads(events, worlds, i - 1);
      StepSound(worlds[i - 1], events[i - 1]);
    }
  }

  lemma EmptyIsSound(key: Key)
    ensures Sound(EMPTY) && OneFlight(EMPTY, key)
  {
  }

  ghost predicate BreaksAt(events: seq<Event>, worlds: seq<World>, key: Key, i: nat)
    requires i < |events| <= |worlds|
  {
    Breaks(worlds[i], events[i], key)
  }

  /** The map has an entry for the key exactly while its only load runs, in the first n + 1 worlds. */
  ghost predicate OneFlightUpTo(worlds: seq<World>, key: Key, n: nat)
    requires n < |worlds|
  {
    forall i {:trigger worlds[i]} :: 0 <= i <= n ==> OneFlight(worlds[i], key)
  }

  lemma {:induction false} OneFlightUpToExactly(events: seq<Event>, worlds: seq<World>, key: Key, n: nat)
    requires Run(events, worlds) && worlds[0] == EMPTY && n <= |events|
    ensures OneFlightUpTo(worlds, key, n) <==> forall i {:trigger BreaksAt(events, worlds, key, i)} :: 0 <= i < n ==> !BreaksAt(events, worlds, key, i)
  {
    EmptyIsSound(key);
    if n > 0 {
      OneFlightUpToExactly(events, worlds, key, n - 1);
      RunSound(events, worlds, n - 1);
      assert Leads(events, worlds, n - 1);
      if OneFlightUpTo(worlds, key, n - 1) {
        StepOneFlight(worlds[n - 1], events[n - 1], key);
        assert BreaksAt(events, worlds, key, n - 1) <==> Breaks(worlds[n - 1], events[n - 1], key);
      } else {
        assert !OneFlightUpTo(worlds, key, n);
      }
    }
  }

  /**
   * In every interleaving, for every key: throughout it at most one load of
   * the key runs at a time, and the in-flight map has an entry for it exactly
   * while one does, also after failures, if and only if no step deletes the
   * key under a running load or calls a loader for it that throws at once.
   */
  lemma OneLoadAtATime(events: seq<Event>, worlds: seq<World>, key: Key)
    requires Run(events, worlds) && worlds[0] == EMPTY
    ensures OneFlightUpTo(worlds, key, |events|) <==>
              forall i {:trigger BreaksAt(events, worlds, key, i)} :: 0 <= i < |events| ==> !BreaksAt(events, worlds, key, i)
  {
    OneFlightUpToExactly(events, worlds, key, |events|);
  }

  // ---------- What callers get ----------

  /** What a caller that waits for a task has got so far. */
  ghost function Result(w: World, caller: nat): Option<Outcome> {
    if caller in w.joined && w.joined[caller] in w.settled then Some(w.settled[w.joined[caller]]) else None
  }

  lemma StepKeepsSettled(w: World, e: Event, task: nat)
    requires Sound(w) && Possible(w, e) && task in w.settled
    ensures task in Step(w, e).settled && Step(w, e).settled[task] == w.settled[task]
  {
    assert TaskKnown(w, task);
  }

  lemma StepKeepsJoined(w: World, e: Event, caller: nat)
    requires Possible(w, e) && caller in w.joined
    ensures caller in Step(w, e).joined && Step(w, e).joined[caller] == w.joined[caller]
  {
  }

  lemma {:induction false} SettledForGood(events: seq<Event>, worlds: seq<World>, n: nat, caller: nat)
    requires Run(events, worlds) && Sound(worlds[0]) && n <= |events| && caller in worlds[0].joined
    ensures caller in worlds[n].joined && worlds[n].joined[caller] == worlds[0].joined[caller]
    ensures Result(worlds[0], caller).Some? ==> Result(worlds[n], caller) == Result(worlds[0], caller)
  {
    if n > 0 {
      SettledForGood(events, worlds, n - 1, caller);
      RunSound(events, worlds, n - 1);
      assert Leads(events, worlds, n - 1);
      StepKeepsJoined(worlds[n - 1], events[n - 1], caller);
      if Result(worlds[0], caller).Some? { StepKeepsSettled(worlds[n - 1], events[n - 1], worlds[0].joined[caller]); }
    }
  }

  /** A caller that finds a load running starts none, and at every later moment has the same as all who wait for it. */
  lemma JoinersShareTheOutcome(caller: nat, key: Key, other: nat, events: seq<Event>, worlds: seq<World>)
    requires Run(events, worlds) && Sound(worlds[0]) && |events| > 0 && events[0] == Missed(caller, key)
    requires other in worlds[0].joined && key in worlds[0].inFlight && worlds[0].joined[other] == worlds[0].inFlight[key]
    ensures worlds[1].running == worlds[0].running
    ensures Result(worlds[|events|], caller) == Result(worlds[|events|], other)
  {
    var later := worlds[1..];
    assert Leads(events, worlds, 0);
    StepSound(worlds[0], events[0]);
    assert Run(events[1..], later) by {
      forall i | 0 <= i < |events[1..]| ensures Leads(events[1..], later, i) { assert Leads(events, worlds, i + 1); }
    }
    SettledForGood(events[1..], later, |events| - 1, caller);
    SettledForGood(events[1..], later, |events| - 1, other);
  }

  // ---------- What breaks it ----------

  /** The map holds a task for the key that is over, and none for it is running. */
  ghost predicate Stuck(w: World, key: Key, task: nat) {
    && key in w.inFlight && w.inFlight[key] == task && task in w.settled
    && forall t {:trigger Runs(w, t, key)} :: !Runs(w, t, key)
  }

  ghost predicate Runs(w: World, task: nat, key: Key) {
    task in w.running && w.running[task].key == key
  }

  /** A loader that throws at once leaves its failed promise in the map... */
  lemma ThrowingSticks(w: World, caller: nat, key: Key, error: nat)
    requires Sound(w) && OneFlight(w, key) && Possible(w, MissedThrowing(caller, key, error)) && key !in w.inFlight
    ensures var v := Step(w, MissedThrowing(caller, key, error));
            Stuck(v, key, w.started) && v.settled[w.started] == Failed(error)
  {
    var v := Step(w, MissedThrowing(caller, key, error));
    forall t ensures !Runs(v, t, key) { assert InMap(w, key, t); }
  }

  lemma StuckStep(w: World, e: Event, key: Key, task: nat)
    requires Stuck(w, key, task) && Sound(w) && Possible(w, e) && !(e.Deleted? && e.key == key)
    ensures Stuck(Step(w, e), key, task) && Step(w, e).settled[task] == w.settled[task]
  {
    var v := Step(w, e);
    assert TaskKnown(w, task) && TaskKnown(w, w.started);
    if e.Loaded? || e.Stored? { assert !Runs(w, e.task, key) && TaskKnown(w, e.task); }
    forall t ensures !Runs(v, t, key) { assert !Runs(w, t, key); }
  }

  lemma {:induction false} StaysStuck(events: seq<Event>, worlds: seq<World>, n: nat, key: Key, task: nat)
    requires Run(events, worlds) && Sound(worlds[0]) && Stuck(worlds[0], key, task) && n <= |events|
    requires forall i {:trigger events[i]} :: 0 <= i < |events| ==> !(events[i].Deleted? && events[i].key == key)
    ensures Stuck(worlds[n], key, task) && worlds[n].settled[task] == worlds[0].settled[task]
  {
    if n > 0 {
      StaysStuck(events, worlds, n - 1, key, task);
      RunSound(events, worlds, n - 1);
      assert Leads(events, worlds, n - 1);
      StuckStep(worlds[n - 1], events[n - 1], key, task);
    }
  }

  /** ...where it stays through everything but a delete: whoever misses the key later starts nothing and gets that failure. */
  lemma StuckUntilDeleted(events: seq<Event>, worlds: seq<World>, caller: nat, key: Key, task: nat)
    requires Run(events, worlds) && Sound(worlds[0]) && Stuck(worlds[0], key, task) && caller !in worlds[|events|].joined
    requires forall i {:trigger events[i]} :: 0 <= i < |events| ==> !(events[i].Deleted? && events[i].key == key)
    ensures var w := worlds[|events|];
            var v := Step(w, Missed(caller, key));
            Result(v, caller) == Some(worlds[0].settled[task]) && v.running == w.running
  {
    StaysStuck(events, worlds, |events|, key, task);
  }

  /** Deleting a key under a running load lets the next caller start a second one beside it. */
  lemma DeleteAllowsTwoLoads(w: World, caller: nat, key: Key, task: nat)
    requires Sound(w) && Runs(w, task, key) && caller !in w.joined
    ensures var v := Step(Step(w, Deleted(key)), Missed(caller, key));
            Runs(v, task, key) && Runs(v, w.started, key) && task != w.started
  {
    assert TaskKnown(w, task);
  }

  /** The task ends, with or without a stored value. */
  ghost predicate Ends(w: World, e: Event, task: nat) {
    Possible(w, e) && ((e.Loaded? && e.task == task && !e.store) || (e.Stored? && e.task == task))
  }

  /** And when the first of the two ends, however it ends, it takes the entry of the second with it, so that the next caller starts a third. */
  lemma FirstClearsSecond(w: World, key: Key, task: nat, second: nat, e: Event, caller: nat)
    requires Sound(w) && Runs(w, task, key) && Runs(w, second, key) && task != second && Ends(w, e, task) && caller !in w.joined
    ensures var v := Step(Step(w, e), Missed(caller, key));
            key !in Step(w, e).inFlight && Runs(v, second, key) && Runs(v, w.started, key) && second != w.started
  {
    assert TaskKnown(w, second);
  }

  /** From the start: the key is missed, deleted and missed again, and two loads of it run. */
  lemma DeleteBreaksIt(key: Key)
    ensures var events := [Missed(0, key), Deleted(key), Missed(1, key)];
            exists worlds: seq<World> :: Run(events, worlds) && worlds[0] == EMPTY && Runs(worlds[3], 0, key) && Runs(worlds[3], 1, key)
  {
    var events := [Missed(0, key), Deleted(key), Missed(1, key)];
    var a := Step(EMPTY, events[0]);
    var b := Step(a, events[1]);
    var worlds := [EMPTY, a, b, Step(b, events[2])];
    assert Leads(events, worlds, 0) && Leads(events, worlds, 1) && Leads(events, worlds, 2);
    assert Run(events, worlds);
  }

  /** From the start: a loader throws at once, and its failure is what a second caller with a sound loader gets. */
  lemma ThrowingBreaksIt(key: Key, error: nat)
    ensures var events := [MissedThrowing(0, key, error), Missed(1, key)];
            exists worlds: seq<World> :: Run(events, worlds) && worlds[0] == EMPTY
                             && worlds[2].running == map[] && Result(worlds[2], 1) == Some(Failed(error))
  {
    var events := [MissedThrowing(0, key, error), Missed(1, key)];
    var a := Step(EMPTY, events[0]);
    var worlds := [EMPTY, a, Step(a, events[1])];
    assert Leads(events, worlds, 0) && Leads(events, worlds, 1);
    assert Run(events, worlds);
  }

  // ---------- The map itself ----------

  class CacheService {
    var inFlight: map<Key, nat>

    constructor ()
      ensures inFlight == map[]
    {
      inFlight := map[];
    }

    /** The part of getOrSet after a miss; task is the promise of a load if one is started here. */
    method JoinOrStart(ghost w: World, caller: nat, key: Key, task: nat, throws: Option<nat>) returns (promise: nat)
      requires inFlight == w.inFlight && task == w.started && caller !in w.joined
      modifies this
      ensures var v := Step(w, if throws.Some? then MissedThrowing(caller, key, throws.value) else Missed(caller, key));
              inFlight == v.inFlight && v.joined[caller] == promise
    {
      if key in inFlight { return inFlight[key]; }
      if throws.Some? { Clear(key); }
      inFlight := inFlight[key := task];
      promise := task;
    }

    /** The finally clause of a task, and the last line of delete. */
    method Clear(key: Key)
      modifies this
      ensures inFlight == old(inFlight) - {key}
    {
      inFlight := inFlight - {key};
    }
  }
}
