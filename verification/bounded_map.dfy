/**
 * packages/runtime/src/resilience/retry.ts: mapWithConcurrency.  Runners share
 * a cursor; each step is what one runner does between two awaits.
 */
module BoundedMaps {
  import opened Basics

  /** A fulfilled or rejected result. */
  type Outcome(==, !new)

  /** running tells which index each runner is working on. */
  datatype Pool = Pool(cursor: nat, launched: nat, running: map<nat, nat>, results: map<nat, Outcome>)

  const NEW_POOL: Pool := Pool(0, 0, map[], map[])

  /** How many runners are created for n items. */
  function Runners(concurrency: int, n: nat): nat {
    Max(0, Min(concurrency, n))
  }

  /** A runner takes the next index, or stops when there is none left. */
  ghost function Take(p: Pool, runner: nat, n: nat): Pool {
    if p.cursor < n then p.(cursor := p.cursor + 1, running := p.running[runner := p.cursor])
    else p.(cursor := p.cursor + 1)
  }

  datatype Event = Launch | Settle(runner: nat, outcome: Outcome)

  ghost predicate Possible(p: Pool, e: Event, concurrency: int, n: nat) {
    match e
    case Launch => p.launched < Runners(concurrency, n)
    case Settle(runner, _) => runner in p.running
  }

  /** The next runner starts, or a worker ends and its runner stores the result and goes on. */
  ghost function Step(p: Pool, e: Event, n: nat): Pool
    requires e.Settle? ==> e.runner in p.running
  {
    match e
    case Launch => Take(p.(launched := p.launched + 1), p.launched, n)
    case Settle(runner, outcome) =>
      Take(p.(results := p.results[p.running[runner] := outcome], running := p.running - {runner}), runner, n)
  }

  ghost predicate Reachable(p: Pool, events: seq<Event>, concurrency: int, n: nat)
    decreases |events|
  {
    if events == [] then p == NEW_POOL
    else
      var k := |events| - 1;
      exists q :: Reachable(q, events[..k], concurrency, n) && Possible(q, events[k], concurrency, n) && p == Step(q, events[k], n)
  }

  // ---------- Every index once ----------

  ghost predicate WorksOn(p: Pool, runner: nat, i: nat) {
    runner in p.running && p.running[runner] == i
  }

  ghost predicate InHand(p: Pool, i: nat) {
    exists runner {:trigger WorksOn(p, runner, i)} :: WorksOn(p, runner, i)
  }

  /** An index is taken iff it lies before the cursor, and then it is in the hands of a runner or has its result, not both. */
  ghost predicate TakenOnce(p: Pool, n: nat, i: nat) {
    && (i < p.cursor && i < n <==> i in p.results || InHand(p, i))
    && !(i in p.results && InHand(p, i))
  }

  ghost predicate OneRunner(p: Pool, a: nat, b: nat) {
    a in p.running && b in p.running && p.running[a] == p.running[b] ==> a == b
  }

  ghost predicate Sound(p: Pool, concurrency: int, n: nat) {
    && (forall i {:trigger TakenOnce(p, n, i)} :: TakenOnce(p, n, i))
    && (forall a, b {:trigger OneRunner(p, a, b)} :: OneRunner(p, a, b))
    && (forall r {:trigger r in p.running} :: r in p.running ==> r < p.launched)
    && p.launched <= Runners(concurrency, n) && |p.running| <= p.launched
    && |p.results| + |p.running| == Min(p.cursor, n)
    && (p.cursor < n ==> |p.running| == p.launched)
    && (p.launched > 0 && p.cursor < n ==> p.running != map[])
  }

  lemma TakeOne(p: Pool, runner: nat, concurrency: int, n: nat)
    requires runner !in p.running && runner < p.launched <= Runners(concurrency, n)
    requires forall i {:trigger TakenOnce(p, n, i)} :: TakenOnce(p, n, i)
    requires forall a, b {:trigger OneRunner(p, a, b)} :: OneRunner(p, a, b)
    requires forall r {:trigger r in p.running} :: r in p.running ==> r < p.launched
    requires |p.running| + 1 <= p.launched && |p.results| + |p.running| == Min(p.cursor, n)
    requires p.cursor < n ==> |p.running| + 1 == p.launched
    ensures Sound(Take(p, runner, n), concurrency, n)
  {
    var q := Take(p, runner, n);
    assert TakenOnce(p, n, p.cursor);
    forall i
      ensures TakenOnce(q, n, i)
    {
      assert TakenOnce(p, n, i);
      if InHand(p, i) {
        var r :| WorksOn(p, r, i);
        assert WorksOn(q, r, i);
      }
      if p.cursor < n && i == p.cursor { assert WorksOn(q, runner, i); }
      if InHand(q, i) {
        var r :| WorksOn(q, r, i);
        assert r != runner ==> WorksOn(p, r, i);
      }
    }
    forall a, b
      ensures OneRunner(q, a, b)
    {
      assert OneRunner(p, a, b);
      assert a in p.running ==> WorksOn(p, a, p.running[a]);
      assert b in p.running ==> WorksOn(p, b, p.running[b]);
    }
    if p.cursor < n { assert runner in q.running; }
  }

  lemma SettleOne(p: Pool, runner: nat, outcome: Outcome, concurrency: int, n: nat)
    requires Sound(p, concurrency, n) && runner in p.running
    ensures Sound(Step(p, Settle(runner, outcome), n), concurrency, n)
  {
    var done := p.running[runner];
    var q := p.(results := p.results[done := outcome], running := p.running - {runner});
    assert WorksOn(p, runner, done) && TakenOnce(p, n, done);
    assert q.running.Keys == p.running.Keys - {runner} && q.results.Keys == p.results.Keys + {done};
    forall i
      ensures TakenOnce(q, n, i)
    {
      assert TakenOnce(p, n, i);
      if InHand(p, i) && i != done {
        var r :| WorksOn(p, r, i);
        assert WorksOn(q, r, i);
      }
      if InHand(q, i) {
        var r :| WorksOn(q, r, i);
        assert WorksOn(p, r, i) && OneRunner(p, r, runner);
      }
    }
    forall a, b ensures OneRunner(q, a, b) { assert OneRunner(p, a, b); }
    assert |p.running.Keys| == |q.running.Keys| + 1 && |q.results.Keys| == |p.results.Keys| + 1;
    TakeOne(q, runner, concurrency, n);
  }

  lemma StepKeeps(p: Pool, e: Event, concurrency: int, n: nat)
    requires Sound(p, concurrency, n) && Possible(p, e, concurrency, n)
    ensures Sound(Step(p, e, n), concurrency, n)
  {
    match e
    case Settle(runner, outcome) => SettleOne(p, runner, outcome, concurrency, n);
    case Launch =>
      var q := p.(launched := p.launched + 1);
      forall i ensures TakenOnce(q, n, i) {
        assert TakenOnce(p, n, i);
        if InHand(p, i) { var r :| WorksOn(p, r, i); assert WorksOn(q, r, i); }
        if InHand(q, i) { var r :| WorksOn(q, r, i); assert WorksOn(p, r, i); }
      }
      forall a, b ensures OneRunner(q, a, b) { assert OneRunner(p, a, b); }
      TakeOne(q, p.launched, concurrency, n);
  }

  /**
   * In every interleaving each index is handed out at most once and never
   * lost, at most `concurrency` workers run at a time, and as long as an index
   * is left every runner that has started is busy.
   */
  lemma {:induction false} EveryIndexOnce(p: Pool, events: seq<Event>, concurrency: int, n: nat)
    requires Reachable(p, events, concurrency, n)
    ensures Sound(p, concurrency, n)
    decreases |events|
  {
    if events == [] {
      forall i ensures TakenOnce(p, n, i) {}
    } else {
      var k := |events| - 1;
      var q :| Reachable(q, events[..k], concurrency, n) && Possible(q, events[k], concurrency, n) && p == Step(q, events[k], n);
      EveryIndexOnce(q, events[..k], concurrency, n);
      StepKeeps(q, events[k], concurrency, n);
    }
  }

  /** When all runners have stopped, every item has its result, exactly if there was a runner or nothing to do. */
  lemma AllResultsAtTheEnd(p: Pool, events: seq<Event>, concurrency: int, n: nat)
    requires Reachable(p, events, concurrency, n)
    requires p.launched == Runners(concurrency, n) && p.running == map[]
    ensures (forall i: nat :: i in p.results <==> i < n) <==> concurrency >= 1 || n == 0
  {
    EveryIndexOnce(p, events, concurrency, n);
    forall i: nat
      ensures i in p.results <==> i < p.cursor && i < n
    {
      assert TakenOnce(p, n, i) && !InHand(p, i);
    }
    if concurrency < 1 {
      NeverLaunched(p, events, concurrency, n);
      assert (0 in p.results) == false;
    }
  }

  lemma {:induction false} NeverLaunched(p: Pool, events: seq<Event>, concurrency: int, n: nat)
    requires Reachable(p, events, concurrency, n) && concurrency < 1
    ensures p == NEW_POOL
    decreases |events|
  {
    if events != [] {
      var k := |events| - 1;
      var q :| Reachable(q, events[..k], concurrency, n) && Possible(q, events[k], concurrency, n) && p == Step(q, events[k], n);
      NeverLaunched(q, events[..k], concurrency, n);
    }
  }

  // ---------- The shared state ----------

  class SharedState {
    const n: nat
    var cursor: nat
    var results: map<nat, Outcome>
    ghost var launched: nat
    /** The runners and the indices they are working on. */
    ghost var running: map<nat, nat>

    ghost function State(): Pool
      reads this
    {
      Pool(cursor, launched, running, results)
    }

    constructor (n: nat)
      ensures State() == NEW_POOL && this.n == n
    {
      this.n := n;
      cursor, results, launched, running := 0, map[], 0, map[];
    }

    /** The top of a runner's loop: the index to work on, or none. */
    method NextIndex(ghost runner: nat) returns (index: Option<nat>)
      modifies this
      ensures State() == Take(old(State()), runner, n)
      ensures index == if old(cursor) < n then Some(old(cursor)) else None
    {
      var i := cursor;
      cursor := cursor + 1;
      if i >= n { return None; }
      running := running[runner := i];
      return Some(i);
    }

    method LaunchRunner() returns (index: Option<nat>)
      modifies this
      ensures State() == Step(old(State()), Launch, n)
    {
      ghost var runner := launched;
      launched := launched + 1;
      index := NextIndex(runner);
    }

    /** A worker has ended: its result goes to the place of its own item, and the runner goes on. */
    method StoreResult(ghost runner: nat, index: nat, outcome: Outcome) returns (next: Option<nat>)
      requires runner in running && running[runner] == index
      modifies this
      ensures State() == Step(old(State()), Settle(runner, outcome), n)
    {
      results := results[index := outcome];
      running := running - {runner};
      next := NextIndex(runner);
    }
  }
}
