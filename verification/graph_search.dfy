/** packages/algorithms/src/graph.ts: breadth-first traversal and shortest paths. */
module GraphSearch {
  import opened Basics
  import opened Closure
  import opened GraphPaths
  import opened InsertionOrder

  // ---------- What a breadth-first search keeps true ----------

  /** The recorded depth of a discovered node. */
  ghost function Depth(depthOf: map<Id, nat>, v: Id): nat {
    if v in depthOf then depthOf[v] else 0
  }

  /** Each discovered node is reached by a path as long as its depth. */
  ghost predicate Witnessed(out: Adjacency, start: Id, depthOf: map<Id, nat>, v: Id) {
    Reaches(out, start, v, Depth(depthOf, v))
  }

  ghost predicate Layered(ids: seq<Id>, depthOf: map<Id, nat>, i: nat, j: nat)
    requires i < |ids| && j < |ids|
  {
    Depth(depthOf, ids[i]) <= Depth(depthOf, ids[j])
  }

  ghost predicate Shallow(depthOf: map<Id, nat>, v: Id, bound: nat) {
    Depth(depthOf, v) <= bound
  }

  /** The discovered nodes in order of discovery: depths never decrease and none exceeds the bound. */
  ghost predicate Frontier(out: Adjacency, start: Id, ids: seq<Id>, depthOf: map<Id, nat>, bound: nat) {
    && Lists(ids, depthOf.Keys) && depthOf.Keys <= out.Keys
    && start in depthOf && depthOf[start] == 0
    && (forall v {:trigger Witnessed(out, start, depthOf, v)} :: v in depthOf ==> Witnessed(out, start, depthOf, v))
    && (forall i, j {:trigger Layered(ids, depthOf, i, j)} :: 0 <= i <= j < |ids| ==> Layered(ids, depthOf, i, j))
    && (forall v {:trigger Shallow(depthOf, v, bound)} :: v in depthOf ==> Shallow(depthOf, v, bound))
  }

  /** Every successor of v has been discovered, at most one layer below v. */
  ghost predicate Expanded(out: Adjacency, depthOf: map<Id, nat>, v: Id) {
    forall b :: Edge(out, v, b) ==> b in depthOf && Depth(depthOf, b) <= Depth(depthOf, v) + 1
  }

  lemma Begin(out: Adjacency, start: Id)
    requires start in out
    ensures Frontier(out, start, [start], map[start := 0], 0)
  {
    ReachesSelf(out, start);
    ListsAppend([], {}, start);
    assert [] + [start] == [start] && map[start := 0 as nat].Keys == {} + {start};
    assert Witnessed(out, start, map[start := 0], start);
    assert Layered([start], map[start := 0], 0, 0) && Shallow(map[start := 0], start, 0);
  }

  lemma Discover(out: Adjacency, start: Id, ids: seq<Id>, depthOf: map<Id, nat>, current: Id, next: Id)
    requires current in depthOf && Frontier(out, start, ids, depthOf, depthOf[current] + 1)
    requires Edge(out, current, next) && next in out && next !in depthOf
    ensures Frontier(out, start, ids + [next], depthOf[next := depthOf[current] + 1], depthOf[current] + 1)
  {
    var d := depthOf[current] + 1;
    var depthOf' := depthOf[next := d];
    ListsAppend(ids, depthOf.Keys, next);
    assert depthOf'.Keys == depthOf.Keys + {next};
    assert Witnessed(out, start, depthOf, current);
    ReachesFurther(out, start, current, next, depthOf[current]);
    forall v | v in depthOf'
      ensures Witnessed(out, start, depthOf', v) && Shallow(depthOf', v, d)
    {
      assert v != next ==> Witnessed(out, start, depthOf, v) && Shallow(depthOf, v, d);
    }
    DiscoverLayered(out, start, ids, depthOf, next, d);
  }

  lemma DiscoverLayered(out: Adjacency, start: Id, ids: seq<Id>, depthOf: map<Id, nat>, next: Id, d: nat)
    requires Frontier(out, start, ids, depthOf, d) && next !in depthOf
    ensures forall i, j {:trigger Layered(ids + [next], depthOf[next := d], i, j)} :: 0 <= i <= j < |ids| + 1 ==>
              Layered(ids + [next], depthOf[next := d], i, j)
  {
    ListsDistinct(ids, depthOf.Keys);
    var ids', depthOf' := ids + [next], depthOf[next := d];
    forall i, j | 0 <= i <= j < |ids'|
      ensures Layered(ids', depthOf', i, j)
    {
      if j < |ids| {
        assert Layered(ids, depthOf, i, j);
      } else if i < |ids| {
        assert Shallow(depthOf, ids[i], d);
      }
    }
  }

  lemma StillExpanded(out: Adjacency, depthOf: map<Id, nat>, v: Id, next: Id, d: nat)
    requires Expanded(out, depthOf, v) && v in depthOf && next !in depthOf
    ensures Expanded(out, depthOf[next := d], v)
  {
  }

  /** When everything shallower than n is expanded, every path of n edges ends in a discovered node of depth at most n. */
  lemma {:induction false} NearIsFound(out: Adjacency, start: Id, depthOf: map<Id, nat>, p: seq<Id>, n: nat)
    requires start in depthOf && depthOf[start] == 0
    requires forall v {:trigger Expanded(out, depthOf, v)} :: v in depthOf && depthOf[v] < n ==> Expanded(out, depthOf, v)
    requires Path(out, p) && |p| == n + 1 && p[0] == start
    ensures p[n] in depthOf && depthOf[p[n]] <= n
  {
    if n > 0 {
      PathSlice(out, p, 0, n);
      assert p[..n] == p[0..n];
      NearIsFound(out, start, depthOf, p[..n], n - 1);
      assert Expanded(out, depthOf, p[n - 1]) && Step(out, p, n);
    }
  }

  lemma NearIsFoundAt(out: Adjacency, start: Id, depthOf: map<Id, nat>, v: Id, n: nat)
    requires start in depthOf && depthOf[start] == 0
    requires forall u {:trigger Expanded(out, depthOf, u)} :: u in depthOf && depthOf[u] < n ==> Expanded(out, depthOf, u)
    requires Reaches(out, start, v, n)
    ensures v in depthOf && depthOf[v] <= n
  {
    var p :| Path(out, p) && |p| == n + 1 && p[0] == start && p[n] == v;
    NearIsFound(out, start, depthOf, p, n);
  }

  // ---------- Traversal ----------

  datatype Visit = Visit(id: Id, depth: nat)

  ghost predicate InReach(maxDepth: Option<int>, depth: nat) {
    depth == 0 || maxDepth.None? || depth <= maxDepth.value
  }

  /** The work list of visits carries the discovery order and the recorded depths. */
  ghost predicate Carries(queue: seq<Visit>, ids: seq<Id>, depthOf: map<Id, nat>, maxDepth: Option<int>) {
    && |queue| == |ids|
    && forall i {:trigger CarriesAt(queue, ids, depthOf, maxDepth, i)} :: 0 <= i < |queue| ==> CarriesAt(queue, ids, depthOf, maxDepth, i)
  }

  ghost predicate CarriesAt(queue: seq<Visit>, ids: seq<Id>, depthOf: map<Id, nat>, maxDepth: Option<int>, i: nat)
    requires i < |queue| && i < |ids|
  {
    queue[i] == Visit(ids[i], Depth(depthOf, ids[i])) && ids[i] in depthOf && InReach(maxDepth, queue[i].depth)
  }

  /** The nodes taken from the work list that were allowed to go further have been expanded. */
  ghost predicate Processed(out: Adjacency, ids: seq<Id>, depthOf: map<Id, nat>, maxDepth: Option<int>, head: nat)
    requires head <= |ids|
  {
    forall i {:trigger ProcessedAt(out, ids, depthOf, maxDepth, i)} :: 0 <= i < head ==> ProcessedAt(out, ids, depthOf, maxDepth, i)
  }

  ghost predicate ProcessedAt(out: Adjacency, ids: seq<Id>, depthOf: map<Id, nat>, maxDepth: Option<int>, i: nat)
    requires i < |ids|
  {
    maxDepth.None? || Depth(depthOf, ids[i]) < maxDepth.value ==> Expanded(out, depthOf, ids[i])
  }

  /** Discover the successors of one node. */
  method ExpandNode(out: Adjacency, start: Id, current: Visit, queue: seq<Visit>, visited: set<Id>, maxDepth: Option<int>,
                    ghost ids: seq<Id>, ghost depthOf: map<Id, nat>, ghost head: nat)
    returns (queue': seq<Visit>, visited': set<Id>, ghost ids': seq<Id>, ghost depthOf': map<Id, nat>)
    requires Closed(out) && visited == depthOf.Keys && head < |ids|
    requires current.id in depthOf && depthOf[current.id] == current.depth && current.id == ids[head]
    requires Frontier(out, start, ids, depthOf, current.depth + 1) && Carries(queue, ids, depthOf, maxDepth)
    requires Processed(out, ids, depthOf, maxDepth, head)
    requires InReach(maxDepth, current.depth + 1)
    ensures visited' == depthOf'.Keys && queue <= queue' && ids <= ids'
    ensures Frontier(out, start, ids', depthOf', current.depth + 1) && Carries(queue', ids', depthOf', maxDepth)
    ensures Processed(out, ids', depthOf', maxDepth, head + 1)
    ensures current.id in depthOf' && depthOf'[current.id] == current.depth
  {
    queue', visited', ids', depthOf' := queue, visited, ids, depthOf;
    var neighbors := out[current.id];
    assert Row(out, current.id);
    for k := 0 to |neighbors|
      invariant visited' == depthOf'.Keys && queue <= queue' && ids <= ids'
      invariant current.id in depthOf' && depthOf'[current.id] == current.depth
      invariant Frontier(out, start, ids', depthOf', current.depth + 1) && Carries(queue', ids', depthOf', maxDepth)
      invariant Processed(out, ids', depthOf', maxDepth, head)
      invariant forall n :: 0 <= n < k ==> neighbors[n] in depthOf'
    {
      var next := neighbors[k];
      assert Edge(out, current.id, next);
      if next !in visited' {
        Discover(out, start, ids', depthOf', current.id, next);
        DiscoverKeeps(out, queue', ids', depthOf', maxDepth, head, next, current.depth + 1);
        visited' := visited' + {next};
        queue' := queue' + [Visit(next, current.depth + 1)];
        ids', depthOf' := ids' + [next], depthOf'[next := current.depth + 1];
      }
    }
    forall i | 0 <= i < head + 1
      ensures ProcessedAt(out, ids', depthOf', maxDepth, i)
    {
      if i < head {
        assert ProcessedAt(out, ids', depthOf', maxDepth, i);
      } else {
        assert ids'[head] == current.id;
        forall b | Edge(out, current.id, b)
          ensures b in depthOf' && Depth(depthOf', b) <= current.depth + 1
        {
          assert b in depthOf' && Shallow(depthOf', b, current.depth + 1);
        }
      }
    }
  }

  lemma DiscoverKeeps(out: Adjacency, queue: seq<Visit>, ids: seq<Id>, depthOf: map<Id, nat>, maxDepth: Option<int>, head: nat, next: Id, d: nat)
    requires Carries(queue, ids, depthOf, maxDepth) && head <= |ids| && Processed(out, ids, depthOf, maxDepth, head)
    requires next !in depthOf && InReach(maxDepth, d)
    ensures Carries(queue + [Visit(next, d)], ids + [next], depthOf[next := d], maxDepth)
    ensures Processed(out, ids + [next], depthOf[next := d], maxDepth, head)
  {
    var queue', ids', depthOf' := queue + [Visit(next, d)], ids + [next], depthOf[next := d];
    forall i | 0 <= i < |queue'|
      ensures CarriesAt(queue', ids', depthOf', maxDepth, i)
    {
      assert i < |queue| ==> CarriesAt(queue, ids, depthOf, maxDepth, i);
    }
    forall i | 0 <= i < head
      ensures ProcessedAt(out, ids', depthOf', maxDepth, i)
    {
      assert ProcessedAt(out, ids, depthOf, maxDepth, i) && CarriesAt(queue, ids, depthOf, maxDepth, i);
      if Expanded(out, depthOf, ids[i]) { StillExpanded(out, depthOf, ids[i], next, d); }
    }
  }

  /**
   * The nodes within maxDepth edges of the start, each once, in non-decreasing depth,
   * and with the recorded depth being the true distance.
   */
  ghost predicate TraversalOf(out: Adjacency, start: Id, maxDepth: Option<int>, visits: seq<Visit>) {
    && (forall i :: 0 <= i < |visits| ==>
          Distance(out, start, visits[i].id, visits[i].depth) && InReach(maxDepth, visits[i].depth))
    && (forall i, j :: 0 <= i < j < |visits| ==> visits[i].id != visits[j].id && visits[i].depth <= visits[j].depth)
    && (forall v, n: nat {:trigger Reaches(out, start, v, n)} :: Reaches(out, start, v, n) && InReach(maxDepth, n) ==>
          exists i :: 0 <= i < |visits| && visits[i].id == v)
  }

  method Bfs(out: Adjacency, start: Id, maxDepth: Option<int>) returns (order: seq<Visit>)
    requires Closed(out)
    ensures start !in out ==> order == []
    ensures start in out ==> TraversalOf(out, start, maxDepth, order)
  {
    if start !in out { return []; }
    var visited := {start};
    order := [];
    var queue := [Visit(start, 0)];
    var head := 0;
    ghost var ids: seq<Id>, depthOf: map<Id, nat>, bound: nat := [start], map[start := 0], 0;
    Begin(out, start);
    assert CarriesAt(queue, ids, depthOf, maxDepth, 0);
    while head < |queue|
      invariant head <= |queue| && order == queue[..head] && visited == depthOf.Keys
      invariant Frontier(out, start, ids, depthOf, bound) && Carries(queue, ids, depthOf, maxDepth)
      invariant Processed(out, ids, depthOf, maxDepth, head)
      invariant head < |ids| ==> bound <= Depth(depthOf, ids[head]) + 1
      decreases |out.Keys| - head
    {
      var current := queue[head];
      assert CarriesAt(queue, ids, depthOf, maxDepth, head);
      ListsDistinct(ids, depthOf.Keys);
      SubsetSize(depthOf.Keys, out.Keys);
      Widen(out, start, ids, depthOf, bound, current.depth + 1);
      head := head + 1;
      order := order + [current];
      assert order == queue[..head];
      bound := current.depth + 1;
      if maxDepth.Some? && current.depth >= maxDepth.value {
        assert ProcessedAt(out, ids, depthOf, maxDepth, head - 1);
      } else {
        queue, visited, ids, depthOf := ExpandNode(out, start, current, queue, visited, maxDepth, ids, depthOf, head - 1);
        assert order == queue[..head];
      }
      if head < |ids| {
        assert Layered(ids, depthOf, head - 1, head);
      }
    }
    assert order == queue;
    TraversalComplete(out, start, maxDepth, order, ids, depthOf, bound);
  }

  lemma Widen(out: Adjacency, start: Id, ids: seq<Id>, depthOf: map<Id, nat>, bound: nat, bound': nat)
    requires Frontier(out, start, ids, depthOf, bound) && bound <= bound'
    ensures Frontier(out, start, ids, depthOf, bound')
  {
    forall v | v in depthOf
      ensures Shallow(depthOf, v, bound')
    {
      assert Shallow(depthOf, v, bound);
    }
  }

  lemma AllExpanded(out: Adjacency, ids: seq<Id>, depthOf: map<Id, nat>, maxDepth: Option<int>, n: nat)
    requires Lists(ids, depthOf.Keys) && Processed(out, ids, depthOf, maxDepth, |ids|)
    requires maxDepth.None? || n <= maxDepth.value
    ensures forall v {:trigger Expanded(out, depthOf, v)} :: v in depthOf && depthOf[v] < n ==> Expanded(out, depthOf, v)
  {
    ListsDistinct(ids, depthOf.Keys);
    forall v | v in depthOf && depthOf[v] < n
      ensures Expanded(out, depthOf, v)
    {
      var i :| 0 <= i < |ids| && ids[i] == v;
      assert ProcessedAt(out, ids, depthOf, maxDepth, i);
    }
  }

  lemma TraversalComplete(out: Adjacency, start: Id, maxDepth: Option<int>, order: seq<Visit>, ids: seq<Id>, depthOf: map<Id, nat>, bound: nat)
    requires Frontier(out, start, ids, depthOf, bound) && Carries(order, ids, depthOf, maxDepth)
    requires Processed(out, ids, depthOf, maxDepth, |ids|)
    ensures TraversalOf(out, start, maxDepth, order)
  {
    ListsDistinct(ids, depthOf.Keys);
    forall v, n: nat | Reaches(out, start, v, n) && InReach(maxDepth, n)
      ensures v in depthOf && depthOf[v] <= n
    {
      if n > 0 { AllExpanded(out, ids, depthOf, maxDepth, n); }
      NearIsFoundAt(out, start, depthOf, v, n);
    }
    forall i | 0 <= i < |order|
      ensures Distance(out, start, order[i].id, order[i].depth) && InReach(maxDepth, order[i].depth)
    {
      assert CarriesAt(order, ids, depthOf, maxDepth, i) && Witnessed(out, start, depthOf, ids[i]);
    }
    forall i, j | 0 <= i < j < |order|
      ensures order[i].id != order[j].id && order[i].depth <= order[j].depth
    {
      assert CarriesAt(order, ids, depthOf, maxDepth, i) && CarriesAt(order, ids, depthOf, maxDepth, j);
      assert Layered(ids, depthOf, i, j);
    }
    forall v, n: nat | Reaches(out, start, v, n) && InReach(maxDepth, n)
      ensures exists i :: 0 <= i < |order| && order[i].id == v
    {
      var i :| 0 <= i < |ids| && ids[i] == v;
      assert CarriesAt(order, ids, depthOf, maxDepth, i);
    }
  }
}
