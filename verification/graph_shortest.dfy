/** packages/algorithms/src/graph.ts: shortest unweighted paths by breadth-first search. */
module GraphShortest {
  import opened Basics
  import opened Closure
  import opened GraphPaths
  import opened GraphSearch
  import opened InsertionOrder
  import GraphCycles

  /** Every discovered node but the first knows the node it was discovered from. */
  ghost predicate Traced(out: Adjacency, from: Id, previous: map<Id, Id>, depthOf: map<Id, nat>) {
    && previous.Keys == depthOf.Keys - {from} && depthOf.Keys <= out.Keys
    && forall v {:trigger TracedAt(out, previous, depthOf, v)} :: v in previous ==> TracedAt(out, previous, depthOf, v)
  }

  ghost predicate TracedAt(out: Adjacency, previous: map<Id, Id>, depthOf: map<Id, nat>, v: Id)
    requires v in previous
  {
    previous[v] in depthOf && Edge(out, previous[v], v) && Depth(depthOf, previous[v]) + 1 == Depth(depthOf, v)
  }

  lemma TraceMore(out: Adjacency, from: Id, previous: map<Id, Id>, depthOf: map<Id, nat>, current: Id, next: Id)
    requires Traced(out, from, previous, depthOf) && from in depthOf
    requires current in depthOf && Edge(out, current, next) && next in out && next !in depthOf
    ensures Traced(out, from, previous[next := current], depthOf[next := depthOf[current] + 1])
  {
    var previous', depthOf' := previous[next := current], depthOf[next := depthOf[current] + 1];
    forall v | v in previous'
      ensures TracedAt(out, previous', depthOf', v)
    {
      assert v != next ==> TracedAt(out, previous, depthOf, v);
    }
  }

  /** While the target is undiscovered no path to it is shorter than one more than the layer being expanded. */
  lemma UndiscoveredIsFar(out: Adjacency, from: Id, ids: seq<Id>, depthOf: map<Id, nat>, bound: nat, head: nat, to: Id, m: nat)
    requires Frontier(out, from, ids, depthOf, bound) && head < |ids| && Processed(out, ids, depthOf, None, head)
    requires to !in depthOf && Reaches(out, from, to, m)
    ensures Depth(depthOf, ids[head]) < m
  {
    ListsDistinct(ids, depthOf.Keys);
    if m <= Depth(depthOf, ids[head]) {
      forall v | v in depthOf && depthOf[v] < m
        ensures Expanded(out, depthOf, v)
      {
        var i :| 0 <= i < |ids| && ids[i] == v;
        assert i >= head ==> Layered(ids, depthOf, head, i);
        assert ProcessedAt(out, ids, depthOf, None, i);
      }
      NearIsFoundAt(out, from, depthOf, to, m);
    }
  }

  /** Discover the successors of one node, stopping at the target. */
  method ExpandToward(out: Adjacency, from: Id, to: Id, current: Id, queue: seq<Id>, visited: set<Id>, previous: map<Id, Id>,
                      ghost depthOf: map<Id, nat>, ghost head: nat)
    returns (found: bool, queue': seq<Id>, visited': set<Id>, previous': map<Id, Id>, ghost depthOf': map<Id, nat>)
    requires Closed(out) && visited == depthOf.Keys && head < |queue| && current == queue[head]
    requires current in depthOf && Frontier(out, from, queue, depthOf, depthOf[current] + 1)
    requires Processed(out, queue, depthOf, None, head) && Traced(out, from, previous, depthOf)
    requires to !in depthOf
    ensures Traced(out, from, previous', depthOf') && from in depthOf' && depthOf'[from] == 0
    ensures found ==> to in depthOf' && Distance(out, from, to, depthOf'[to])
    ensures !found ==> visited' == depthOf'.Keys && queue <= queue' && to !in depthOf'
    ensures !found ==> current in depthOf' && depthOf'[current] == depthOf[current]
    ensures !found ==> Frontier(out, from, queue', depthOf', depthOf[current] + 1) && Processed(out, queue', depthOf', None, head + 1)
  {
    queue', visited', previous', depthOf' := queue, visited, previous, depthOf;
    var neighbors := out[current];
    ghost var d := depthOf[current] + 1;
    assert Row(out, current);
    for k := 0 to |neighbors|
      invariant visited' == depthOf'.Keys && queue <= queue' && to !in depthOf'
      invariant current in depthOf' && depthOf'[current] + 1 == d
      invariant Frontier(out, from, queue', depthOf', d) && Processed(out, queue', depthOf', None, head)
      invariant Traced(out, from, previous', depthOf')
      invariant forall n :: 0 <= n < k ==> neighbors[n] in depthOf'
    {
      var next := neighbors[k];
      assert Edge(out, current, next);
      if next !in visited' {
        Discover(out, from, queue', depthOf', current, next);
        TraceMore(out, from, previous', depthOf', current, next);
        if next == to {
          TargetDistance(out, from, queue', depthOf', head, current, to);
          return true, queue', visited' + {next}, previous'[next := current], depthOf'[next := d];
        }
        StillProcessed(out, queue', depthOf', head, next, d);
        visited' := visited' + {next};
        previous' := previous'[next := current];
        queue' := queue' + [next];
        depthOf' := depthOf'[next := d];
      }
    }
    ExpandedNow(out, from, queue', depthOf', head, d);
    found := false;
  }

  lemma TargetDistance(out: Adjacency, from: Id, ids: seq<Id>, depthOf: map<Id, nat>, head: nat, current: Id, to: Id)
    requires head < |ids| && ids[head] == current && current in depthOf
    requires Frontier(out, from, ids, depthOf, depthOf[current] + 1) && Processed(out, ids, depthOf, None, head)
    requires Edge(out, current, to) && to !in depthOf
    ensures Distance(out, from, to, depthOf[current] + 1)
  {
    assert Witnessed(out, from, depthOf, current);
    ReachesFurther(out, from, current, to, depthOf[current]);
    forall m: nat | Reaches(out, from, to, m)
      ensures depthOf[current] + 1 <= m
    {
      UndiscoveredIsFar(out, from, ids, depthOf, depthOf[current] + 1, head, to, m);
    }
  }

  lemma StillProcessed(out: Adjacency, ids: seq<Id>, depthOf: map<Id, nat>, head: nat, next: Id, d: nat)
    requires head <= |ids| && Processed(out, ids, depthOf, None, head) && Lists(ids, depthOf.Keys)
    requires next !in depthOf
    ensures Processed(out, ids + [next], depthOf[next := d], None, head)
  {
    ListsDistinct(ids, depthOf.Keys);
    var ids', depthOf' := ids + [next], depthOf[next := d];
    forall i | 0 <= i < head
      ensures ProcessedAt(out, ids', depthOf', None, i)
    {
      assert ProcessedAt(out, ids, depthOf, None, i);
      StillExpanded(out, depthOf, ids[i], next, d);
    }
  }

  lemma ExpandedNow(out: Adjacency, from: Id, ids: seq<Id>, depthOf: map<Id, nat>, head: nat, d: nat)
    requires head < |ids| && Frontier(out, from, ids, depthOf, d) && Processed(out, ids, depthOf, None, head)
    requires ids[head] in depthOf && depthOf[ids[head]] + 1 == d && ids[head] in out
    requires forall n :: 0 <= n < |out[ids[head]]| ==> out[ids[head]][n] in depthOf
    ensures Processed(out, ids, depthOf, None, head + 1)
  {
    forall i | 0 <= i < head + 1
      ensures ProcessedAt(out, ids, depthOf, None, i)
    {
      if i < head {
        assert ProcessedAt(out, ids, depthOf, None, i);
      } else {
        forall b | Edge(out, ids[head], b)
          ensures b in depthOf && Depth(depthOf, b) <= d
        {
          assert b in depthOf && Shallow(depthOf, b, d);
        }
      }
    }
  }

  /** Walk back from the target to the start and turn the walk around. */
  method Rebuild(out: Adjacency, from: Id, to: Id, previous: map<Id, Id>, ghost depthOf: map<Id, nat>) returns (path: seq<Id>)
    requires Traced(out, from, previous, depthOf) && from in depthOf && depthOf[from] == 0 && to in depthOf
    ensures Path(out, path) && path[0] == from && path[|path| - 1] == to && |path| == depthOf[to] + 1
  {
    path := [to];
    var cursor := to;
    assert Reverse(path) == [to];
    assert Path(out, [to]);
    while cursor in previous
      invariant cursor in depthOf && depthOf[cursor] <= depthOf[to]
      invariant Path(out, Reverse(path)) && |path| == depthOf[to] - depthOf[cursor] + 1
      invariant Reverse(path)[0] == cursor && Reverse(path)[|path| - 1] == to
      decreases depthOf[cursor]
    {
      assert TracedAt(out, previous, depthOf, cursor);
      PathPrepend(out, Reverse(path), previous[cursor]);
      cursor := previous[cursor];
      GraphCycles.ReversePush(path, cursor);
      path := path + [cursor];
    }
    path := Reverse(path);
  }

  /** A real path of minimum length, or nothing exactly when the target cannot be reached. */
  method ShortestPath(out: Adjacency, from: Id, to: Id) returns (r: Option<seq<Id>>)
    requires Closed(out)
    ensures r.None? <==> forall n: nat :: !Reaches(out, from, to, n)
    ensures r.Some? ==> Path(out, r.value) && r.value[0] == from && r.value[|r.value| - 1] == to
    ensures r.Some? ==> Distance(out, from, to, |r.value| - 1)
  {
    if from !in out || to !in out {
      ForeignIsUnreachable(out, from, to);
      return None;
    }
    if from == to {
      ReachesSelf(out, from);
      return Some([from]);
    }
    var previous: map<Id, Id> := map[];
    var visited := {from};
    var queue := [from];
    var head := 0;
    ghost var depthOf: map<Id, nat>, bound: nat := map[from := 0], 0;
    Begin(out, from);
    while head < |queue|
      invariant head <= |queue| && visited == depthOf.Keys && to !in depthOf
      invariant Frontier(out, from, queue, depthOf, bound) && Processed(out, queue, depthOf, None, head)
      invariant Traced(out, from, previous, depthOf)
      invariant head < |queue| ==> bound <= Depth(depthOf, queue[head]) + 1
      decreases |out.Keys| - head
    {
      var current := queue[head];
      ListsDistinct(queue, depthOf.Keys);
      SubsetSize(depthOf.Keys, out.Keys);
      Widen(out, from, queue, depthOf, bound, depthOf[current] + 1);
      bound := depthOf[current] + 1;
      head := head + 1;
      var found;
      found, queue, visited, previous, depthOf := ExpandToward(out, from, to, current, queue, visited, previous, depthOf, head - 1);
      if found {
        var path := Rebuild(out, from, to, previous, depthOf);
        DistanceReaches(out, from, to, depthOf[to]);
        return Some(path);
      }
      if head < |queue| { assert Layered(queue, depthOf, head - 1, head); }
    }
    forall n: nat | Reaches(out, from, to, n)
      ensures false
    {
      AllExpanded(out, queue, depthOf, None, n);
      NearIsFoundAt(out, from, depthOf, to, n);
    }
    r := None;
  }

  lemma DistanceReaches(out: Adjacency, from: Id, to: Id, n: nat)
    requires Distance(out, from, to, n)
    ensures Reaches(out, from, to, n)
  {
  }

  lemma ForeignIsUnreachable(out: Adjacency, from: Id, to: Id)
    requires Closed(out) && (from !in out || to !in out)
    ensures forall n: nat :: !Reaches(out, from, to, n)
  {
    forall n: nat | Reaches(out, from, to, n)
      ensures false
    {
      var p :| Path(out, p) && |p| == n + 1 && p[0] == from && p[n] == to;
      PathStaysInside(out, p, n);
    }
  }
}
