/** packages/algorithms/src/graph.ts: dependency order by Kahn's algorithm, and cycle search by depth-first colouring. */
module GraphOrder {
  import opened Basics
  import opened Closure
  import opened GraphPaths
  import opened InsertionOrder

  // ---------- The graph as its three maps ----------

  /** incoming is the exact transpose of outgoing, and both speak about the same nodes. */
  ghost predicate Transposed(out: Adjacency, inc: Adjacency) {
    && out.Keys == inc.Keys
    && forall b {:trigger Column(out, inc, b)} :: b in inc ==> Column(out, inc, b)
  }

  ghost predicate Column(out: Adjacency, inc: Adjacency, b: Id)
    requires b in inc
  {
    NoRepeats(inc[b]) && forall a :: a in inc[b] <==> Edge(out, a, b)
  }

  ghost predicate WellFormed(nodes: seq<Id>, out: Adjacency, inc: Adjacency) {
    Lists(nodes, out.Keys) && Closed(out) && Transposed(out, inc)
  }

  /** Every predecessor of an element of the list occurs strictly earlier in it. */
  ghost predicate PredecessorsFirst(out: Adjacency, list: seq<Id>) {
    forall i {:trigger Settled(out, list, i)} :: 0 <= i < |list| ==> Settled(out, list, i)
  }

  ghost predicate Settled(out: Adjacency, list: seq<Id>, i: nat)
    requires i < |list|
  {
    forall a :: Edge(out, a, list[i]) ==> a in list[..i]
  }

  lemma {:induction false} PositionsAscend(out: Adjacency, list: seq<Id>, p: seq<Id>, i: nat)
    requires PredecessorsFirst(out, list) && Path(out, p) && |p| > 1
    requires i < |list| && list[i] == p[|p| - 1]
    ensures p[0] in list[..i]
    decreases |p|
  {
    var n := |p| - 1;
    assert Step(out, p, n) && Settled(out, list, i) && Edge(out, p[n - 1], list[i]);
    var j :| 0 <= j < i && list[j] == p[n - 1];
    if n > 1 {
      PathSlice(out, p, 0, n);
      assert p[..n] == p[0..n];
      PositionsAscend(out, list, p[..n], j);
      assert forall x :: x in list[..j] ==> x in list[..i];
    }
  }

  lemma DependencyOrderIsAcyclic(out: Adjacency, list: seq<Id>)
    requires PredecessorsFirst(out, list) && Lists(list, out.Keys)
    ensures !Cyclic(out)
  {
    ListsDistinct(list, out.Keys);
    if p :| Cycle(out, p) {
      var i :| 0 <= i < |list| && list[i] == p[0];
      PositionsAscend(out, list, p, i);
      assert false;
    }
  }

  // ---------- Kahn's algorithm ----------

  /** The predecessors of b that have not been emitted yet. */
  ghost function Waiting(inc: Adjacency, done: set<Id>, b: Id): set<Id>
    requires b in inc
  {
    Members(inc[b]) - done
  }

  /** degree[b] counts the predecessors still waited for, and b is queued exactly when there are none. */
  ghost predicate Counted(inc: Adjacency, done: set<Id>, degree: map<Id, int>, queued: set<Id>, b: Id)
    requires b in inc && b in degree
  {
    degree[b] == |Waiting(inc, done, b)| && (b in queued <==> degree[b] == 0)
  }

  ghost predicate AllCounted(inc: Adjacency, done: set<Id>, degree: map<Id, int>, queued: set<Id>) {
    && degree.Keys == inc.Keys
    && forall b {:trigger Counted(inc, done, degree, queued, b)} :: b in inc ==> Counted(inc, done, degree, queued, b)
  }

  /** The same while the successors of id are being relaxed and only those in the given list have been. */
  ghost predicate Relaxed(inc: Adjacency, done: set<Id>, id: Id, relaxed: set<Id>, degree: map<Id, int>, queued: set<Id>) {
    && degree.Keys == inc.Keys
    && forall b {:trigger CountedSoFar(inc, done, id, relaxed, degree, queued, b)} :: b in inc ==>
         CountedSoFar(inc, done, id, relaxed, degree, queued, b)
  }

  ghost predicate CountedSoFar(inc: Adjacency, done: set<Id>, id: Id, relaxed: set<Id>, degree: map<Id, int>, queued: set<Id>, b: Id)
    requires b in inc && b in degree
  {
    Counted(inc, if b in relaxed then done + {id} else done, degree, queued, b)
  }

  ghost predicate Queued(out: Adjacency, queue: seq<Id>, queued: set<Id>) {
    Lists(queue, queued) && queued <= out.Keys && PredecessorsFirst(out, queue)
  }

  lemma PushKeepsOrder(out: Adjacency, queue: seq<Id>, queued: set<Id>, b: Id)
    requires Queued(out, queue, queued) && b in out && b !in queued
    requires forall a :: Edge(out, a, b) ==> a in queued
    ensures Queued(out, queue + [b], queued + {b})
  {
    ListsAppend(queue, queued, b);
    ListsDistinct(queue, queued);
    var queue' := queue + [b];
    forall i | 0 <= i < |queue'|
      ensures Settled(out, queue', i)
    {
      if i < |queue| {
        assert Settled(out, queue, i) && queue'[..i] == queue[..i];
      } else {
        assert queue'[..i] == queue;
      }
    }
  }

  method InDegrees(nodes: seq<Id>, out: Adjacency, inc: Adjacency) returns (degree: map<Id, int>, queue: seq<Id>, ghost queued: set<Id>)
    requires WellFormed(nodes, out, inc)
    ensures AllCounted(inc, {}, degree, queued) && Queued(out, queue, queued)
  {
    degree := map id | id in inc :: |inc[id]|;
    queue, queued := [], {};
    ghost var seen: set<Id> := {};
    for i := 0 to |nodes|
      invariant Lists(nodes[..i], seen) && seen <= out.Keys && Queued(out, queue, queued)
      invariant Sources(degree, seen, queued)
    {
      var id := nodes[i];
      ListsNext(nodes, out.Keys, i, seen);
      if degree[id] == 0 {
        NoPredecessors(out, inc, id);
        PushKeepsOrder(out, queue, queued, id);
        queue, queued := queue + [id], queued + {id};
      }
      seen := seen + {id};
    }
    assert nodes[..|nodes|] == nodes;
    ListsUnique(nodes, seen, out.Keys);
    InDegreesCount(out, inc, degree, queued);
  }

  ghost predicate Sources(degree: map<Id, int>, seen: set<Id>, queued: set<Id>)
    requires seen <= degree.Keys
  {
    queued <= seen && forall b :: b in seen ==> (b in queued <==> degree[b] == 0)
  }

  lemma InDegreesCount(out: Adjacency, inc: Adjacency, degree: map<Id, int>, queued: set<Id>)
    requires Transposed(out, inc) && degree == map id | id in inc :: |inc[id]|
    requires Sources(degree, out.Keys, queued)
    ensures AllCounted(inc, {}, degree, queued)
  {
    forall b | b in inc
      ensures Counted(inc, {}, degree, queued, b)
    {
      assert Column(out, inc, b);
      ListsDistinct(inc[b], Members(inc[b]));
      assert Waiting(inc, {}, b) == Members(inc[b]);
    }
  }

  lemma NoPredecessors(out: Adjacency, inc: Adjacency, b: Id)
    requires Transposed(out, inc) && b in inc && |inc[b]| == 0
    ensures forall a :: !Edge(out, a, b)
  {
    assert Column(out, inc, b);
  }

  /** Emitting a predecessor of b takes exactly one off what b waits for. */
  lemma OneFewerWaiting(out: Adjacency, inc: Adjacency, done: set<Id>, id: Id, b: Id)
    requires Transposed(out, inc) && b in inc && Edge(out, id, b) && id !in done
    ensures |Waiting(inc, done + {id}, b)| == |Waiting(inc, done, b)| - 1
    ensures |Waiting(inc, done + {id}, b)| == 0 ==> forall a :: Edge(out, a, b) ==> a in done + {id}
  {
    assert Column(out, inc, b);
    assert id in Waiting(inc, done, b);
    assert Waiting(inc, done + {id}, b) == Waiting(inc, done, b) - {id};
    if |Waiting(inc, done + {id}, b)| == 0 {
      assert Waiting(inc, done + {id}, b) == {};
      forall a | Edge(out, a, b)
        ensures a in done + {id}
      {
        assert a !in Waiting(inc, done + {id}, b);
      }
    }
  }

  /** One successor of the node just emitted loses one waited-for predecessor. */
  lemma RelaxOne(out: Adjacency, inc: Adjacency, done: set<Id>, id: Id, relaxed: set<Id>, next: Id,
                 degree: map<Id, int>, queued: set<Id>, degree': map<Id, int>, queued': set<Id>)
    requires Transposed(out, inc) && next in inc && Edge(out, id, next) && id !in done && next !in relaxed
    requires Relaxed(inc, done, id, relaxed, degree, queued)
    requires degree' == degree[next := degree[next] - 1]
    requires queued' == if degree'[next] == 0 then queued + {next} else queued
    ensures Relaxed(inc, done, id, relaxed + {next}, degree', queued')
    ensures next !in queued
    ensures degree'[next] == 0 ==> forall a :: Edge(out, a, next) ==> a in done + {id}
  {
    OneFewerWaiting(out, inc, done, id, next);
    assert CountedSoFar(inc, done, id, relaxed, degree, queued, next);
    forall b | b in inc
      ensures CountedSoFar(inc, done, id, relaxed + {next}, degree', queued', b)
    {
      assert CountedSoFar(inc, done, id, relaxed, degree, queued, b);
    }
  }

  lemma RelaxEnds(out: Adjacency, inc: Adjacency, done: set<Id>, id: Id, degree: map<Id, int>, queued: set<Id>)
    requires Transposed(out, inc) && id in out && Relaxed(inc, done, id, Members(out[id]), degree, queued)
    ensures AllCounted(inc, done + {id}, degree, queued)
  {
    forall b | b in inc
      ensures Counted(inc, done + {id}, degree, queued, b)
    {
      assert CountedSoFar(inc, done, id, Members(out[id]), degree, queued, b) && Column(out, inc, b);
      if b !in out[id] {
        assert !Edge(out, id, b);
        assert Waiting(inc, done + {id}, b) == Waiting(inc, done, b);
      }
    }
  }

  lemma RelaxStarts(inc: Adjacency, done: set<Id>, id: Id, degree: map<Id, int>, queued: set<Id>)
    requires AllCounted(inc, done, degree, queued)
    ensures Relaxed(inc, done, id, {}, degree, queued)
  {
    forall b | b in inc
      ensures CountedSoFar(inc, done, id, {}, degree, queued, b)
    {
      assert Counted(inc, done, degree, queued, b);
    }
  }

  /** Relax every successor of the node just emitted. */
  method Relax(out: Adjacency, inc: Adjacency, id: Id, degree: map<Id, int>, queue: seq<Id>, ghost queued: set<Id>, ghost done: set<Id>)
    returns (degree': map<Id, int>, queue': seq<Id>, ghost queued': set<Id>)
    requires Closed(out) && Transposed(out, inc) && id in out && id !in done
    requires AllCounted(inc, done, degree, queued) && Queued(out, queue, queued)
    requires done + {id} <= queued
    ensures AllCounted(inc, done + {id}, degree', queued') && Queued(out, queue', queued')
    ensures queue <= queue' && queued <= queued'
  {
    degree', queue', queued' := degree, queue, queued;
    var neighbors := out[id];
    ghost var relaxed: set<Id> := {};
    RelaxStarts(inc, done, id, degree, queued);
    assert Row(out, id);
    for k := 0 to |neighbors|
      invariant Lists(neighbors[..k], relaxed) && Relaxed(inc, done, id, relaxed, degree', queued')
      invariant Queued(out, queue', queued') && queue <= queue' && queued <= queued'
    {
      var next := neighbors[k];
      ListsNext(neighbors, Members(neighbors), k, relaxed);
      assert Edge(out, id, next);
      var remaining := degree'[next] - 1;
      ghost var grown := if remaining == 0 then queued' + {next} else queued';
      RelaxOne(out, inc, done, id, relaxed, next, degree', queued', degree'[next := remaining], grown);
      degree' := degree'[next := remaining];
      if remaining == 0 {
        PushKeepsOrder(out, queue', queued', next);
        queue' := queue' + [next];
      }
      queued' := grown;
      relaxed := relaxed + {next};
    }
    assert neighbors[..|neighbors|] == neighbors;
    ListsUnique(neighbors, relaxed, Members(neighbors));
    RelaxEnds(out, inc, done, id, degree', queued');
  }

  /** A dependency-safe order of all nodes, or nothing exactly when the graph has a cycle. */
  method TopologicalSort(nodes: seq<Id>, out: Adjacency, inc: Adjacency) returns (r: Option<seq<Id>>)
    requires WellFormed(nodes, out, inc)
    ensures r.None? <==> Cyclic(out)
    ensures r.Some? ==> Lists(r.value, out.Keys) && PredecessorsFirst(out, r.value)
  {
    var degree, queue, queued := InDegrees(nodes, out, inc);
    var order := [];
    var head := 0;
    ghost var done: set<Id> := {};
    while head < |queue|
      invariant head <= |queue| && order == queue[..head] && Lists(order, done) && done <= queued
      invariant Queued(out, queue, queued) && AllCounted(inc, done, degree, queued)
      decreases out.Keys - done
    {
      var id := queue[head];
      ListsNext(queue, queued, head, done);
      head := head + 1;
      order := order + [id];
      assert order == queue[..head];
      degree, queue, queued := Relax(out, inc, id, degree, queue, queued, done);
      assert order == queue[..head];
      done := done + {id};
    }
    assert order == queue;
    ListsUnique(queue, done, queued);
    ListsDistinct(order, done);
    ListsDistinct(nodes, out.Keys);
    if |order| == |nodes| {
      SubsetSize(done, out.Keys);
      DependencyOrderIsAcyclic(out, order);
      r := Some(order);
    } else {
      StuckIsCyclic(out, inc, done, degree);
      r := None;
    }
  }

  /** When the queue runs dry early, the nodes left over all wait for one another. */
  lemma StuckIsCyclic(out: Adjacency, inc: Adjacency, done: set<Id>, degree: map<Id, int>)
    requires Transposed(out, inc) && done <= out.Keys && done != out.Keys
    requires AllCounted(inc, done, degree, done)
    ensures Cyclic(out)
  {
    var left := out.Keys - done;
    forall b | b in left
      ensures HasPredecessor(out, left, b)
    {
      assert Counted(inc, done, degree, done, b) && Column(out, inc, b);
      var a :| a in Waiting(inc, done, b);
      assert Edge(out, a, b) && a in left;
    }
    assert out.Keys == done + left;
    BackedIsCyclic(out, left);
  }
}
