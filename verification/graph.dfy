/** packages/algorithms/src/graph.ts: the mutable graph, its two adjacency maps kept transposed. */
module Graphs {
  import opened Basics
  import opened Closure
  import opened GraphOrder
  import opened GraphPaths
  import opened InsertionOrder
  import GraphComponents
  import GraphCycles
  import GraphSearch
  import GraphShortest

  /** Deleting a key of a Map or Set leaves the order of the others alone. */
  function Deleted(s: seq<Id>, x: Id): seq<Id> {
    if s == [] then []
    else
      var n := |s| - 1;
      if s[n] == x then Deleted(s[..n], x) else Deleted(s[..n], x) + [s[n]]
  }

  lemma {:induction false} DeletedLists(s: seq<Id>, keys: set<Id>, x: Id)
    requires Lists(s, keys)
    ensures Lists(Deleted(s, x), keys - {x})
  {
    if s != [] {
      var last := s[|s| - 1];
      DeletedLists(s[..|s| - 1], keys - {last}, x);
      if last == x {
        assert keys - {last} - {x} == keys - {x};
      } else {
        ListsAppend(Deleted(s[..|s| - 1], x), keys - {last} - {x}, last);
        assert keys - {last} - {x} + {last} == keys - {x};
      }
    }
  }

  /** Setting a key of a Map or Set appends it unless it is already there. */
  function Added(s: seq<Id>, x: Id): seq<Id> {
    if x in s then s else s + [x]
  }

  lemma DeletedMembers(s: seq<Id>, x: Id)
    requires NoRepeats(s)
    ensures NoRepeats(Deleted(s, x)) && forall y :: y in Deleted(s, x) <==> y in s && y != x
  {
    DeletedLists(s, Members(s), x);
    ListsMembers(Deleted(s, x), Members(s) - {x});
    ListsDistinct(Deleted(s, x), Members(s) - {x});
  }

  lemma AddedMembers(s: seq<Id>, x: Id)
    requires NoRepeats(s)
    ensures NoRepeats(Added(s, x)) && forall y :: y in Added(s, x) <==> y in s || y == x
  {
    if x !in s {
      ListsAppend(s, Members(s), x);
      ListsMembers(s + [x], Members(s) + {x});
    }
  }

  // ---------- Each mutation keeps the maps transposed ----------

  lemma AddNodeKeeps(nodes: seq<Id>, out: Adjacency, inc: Adjacency, id: Id)
    requires WellFormed(nodes, out, inc) && id !in out
    ensures WellFormed(nodes + [id], out[id := []], inc[id := []])
    ensures forall a, b :: Edge(out[id := []], a, b) <==> Edge(out, a, b)
  {
    var out', inc' := out[id := []], inc[id := []];
    ListsAppend(nodes, out.Keys, id);
    assert out'.Keys == out.Keys + {id};
    NoEdgeInto(out, id);
    assert Members<Id>([]) == {};
    forall a | a in out'
      ensures Row(out', a)
    {
      assert a != id ==> Row(out, a);
    }
    forall b | b in inc'
      ensures Column(out', inc', b)
    {
      if b != id {
        assert Column(out, inc, b);
        assert inc'[b] == inc[b];
      }
      forall a
        ensures a in inc'[b] <==> Edge(out', a, b)
      {
        assert Edge(out', a, b) <==> Edge(out, a, b);
      }
    }
  }

  lemma NoEdgeInto(out: Adjacency, id: Id)
    requires Closed(out) && id !in out
    ensures forall a :: !Edge(out, a, id)
  {
    forall a | a in out
      ensures !Edge(out, a, id)
    {
      assert Row(out, a);
    }
  }

  /** Rewriting one row and one column together, so that one edge is present or absent and no other edge changes. */
  lemma SetEdgeKeeps(nodes: seq<Id>, out: Adjacency, inc: Adjacency, from: Id, to: Id, present: bool, row: seq<Id>, column: seq<Id>)
    requires WellFormed(nodes, out, inc) && from in out && to in out
    requires NoRepeats(row) && forall y :: y in row <==> (if y == to then present else y in out[from])
    requires NoRepeats(column) && forall y :: y in column <==> (if y == from then present else y in inc[to])
    ensures WellFormed(nodes, out[from := row], inc[to := column])
    ensures forall a, b :: Edge(out[from := row], a, b) <==> if a == from && b == to then present else Edge(out, a, b)
  {
    var out', inc' := out[from := row], inc[to := column];
    assert Row(out, from) && Column(out, inc, to);
    assert out'.Keys == out.Keys && inc'.Keys == inc.Keys;
    forall a | a in out'
      ensures Row(out', a)
    {
      assert Row(out, a);
    }
    forall b | b in inc'
      ensures Column(out', inc', b)
    {
      assert Column(out, inc, b);
      forall a
        ensures a in inc'[b] <==> Edge(out', a, b)
      {
        assert a in inc[b] <==> Edge(out, a, b);
      }
    }
  }

  lemma AddEdgeKeeps(nodes: seq<Id>, out: Adjacency, inc: Adjacency, from: Id, to: Id)
    requires WellFormed(nodes, out, inc) && from in out && to in out
    ensures WellFormed(nodes, out[from := Added(out[from], to)], inc[to := Added(inc[to], from)])
    ensures forall a, b :: Edge(out[from := Added(out[from], to)], a, b) <==> Edge(out, a, b) || (a == from && b == to)
  {
    assert Row(out, from) && Column(out, inc, to);
    AddedMembers(out[from], to);
    AddedMembers(inc[to], from);
    SetEdgeKeeps(nodes, out, inc, from, to, true, Added(out[from], to), Added(inc[to], from));
  }

  lemma RemoveEdgeKeeps(nodes: seq<Id>, out: Adjacency, inc: Adjacency, from: Id, to: Id)
    requires WellFormed(nodes, out, inc) && from in out && to in out
    ensures WellFormed(nodes, out[from := Deleted(out[from], to)], inc[to := Deleted(inc[to], from)])
    ensures forall a, b :: Edge(out[from := Deleted(out[from], to)], a, b) <==> Edge(out, a, b) && !(a == from && b == to)
  {
    assert Row(out, from) && Column(out, inc, to);
    DeletedMembers(out[from], to);
    DeletedMembers(inc[to], from);
    SetEdgeKeeps(nodes, out, inc, from, to, false, Deleted(out[from], to), Deleted(inc[to], from));
  }

  // ---------- The class ----------

  class DirectedGraph {
    var nodes: seq<Id>
    var outgoing: Adjacency
    var incoming: Adjacency

    ghost predicate Valid()
      reads this
    {
      WellFormed(nodes, outgoing, incoming)
    }

    constructor ()
      ensures Valid() && outgoing == map[]
    {
      nodes, outgoing, incoming := [], map[], map[];
    }

    method AddNode(id: Id)
      requires Valid()
      modifies this
      ensures Valid() && outgoing.Keys == old(outgoing.Keys) + {id}
      ensures forall a, b :: Edge(outgoing, a, b) <==> Edge(old(outgoing), a, b)
      ensures nodes == Added(old(nodes), id)
    {
      ListsDistinct(nodes, outgoing.Keys);
      if id !in outgoing {
        AddNodeKeeps(nodes, outgoing, incoming, id);
        nodes := nodes + [id];
        outgoing := outgoing[id := []];
        incoming := incoming[id := []];
      }
    }

    /** Afterwards the edges are exactly the old ones and the new one; missing endpoints are created. */
    method AddEdge(from: Id, to: Id)
      requires Valid()
      modifies this
      ensures Valid() && outgoing.Keys == old(outgoing.Keys) + {from} + {to}
      ensures forall a, b :: Edge(outgoing, a, b) <==> Edge(old(outgoing), a, b) || (a == from && b == to)
    {
      AddNode(from);
      AddNode(to);
      Connect(from, to);
    }

    method Connect(from: Id, to: Id)
      requires Valid() && from in outgoing && to in outgoing
      modifies this
      ensures Valid() && outgoing.Keys == old(outgoing.Keys)
      ensures forall a, b :: Edge(outgoing, a, b) <==> Edge(old(outgoing), a, b) || (a == from && b == to)
    {
      AddEdgeKeeps(nodes, outgoing, incoming, from, to);
      outgoing := outgoing[from := Added(outgoing[from], to)];
      incoming := incoming[to := Added(incoming[to], from)];
    }

    /** Afterwards the edges are exactly the old ones but this one; the result says whether it existed. */
    method RemoveEdge(from: Id, to: Id) returns (removed: bool)
      requires Valid()
      modifies this
      ensures Valid() && outgoing.Keys == old(outgoing.Keys)
      ensures removed <==> Edge(old(outgoing), from, to)
      ensures forall a, b :: Edge(outgoing, a, b) <==> Edge(old(outgoing), a, b) && !(a == from && b == to)
    {
      removed := from in outgoing && to in outgoing[from];
      if removed {
        assert Row(outgoing, from);
        RemoveEdgeKeeps(nodes, outgoing, incoming, from, to);
        outgoing := outgoing[from := Deleted(outgoing[from], to)];
        incoming := incoming[to := Deleted(incoming[to], from)];
      }
    }

    method TopologicalSort() returns (order: Option<seq<Id>>)
      requires Valid()
      ensures order.None? <==> Cyclic(outgoing)
      ensures order.Some? ==> Lists(order.value, outgoing.Keys) && PredecessorsFirst(outgoing, order.value)
    {
      order := GraphOrder.TopologicalSort(nodes, outgoing, incoming);
    }

    method FindCycle() returns (cycle: Option<seq<Id>>)
      requires Valid()
      ensures cycle.Some? ==> Cycle(outgoing, cycle.value)
      ensures cycle.None? <==> !Cyclic(outgoing)
    {
      cycle := GraphCycles.FindCycle(nodes, outgoing);
    }

    method Bfs(start: Id, maxDepth: Option<int>) returns (order: seq<GraphSearch.Visit>)
      requires Valid()
      ensures start !in outgoing ==> order == []
      ensures start in outgoing ==> GraphSearch.TraversalOf(outgoing, start, maxDepth, order)
    {
      order := GraphSearch.Bfs(outgoing, start, maxDepth);
    }

    method ShortestPath(from: Id, to: Id) returns (r: Option<seq<Id>>)
      requires Valid()
      ensures r.None? <==> forall n: nat :: !Reaches(outgoing, from, to, n)
      ensures r.Some? ==> Path(outgoing, r.value) && r.value[0] == from && r.value[|r.value| - 1] == to
      ensures r.Some? ==> Distance(outgoing, from, to, |r.value| - 1)
    {
      r := GraphShortest.ShortestPath(outgoing, from, to);
    }

    method ConnectedComponents() returns (components: seq<seq<Id>>)
      requires Valid()
      ensures GraphComponents.PartitionedInto(components, outgoing.Keys, outgoing.Keys, GraphComponents.EdgeLinks(outgoing))
    {
      components := GraphComponents.ConnectedComponents(nodes, outgoing, incoming);
    }
  }
}
