/** packages/algorithms/src/graph.ts: weakly connected components. */
module GraphComponents {
  import opened Basics
  import opened Closure
  import opened GraphOrder
  import opened GraphPaths
  import opened InsertionOrder

  /** The edges with their direction forgotten by Linked. */
  ghost function EdgeLinks(out: Adjacency): set<Link> {
    set a, b | a in out && b in out[a] :: (a, b)
  }

  /** No link leaves the set. */
  ghost predicate Saturated(links: set<Link>, s: set<Id>) {
    forall x, y {:trigger Adjacent(links, x, y)} :: x in s && Adjacent(links, x, y) ==> y in s
  }

  lemma AroundIsAdjacent(out: Adjacency, inc: Adjacency, id: Id, y: Id)
    requires Transposed(out, inc) && id in out
    ensures y in out[id] + inc[id] <==> Adjacent(EdgeLinks(out), id, y)
  {
    var links := EdgeLinks(out);
    assert Column(out, inc, id);
    assert y in out[id] <==> (id, y) in links;
    assert y in inc[id] <==> (y, id) in links;
  }

  /** What the search of one component keeps true. */
  ghost predicate Growing(links: set<Link>, keys: set<Id>, before: set<Id>, start: Id, comp: set<Id>, pending: set<Id>) {
    && comp + pending <= keys && comp !! pending && (comp + pending) !! before
    && start in comp + pending
    && forall x {:trigger Linked(links, start, x)} :: x in comp + pending ==> Linked(links, start, x)
  }

  /** Every neighbour of the nodes already taken from the stack has been visited. */
  ghost predicate Swept(links: set<Link>, comp: set<Id>, visited: set<Id>) {
    forall x, y {:trigger Adjacent(links, x, y)} :: x in comp && Adjacent(links, x, y) ==> y in visited
  }

  method Component(out: Adjacency, inc: Adjacency, start: Id, visited: set<Id>) returns (component: seq<Id>, visited': set<Id>, ghost comp: set<Id>)
    requires Closed(out) && Transposed(out, inc) && start in out && start !in visited
    requires Saturated(EdgeLinks(out), visited)
    ensures Lists(component, comp) && visited' == visited + comp && comp !! visited && start in comp
    ensures comp == set y | y in out.Keys && Linked(EdgeLinks(out), start, y)
    ensures Saturated(EdgeLinks(out), visited')
  {
    ghost var links, pending := EdgeLinks(out), {start};
    component, comp := [], {};
    var stack := [start];
    visited' := visited + {start};
    LinkedReflexive(links, start);
    ListsAppend([], {}, start);
    assert [] + [start] == [start];
    while stack != []
      invariant Lists(component, comp) && Lists(stack, pending) && visited' == visited + comp + pending
      invariant Growing(links, out.Keys, visited, start, comp, pending) && Swept(links, comp, visited')
      decreases out.Keys - comp
    {
      var id := stack[|stack| - 1];
      stack := stack[..|stack| - 1];
      ListsAppend(component, comp, id);
      component := component + [id];
      ghost var comp0 := comp;
      comp, pending := comp + {id}, pending - {id};
      stack, visited', pending := PushAround(out, inc, start, id, stack, visited', visited, comp, pending);
      forall x, y | x in comp && Adjacent(links, x, y)
        ensures y in visited'
      {
        if x == id { AroundIsAdjacent(out, inc, id, y); }
      }
    }
    WholeClass(out, visited, start, comp);
  }

  /** Push the unvisited neighbours of id, in either direction. */
  method PushAround(out: Adjacency, inc: Adjacency, ghost start: Id, id: Id, stack: seq<Id>, visited: set<Id>,
                    ghost before: set<Id>, ghost comp: set<Id>, ghost pending: set<Id>)
    returns (stack': seq<Id>, visited': set<Id>, ghost pending': set<Id>)
    requires Closed(out) && Transposed(out, inc) && id in comp
    requires Growing(EdgeLinks(out), out.Keys, before, start, comp, pending)
    requires Lists(stack, pending) && visited == before + comp + pending
    ensures Growing(EdgeLinks(out), out.Keys, before, start, comp, pending')
    ensures Lists(stack', pending') && visited' == before + comp + pending' && visited <= visited'
    ensures forall y :: y in out[id] + inc[id] ==> y in visited'
  {
    stack', visited', pending' := stack, visited, pending;
    ghost var links := EdgeLinks(out);
    var around := out[id] + inc[id];
    for k := 0 to |around|
      invariant Growing(links, out.Keys, before, start, comp, pending')
      invariant Lists(stack', pending') && visited' == before + comp + pending' && visited <= visited'
      invariant forall n :: 0 <= n < k ==> around[n] in visited'
    {
      var next := around[k];
      if next !in visited' {
        NeighbourIsLinked(out, inc, start, id, next);
        ListsAppend(stack', pending', next);
        visited' := visited' + {next};
        stack' := stack' + [next];
        pending' := pending' + {next};
      }
    }
  }

  lemma NeighbourIsLinked(out: Adjacency, inc: Adjacency, start: Id, id: Id, next: Id)
    requires Closed(out) && Transposed(out, inc) && id in out && next in out[id] + inc[id]
    requires Linked(EdgeLinks(out), start, id)
    ensures Linked(EdgeLinks(out), start, next) && next in out
  {
    AroundIsAdjacent(out, inc, id, next);
    LinkedStep(EdgeLinks(out), id, next);
    LinkedTransitive(EdgeLinks(out), start, id, next);
    assert Row(out, id) && Column(out, inc, id);
  }

  lemma WholeClass(out: Adjacency, before: set<Id>, start: Id, comp: set<Id>)
    requires Closed(out) && Saturated(EdgeLinks(out), before)
    requires Growing(EdgeLinks(out), out.Keys, before, start, comp, {}) && Swept(EdgeLinks(out), comp, before + comp)
    ensures comp == set y | y in out.Keys && Linked(EdgeLinks(out), start, y)
    ensures Saturated(EdgeLinks(out), before + comp)
  {
    var links := EdgeLinks(out);
    forall x, y | x in before + comp && Adjacent(links, x, y)
      ensures y in before + comp
    {
    }
    var tag := map z | z in out.Keys :: z in comp;
    forall e | e in links
      ensures e.0 in tag && e.1 in tag && tag[e.0] == tag[e.1]
    {
      assert Row(out, e.0);
      assert Adjacent(links, e.0, e.1) && Adjacent(links, e.1, e.0);
    }
    forall y | y in out.Keys && Linked(links, start, y)
      ensures y in comp
    {
      LinkedPreserves(links, tag, start, y);
    }
  }

  /** Whole classes, each listed once, pairwise disjoint, together covering the given nodes. */
  ghost predicate PartitionedInto(components: seq<seq<Id>>, covered: set<Id>, keys: set<Id>, links: set<Link>) {
    && (forall i {:trigger ComponentAt(components, covered, keys, links, i)} :: 0 <= i < |components| ==>
          ComponentAt(components, covered, keys, links, i))
    && (forall x {:trigger InSome(components, x)} :: x in covered ==> InSome(components, x))
    && (forall i, j {:trigger Apart(components, i, j)} :: 0 <= i < j < |components| ==> Apart(components, i, j))
  }

  ghost predicate ComponentAt(components: seq<seq<Id>>, covered: set<Id>, keys: set<Id>, links: set<Link>, i: nat)
    requires i < |components|
  {
    IsClass(components[i], keys, links) && Members(components[i]) <= covered
  }

  ghost predicate InSome(components: seq<seq<Id>>, x: Id) {
    exists i :: 0 <= i < |components| && x in components[i]
  }

  ghost predicate Apart(components: seq<seq<Id>>, i: nat, j: nat)
    requires i < |components| && j < |components|
  {
    Members(components[i]) !! Members(components[j])
  }

  /** The classes of the edges read as undirected links. */
  method ConnectedComponents(nodes: seq<Id>, out: Adjacency, inc: Adjacency) returns (components: seq<seq<Id>>)
    requires WellFormed(nodes, out, inc)
    ensures PartitionedInto(components, out.Keys, out.Keys, EdgeLinks(out))
  {
    components := [];
    var visited: set<Id> := {};
    ghost var links, seen: set<Id> := EdgeLinks(out), {};
    var i := 0;
    while i < |nodes|
      invariant 0 <= i <= |nodes| && Lists(nodes[..i], seen) && seen <= visited <= out.Keys
      invariant Saturated(links, visited) && PartitionedInto(components, visited, out.Keys, links)
    {
      ListsNext(nodes, out.Keys, i, seen);
      if nodes[i] !in visited {
        ghost var before := visited;
        var component, visited', comp := Component(out, inc, nodes[i], visited);
        AddComponent(components, before, component, comp, nodes[i], out.Keys, links);
        components, visited := components + [component], visited';
      }
      seen := seen + {nodes[i]};
      i := i + 1;
    }
    assert nodes[..i] == nodes;
    ListsUnique(nodes, seen, out.Keys);
    assert visited == out.Keys;
  }

  lemma AddComponent(components: seq<seq<Id>>, visited: set<Id>, component: seq<Id>, comp: set<Id>, start: Id, keys: set<Id>, links: set<Link>)
    requires PartitionedInto(components, visited, keys, links)
    requires Lists(component, comp) && comp !! visited && start in keys
    requires comp == set y | y in keys && Linked(links, start, y)
    ensures PartitionedInto(components + [component], visited + comp, keys, links)
  {
    var all, covered := components + [component], visited + comp;
    ListsMembers(component, comp);
    forall i | 0 <= i < |all|
      ensures ComponentAt(all, covered, keys, links, i)
    {
      if i < |components| {
        assert ComponentAt(components, visited, keys, links, i);
      } else {
        assert IsClass(component, keys, links);
      }
    }
    forall x | x in covered
      ensures InSome(all, x)
    {
      if x in visited {
        assert InSome(components, x);
        var m :| 0 <= m < |components| && x in components[m];
        assert x in all[m];
      } else {
        assert x in Members(component) && component == all[|components|];
      }
    }
    forall i, j | 0 <= i < j < |all|
      ensures Apart(all, i, j)
    {
      assert ComponentAt(components, visited, keys, links, i);
      if j < |components| { assert Apart(components, i, j); }
    }
    assert PartitionedInto(all, covered, keys, links);
  }
}
