/**
 * Undirected connectivity over a set of links: the equivalence closure that
 * both the union-find structure and the component search of the graph compute.
 */
module Closure {
  import opened InsertionOrder

  /** Identifiers are text, and these algorithms only ever compare them for equality. */
  type Id(==, !new)

  type Link = (Id, Id)

  /** One step along a link, in either direction. */
  ghost predicate Adjacent(links: set<Link>, x: Id, y: Id) {
    (x, y) in links || (y, x) in links
  }

  ghost predicate Walk(links: set<Link>, walk: seq<Id>) {
    |walk| > 0 && forall i :: 0 < i < |walk| ==> Adjacent(links, walk[i - 1], walk[i])
  }

  /** x and y are related by the reflexive, symmetric, transitive closure of the links. */
  ghost predicate Linked(links: set<Link>, x: Id, y: Id) {
    exists walk :: Walk(links, walk) && walk[0] == x && walk[|walk| - 1] == y
  }

  lemma LinkedReflexive(links: set<Link>, x: Id)
    ensures Linked(links, x, x)
  {
    assert Walk(links, [x]) && [x][0] == x && [x][|[x]| - 1] == x;
  }

  lemma LinkedStep(links: set<Link>, x: Id, y: Id)
    requires Adjacent(links, x, y)
    ensures Linked(links, x, y)
  {
    var walk := [x, y];
    assert Walk(links, walk) && walk[0] == x && walk[|walk| - 1] == y;
  }

  lemma LinkedTransitive(links: set<Link>, x: Id, y: Id, z: Id)
    requires Linked(links, x, y) && Linked(links, y, z)
    ensures Linked(links, x, z)
  {
    var first :| Walk(links, first) && first[0] == x && first[|first| - 1] == y;
    var second :| Walk(links, second) && second[0] == y && second[|second| - 1] == z;
    var walk := first + second[1..];
    forall i | 0 < i < |walk|
      ensures Adjacent(links, walk[i - 1], walk[i])
    {
      if i >= |first| {
        assert walk[i] == second[i - |first| + 1];
        assert walk[i - 1] == second[i - |first|];
      }
    }
    assert Walk(links, walk) && walk[0] == x && walk[|walk| - 1] == z;
  }

  lemma LinkedSymmetric(links: set<Link>, x: Id, y: Id)
    requires Linked(links, x, y)
    ensures Linked(links, y, x)
  {
    var walk :| Walk(links, walk) && walk[0] == x && walk[|walk| - 1] == y;
    var back := seq(|walk|, i requires 0 <= i < |walk| => walk[|walk| - 1 - i]);
    forall i | 0 < i < |back|
      ensures Adjacent(links, back[i - 1], back[i])
    {
      var j := |walk| - i;
      assert Adjacent(links, walk[j - 1], walk[j]);
    }
    assert Walk(links, back) && back[0] == y && back[|back| - 1] == x;
  }

  lemma LinkedMonotone(small: set<Link>, large: set<Link>, x: Id, y: Id)
    requires small <= large
    requires Linked(small, x, y)
    ensures Linked(large, x, y)
  {
    var walk :| Walk(small, walk) && walk[0] == x && walk[|walk| - 1] == y;
    assert forall i :: 0 < i < |walk| ==> Adjacent(small, walk[i - 1], walk[i]);
    assert Walk(large, walk);
  }

  /** A labelling that is constant along every link is constant on every class. */
  lemma LinkedPreserves<T>(links: set<Link>, tag: map<Id, T>, x: Id, y: Id)
    requires forall e :: e in links ==> e.0 in tag && e.1 in tag && tag[e.0] == tag[e.1]
    requires x in tag
    requires Linked(links, x, y)
    ensures y in tag && tag[x] == tag[y]
  {
    var walk :| Walk(links, walk) && walk[0] == x && walk[|walk| - 1] == y;
    WalkPreserves(links, tag, walk);
  }

  lemma {:induction false} WalkPreserves<T>(links: set<Link>, tag: map<Id, T>, walk: seq<Id>)
    requires forall e :: e in links ==> e.0 in tag && e.1 in tag && tag[e.0] == tag[e.1]
    requires Walk(links, walk) && walk[0] in tag
    ensures walk[|walk| - 1] in tag && tag[walk[0]] == tag[walk[|walk| - 1]]
    decreases |walk|
  {
    if |walk| > 1 {
      assert Adjacent(links, walk[0], walk[1]);
      var rest := walk[1..];
      forall i | 0 < i < |rest|
        ensures Adjacent(links, rest[i - 1], rest[i])
      {
        assert Adjacent(links, walk[i], walk[i + 1]);
      }
      WalkPreserves(links, tag, rest);
    }
  }

  /** An element that no link touches is related to itself only. */
  lemma LinkedIsolated(links: set<Link>, x: Id, y: Id)
    requires forall e :: e in links ==> e.0 != x && e.1 != x
    requires Linked(links, x, y) || Linked(links, y, x)
    ensures x == y
  {
    if Linked(links, y, x) { LinkedSymmetric(links, y, x); }
    var ends := (set e | e in links :: e.0) + (set e | e in links :: e.1);
    var tag := map z | z in ends + {x} :: z == x;
    assert x !in ends;
    LinkedPreserves(links, tag, x, y);
  }

  /** One whole class, each of its elements listed once. */
  ghost predicate IsClass(cluster: seq<Id>, elements: set<Id>, links: set<Link>) {
    exists x :: x in elements && Lists(cluster, set y | y in elements && Linked(links, x, y))
  }
}
