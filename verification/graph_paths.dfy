/** Directed paths and cycles over adjacency lists. */
module GraphPaths {
  import opened Closure
  import opened InsertionOrder

  /** For each node its direct successors, in insertion order. */
  type Adjacency = map<Id, seq<Id>>

  ghost predicate Edge(out: Adjacency, a: Id, b: Id) {
    a in out && b in out[a]
  }

  /** Successors are themselves nodes, and none is listed twice. */
  ghost predicate Closed(out: Adjacency) {
    forall a {:trigger Row(out, a)} :: a in out ==> Row(out, a)
  }

  ghost predicate Row(out: Adjacency, a: Id)
    requires a in out
  {
    NoRepeats(out[a]) && forall b :: b in out[a] ==> b in out
  }

  ghost predicate Path(out: Adjacency, p: seq<Id>) {
    && |p| > 0 && p[0] in out
    && forall i {:trigger Step(out, p, i)} :: 0 < i < |p| ==> Step(out, p, i)
  }

  ghost predicate Step(out: Adjacency, p: seq<Id>, i: int)
    requires 0 < i < |p|
  {
    Edge(out, p[i - 1], p[i])
  }

  /** A path of n edges leads from a to b. */
  ghost predicate Reaches(out: Adjacency, a: Id, b: Id, n: nat) {
    exists p :: Path(out, p) && |p| == n + 1 && p[0] == a && p[n] == b
  }

  /** n is the length of a shortest path from a to b. */
  ghost predicate Distance(out: Adjacency, a: Id, b: Id, n: nat) {
    && Reaches(out, a, b, n)
    && forall m: nat :: Reaches(out, a, b, m) ==> n <= m
  }

  /** A closed walk along existing edges. */
  ghost predicate Cycle(out: Adjacency, p: seq<Id>) {
    Path(out, p) && |p| > 1 && p[0] == p[|p| - 1]
  }

  ghost predicate Cyclic(out: Adjacency) {
    exists p :: Cycle(out, p)
  }

  lemma ReachesSelf(out: Adjacency, a: Id)
    requires a in out
    ensures Reaches(out, a, a, 0)
  {
    assert Path(out, [a]) && |[a]| == 0 + 1 && [a][0] == a;
  }

  lemma ReachesFurther(out: Adjacency, a: Id, b: Id, c: Id, n: nat)
    requires Reaches(out, a, b, n) && Edge(out, b, c)
    ensures Reaches(out, a, c, n + 1)
  {
    var p :| Path(out, p) && |p| == n + 1 && p[0] == a && p[n] == b;
    PathAppend(out, p, c);
    var q := p + [c];
    assert |q| == (n + 1) + 1 && q[0] == a && q[n + 1] == c;
  }

  lemma PathAppend(out: Adjacency, p: seq<Id>, c: Id)
    requires Path(out, p) && Edge(out, p[|p| - 1], c)
    ensures Path(out, p + [c])
  {
    var q := p + [c];
    forall i | 0 < i < |q|
      ensures Step(out, q, i)
    {
      assert i < |p| ==> Step(out, p, i);
    }
  }

  lemma PathPrepend(out: Adjacency, p: seq<Id>, c: Id)
    requires Path(out, p) && Edge(out, c, p[0])
    ensures Path(out, [c] + p)
  {
    var q := [c] + p;
    forall i | 0 < i < |q|
      ensures Step(out, q, i)
    {
      assert i > 1 ==> Step(out, p, i - 1);
    }
  }

  lemma PathSlice(out: Adjacency, p: seq<Id>, i: nat, j: nat)
    requires Path(out, p) && i < j <= |p| && p[i] in out
    ensures Path(out, p[i..j])
  {
    var q := p[i..j];
    forall k | 0 < k < |q|
      ensures Step(out, q, k)
    {
      assert Step(out, p, i + k);
    }
  }

  lemma {:induction false} PathStaysInside(out: Adjacency, p: seq<Id>, i: nat)
    requires Closed(out) && Path(out, p) && i < |p|
    ensures p[i] in out
  {
    if i > 0 {
      PathStaysInside(out, p, i - 1);
      assert Step(out, p, i) && Row(out, p[i - 1]);
    }
  }

  // ---------- Acyclicity certificates ----------

  /** Every successor of an element of the list occurs strictly earlier in it. */
  ghost predicate SuccessorsFirst(out: Adjacency, list: seq<Id>) {
    forall i {:trigger Finished(out, list, i)} :: 0 <= i < |list| ==> Finished(out, list, i)
  }

  ghost predicate Finished(out: Adjacency, list: seq<Id>, i: nat)
    requires i < |list|
  {
    forall b :: Edge(out, list[i], b) ==> b in list[..i]
  }

  /** Along a path through such a list the positions go down, so no path closes. */
  lemma {:induction false} PositionsDescend(out: Adjacency, list: seq<Id>, p: seq<Id>, i: nat)
    requires SuccessorsFirst(out, list) && Path(out, p) && |p| > 1
    requires i < |list| && list[i] == p[0]
    ensures p[|p| - 1] in list[..i]
    decreases |p|
  {
    assert Step(out, p, 1) && Finished(out, list, i) && Edge(out, list[i], p[1]);
    var j :| 0 <= j < i && list[j] == p[1];
    if |p| > 2 {
      assert p[1] in out by { assert Step(out, p, 2); }
      PathSlice(out, p, 1, |p|);
      assert p[1..] == p[1..|p|];
      PositionsDescend(out, list, p[1..], j);
      assert forall x :: x in list[..j] ==> x in list[..i];
    }
  }

  lemma FinishOrderIsAcyclic(out: Adjacency, list: seq<Id>)
    requires SuccessorsFirst(out, list)
    requires Lists(list, out.Keys)
    ensures !Cyclic(out)
  {
    ListsDistinct(list, out.Keys);
    if p :| Cycle(out, p) {
      var i :| 0 <= i < |list| && list[i] == p[0];
      PositionsDescend(out, list, p, i);
      assert false;
    }
  }

  // ---------- A set in which every node has a predecessor contains a cycle ----------

  ghost predicate Backed(out: Adjacency, s: set<Id>) {
    forall b {:trigger HasPredecessor(out, s, b)} :: b in s ==> HasPredecessor(out, s, b)
  }

  ghost predicate HasPredecessor(out: Adjacency, s: set<Id>, b: Id) {
    exists a :: a in s && Edge(out, a, b)
  }

  lemma {:induction false} BackwardWalk(out: Adjacency, s: set<Id>, start: Id, n: nat) returns (p: seq<Id>)
    requires Backed(out, s) && start in s && s <= out.Keys
    ensures Path(out, p) && |p| == n + 1
    ensures forall i :: 0 <= i < |p| ==> p[i] in s
  {
    if n == 0 {
      p := [start];
    } else {
      var q := BackwardWalk(out, s, start, n - 1);
      assert HasPredecessor(out, s, q[0]);
      var a :| a in s && Edge(out, a, q[0]);
      PathPrepend(out, q, a);
      p := [a] + q;
    }
  }

  lemma {:induction false} Pigeonhole(p: seq<Id>, s: set<Id>) returns (i: nat, j: nat)
    requires |p| > |s| && forall k :: 0 <= k < |p| ==> p[k] in s
    ensures i < j < |p| && p[i] == p[j]
    decreases |p|
  {
    var n := |p| - 1;
    if k :| 0 <= k < n && p[k] == p[n] {
      return k, n;
    }
    assert p[n] in s && |s - {p[n]}| == |s| - 1;
    i, j := Pigeonhole(p[..n], s - {p[n]});
  }

  lemma BackedIsCyclic(out: Adjacency, s: set<Id>)
    requires Backed(out, s) && s != {} && s <= out.Keys
    ensures Cyclic(out)
  {
    var start :| start in s;
    var p := BackwardWalk(out, s, start, |s|);
    var i, j := Pigeonhole(p, s);
    PathSlice(out, p, i, j + 1);
    assert Cycle(out, p[i..j + 1]);
  }
}
