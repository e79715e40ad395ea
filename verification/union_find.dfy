/** packages/algorithms/src/union-find.ts: union by rank with path compression. */
module UnionFinds {
  import opened Basics
  import opened Closure
  import opened InsertionOrder

  // ---------- The forest the two maps describe ----------

  /** Ranks strictly increase along parent links, so every chain of parents ends at a root. */
  ghost predicate Forest(parent: map<Id, Id>, rank: map<Id, nat>) {
    && parent.Keys == rank.Keys
    && forall x {:trigger Hangs(parent, rank, x)} :: x in parent ==> Hangs(parent, rank, x)
  }

  ghost predicate Hangs(parent: map<Id, Id>, rank: map<Id, nat>, x: Id)
    requires parent.Keys == rank.Keys && x in parent
  {
    parent[x] in parent && (parent[x] != x ==> rank[x] < rank[parent[x]])
  }

  ghost function Above(rank: map<Id, nat>, x: Id): set<Id>
    requires x in rank
  {
    set y | y in rank && rank[x] < rank[y]
  }

  /** Following a parent link leaves strictly fewer elements of higher rank. */
  lemma Climb(parent: map<Id, Id>, rank: map<Id, nat>, x: Id)
    requires Forest(parent, rank) && x in parent && parent[x] != x
    ensures parent[x] in parent && rank[x] < rank[parent[x]]
    ensures Above(rank, parent[x]) < Above(rank, x)
  {
    assert Hangs(parent, rank, x);
    assert parent[x] in Above(rank, x) && parent[x] !in Above(rank, parent[x]);
  }

  /** The representative reached by following parents. */
  ghost function Root(parent: map<Id, Id>, rank: map<Id, nat>, x: Id): (r: Id)
    requires Forest(parent, rank) && x in parent
    ensures r in parent && parent[r] == r
    ensures r != x ==> rank[x] < rank[r]
    decreases Above(rank, x)
  {
    if parent[x] == x then x
    else
      Climb(parent, rank, x);
      Root(parent, rank, parent[x])
  }

  /** y is met on the way from x to its representative. */
  ghost predicate OnPath(parent: map<Id, Id>, rank: map<Id, nat>, x: Id, y: Id)
    requires Forest(parent, rank) && x in parent
    decreases Above(rank, x)
  {
    y == x ||
    if parent[x] == x then false
    else
      Climb(parent, rank, x);
      OnPath(parent, rank, parent[x], y)
  }

  ghost function Roots(parent: map<Id, Id>): set<Id> {
    set x | x in parent && parent[x] == x
  }

  /** All elements sharing the representative r. */
  ghost function Class(parent: map<Id, Id>, rank: map<Id, nat>, r: Id): set<Id>
    requires Forest(parent, rank)
  {
    set x | x in parent && Root(parent, rank, x) == r
  }

  /** Number of parent links between x and its representative. */
  ghost function Depth(parent: map<Id, Id>, rank: map<Id, nat>, x: Id): (d: nat)
    requires Forest(parent, rank) && x in parent
    ensures rank[x] + d <= rank[Root(parent, rank, x)]
    decreases Above(rank, x)
  {
    if parent[x] == x then 0
    else
      Climb(parent, rank, x);
      1 + Depth(parent, rank, parent[x])
  }

  /** Redirecting a node to a parent of higher rank, with no rank lowered beneath a child, keeps the order. */
  lemma RelinkKeepsForest(parent: map<Id, Id>, rank: map<Id, nat>, rank': map<Id, nat>, c: Id, r: Id)
    requires Forest(parent, rank) && c in parent && r in parent && rank'.Keys == rank.Keys
    requires c != r ==> rank'[c] < rank'[r]
    requires forall x {:trigger rank'[x]} :: x in rank ==> rank[x] <= rank'[x]
    requires forall x {:trigger parent[x]} :: x in parent && parent[x] != x && x != c ==> rank'[x] == rank[x]
    ensures Forest(parent[c := r], rank')
  {
    var p := parent[c := r];
    forall x | x in p
      ensures Hangs(p, rank', x)
    {
      assert Hangs(parent, rank, x);
    }
  }

  /** Path compression: pointing one node at its representative moves no element to another class. */
  lemma {:induction false} CompressionKeepsRoots(parent: map<Id, Id>, rank: map<Id, nat>, c: Id, x: Id)
    requires Forest(parent, rank) && c in parent && x in parent
    ensures Forest(parent[c := Root(parent, rank, c)], rank)
    ensures Root(parent[c := Root(parent, rank, c)], rank, x) == Root(parent, rank, x)
    decreases Above(rank, x)
  {
    RelinkKeepsForest(parent, rank, rank, c, Root(parent, rank, c));
    if parent[x] != x {
      Climb(parent, rank, x);
      if x != c {
        CompressionKeepsRoots(parent, rank, c, parent[x]);
      }
    }
  }

  /** Hanging root a below root b moves exactly the class of a into the class of b. */
  lemma {:induction false} LinkMovesClass(parent: map<Id, Id>, rank: map<Id, nat>, rank': map<Id, nat>, a: Id, b: Id, x: Id)
    requires Forest(parent, rank) && Forest(parent[a := b], rank')
    requires a in parent && b in parent && a != b && parent[a] == a && parent[b] == b
    requires x in parent
    ensures Root(parent[a := b], rank', x) ==
            if Root(parent, rank, x) == a then b else Root(parent, rank, x)
    decreases Above(rank, x)
  {
    if parent[x] != x {
      Climb(parent, rank, x);
      LinkMovesClass(parent, rank, rank', a, b, parent[x]);
    }
  }

  /** A fresh singleton disturbs no existing chain of parents. */
  lemma {:induction false} SingletonKeepsRoots(parent: map<Id, Id>, rank: map<Id, nat>, id: Id, x: Id)
    requires Forest(parent, rank) && id !in parent && x in parent
    ensures Forest(parent[id := id], rank[id := 0])
    ensures Root(parent[id := id], rank[id := 0], x) == Root(parent, rank, x)
    decreases Above(rank, x)
  {
    SingletonKeepsForest(parent, rank, id);
    if parent[x] != x {
      Climb(parent, rank, x);
      SingletonKeepsRoots(parent, rank, id, parent[x]);
    }
  }

  lemma SingletonKeepsForest(parent: map<Id, Id>, rank: map<Id, nat>, id: Id)
    requires Forest(parent, rank) && id !in parent
    ensures Forest(parent[id := id], rank[id := 0])
  {
    var p, k := parent[id := id], rank[id := 0];
    forall x | x in p
      ensures Hangs(p, k, x)
    {
      assert x != id ==> Hangs(parent, rank, x);
    }
  }

  ghost function Pow2(n: nat): (p: nat)
    ensures n < p
  {
    if n == 0 then 1 else 2 * Pow2(n - 1)
  }

  lemma {:induction false} Pow2Monotone(m: nat, n: nat)
    requires m <= n
    ensures Pow2(m) <= Pow2(n)
    decreases n
  {
    if m < n { Pow2Monotone(m, n - 1); }
  }

  /** Union by rank: a root of rank k heads a class of at least 2^k elements. */
  ghost predicate RankBounded(parent: map<Id, Id>, rank: map<Id, nat>)
    requires Forest(parent, rank)
  {
    forall r {:trigger Class(parent, rank, r)} :: r in Roots(parent) ==> Pow2(rank[r]) <= |Class(parent, rank, r)|
  }

  /** Going from parent to parent, without staying anywhere. */
  ghost predicate IsChain(parent: map<Id, Id>, chain: seq<Id>) {
    && chain != [] && chain[0] in parent
    && (|chain| > 1 ==> chain[1] == parent[chain[0]] && chain[1] != chain[0] && IsChain(parent, chain[1..]))
  }

  lemma {:induction false} ChainWithinDepth(parent: map<Id, Id>, rank: map<Id, nat>, chain: seq<Id>)
    requires Forest(parent, rank) && IsChain(parent, chain)
    ensures |chain| - 1 <= Depth(parent, rank, chain[0])
  {
    if |chain| > 1 { ChainWithinDepth(parent, rank, chain[1..]); }
  }

  /** Hence no chain of parents has more links than log2 of the size of its class. */
  lemma ChainsAreLogarithmic(parent: map<Id, Id>, rank: map<Id, nat>, chain: seq<Id>)
    requires Forest(parent, rank) && RankBounded(parent, rank) && IsChain(parent, chain)
    ensures Pow2(|chain| - 1) <= |Class(parent, rank, Root(parent, rank, chain[0]))| <= |parent|
  {
    var x := chain[0];
    var r := Root(parent, rank, x);
    assert r in Roots(parent);
    ChainWithinDepth(parent, rank, chain);
    Pow2Monotone(|chain| - 1, rank[r]);
    SubsetSize(Class(parent, rank, r), parent.Keys);
  }

  /** Sharing a representative is exactly being linked. */
  ghost predicate PartitionIs(parent: map<Id, Id>, rank: map<Id, nat>, links: set<Link>)
    requires Forest(parent, rank)
  {
    forall x, y {:trigger Linked(links, x, y)} :: x in parent && y in parent ==>
      (Root(parent, rank, x) == Root(parent, rank, y) <==> Linked(links, x, y))
  }

  ghost predicate Covers(keys: set<Id>, links: set<Link>) {
    forall e :: e in links ==> e.0 in keys && e.1 in keys
  }

  ghost function RootMap(parent: map<Id, Id>, rank: map<Id, nat>): map<Id, Id>
    requires Forest(parent, rank)
  {
    map x | x in parent :: Root(parent, rank, x)
  }

  lemma SingletonKeepsPartition(parent: map<Id, Id>, rank: map<Id, nat>, links: set<Link>, id: Id)
    requires Forest(parent, rank) && PartitionIs(parent, rank, links) && Covers(parent.Keys, links)
    requires id !in parent
    ensures Forest(parent[id := id], rank[id := 0])
    ensures PartitionIs(parent[id := id], rank[id := 0], links)
  {
    var p, k := parent[id := id], rank[id := 0];
    SingletonKeepsForest(parent, rank, id);
    forall x, y | x in p && y in p
      ensures Root(p, k, x) == Root(p, k, y) <==> Linked(links, x, y)
    {
      if x in parent { SingletonKeepsRoots(parent, rank, id, x); }
      if y in parent { SingletonKeepsRoots(parent, rank, id, y); }
      if x == y {
        LinkedReflexive(links, x);
      } else if x == id || y == id {
        if Linked(links, x, y) {
          LinkedSymmetric(links, x, y);
          LinkedIsolated(links, id, if x == id then y else x);
        }
      } else {
        assert Root(parent, rank, x) == Root(parent, rank, y) <==> Linked(links, x, y);
      }
    }
  }

  lemma SingletonKeepsRankBound(parent: map<Id, Id>, rank: map<Id, nat>, id: Id)
    requires Forest(parent, rank) && RankBounded(parent, rank) && id !in parent
    ensures Forest(parent[id := id], rank[id := 0])
    ensures RankBounded(parent[id := id], rank[id := 0])
  {
    var p, k := parent[id := id], rank[id := 0];
    SingletonKeepsForest(parent, rank, id);
    forall x | x in parent
      ensures Root(p, k, x) == Root(parent, rank, x)
    {
      SingletonKeepsRoots(parent, rank, id, x);
    }
    forall r | r in Roots(p)
      ensures Pow2(k[r]) <= |Class(p, k, r)|
    {
      if r == id {
        assert {id} <= Class(p, k, r);
        SubsetSize({id}, Class(p, k, r));
      } else {
        assert r in Roots(parent);
        SubsetSize(Class(parent, rank, r), Class(p, k, r));
      }
    }
  }

  /** Merging two classes realises exactly one more link of the closure. */
  lemma LinkRealisesUnion(parent: map<Id, Id>, rank: map<Id, nat>, rank': map<Id, nat>, links: set<Link>,
                          a: Id, b: Id, child: Id, top: Id)
    requires Forest(parent, rank) && PartitionIs(parent, rank, links) && Covers(parent.Keys, links)
    requires a in parent && b in parent && child != top
    requires {Root(parent, rank, a), Root(parent, rank, b)} == {child, top}
    requires Forest(parent[child := top], rank')
    ensures PartitionIs(parent[child := top], rank', links + {(a, b)})
  {
    var p, links' := parent[child := top], links + {(a, b)};
    assert child in {Root(parent, rank, a), Root(parent, rank, b)};
    assert top in {Root(parent, rank, a), Root(parent, rank, b)};
    assert Root(parent, rank, a) in {child, top} && Root(parent, rank, b) in {child, top};
    forall e | e in links'
      ensures Root(p, rank', e.0) == Root(p, rank', e.1)
    {
      LinkMovesClass(parent, rank, rank', child, top, e.0);
      LinkMovesClass(parent, rank, rank', child, top, e.1);
      if e in links { LinkedStep(links, e.0, e.1); }
    }
    forall x, y | x in p && y in p
      ensures Root(p, rank', x) == Root(p, rank', y) <==> Linked(links', x, y)
    {
      if Linked(links', x, y) {
        LinkedPreserves(links', RootMap(p, rank'), x, y);
      }
      if Root(p, rank', x) == Root(p, rank', y) {
        LinkMovesClass(parent, rank, rank', child, top, x);
        LinkMovesClass(parent, rank, rank', child, top, y);
        MergedAreLinked(parent, rank, links, a, b, x, y);
      }
    }
  }

  lemma MergedAreLinked(parent: map<Id, Id>, rank: map<Id, nat>, links: set<Link>, a: Id, b: Id, x: Id, y: Id)
    requires Forest(parent, rank) && PartitionIs(parent, rank, links)
    requires a in parent && b in parent && x in parent && y in parent
    requires Root(parent, rank, x) == Root(parent, rank, y)
          || {Root(parent, rank, x), Root(parent, rank, y)} == {Root(parent, rank, a), Root(parent, rank, b)}
    ensures Linked(links + {(a, b)}, x, y)
  {
    var links' := links + {(a, b)};
    var rx, ry := Root(parent, rank, x), Root(parent, rank, y);
    var ra, rb := Root(parent, rank, a), Root(parent, rank, b);
    if rx == ry {
      LinkedMonotone(links, links', x, y);
    } else {
      assert rx in {ra, rb} && ry in {ra, rb};
      var near, far := if rx == ra then a else b, if rx == ra then b else a;
      LinkedMonotone(links, links', x, near);
      assert Adjacent(links', near, far);
      LinkedStep(links', near, far);
      LinkedTransitive(links', x, near, far);
      LinkedMonotone(links, links', far, y);
      LinkedTransitive(links', x, far, y);
    }
  }

  /** An already connected pair adds nothing to the closure. */
  lemma RedundantLink(parent: map<Id, Id>, rank: map<Id, nat>, links: set<Link>, a: Id, b: Id)
    requires Forest(parent, rank) && PartitionIs(parent, rank, links) && Covers(parent.Keys, links)
    requires a in parent && b in parent && Root(parent, rank, a) == Root(parent, rank, b)
    ensures PartitionIs(parent, rank, links + {(a, b)})
  {
    var links' := links + {(a, b)};
    forall x, y | x in parent && y in parent
      ensures Root(parent, rank, x) == Root(parent, rank, y) <==> Linked(links', x, y)
    {
      if Linked(links', x, y) {
        forall e | e in links'
          ensures e.0 in parent && e.1 in parent && Root(parent, rank, e.0) == Root(parent, rank, e.1)
        {
          if e in links { LinkedStep(links, e.0, e.1); }
        }
        LinkedPreserves(links', RootMap(parent, rank), x, y);
      }
      if Root(parent, rank, x) == Root(parent, rank, y) {
        LinkedMonotone(links, links', x, y);
      }
    }
  }

  /** Linking by rank keeps the size bound: equal ranks k give a class of at least 2^(k + 1). */
  lemma LinkKeepsRankBound(parent: map<Id, Id>, rank: map<Id, nat>, rank': map<Id, nat>, child: Id, top: Id)
    requires Forest(parent, rank) && RankBounded(parent, rank)
    requires child in Roots(parent) && top in Roots(parent) && child != top
    requires rank[child] <= rank[top]
    requires rank' == if rank[child] == rank[top] then rank[top := rank[top] + 1] else rank
    requires Forest(parent[child := top], rank')
    ensures RankBounded(parent[child := top], rank')
  {
    var p := parent[child := top];
    forall r | r in Roots(p)
      ensures Pow2(rank'[r]) <= |Class(p, rank', r)|
    {
      BoundAfterLink(parent, rank, rank', child, top, r);
    }
  }

  lemma BoundAfterLink(parent: map<Id, Id>, rank: map<Id, nat>, rank': map<Id, nat>, child: Id, top: Id, r: Id)
    requires Forest(parent, rank) && RankBounded(parent, rank)
    requires child in Roots(parent) && top in Roots(parent) && child != top
    requires r in Roots(parent) && r != child
    requires rank'.Keys == rank.Keys && rank[child] <= rank[top]
    requires rank'[r] == if r == top && rank[child] == rank[top] then rank[r] + 1 else rank[r]
    requires Forest(parent[child := top], rank')
    ensures Pow2(rank'[r]) <= |Class(parent[child := top], rank', r)|
  {
    LinkGrowsClass(parent, rank, rank', child, top, r);
    assert Pow2(rank[r]) <= |Class(parent, rank, r)|;
    assert Pow2(rank[child]) <= |Class(parent, rank, child)|;
  }

  lemma LinkMovesMember(parent: map<Id, Id>, rank: map<Id, nat>, rank': map<Id, nat>, child: Id, top: Id, r: Id, x: Id)
    requires Forest(parent, rank)
    requires child in Roots(parent) && top in Roots(parent) && child != top && r != child
    requires Forest(parent[child := top], rank')
    ensures x in Class(parent[child := top], rank', r) <==>
              x in Class(parent, rank, r) || (r == top && x in Class(parent, rank, child))
  {
    if x in parent { LinkMovesClass(parent, rank, rank', child, top, x); }
  }

  lemma LinkGrowsClass(parent: map<Id, Id>, rank: map<Id, nat>, rank': map<Id, nat>, child: Id, top: Id, r: Id)
    requires Forest(parent, rank)
    requires child in Roots(parent) && top in Roots(parent) && child != top && r != child
    requires Forest(parent[child := top], rank')
    ensures |Class(parent[child := top], rank', r)| ==
            |Class(parent, rank, r)| + if r == top then |Class(parent, rank, child)| else 0
  {
    var low, high, after := Class(parent, rank, child), Class(parent, rank, r), Class(parent[child := top], rank', r);
    forall x ensures x in after <==> x in high || (r == top && x in low) {
      LinkMovesMember(parent, rank, rank', child, top, r, x);
    }
    if r == top {
      DisjointSize(low, high);
      assert after == low + high;
    } else {
      assert after == high;
    }
  }

  lemma DisjointSize<T>(a: set<T>, b: set<T>)
    requires a !! b
    ensures |a + b| == |a| + |b|
  {
  }

  // ---------- Path compression ----------

  /** Every node on the path of id is hung directly below its representative; a new id is its own. */
  ghost function Compressed(parent: map<Id, Id>, rank: map<Id, nat>, id: Id): map<Id, Id>
    requires Forest(parent, rank)
  {
    if id !in parent then parent[id := id]
    else map x | x in parent :: if OnPath(parent, rank, id, x) then Root(parent, rank, id) else parent[x]
  }

  /** The part of the path before current has been compressed. */
  ghost predicate CompressedUpTo(before: map<Id, Id>, rank: map<Id, nat>, after: map<Id, Id>, id: Id, current: Id, root: Id)
    requires Forest(before, rank) && id in before && current in before
  {
    && OnPath(before, rank, id, current) && after.Keys == before.Keys
    && forall x {:trigger HungAt(before, rank, after, id, current, root, x)} :: x in before ==> HungAt(before, rank, after, id, current, root, x)
  }

  ghost predicate HungAt(before: map<Id, Id>, rank: map<Id, nat>, after: map<Id, Id>, id: Id, current: Id, root: Id, x: Id)
    requires Forest(before, rank) && id in before && current in before && x in before
  {
    x in after
    && after[x] == if OnPath(before, rank, id, x) && !OnPath(before, rank, current, x) then root else before[x]
  }

  lemma {:induction false} PathClimbs(parent: map<Id, Id>, rank: map<Id, nat>, x: Id, y: Id)
    requires Forest(parent, rank) && x in parent && OnPath(parent, rank, x, y)
    ensures y in parent && (y != x ==> rank[x] < rank[y])
    decreases Above(rank, x)
  {
    if y != x {
      Climb(parent, rank, x);
      PathClimbs(parent, rank, parent[x], y);
    }
  }

  lemma {:induction false} PathGoesOn(parent: map<Id, Id>, rank: map<Id, nat>, x: Id, y: Id)
    requires Forest(parent, rank) && x in parent && y in parent && OnPath(parent, rank, x, y)
    ensures parent[y] in parent && OnPath(parent, rank, x, parent[y])
    decreases Above(rank, x)
  {
    if parent[y] != y { Climb(parent, rank, y); }
    if y != x {
      Climb(parent, rank, x);
      PathGoesOn(parent, rank, parent[x], y);
    } else if parent[x] != x {
      Climb(parent, rank, x);
      assert OnPath(parent, rank, parent[x], parent[x]);
    }
  }

  lemma CompressionStarts(parent: map<Id, Id>, rank: map<Id, nat>, id: Id, root: Id)
    requires Forest(parent, rank) && id in parent
    ensures CompressedUpTo(parent, rank, parent, id, id, root)
  {
  }

  lemma CompressionContinues(before: map<Id, Id>, rank: map<Id, nat>, after: map<Id, Id>, id: Id, current: Id, root: Id)
    requires Forest(before, rank) && id in before && current in before && before[current] != current
    requires CompressedUpTo(before, rank, after, id, current, root)
    ensures after[current] == before[current] && before[current] in before
    ensures CompressedUpTo(before, rank, after[current := root], id, before[current], root)
  {
    var next, after' := before[current], after[current := root];
    assert HungAt(before, rank, after, id, current, root, current);
    Climb(before, rank, current);
    PathGoesOn(before, rank, id, current);
    if OnPath(before, rank, next, current) { PathClimbs(before, rank, next, current); }
    forall x | x in before
      ensures HungAt(before, rank, after', id, next, root, x)
    {
      assert HungAt(before, rank, after, id, current, root, x);
    }
  }

  lemma CompressionEnds(before: map<Id, Id>, rank: map<Id, nat>, after: map<Id, Id>, id: Id, root: Id)
    requires Forest(before, rank) && id in before && root == Root(before, rank, id)
    requires CompressedUpTo(before, rank, after, id, root, root)
    ensures after == Compressed(before, rank, id)
  {
    forall x | x in before ensures after[x] == Compressed(before, rank, id)[x] {
      assert HungAt(before, rank, after, id, root, root, x);
    }
  }

  lemma NewIsItsOwn(parent: map<Id, Id>, rank: map<Id, nat>, id: Id)
    requires Forest(parent, rank) && id in parent && parent[id] == id
    ensures Compressed(parent, rank, id) == parent
  {
  }

  /** Everything the structure keeps true between calls. */
  ghost predicate Sound(parent: map<Id, Id>, rank: map<Id, nat>, order: seq<Id>, count: int, links: set<Link>) {
    && Forest(parent, rank)
    && RankBounded(parent, rank)
    && PartitionIs(parent, rank, links)
    && Covers(parent.Keys, links)
    && Lists(order, parent.Keys)
    && count == |Roots(parent)|
  }

  ghost predicate SameRoots(before: map<Id, Id>, rank: map<Id, nat>, after: map<Id, Id>, rank': map<Id, nat>)
    requires Forest(before, rank) && Forest(after, rank')
  {
    && before.Keys <= after.Keys
    && forall x {:trigger Root(after, rank', x)} :: x in before ==> Root(after, rank', x) == Root(before, rank, x)
  }

  lemma SameRootsReflexive(parent: map<Id, Id>, rank: map<Id, nat>)
    requires Forest(parent, rank)
    ensures SameRoots(parent, rank, parent, rank)
  {
  }

  lemma SingletonKeepsEveryRoot(parent: map<Id, Id>, rank: map<Id, nat>, id: Id)
    requires Forest(parent, rank) && id !in parent
    ensures Forest(parent[id := id], rank[id := 0])
    ensures SameRoots(parent, rank, parent[id := id], rank[id := 0])
  {
    SingletonKeepsForest(parent, rank, id);
    forall x | x in parent
      ensures Root(parent[id := id], rank[id := 0], x) == Root(parent, rank, x)
    {
      SingletonKeepsRoots(parent, rank, id, x);
    }
  }

  lemma MakeSetSound(parent: map<Id, Id>, rank: map<Id, nat>, order: seq<Id>, count: int, links: set<Link>, id: Id)
    requires Sound(parent, rank, order, count, links) && id !in parent
    ensures Sound(parent[id := id], rank[id := 0], order + [id], count + 1, links)
    ensures SameRoots(parent, rank, parent[id := id], rank[id := 0])
  {
    SingletonKeepsPartition(parent, rank, links, id);
    SingletonKeepsRankBound(parent, rank, id);
    ListsAppend(order, parent.Keys, id);
    assert parent[id := id].Keys == parent.Keys + {id};
    assert Roots(parent[id := id]) == Roots(parent) + {id};
    SingletonKeepsEveryRoot(parent, rank, id);
  }

  lemma CompressionSound(parent: map<Id, Id>, rank: map<Id, nat>, order: seq<Id>, count: int, links: set<Link>, c: Id)
    requires Sound(parent, rank, order, count, links) && c in parent
    ensures Sound(parent[c := Root(parent, rank, c)], rank, order, count, links)
    ensures SameRoots(parent, rank, parent[c := Root(parent, rank, c)], rank)
  {
    var p := parent[c := Root(parent, rank, c)];
    CompressionKeepsRoots(parent, rank, c, c);
    forall x | x in parent
      ensures Root(p, rank, x) == Root(parent, rank, x)
    {
      CompressionKeepsRoots(parent, rank, c, x);
    }
    assert Roots(p) == Roots(parent);
    forall r | r in Roots(p)
      ensures Pow2(rank[r]) <= |Class(p, rank, r)|
    {
      assert Class(p, rank, r) == Class(parent, rank, r);
    }
  }

  lemma LinkSound(parent: map<Id, Id>, rank: map<Id, nat>, rank': map<Id, nat>, order: seq<Id>, count: int, links: set<Link>,
                  a: Id, b: Id, child: Id, top: Id)
    requires Sound(parent, rank, order, count, links)
    requires a in parent && b in parent && child != top
    requires {Root(parent, rank, a), Root(parent, rank, b)} == {child, top}
    requires child in parent && top in parent && rank[child] <= rank[top]
    requires rank' == if rank[child] == rank[top] then rank[top := rank[top] + 1] else rank
    ensures Sound(parent[child := top], rank', order, count - 1, links + {(a, b)})
  {
    assert child in {Root(parent, rank, a), Root(parent, rank, b)};
    assert top in {Root(parent, rank, a), Root(parent, rank, b)};
    RelinkKeepsForest(parent, rank, rank', child, top);
    LinkKeepsRankBound(parent, rank, rank', child, top);
    LinkRealisesUnion(parent, rank, rank', links, a, b, child, top);
    assert Roots(parent[child := top]) == Roots(parent) - {child};
  }

  /** The buckets hold exactly the processed elements, each with its own class. */
  ghost predicate Grouped(parent: map<Id, Id>, rank: map<Id, nat>, done: set<Id>, groups: map<Id, seq<Id>>)
    requires Forest(parent, rank) && done <= parent.Keys
  {
    && (forall x {:trigger x in done} :: x in done ==> Root(parent, rank, x) in groups)
    && (forall r {:trigger groups[r]} :: r in groups ==>
          groups[r] != [] && Lists(groups[r], Class(parent, rank, r) * done))
  }

  lemma GroupGrows(parent: map<Id, Id>, rank: map<Id, nat>, done: set<Id>, groups: map<Id, seq<Id>>, id: Id, root: Id, bucket: seq<Id>)
    requires Forest(parent, rank) && done <= parent.Keys && Grouped(parent, rank, done, groups)
    requires id in parent && id !in done && root == Root(parent, rank, id)
    requires bucket == if root in groups then groups[root] else []
    ensures Grouped(parent, rank, done + {id}, groups[root := bucket + [id]])
  {
    var groups', done' := groups[root := bucket + [id]], done + {id};
    forall r | r in groups'
      ensures groups'[r] != [] && Lists(groups'[r], Class(parent, rank, r) * done')
    {
      var members := Class(parent, rank, r) * done;
      if r == root {
        assert members == {} || root in groups;
        assert Lists(bucket, members);
        ListsAppend(bucket, members, id);
        assert Class(parent, rank, r) * done' == members + {id};
      } else {
        assert Class(parent, rank, r) * done' == members;
      }
    }
  }

  /** The elements with this representative, in the order of the list. */
  ghost function MembersInOrder(order: seq<Id>, rep: map<Id, Id>, root: Id): seq<Id> {
    if order == [] then []
    else
      var last := order[|order| - 1];
      MembersInOrder(order[..|order| - 1], rep, root) + if last in rep && rep[last] == root then [last] else []
  }

  /** The representatives in the order in which they are first met. */
  ghost function FirstMet(order: seq<Id>, rep: map<Id, Id>): seq<Id> {
    if order == [] then []
    else
      var front, last := FirstMet(order[..|order| - 1], rep), order[|order| - 1];
      if last in rep && rep[last] !in front then front + [rep[last]] else front
  }

  ghost predicate BucketAt(order: seq<Id>, rep: map<Id, Id>, groups: map<Id, seq<Id>>, root: Id) {
    (if root in groups then groups[root] else []) == MembersInOrder(order, rep, root)
  }

  /** Buckets and their members stand in the order of the list. */
  ghost predicate Bucketed(order: seq<Id>, rep: map<Id, Id>, roots: seq<Id>, groups: map<Id, seq<Id>>) {
    roots == FirstMet(order, rep) && forall root {:trigger BucketAt(order, rep, groups, root)} :: BucketAt(order, rep, groups, root)
  }

  lemma BucketedNext(order: seq<Id>, rep: map<Id, Id>, roots: seq<Id>, groups: map<Id, seq<Id>>, id: Id,
                     roots': seq<Id>, groups': map<Id, seq<Id>>)
    requires Bucketed(order, rep, roots, groups) && id in rep && Lists(roots, groups.Keys)
    requires roots' == if rep[id] in groups then roots else roots + [rep[id]]
    requires groups' == groups[rep[id] := (if rep[id] in groups then groups[rep[id]] else []) + [id]]
    ensures Bucketed(order + [id], rep, roots', groups')
  {
    var all := order + [id];
    assert all[..|order|] == order;
    ListsDistinct(roots, groups.Keys);
    forall root ensures BucketAt(all, rep, groups', root) { assert BucketAt(order, rep, groups, root); }
  }

  /** Push an element onto the bucket of its representative, opening the bucket when it is the first. */
  method AddToGroup(roots: seq<Id>, groups: map<Id, seq<Id>>, root: Id, id: Id,
                    ghost parent: map<Id, Id>, ghost rank: map<Id, nat>, ghost done: set<Id>, ghost listed: seq<Id>)
    returns (roots': seq<Id>, groups': map<Id, seq<Id>>)
    requires Forest(parent, rank) && done <= parent.Keys && Grouped(parent, rank, done, groups)
    requires Lists(roots, groups.Keys)
    requires id in parent && id !in done && root == Root(parent, rank, id)
    requires Bucketed(listed, RootMap(parent, rank), roots, groups)
    ensures Grouped(parent, rank, done + {id}, groups') && Lists(roots', groups'.Keys)
    ensures Bucketed(listed + [id], RootMap(parent, rank), roots', groups')
  {
    if root in groups {
      GroupGrows(parent, rank, done, groups, id, root, groups[root]);
      roots', groups' := roots, groups[root := groups[root] + [id]];
      assert groups'.Keys == groups.Keys;
    } else {
      GroupGrows(parent, rank, done, groups, id, root, []);
      ListsAppend(roots, groups.Keys, root);
      roots', groups' := roots + [root], groups[root := [] + [id]];
      assert groups'.Keys == groups.Keys + {root};
    }
    BucketedNext(listed, RootMap(parent, rank), roots, groups, id, roots', groups');
  }

  lemma SameRootMap(before: map<Id, Id>, after: map<Id, Id>, rank: map<Id, nat>)
    requires Forest(before, rank) && Forest(after, rank) && before.Keys == after.Keys && SameRoots(before, rank, after, rank)
    ensures RootMap(after, rank) == RootMap(before, rank)
  {
    forall x | x in after ensures RootMap(after, rank)[x] == RootMap(before, rank)[x] {
      assert Root(after, rank, x) == Root(before, rank, x);
    }
  }

  lemma NextPrefix(order: seq<Id>, i: nat)
    requires i < |order|
    ensures order[..i + 1] == order[..i] + [order[i]]
  {
  }

  lemma AllGrouped(parent0: map<Id, Id>, parent: map<Id, Id>, rank: map<Id, nat>, groups: map<Id, seq<Id>>)
    requires Forest(parent0, rank) && Forest(parent, rank) && parent0.Keys == parent.Keys
    requires SameRoots(parent0, rank, parent, rank)
    requires Grouped(parent0, rank, parent0.Keys, groups)
    ensures groups.Keys == Roots(parent)
    ensures forall r :: r in groups ==> Lists(groups[r], Class(parent, rank, r))
  {
    forall r | r in groups
      ensures r in Roots(parent) && Lists(groups[r], Class(parent, rank, r))
    {
      assert Class(parent0, rank, r) * parent0.Keys == Class(parent, rank, r);
      ListsDistinct(groups[r], Class(parent, rank, r));
      assert groups[r][0] in Class(parent, rank, r);
    }
    forall r | r in Roots(parent)
      ensures r in groups
    {
      assert r in parent0 && Root(parent, rank, r) == r;
    }
  }

  /** The non-trivial classes of the closure of the links over the given elements. */
  ghost predicate NonTrivialClasses(clusters: seq<seq<Id>>, elements: set<Id>, links: set<Link>) {
    && (forall i :: 0 <= i < |clusters| ==> IsClass(clusters[i], elements, links) && |clusters[i]| > 1)
    && (forall x, y :: x in elements && y in elements && x != y && Linked(links, x, y) ==>
          exists i :: 0 <= i < |clusters| && x in clusters[i])
    && (forall i, j :: 0 <= i < j < |clusters| ==> forall x :: x in clusters[i] ==> x !in clusters[j])
  }

  // ---------- The class ----------

  ghost function Elements(ids: seq<Id>): set<Id> {
    set x | x in ids
  }

  lemma ElementsStep(ids: seq<Id>, n: nat)
    requires n < |ids|
    ensures Elements(ids[..n + 1]) == Elements(ids[..n]) + {ids[n]}
  {
    assert ids[..n + 1] == ids[..n] + [ids[n]];
  }

  class UnionFind {
    var parent: map<Id, Id>
    var rank: map<Id, nat>
    var order: seq<Id>
    var componentCount: int
    /** Every pair ever passed to Union. */
    ghost var links: set<Link>

    ghost predicate Valid()
      reads this
    {
      Sound(parent, rank, order, componentCount, links)
    }

    constructor (initial: seq<Id>)
      ensures Valid() && links == {}
      ensures parent.Keys == Elements(initial)
    {
      parent, rank, order, componentCount, links := map[], map[], [], 0, {};
      new;
      for n := 0 to |initial|
        invariant Valid() && links == {}
        invariant parent.Keys == Elements(initial[..n])
      {
        ElementsStep(initial, n);
        MakeSet(initial[n]);
      }
      assert initial[..|initial|] == initial;
    }

    method MakeSet(id: Id)
      requires Valid()
      modifies this
      ensures Valid() && links == old(links)
      ensures parent.Keys == old(parent.Keys) + {id}
      ensures SameRoots(old(parent), old(rank), parent, rank)
      ensures old(id in parent) ==> unchanged(this)
      ensures old(id !in parent) ==>
                parent == old(parent)[id := id] && order == old(order) + [id] && componentCount == old(componentCount) + 1
    {
      if id in parent {
        SameRootsReflexive(parent, rank);
        return;
      }
      MakeSetSound(parent, rank, order, componentCount, links, id);
      parent := parent[id := id];
      rank := rank[id := 0];
      order := order + [id];
      componentCount := componentCount + 1;
    }

    method Find(id: Id) returns (root: Id)
      requires Valid()
      modifies this
      ensures Valid() && links == old(links)
      ensures parent.Keys == old(parent.Keys) + {id}
      ensures SameRoots(old(parent), old(rank), parent, rank)
      ensures root == Root(parent, rank, id)
      ensures old(id in parent) ==> order == old(order) && rank == old(rank) && componentCount == old(componentCount)
      ensures old(id !in parent) ==> order == old(order) + [id] && componentCount == old(componentCount) + 1
      // Compression is complete: exactly the links on the path now lead to the representative directly.
      ensures parent == Compressed(old(parent), old(rank), id)
    {
      MakeSet(id);
      root := Representative(id);
      ghost var before := parent;
      CompressPath(id, root);
      if old(id !in parent) { NewIsItsOwn(before, rank, id); }
    }

    method Representative(id: Id) returns (root: Id)
      requires Valid() && id in parent
      ensures root == Root(parent, rank, id)
    {
      root := id;
      while parent[root] != root
        invariant root in parent && Root(parent, rank, root) == Root(parent, rank, id)
        decreases Above(rank, root)
      {
        Climb(parent, rank, root);
        root := parent[root];
      }
    }

    method CompressPath(id: Id, root: Id)
      requires Valid() && id in parent && root == Root(parent, rank, id)
      modifies this`parent
      ensures Valid() && SameRoots(old(parent), rank, parent, rank)
      ensures parent == Compressed(old(parent), rank, id)
    {
      ghost var before := parent;
      SameRootsReflexive(parent, rank);
      CompressionStarts(before, rank, id, root);
      var current := id;
      while current != root
        invariant Valid() && parent.Keys == before.Keys && SameRoots(before, rank, parent, rank)
        invariant current in parent && Root(parent, rank, current) == root
        invariant CompressedUpTo(before, rank, parent, id, current, root)
        decreases Above(rank, current)
      {
        var next := parent[current];
        CompressionContinues(before, rank, parent, id, current, root);
        Climb(parent, rank, current);
        CompressionSound(parent, rank, order, componentCount, links, current);
        parent := parent[current := root];
        current := next;
      }
      CompressionEnds(before, rank, parent, id, root);
    }

    /** Merge two sets; the result says whether the closure of the links really grew. */
    method Union(a: Id, b: Id) returns (merged: bool)
      requires Valid()
      modifies this
      ensures Valid() && links == old(links) + {(a, b)}
      ensures parent.Keys == old(parent.Keys) + {a} + {b}
      ensures merged <==> !Linked(old(links), a, b)
      ensures old(a in parent && b in parent) ==>
                order == old(order) && componentCount == old(componentCount) - if merged then 1 else 0
    {
      var rootA := Find(a);
      var rootB := Find(b);
      assert rootA == rootB <==> Linked(links, a, b);
      if rootA == rootB {
        RedundantLink(parent, rank, links, a, b);
        links := links + {(a, b)};
        return false;
      }

      Link(rootA, rootB, a, b);
      return true;
    }

    /** The tail of Union: hang the root of lower rank below the other one. */
    method Link(rootA: Id, rootB: Id, ghost a: Id, ghost b: Id)
      requires Valid() && a in parent && b in parent && rootA != rootB
      requires rootA == Root(parent, rank, a) && rootB == Root(parent, rank, b)
      modifies this
      ensures Valid() && links == old(links) + {(a, b)}
      ensures parent.Keys == old(parent.Keys) && order == old(order)
      ensures componentCount == old(componentCount) - 1
    {
      var rankA := rank[rootA];
      var rankB := rank[rootB];
      links := links + {(a, b)};
      componentCount := componentCount - 1;
      if rankA < rankB {
        LinkSound(parent, rank, rank, order, old(componentCount), old(links), a, b, rootA, rootB);
        parent := parent[rootA := rootB];
      } else if rankA > rankB {
        LinkSound(parent, rank, rank, order, old(componentCount), old(links), a, b, rootB, rootA);
        parent := parent[rootB := rootA];
      } else {
        LinkSound(parent, rank, rank[rootA := rankA + 1], order, old(componentCount), old(links), a, b, rootB, rootA);
        parent := parent[rootB := rootA];
        rank := rank[rootA := rankA + 1];
      }
    }

    method Connected(a: Id, b: Id) returns (same: bool)
      requires Valid()
      modifies this
      ensures Valid() && links == old(links)
      ensures same <==> Linked(links, a, b)
    {
      var rootA := Find(a);
      var rootB := Find(b);
      same := rootA == rootB;
      assert same <==> Linked(links, a, b);
    }

    /** All classes, keyed by representative, members in insertion order. */
    method Groups() returns (roots: seq<Id>, groups: map<Id, seq<Id>>)
      requires Valid()
      modifies this
      ensures Valid() && links == old(links) && parent.Keys == old(parent.Keys)
      ensures Lists(roots, groups.Keys)
      ensures groups.Keys == Roots(parent)
      ensures forall r :: r in groups ==> Lists(groups[r], Class(parent, rank, r))
      ensures order == old(order) && Bucketed(order, RootMap(parent, rank), roots, groups)
    {
      roots, groups := [], map[];
      ghost var parent0, done := parent, {};
      SameRootsReflexive(parent, rank);
      var i := 0;
      while i < |order|
        invariant 0 <= i <= |order| && order == old(order) && rank == old(rank) && links == old(links)
        invariant Valid() && parent.Keys == parent0.Keys && SameRoots(parent0, rank, parent, rank)
        invariant Lists(order[..i], done) && done <= parent0.Keys
        invariant Lists(roots, groups.Keys)
        invariant Grouped(parent0, rank, done, groups)
        invariant Bucketed(order[..i], RootMap(parent0, rank), roots, groups)
      {
        var id := order[i];
        ListsNext(order, parent.Keys, i, done);
        var root := Find(id);
        roots, groups := AddToGroup(roots, groups, root, id, parent0, rank, done, order[..i]);
        NextPrefix(order, i);
        done := done + {id};
        i := i + 1;
      }
      assert order[..i] == order;
      ListsUnique(order, done, parent.Keys);
      AllGrouped(parent0, parent, rank, groups);
      SameRootMap(parent0, parent, rank);
    }

    /** Only the classes with more than one member. */
    method DuplicateClusters() returns (clusters: seq<seq<Id>>)
      requires Valid()
      modifies this
      ensures Valid() && links == old(links) && parent.Keys == old(parent.Keys)
      ensures NonTrivialClasses(clusters, parent.Keys, links)
    {
      var roots, groups := Groups();
      clusters := KeepDuplicates(roots, groups, parent, rank, links);
    }
  }

  method KeepDuplicates(roots: seq<Id>, groups: map<Id, seq<Id>>, ghost parent: map<Id, Id>, ghost rank: map<Id, nat>, ghost links: set<Link>)
    returns (clusters: seq<seq<Id>>)
    requires Forest(parent, rank) && PartitionIs(parent, rank, links)
    requires Lists(roots, groups.Keys) && groups.Keys == Roots(parent)
    requires forall r :: r in groups ==> Lists(groups[r], Class(parent, rank, r))
    ensures NonTrivialClasses(clusters, parent.Keys, links)
  {
    clusters := [];
    ghost var heads: seq<Id>, done: set<Id> := [], {};
    var i := 0;
    while i < |roots|
      invariant 0 <= i <= |roots| && Lists(roots[..i], done) && done <= groups.Keys
      invariant KeptFrom(heads, clusters, groups, done)
    {
      ListsNext(roots, groups.Keys, i, done);
      if |groups[roots[i]]| <= 1 {
        DropOne(heads, clusters, groups, done, roots[i]);
      } else {
        KeepOne(heads, clusters, groups, done, roots[i]);
        clusters := clusters + [groups[roots[i]]];
        heads := heads + [roots[i]];
      }
      done := done + {roots[i]};
      i := i + 1;
    }
    assert roots[..i] == roots;
    ListsUnique(roots, done, groups.Keys);
    KeptAreClasses(heads, clusters, groups, parent, rank, links);
  }

  ghost predicate KeptFrom(heads: seq<Id>, clusters: seq<seq<Id>>, groups: map<Id, seq<Id>>, done: set<Id>)
    requires done <= groups.Keys
  {
    && |heads| == |clusters|
    && (forall k {:trigger KeptAt(heads, clusters, groups, done, k)} :: 0 <= k < |heads| ==> KeptAt(heads, clusters, groups, done, k))
    && (forall k, m {:trigger HeadsDiffer(heads, k, m)} :: 0 <= k < m < |heads| ==> HeadsDiffer(heads, k, m))
    && (forall r {:trigger groups[r]} :: r in done && |groups[r]| > 1 ==> r in heads)
  }

  ghost predicate KeptAt(heads: seq<Id>, clusters: seq<seq<Id>>, groups: map<Id, seq<Id>>, done: set<Id>, k: nat)
    requires done <= groups.Keys && k < |heads| == |clusters|
  {
    heads[k] in done && clusters[k] == groups[heads[k]] && |clusters[k]| > 1
  }

  ghost predicate HeadsDiffer(heads: seq<Id>, k: nat, m: nat)
    requires k < |heads| && m < |heads|
  {
    heads[k] != heads[m]
  }

  lemma KeepOne(heads: seq<Id>, clusters: seq<seq<Id>>, groups: map<Id, seq<Id>>, done: set<Id>, root: Id)
    requires done <= groups.Keys && root in groups && root !in done && KeptFrom(heads, clusters, groups, done)
    requires |groups[root]| > 1
    ensures KeptFrom(heads + [root], clusters + [groups[root]], groups, done + {root})
  {
    var heads', clusters', done' := heads + [root], clusters + [groups[root]], done + {root};
    forall k | 0 <= k < |heads'| ensures KeptAt(heads', clusters', groups, done', k) {
      if k < |heads| { assert KeptAt(heads, clusters, groups, done, k); }
    }
    forall k, m | 0 <= k < m < |heads'| ensures HeadsDiffer(heads', k, m) {
      assert KeptAt(heads, clusters, groups, done, k);
      if m < |heads| { assert HeadsDiffer(heads, k, m); }
    }
    forall r | r in done' && |groups[r]| > 1 ensures r in heads' { if r != root { assert r in heads; } }
  }

  lemma DropOne(heads: seq<Id>, clusters: seq<seq<Id>>, groups: map<Id, seq<Id>>, done: set<Id>, root: Id)
    requires done <= groups.Keys && root in groups && KeptFrom(heads, clusters, groups, done)
    requires |groups[root]| <= 1
    ensures KeptFrom(heads, clusters, groups, done + {root})
  {
    var done' := done + {root};
    forall k | 0 <= k < |heads| ensures KeptAt(heads, clusters, groups, done', k) { assert KeptAt(heads, clusters, groups, done, k); }
    forall r | r in done' && |groups[r]| > 1 ensures r in heads { assert r in done; }
  }

  lemma KeptAreClasses(heads: seq<Id>, clusters: seq<seq<Id>>, groups: map<Id, seq<Id>>, parent: map<Id, Id>, rank: map<Id, nat>, links: set<Link>)
    requires Forest(parent, rank) && PartitionIs(parent, rank, links) && groups.Keys == Roots(parent)
    requires forall r :: r in groups ==> Lists(groups[r], Class(parent, rank, r))
    requires KeptFrom(heads, clusters, groups, groups.Keys)
    ensures NonTrivialClasses(clusters, parent.Keys, links)
  {
    forall k | 0 <= k < |clusters|
      ensures IsClass(clusters[k], parent.Keys, links) && |clusters[k]| > 1
    {
      var r := heads[k];
      assert KeptAt(heads, clusters, groups, groups.Keys, k);
      assert Class(parent, rank, r) == set y | y in parent.Keys && Linked(links, r, y);
    }
    forall x, y | x in parent && y in parent && x != y && Linked(links, x, y)
      ensures exists k :: 0 <= k < |clusters| && x in clusters[k]
    {
      var r := Root(parent, rank, x);
      ListsDistinct(groups[r], Class(parent, rank, r));
      SubsetSize({x, y}, Class(parent, rank, r));
      var k :| 0 <= k < |heads| && heads[k] == r;
      assert KeptAt(heads, clusters, groups, groups.Keys, k);
      assert x in clusters[k];
    }
    forall k, m, x | 0 <= k < m < |clusters| && x in clusters[k]
      ensures x !in clusters[m]
    {
      assert KeptAt(heads, clusters, groups, groups.Keys, k) && KeptAt(heads, clusters, groups, groups.Keys, m);
      assert HeadsDiffer(heads, k, m);
      ListsDistinct(groups[heads[k]], Class(parent, rank, heads[k]));
      ListsDistinct(groups[heads[m]], Class(parent, rank, heads[m]));
    }
  }
}
