/** packages/algorithms/src/top-k.ts: the global top k of several descending lists, by a heap over their heads. */
module MergeTopKs {
  import opened Basics
  import opened BinaryHeaps
  import opened TopKs

  datatype Cursor<T> = Cursor(listIndex: nat, itemIndex: nat, entry: Scored<T>)

  /** A max-heap over the list heads. */
  function HighestFirst<T>(): Comparator<Cursor<T>> {
    (a: Cursor<T>, b: Cursor<T>) => b.entry.score - a.entry.score
  }

  lemma HighestFirstIsOrdering<T(!new)>()
    ensures Ordering(HighestFirst<T>())
  {
  }

  ghost predicate Descending<T>(lists: seq<seq<Scored<T>>>) {
    forall l, i, j :: 0 <= l < |lists| && 0 <= i < j < |lists[l]| ==> lists[l][j].score <= lists[l][i].score
  }

  /** pos[l] entries of list l have been consumed. */
  ghost predicate Positions<T>(lists: seq<seq<Scored<T>>>, pos: seq<nat>) {
    |pos| == |lists| && forall l :: 0 <= l < |lists| ==> pos[l] <= |lists[l]|
  }

  /** The entries not consumed yet, list by list. */
  ghost function Left<T>(lists: seq<seq<Scored<T>>>, pos: seq<nat>): seq<Scored<T>>
    requires Positions(lists, pos)
  {
    if lists == [] then []
    else
      var n := |lists| - 1;
      Left(lists[..n], pos[..n]) + lists[n][pos[n]..]
  }

  ghost function Rest<T>(lists: seq<seq<Scored<T>>>, pos: seq<nat>): multiset<Scored<T>>
    requires Positions(lists, pos)
  {
    multiset(Left(lists, pos))
  }

  ghost predicate PointsAt<T>(lists: seq<seq<Scored<T>>>, pos: seq<nat>, c: Cursor<T>)
    requires Positions(lists, pos)
  {
    && c.listIndex < |lists| && c.itemIndex == pos[c.listIndex] < |lists[c.listIndex]|
    && c.entry == lists[c.listIndex][c.itemIndex]
  }

  /** The bag holds exactly one cursor for each list that has entries left, at its first unconsumed entry. */
  ghost predicate Heads<T(!new)>(lists: seq<seq<Scored<T>>>, pos: seq<nat>, bag: multiset<Cursor<T>>)
    requires Positions(lists, pos)
  {
    forall c {:trigger Once(lists, pos, bag, c)} :: Once(lists, pos, bag, c)
  }

  ghost predicate Once<T>(lists: seq<seq<Scored<T>>>, pos: seq<nat>, bag: multiset<Cursor<T>>, c: Cursor<T>)
    requires Positions(lists, pos)
  {
    bag[c] == if PointsAt(lists, pos, c) then 1 else 0
  }

  /** Whatever is left anywhere stands at or behind the head of its own list. */
  lemma {:induction false} LeftBehindHead<T>(lists: seq<seq<Scored<T>>>, pos: seq<nat>, x: Scored<T>) returns (l: nat)
    requires Positions(lists, pos) && Descending(lists) && x in Left(lists, pos)
    ensures l < |lists| && pos[l] < |lists[l]| && x.score <= lists[l][pos[l]].score
  {
    var n := |lists| - 1;
    if x in Left(lists[..n], pos[..n]) {
      l := LeftBehindHead(lists[..n], pos[..n], x);
    } else {
      l := n;
      var i :| 0 <= i < |lists[n][pos[n]..]| && lists[n][pos[n]..][i] == x;
      assert x == lists[n][pos[n] + i];
    }
  }

  /** Consuming the head of one list takes its entry out of what is left. */
  lemma {:induction false} ConsumeLeft<T>(lists: seq<seq<Scored<T>>>, pos: seq<nat>, l: nat, pos': seq<nat>) returns (a: seq<Scored<T>>, b: seq<Scored<T>>)
    requires Positions(lists, pos) && l < |lists| && pos[l] < |lists[l]| && pos' == pos[l := pos[l] + 1]
    ensures Positions(lists, pos')
    ensures Left(lists, pos) == a + [lists[l][pos[l]]] + b && Left(lists, pos') == a + b
  {
    var n := |lists| - 1;
    if l == n {
      a, b := Left(lists[..n], pos[..n]), lists[n][pos[n] + 1..];
      assert pos'[..n] == pos[..n];
      assert lists[n][pos[n]..] == [lists[n][pos[n]]] + b;
    } else {
      a, b := ConsumeLeft(lists[..n], pos[..n], l, pos'[..n]);
      b := b + lists[n][pos[n]..];
    }
  }

  ghost predicate TakenFrom<T>(rest': multiset<T>, x: T, rest: multiset<T>) {
    rest' + multiset{x} == rest
  }

  lemma ConsumeRest<T>(lists: seq<seq<Scored<T>>>, pos: seq<nat>, l: nat, pos': seq<nat>)
    requires Positions(lists, pos) && l < |lists| && pos[l] < |lists[l]| && pos' == pos[l := pos[l] + 1]
    ensures Positions(lists, pos') && TakenFrom(Rest(lists, pos'), lists[l][pos[l]], Rest(lists, pos))
  {
    var a, b := ConsumeLeft(lists, pos, l, pos');
    RemoveOne(a, lists[l][pos[l]], b);
  }

  lemma RemoveOne<T>(a: seq<T>, x: T, b: seq<T>)
    ensures TakenFrom(multiset(a + b), x, multiset(a + [x] + b))
  {
  }

  /** It also moves that list's cursor on, or removes it at the end of the list. */
  lemma ConsumeHead<T(!new)>(lists: seq<seq<Scored<T>>>, pos: seq<nat>, bag: multiset<Cursor<T>>, c: Cursor<T>, pos': seq<nat>, bag': multiset<Cursor<T>>)
    requires Positions(lists, pos) && Heads(lists, pos, bag) && PointsAt(lists, pos, c)
    requires pos' == pos[c.listIndex := c.itemIndex + 1] && Positions(lists, pos')
    requires var list := lists[c.listIndex];
             bag' == if c.itemIndex + 1 < |list|
                     then bag - multiset{c} + multiset{Cursor(c.listIndex, c.itemIndex + 1, list[c.itemIndex + 1])}
                     else bag - multiset{c}
    ensures Heads(lists, pos', bag')
  {
    forall d
      ensures Once(lists, pos', bag', d)
    {
      assert Once(lists, pos, bag, d) && Once(lists, pos, bag, c);
    }
  }

  ghost predicate AtMost<T>(rest: multiset<Scored<T>>, bound: real) {
    forall x {:trigger rest[x]} :: x in rest ==> x.score <= bound
  }

  lemma TopHeadIsGreatest<T(!new)>(lists: seq<seq<Scored<T>>>, pos: seq<nat>, items: seq<Cursor<T>>, top: Cursor<T>)
    requires Positions(lists, pos) && Descending(lists) && Heads(lists, pos, multiset(items))
    requires forall c :: c in items ==> Le(HighestFirst<T>(), top, c)
    ensures AtMost(Rest(lists, pos), top.entry.score)
  {
    forall x | x in Rest(lists, pos)
      ensures x.score <= top.entry.score
    {
      var l := LeftBehindHead(lists, pos, x);
      var c := Cursor(l, pos[l], lists[l][pos[l]]);
      assert Once(lists, pos, multiset(items), c) && PointsAt(lists, pos, c);
      assert c in items;
      assert Le(HighestFirst<T>(), top, c);
    }
  }

  ghost function Zeros(n: nat): (z: seq<nat>)
    ensures |z| == n && forall i :: 0 <= i < n ==> z[i] == 0
  {
    seq(n, _ => 0)
  }

  /** Everything in the lists. */
  ghost function Together<T>(lists: seq<seq<Scored<T>>>): multiset<Scored<T>> {
    Rest(lists, Zeros(|lists|))
  }

  method FirstHeads<T(!new)>(lists: seq<seq<Scored<T>>>) returns (heap: BinaryHeap<Cursor<T>>)
    ensures fresh(heap) && heap.Valid() && heap.compare == HighestFirst<T>()
    ensures Heads(lists, Zeros(|lists|), multiset(heap.items))
  {
    HighestFirstIsOrdering<T>();
    heap := new BinaryHeap<Cursor<T>>(HighestFirst<T>(), []);
    for l := 0 to |lists|
      invariant fresh(heap) && heap.Valid() && heap.compare == HighestFirst<T>()
      invariant Heads(lists[..l], Zeros(l), multiset(heap.items))
    {
      ghost var bag := multiset(heap.items);
      if |lists[l]| > 0 {
        heap.Push(Cursor(l, 0, lists[l][0]));
      }
      FirstHeadsStep(lists, l, bag, multiset(heap.items));
    }
    assert lists[..|lists|] == lists;
  }

  lemma FirstHeadsStep<T(!new)>(lists: seq<seq<Scored<T>>>, l: nat, bag: multiset<Cursor<T>>, bag': multiset<Cursor<T>>)
    requires l < |lists| && Heads(lists[..l], Zeros(l), bag)
    requires bag' == if |lists[l]| > 0 then bag + multiset{Cursor(l, 0, lists[l][0])} else bag
    ensures Heads(lists[..l + 1], Zeros(l + 1), bag')
  {
    var lists', zeros := lists[..l + 1], Zeros(l + 1);
    forall c
      ensures Once(lists', zeros, bag', c)
    {
      assert Once(lists[..l], Zeros(l), bag, c);
    }
  }

  /** What has been emitted is ranked, and everything left is no better. */
  ghost predicate Merged<T>(out: seq<Scored<T>>, rest: multiset<Scored<T>>, all: multiset<Scored<T>>) {
    && multiset(out) + rest == all
    && Ranked(WorstFirst<T>(None), out)
    && forall i {:trigger out[i]} :: 0 <= i < |out| ==> AtMost(rest, out[i].score)
  }

  lemma Emit<T(!new)>(out: seq<Scored<T>>, rest: multiset<Scored<T>>, rest': multiset<Scored<T>>, all: multiset<Scored<T>>, x: Scored<T>)
    requires Merged(out, rest, all) && TakenFrom(rest', x, rest) && AtMost(rest, x.score)
    ensures Merged(out + [x], rest', all)
  {
    var out' := out + [x];
    assert multiset(out') + rest' == multiset(out) + rest;
    forall i, j | 0 <= i < j < |out'|
      ensures RankedAt(WorstFirst<T>(None), out', i, j)
    {
      if j < |out| {
        assert RankedAt(WorstFirst<T>(None), out, i, j);
      } else {
        assert AtMost(rest, out[i].score) && x in rest;
      }
    }
    forall i | 0 <= i < |out'|
      ensures AtMost(rest', out'[i].score)
    {
      if i < |out| { assert AtMost(rest, out[i].score); }
      forall y | y in rest'
        ensures y.score <= out'[i].score
      {
        assert y in rest;
      }
    }
  }

  lemma BestHead<T(!new)>(lists: seq<seq<Scored<T>>>, pos: seq<nat>, items: seq<Cursor<T>>, top: Cursor<T>)
    requires Positions(lists, pos) && Descending(lists) && Heads(lists, pos, multiset(items)) && top in items
    requires forall c :: c in items ==> Le(HighestFirst<T>(), top, c)
    ensures PointsAt(lists, pos, top) && AtMost(Rest(lists, pos), top.entry.score)
    ensures Positions(lists, pos[top.listIndex := top.itemIndex + 1])
    ensures TakenFrom(Rest(lists, pos[top.listIndex := top.itemIndex + 1]), top.entry, Rest(lists, pos))
  {
    TopHeadIsGreatest(lists, pos, items, top);
    HeadPoints(lists, pos, multiset(items), top);
    ConsumeRest(lists, pos, top.listIndex, pos[top.listIndex := top.itemIndex + 1]);
  }

  lemma HeadPoints<T(!new)>(lists: seq<seq<Scored<T>>>, pos: seq<nat>, bag: multiset<Cursor<T>>, c: Cursor<T>)
    requires Positions(lists, pos) && Heads(lists, pos, bag) && c in bag
    ensures PointsAt(lists, pos, c)
  {
    assert Once(lists, pos, bag, c);
  }

  /** Take the best head and put the next entry of its list in its place. */
  method TakeBest<T(!new)>(lists: seq<seq<Scored<T>>>, heap: BinaryHeap<Cursor<T>>, ghost pos: seq<nat>)
    returns (best: Scored<T>, ghost pos': seq<nat>)
    requires Descending(lists) && heap.Valid() && heap.compare == HighestFirst<T>() && heap.items != []
    requires Positions(lists, pos) && Heads(lists, pos, multiset(heap.items))
    modifies heap
    ensures heap.Valid() && Positions(lists, pos') && Heads(lists, pos', multiset(heap.items))
    ensures AtMost(Rest(lists, pos), best.score)
    ensures TakenFrom(Rest(lists, pos'), best, Rest(lists, pos))
  {
    ghost var before := heap.items;
    var popped := heap.Pop();
    var cursor := popped.value;
    ghost var bag := multiset(before);
    BestHead(lists, pos, before, cursor);
    best := cursor.entry;
    pos' := pos[cursor.listIndex := cursor.itemIndex + 1];
    var list := lists[cursor.listIndex];
    if cursor.itemIndex + 1 < |list| {
      var next := Cursor(cursor.listIndex, cursor.itemIndex + 1, list[cursor.itemIndex + 1]);
      heap.Push(next);
      ConsumeHead(lists, pos, bag, cursor, pos', bag - multiset{cursor} + multiset{next});
    } else {
      ConsumeHead(lists, pos, bag, cursor, pos', bag - multiset{cursor});
    }
  }

  method MergeTopK<T(!new)>(lists: seq<seq<Scored<T>>>, k: int) returns (out: seq<Scored<T>>)
    requires Descending(lists)
    ensures Selects(WorstFirst<T>(None), out, Together(lists), k)
  {
    if k <= 0 { return []; }
    var heap := FirstHeads(lists);
    out := [];
    ghost var pos := Zeros(|lists|);
    while |out| < k && |heap.items| > 0
      invariant fresh(heap) && heap.Valid() && heap.compare == HighestFirst<T>()
      invariant Positions(lists, pos) && Heads(lists, pos, multiset(heap.items))
      invariant Merged(out, Rest(lists, pos), Together(lists)) && |out| <= k
      decreases k - |out|
    {
      ghost var rest := Rest(lists, pos);
      var best;
      best, pos := TakeBest(lists, heap, pos);
      Emit(out, rest, Rest(lists, pos), Together(lists), best);
      out := out + [best];
    }
    if |out| < k {
      assert heap.items == [];
      NothingLeft(lists, pos);
    }
    MergeSelects(out, Rest(lists, pos), Together(lists), k);
  }

  lemma SomeHead<T(!new)>(lists: seq<seq<Scored<T>>>, pos: seq<nat>, items: seq<Cursor<T>>, x: Scored<T>)
    requires Positions(lists, pos) && Descending(lists) && Heads(lists, pos, multiset(items)) && x in Rest(lists, pos)
    ensures items != []
  {
    var l := LeftBehindHead(lists, pos, x);
    assert Once(lists, pos, multiset(items), Cursor(l, pos[l], lists[l][pos[l]]));
  }

  lemma NothingLeft<T(!new)>(lists: seq<seq<Scored<T>>>, pos: seq<nat>)
    requires Positions(lists, pos) && Descending(lists) && Heads(lists, pos, multiset([]))
    ensures Rest(lists, pos) == multiset{}
  {
    if x :| x in Rest(lists, pos) {
      SomeHead(lists, pos, [], x);
      assert false;
    }
  }

  lemma MergeSelects<T(!new)>(out: seq<Scored<T>>, rest: multiset<Scored<T>>, all: multiset<Scored<T>>, k: int)
    requires Merged(out, rest, all) && 0 < k && |out| <= k && (|out| < k ==> rest == multiset{})
    ensures Selects(WorstFirst<T>(None), out, all, k)
  {
    assert all - multiset(out) == rest;
    assert |multiset(out)| == |out| && |all| == |multiset(out)| + |rest|;
    forall d, x | d in rest && x in out
      ensures Le(WorstFirst<T>(None), d, x)
    {
      var i :| 0 <= i < |out| && out[i] == x;
      assert AtMost(rest, out[i].score);
    }
  }
}
