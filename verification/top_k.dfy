/** packages/algorithms/src/top-k.ts: bounded selection with a heap of the best k, and merging of ranked lists. */
module TopKs {
  import opened Basics
  import opened BinaryHeaps

  datatype Scored<T> = Scored(item: T, score: real)

  /** The order of the selection heap: the worst entry first, the caller's tie-break inverted. */
  function WorstFirst<T>(tieBreak: Option<Comparator<T>>): Comparator<Scored<T>> {
    (a: Scored<T>, b: Scored<T>) =>
      if a.score != b.score then a.score - b.score
      else if tieBreak.Some? then -tieBreak.value(a.item, b.item)
      else 0.0
  }

  ghost predicate GoodTieBreak<T(!new)>(tieBreak: Option<Comparator<T>>) {
    tieBreak.Some? ==> Ordering(tieBreak.value)
  }

  lemma WorstFirstIsOrdering<T(!new)>(tieBreak: Option<Comparator<T>>)
    requires GoodTieBreak(tieBreak)
    ensures Ordering(WorstFirst(tieBreak))
  {
    var c := WorstFirst(tieBreak);
    forall x, y
      ensures Flips(c, x, y)
    {
      if tieBreak.Some? {
        assert Flips(tieBreak.value, x.item, y.item) && Flips(tieBreak.value, y.item, x.item);
      }
    }
    forall x, y, z
      ensures Chains(c, x, y, z)
    {
      if tieBreak.Some? {
        assert Flips(tieBreak.value, x.item, y.item) && Flips(tieBreak.value, y.item, z.item) && Flips(tieBreak.value, x.item, z.item);
        assert Flips(tieBreak.value, y.item, x.item) && Flips(tieBreak.value, z.item, y.item) && Flips(tieBreak.value, z.item, x.item);
        assert Chains(tieBreak.value, z.item, y.item, x.item);
      }
    }
  }

  function ScoreAll<T>(items: seq<T>, scoreOf: T -> real): (r: seq<Scored<T>>)
    ensures |r| == |items|
  {
    seq(|items|, i requires 0 <= i < |items| => Scored(items[i], scoreOf(items[i])))
  }

  /** Best first: no entry is followed by a strictly better one. */
  ghost predicate Ranked<T>(compare: Comparator<T>, s: seq<T>) {
    forall i, j {:trigger RankedAt(compare, s, i, j)} :: 0 <= i < j < |s| ==> RankedAt(compare, s, i, j)
  }

  ghost predicate RankedAt<T>(compare: Comparator<T>, s: seq<T>, i: nat, j: nat)
    requires i < |s| && j < |s|
  {
    Le(compare, s[j], s[i])
  }

  /** Nothing kept is worse than anything dropped. */
  ghost predicate Dominates<T>(compare: Comparator<T>, kept: seq<T>, dropped: multiset<T>) {
    forall d, x {:trigger Le(compare, d, x)} :: d in dropped && x in kept ==> Le(compare, d, x)
  }

  /** ranked holds the k best of the entries (all of them if there are fewer), best first. */
  ghost predicate Selects<T>(compare: Comparator<T>, ranked: seq<T>, all: multiset<T>, k: int) {
    && |ranked| == Min(if k <= 0 then 0 else k, |all|)
    && Ranked(compare, ranked)
    && multiset(ranked) <= all
    && Dominates(compare, ranked, all - multiset(ranked))
  }

  lemma {:induction false} ReverseIs<T>(s: seq<T>)
    ensures multiset(Reverse(s)) == multiset(s)
    ensures forall i {:trigger Reverse(s)[i]} :: 0 <= i < |s| ==> Reverse(s)[i] == s[|s| - 1 - i]
  {
    if s != [] {
      assert s == s[..|s| - 1] + [s[|s| - 1]];
      ReverseIs(s[..|s| - 1]);
    }
  }

  lemma ReversedIsRanked<T>(compare: Comparator<T>, s: seq<T>)
    requires Sorted(compare, s)
    ensures Ranked(compare, Reverse(s))
  {
    ReverseIs(s);
    forall i, j | 0 <= i < j < |s|
      ensures RankedAt(compare, Reverse(s), i, j)
    {
      assert InOrder(compare, s, |s| - 1 - j, |s| - 1 - i);
    }
  }

  /** The heap holds the k best of what has been seen so far; the rest has been dropped. */
  ghost predicate Keeps<T>(compare: Comparator<T>, kept: seq<T>, dropped: multiset<T>, seen: multiset<T>, k: int) {
    && multiset(kept) + dropped == seen
    && |kept| <= k && (dropped != multiset{} ==> |kept| == k)
    && Dominates(compare, kept, dropped)
  }

  /** Offer one scored candidate to the heap of the best k. */
  method Offer<T(!new)>(heap: BinaryHeap<Scored<T>>, k: int, tieBreak: Option<Comparator<T>>, candidate: Scored<T>,
                        ghost dropped: multiset<Scored<T>>, ghost seen: multiset<Scored<T>>)
    returns (ghost dropped': multiset<Scored<T>>)
    requires heap.Valid() && heap.compare == WorstFirst(tieBreak) && GoodTieBreak(tieBreak) && k > 0
    requires Keeps(heap.compare, heap.items, dropped, seen, k)
    modifies heap
    ensures heap.Valid() && Keeps(heap.compare, heap.items, dropped', seen + multiset{candidate}, k)
  {
    dropped' := dropped;
    ghost var before := heap.items;
    if |heap.items| < k {
      heap.Push(candidate);
      assert |multiset(heap.items)| == |heap.items| && |multiset(before)| == |before|;
      return;
    }
    var worst := heap.items[0];
    RootIsLeastIn(heap.compare, before);
    PreferredIsGreater(tieBreak, candidate, worst);
    if candidate.score > worst.score
       || (candidate.score == worst.score && tieBreak.Some? && tieBreak.value(candidate.item, worst.item) < 0.0) {
      var _ := heap.ReplaceTop(candidate);
      Evicts(heap.compare, before, heap.items, dropped, worst, candidate);
      assert worst in multiset(before);
      assert |multiset(heap.items)| == |heap.items| && |multiset(before)| == |before|;
      dropped' := dropped + multiset{worst};
    } else {
      Declines(heap.compare, before, dropped, worst, candidate);
      dropped' := dropped + multiset{candidate};
    }
  }

  /** The k best entries under the score and the tie-break, best first. */
  method TopK<T(!new)>(items: seq<T>, k: int, scoreOf: T -> real, tieBreak: Option<Comparator<T>>) returns (ranked: seq<Scored<T>>)
    requires GoodTieBreak(tieBreak)
    ensures Selects(WorstFirst(tieBreak), ranked, multiset(ScoreAll(items, scoreOf)), k)
  {
    ghost var all := ScoreAll(items, scoreOf);
    assert |multiset(all)| == |all|;
    if k <= 0 || |items| == 0 { return []; }

    WorstFirstIsOrdering(tieBreak);
    var heap := new BinaryHeap<Scored<T>>(WorstFirst(tieBreak), []);
    assert heap.items == [] by { assert |multiset(heap.items)| == |heap.items|; }
    ghost var dropped: multiset<Scored<T>> := multiset{};
    for n := 0 to |items|
      invariant fresh(heap) && heap.Valid() && heap.compare == WorstFirst(tieBreak)
      invariant Keeps(heap.compare, heap.items, dropped, multiset(all[..n]), k)
    {
      assert all[..n + 1] == all[..n] + [all[n]];
      dropped := Offer(heap, k, tieBreak, Scored(items[n], scoreOf(items[n])), dropped, multiset(all[..n]));
    }
    assert all[..|items|] == all;
    ghost var kept := heap.items;
    var sorted := heap.DrainSorted();
    ReversedIsRanked(heap.compare, sorted);
    ReverseIs(sorted);
    ranked := Reverse(sorted);
    Concludes(heap.compare, kept, ranked, dropped, multiset(all), k);
  }

  lemma Concludes<T>(compare: Comparator<T>, kept: seq<T>, ranked: seq<T>, dropped: multiset<T>, all: multiset<T>, k: int)
    requires Keeps(compare, kept, dropped, all, k) && k > 0
    requires multiset(ranked) == multiset(kept) && Ranked(compare, ranked)
    ensures Selects(compare, ranked, all, k)
  {
    assert all - multiset(ranked) == dropped;
    assert |multiset(kept)| == |kept| && |multiset(ranked)| == |ranked| && |all| == |multiset(kept)| + |dropped|;
    SameElements(kept, ranked);
  }

  lemma SameElements<T>(a: seq<T>, b: seq<T>)
    requires multiset(a) == multiset(b)
    ensures forall x :: x in a <==> x in b
  {
    forall x
      ensures x in a <==> x in b
    {
      assert x in a <==> x in multiset(a);
    }
  }

  /** The test that admits a candidate is exactly that the worst kept entry stands strictly below it. */
  lemma PreferredIsGreater<T(!new)>(tieBreak: Option<Comparator<T>>, candidate: Scored<T>, worst: Scored<T>)
    requires GoodTieBreak(tieBreak)
    ensures candidate.score > worst.score
            || (candidate.score == worst.score && tieBreak.Some? && tieBreak.value(candidate.item, worst.item) < 0.0)
            <==> !Le(WorstFirst(tieBreak), candidate, worst)
  {
  }

  lemma Evicts<T(!new)>(compare: Comparator<T>, before: seq<T>, after: seq<T>, dropped: multiset<T>, worst: T, candidate: T)
    requires Ordering(compare) && before != [] && worst == before[0]
    requires forall x :: x in before ==> Le(compare, worst, x)
    requires !Le(compare, candidate, worst) && Dominates(compare, before, dropped)
    requires multiset(after) == multiset(before) - multiset{worst} + multiset{candidate}
    ensures Dominates(compare, after, dropped + multiset{worst})
  {
    NotLess(compare, candidate, worst);
    NotLess(compare, worst, candidate);
    assert Le(compare, worst, candidate);
    forall d, x | d in dropped + multiset{worst} && x in after
      ensures Le(compare, d, x)
    {
      assert x in multiset(after);
      assert x == candidate || x in multiset(before);
      if d in dropped {
        assert Le(compare, d, worst);
        assert Chains(compare, d, worst, x);
      }
    }
  }

  lemma Declines<T(!new)>(compare: Comparator<T>, kept: seq<T>, dropped: multiset<T>, worst: T, candidate: T)
    requires Ordering(compare) && kept != [] && worst == kept[0]
    requires forall x :: x in kept ==> Le(compare, worst, x)
    requires Le(compare, candidate, worst) && Dominates(compare, kept, dropped)
    ensures Dominates(compare, kept, dropped + multiset{candidate})
  {
    forall d, x | d in dropped + multiset{candidate} && x in kept
      ensures Le(compare, d, x)
    {
      if d !in dropped { assert Chains(compare, candidate, worst, x); }
    }
  }

  // ---------- Selection is sorting and taking ----------

  /** How many entries are strictly better than v. */
  ghost function CountBetter<T>(compare: Comparator<T>, s: seq<T>, v: T): nat {
    if s == [] then 0
    else CountBetter(compare, s[..|s| - 1], v) + if Le(compare, s[|s| - 1], v) then 0 else 1
  }

  lemma {:induction false} CountSplits<T>(compare: Comparator<T>, a: seq<T>, b: seq<T>, v: T)
    ensures CountBetter(compare, a + b, v) == CountBetter(compare, a, v) + CountBetter(compare, b, v)
  {
    if b == [] {
      assert a + b == a;
    } else {
      assert (a + b)[..|a + b| - 1] == a + b[..|b| - 1];
      CountSplits(compare, a, b[..|b| - 1], v);
    }
  }

  lemma CountAt<T>(compare: Comparator<T>, s: seq<T>, k: nat, v: T)
    requires k <= |s|
    ensures CountBetter(compare, s, v) == CountBetter(compare, s[..k], v) + CountBetter(compare, s[k..], v)
  {
    CountSplits(compare, s[..k], s[k..], v);
    assert s == s[..k] + s[k..];
  }

  lemma {:induction false} CountAll<T>(compare: Comparator<T>, s: seq<T>, v: T)
    ensures CountBetter(compare, s, v) <= |s|
    ensures (forall i :: 0 <= i < |s| ==> !Le(compare, s[i], v)) ==> CountBetter(compare, s, v) == |s|
    ensures (forall i :: 0 <= i < |s| ==> Le(compare, s[i], v)) ==> CountBetter(compare, s, v) == 0
  {
    if s != [] { CountAll(compare, s[..|s| - 1], v); }
  }

  /** A part holds no more better entries than the whole, and just as many if none of the rest is better. */
  lemma {:induction false} CountPart<T>(compare: Comparator<T>, part: seq<T>, whole: seq<T>, v: T)
    requires multiset(part) <= multiset(whole)
    ensures CountBetter(compare, part, v) <= CountBetter(compare, whole, v)
    ensures (forall d :: d in multiset(whole) - multiset(part) ==> Le(compare, d, v)) ==>
              CountBetter(compare, part, v) == CountBetter(compare, whole, v)
    decreases |part|
  {
    if part == [] {
      CountAll(compare, whole, v);
      assert forall i :: 0 <= i < |whole| ==> whole[i] in multiset(whole) - multiset(part);
    } else {
      var x, rest := part[|part| - 1], part[..|part| - 1];
      assert part == rest + [x] && x in multiset(part) && x in multiset(whole);
      var p :| 0 <= p < |whole| && whole[p] == x;
      var without := whole[..p] + whole[p + 1..];
      assert whole == whole[..p] + [x] + whole[p + 1..];
      CountSplits(compare, whole[..p], [x], v);
      CountSplits(compare, whole[..p] + [x], whole[p + 1..], v);
      CountSplits(compare, whole[..p], whole[p + 1..], v);
      assert CountBetter(compare, [x], v) == if Le(compare, x, v) then 0 else 1 by { assert [x][..0] == []; }
      assert multiset(without) - multiset(rest) == multiset(whole) - multiset(part);
      CountPart(compare, rest, without, v);
    }
  }

  /** From position i on a ranked list holds nothing better than that position... */
  lemma BottomIsNoBetter<T(!new)>(compare: Comparator<T>, s: seq<T>, i: nat, v: T)
    requires Ordering(compare) && Ranked(compare, s) && i < |s| && Le(compare, s[i], v)
    ensures CountBetter(compare, s[i..], v) == 0
  {
    NotLess(compare, s[i], s[i]);
    var bottom := s[i..];
    forall j | 0 <= j < |bottom|
      ensures Le(compare, bottom[j], v)
    {
      assert j > 0 ==> RankedAt(compare, s, i, i + j);
      assert Chains(compare, s[i + j], s[i], v);
    }
    CountAll(compare, bottom, v);
  }

  /** ...and up to it nothing worse. */
  lemma TopIsBetter<T(!new)>(compare: Comparator<T>, s: seq<T>, i: nat, v: T)
    requires Ordering(compare) && Ranked(compare, s) && i < |s| && !Le(compare, s[i], v)
    ensures CountBetter(compare, s[..i + 1], v) == i + 1
  {
    var top := s[..i + 1];
    forall j | 0 <= j < |top|
      ensures !Le(compare, top[j], v)
    {
      assert j < i ==> RankedAt(compare, s, j, i);
      assert Chains(compare, s[i], s[j], v);
    }
    CountAll(compare, top, v);
  }

  lemma CountRanked<T(!new)>(compare: Comparator<T>, s: seq<T>, i: nat, v: T)
    requires Ordering(compare) && Ranked(compare, s) && i < |s|
    ensures !Le(compare, s[i], v) ==> CountBetter(compare, s, v) >= i + 1
    ensures Le(compare, s[i], v) ==> CountBetter(compare, s, v) <= i
  {
    if Le(compare, s[i], v) {
      BottomIsNoBetter(compare, s, i, v);
      CountAt(compare, s, i, v);
      CountAll(compare, s[..i], v);
    } else {
      TopIsBetter(compare, s, i, v);
      CountAt(compare, s, i + 1, v);
    }
  }

  /** Neither is strictly better. */
  ghost predicate Tied<T>(compare: Comparator<T>, x: T, y: T) {
    Le(compare, x, y) && Le(compare, y, x)
  }

  ghost predicate NoTies<T(!new)>(compare: Comparator<T>) {
    forall x, y {:trigger Tied(compare, x, y)} :: Tied(compare, x, y) ==> x == y
  }

  /**
   * Against any full ranking of the entries the selection agrees position by position
   * up to ties, and is exactly its head when the order leaves no ties.
   */
  lemma SelectionIsSortThenTake<T(!new)>(compare: Comparator<T>, ranked: seq<T>, full: seq<T>, k: int)
    requires Ordering(compare) && Selects(compare, ranked, multiset(full), k) && Ranked(compare, full)
    ensures |ranked| == Min(if k <= 0 then 0 else k, |full|)
    ensures forall i :: 0 <= i < |ranked| ==> Tied(compare, ranked[i], full[i])
    ensures NoTies(compare) ==> ranked == full[..|ranked|]
  {
    assert |multiset(full)| == |full|;
    forall i | 0 <= i < |ranked|
      ensures Tied(compare, ranked[i], full[i])
    {
      CountRanked(compare, ranked, i, full[i]);
      CountRanked(compare, full, i, full[i]);
      CountPart(compare, ranked, full, full[i]);
      CountRanked(compare, full, i, ranked[i]);
      CountRanked(compare, ranked, i, ranked[i]);
      CountPart(compare, ranked, full, ranked[i]);
      NotLess(compare, ranked[i], ranked[i]);
      NotLess(compare, full[i], full[i]);
    }
  }
}
