/** packages/algorithms/src/binary-heap.ts: the stable priority queue built on the heap. */
module PriorityQueues {
  import opened Basics
  import opened BinaryHeaps

  datatype PriorityEntry<T> = PriorityEntry(value: T, priority: real, sequence: nat)

  function Earlier<T>(): Comparator<PriorityEntry<T>> {
    (a: PriorityEntry<T>, b: PriorityEntry<T>) =>
      if a.priority != b.priority then a.priority - b.priority else a.sequence as real - b.sequence as real
  }

  lemma EarlierIsOrdering<T(!new)>()
    ensures Ordering(Earlier<T>())
  {
  }

  /** Entries in the order they were enqueued, with the latest sequence number given out. */
  ghost predicate Numbered<T>(entries: seq<PriorityEntry<T>>, sequence: nat) {
    && (forall i {:trigger entries[i]} :: 0 <= i < |entries| ==> entries[i].sequence <= sequence)
    && (forall i, j {:trigger entries[i], entries[j]} :: 0 <= i < j < |entries| ==> entries[i].sequence < entries[j].sequence)
  }

  /** The position of the entry served next: the first of the least priority. */
  ghost function Next<T>(entries: seq<PriorityEntry<T>>): nat
    requires entries != []
    ensures Next(entries) < |entries|
    decreases |entries|, 1
  {
    if |entries| == 1 then 0 else NextOfMore(entries)
  }

  ghost function NextOfMore<T>(entries: seq<PriorityEntry<T>>): nat
    requires |entries| > 1
    ensures NextOfMore(entries) < |entries|
    decreases |entries|, 0
  {
    var b := Next(entries[..|entries| - 1]);
    if entries[|entries| - 1].priority < entries[b].priority then |entries| - 1 else b
  }

  /** Nothing waiting has a smaller priority, and what has the same was enqueued later. */
  lemma {:induction false} NextIsFirstOfLeast<T>(entries: seq<PriorityEntry<T>>, i: nat)
    requires i < |entries|
    ensures var n := Next(entries);
            entries[n].priority <= entries[i].priority && (entries[n].priority == entries[i].priority ==> n <= i)
  {
    if |entries| > 1 {
      var front := entries[..|entries| - 1];
      if i < |front| { NextIsFirstOfLeast(front, i); } else { NextIsFirstOfLeast(front, Next(front)); }
    }
  }

  lemma CutOut<T>(s: seq<T>, i: nat)
    requires i < |s|
    ensures multiset(s[..i] + s[i + 1..]) == multiset(s) - multiset{s[i]}
  {
    assert s == s[..i] + [s[i]] + s[i + 1..];
    assert multiset(s) == multiset(s[..i]) + multiset{s[i]} + multiset(s[i + 1..]);
  }

  lemma WithoutKeepsRest<T>(s: seq<T>, i: nat)
    requires i < |s|
    ensures multiset(Splice(s, i)) == multiset(s) - multiset{s[i]}
  {
    SpliceIs(s, i);
    CutOut(s, i);
  }

  lemma NumberedWithout<T>(entries: seq<PriorityEntry<T>>, sequence: nat, i: nat)
    requires Numbered(entries, sequence) && i < |entries|
    ensures Numbered(Splice(entries, i), sequence)
  {
    SpliceIs(entries, i);
  }

  ghost predicate SameBag<T>(a: seq<T>, b: seq<T>) {
    multiset(a) == multiset(b)
  }

  lemma SameMembers<T>(a: seq<T>, b: seq<T>, x: T)
    requires SameBag(a, b)
    ensures x in a <==> x in b
  {
    assert x in multiset(a) <==> x in multiset(b);
  }

  /** The heap's least entry is the one served next. */
  lemma LeastIsNext<T(!new)>(items: seq<PriorityEntry<T>>, entries: seq<PriorityEntry<T>>, sequence: nat, top: PriorityEntry<T>)
    requires Numbered(entries, sequence) && SameBag(items, entries) && entries != [] && top in items
    requires forall x :: x in items ==> Le(Earlier<T>(), top, x)
    ensures top == entries[Next(entries)]
  {
    var n := Next(entries);
    SameMembers(items, entries, top);
    SameMembers(items, entries, entries[n]);
    var i :| 0 <= i < |entries| && entries[i] == top;
    NextIsFirstOfLeast(entries, i);
    assert Le(Earlier<T>(), top, entries[n]);
  }

  class PriorityQueue<T(!new)> {
    const heap: BinaryHeap<PriorityEntry<T>>
    var sequence: nat
    /** What waits, in the order it was enqueued. */
    ghost var entries: seq<PriorityEntry<T>>

    ghost predicate Valid()
      reads this, heap
    {
      && heap.Valid() && heap.compare == Earlier<T>()
      && Numbered(entries, sequence) && SameBag(heap.items, entries)
    }

    constructor ()
      ensures Valid() && fresh(heap) && entries == [] && sequence == 0
    {
      EarlierIsOrdering<T>();
      heap := new BinaryHeap(Earlier<T>(), []);
      sequence, entries := 0, [];
    }

    method Size() returns (n: nat)
      requires Valid()
      ensures n == |entries|
    {
      n := |heap.items|;
      assert |multiset(heap.items)| == |multiset(entries)|;
    }

    method Enqueue(value: T, priority: real)
      requires Valid()
      modifies this, heap
      ensures Valid() && sequence == old(sequence) + 1
      ensures entries == old(entries) + [PriorityEntry(value, priority, sequence)]
    {
      sequence := sequence + 1;
      heap.Push(PriorityEntry(value, priority, sequence));
      entries := entries + [PriorityEntry(value, priority, sequence)];
    }

    /** Serves the first entry of the least priority and leaves the order of the others alone. */
    method Dequeue() returns (r: Option<T>)
      requires Valid()
      modifies this, heap
      ensures Valid() && sequence == old(sequence)
      ensures old(entries) == [] ==> r.None? && entries == []
      ensures old(entries) != [] ==>
                && r == Some(old(entries)[Next(old(entries))].value)
                && entries == Splice(old(entries), Next(old(entries)))
    {
      assert |multiset(heap.items)| == |multiset(entries)|;
      var top := heap.Pop();
      if top.None? { return None; }
      LeastIsNext(old(heap.items), entries, sequence, top.value);
      WithoutKeepsRest(entries, Next(entries));
      NumberedWithout(entries, sequence, Next(entries));
      entries := Splice(entries, Next(entries));
      return Some(top.value.value);
    }

    method Clear()
      requires Valid()
      modifies this, heap
      ensures Valid() && entries == [] && sequence == 0
    {
      heap.items := [];
      sequence, entries := 0, [];
    }
  }
}
