/** packages/algorithms/src/binary-heap.ts: an array heap with hole-moving sifts, Floyd construction and draining. */
module BinaryHeaps {
  import opened Basics

  // ---------- Comparators ----------

  type Comparator<!T> = (T, T) -> real

  /** x may stand closer to the root than y. */
  ghost predicate Le<T>(compare: Comparator<T>, x: T, y: T) {
    compare(x, y) <= 0.0
  }

  /** A consistent comparator: comparing the other way round flips the sign, and the order is transitive. */
  ghost predicate Ordering<T(!new)>(compare: Comparator<T>) {
    && (forall x, y {:trigger Flips(compare, x, y)} :: Flips(compare, x, y))
    && (forall x, y, z {:trigger Chains(compare, x, y, z)} :: Chains(compare, x, y, z))
  }

  ghost predicate Flips<T>(compare: Comparator<T>, x: T, y: T) {
    Le(compare, x, y) <==> compare(y, x) >= 0.0
  }

  ghost predicate Chains<T>(compare: Comparator<T>, x: T, y: T, z: T) {
    Le(compare, x, y) && Le(compare, y, z) ==> Le(compare, x, z)
  }

  lemma NotLess<T(!new)>(compare: Comparator<T>, x: T, y: T)
    requires Ordering(compare)
    ensures compare(x, y) >= 0.0 <==> Le(compare, y, x)
    ensures compare(x, y) < 0.0 ==> Le(compare, x, y) && !Le(compare, y, x)
    ensures Le(compare, x, x)
  {
    assert Flips(compare, y, x) && Flips(compare, x, x);
  }

  // ---------- Heap order ----------

  function Parent(i: int): (p: int)
    requires i > 0
    ensures 0 <= p < i && (i == 2 * p + 1 || i == 2 * p + 2)
  {
    (i - 1) / 2
  }

  ghost predicate ParentFirst<T>(compare: Comparator<T>, items: seq<T>, i: nat)
    requires 0 < i < |items|
  {
    Le(compare, items[Parent(i)], items[i])
  }

  /** Every element from the given position on stands below its parent; from 0 this is the whole heap order. */
  ghost predicate HeapFrom<T>(compare: Comparator<T>, items: seq<T>, from: int) {
    forall i {:trigger ParentFirst(compare, items, i)} :: 0 < i < |items| && Parent(i) >= from ==> ParentFirst(compare, items, i)
  }

  lemma {:induction false} RootIsLeast<T(!new)>(compare: Comparator<T>, items: seq<T>, i: nat)
    requires Ordering(compare) && HeapFrom(compare, items, 0) && i < |items|
    ensures Le(compare, items[0], items[i])
  {
    if i == 0 {
      NotLess(compare, items[0], items[0]);
    } else {
      RootIsLeast(compare, items, Parent(i));
      assert ParentFirst(compare, items, i);
      assert Chains(compare, items[0], items[Parent(i)], items[i]);
    }
  }

  lemma RootIsLeastIn<T(!new)>(compare: Comparator<T>, items: seq<T>)
    requires Ordering(compare) && HeapFrom(compare, items, 0) && items != []
    ensures forall x {:trigger Le(compare, items[0], x)} :: x in items ==> Le(compare, items[0], x)
  {
    forall x | x in items
      ensures Le(compare, items[0], x)
    {
      var i :| 0 <= i < |items| && items[i] == x;
      RootIsLeast(compare, items, i);
    }
  }

  // ---------- Sifting ----------

  /** Moving the hole from index to the place of another element keeps the contents once the value is put back. */
  lemma HoleMoves<T>(items: seq<T>, index: nat, other: nat, value: T)
    requires index < |items| && other < |items| && index != other
    ensures multiset(items[index := items[other]][other := value]) == multiset(items[index := value])
  {
    var h := items[index := value];
    assert items[index := items[other]][other := value] == h[index := h[other]][other := h[index]];
  }

  /** Heap order but for the value held back, which is destined for index and already fits above its subtree. */
  ghost predicate HeapUp<T>(compare: Comparator<T>, h: seq<T>, index: nat)
    requires index < |h|
  {
    && (forall i {:trigger ParentFirst(compare, h, i)} :: 0 < i < |h| && i != index ==> ParentFirst(compare, h, i))
    && (forall i {:trigger SkipsUp(compare, h, index, i)} :: 0 < i < |h| && Parent(i) == index ==> SkipsUp(compare, h, index, i))
  }

  ghost predicate SkipsUp<T>(compare: Comparator<T>, h: seq<T>, index: nat, i: nat)
    requires index < |h| && i < |h|
  {
    index > 0 ==> Le(compare, h[Parent(index)], h[i])
  }

  lemma StepUp<T(!new)>(compare: Comparator<T>, h: seq<T>, index: nat, h': seq<T>)
    requires Ordering(compare) && 0 < index < |h| && HeapUp(compare, h, index)
    requires compare(h[index], h[Parent(index)]) < 0.0
    requires h' == h[index := h[Parent(index)]][Parent(index) := h[index]]
    ensures HeapUp(compare, h', Parent(index))
  {
    var p := Parent(index);
    NotLess(compare, h[index], h[p]);
    forall i | 0 < i < |h'| && i != p
      ensures ParentFirst(compare, h', i)
    {
      if i != index {
        assert ParentFirst(compare, h, i);
        if Parent(i) == index {
          assert SkipsUp(compare, h, index, i);
        } else if Parent(i) == p {
          assert Chains(compare, h[index], h[p], h[i]);
        }
      }
    }
    forall i | 0 < i < |h'| && Parent(i) == p
      ensures SkipsUp(compare, h', p, i)
    {
      if p > 0 {
        assert ParentFirst(compare, h, p);
        if i != index {
          assert ParentFirst(compare, h, i);
          assert Chains(compare, h[Parent(p)], h[p], h[i]);
        }
      }
    }
  }

  lemma SettleUp<T(!new)>(compare: Comparator<T>, h: seq<T>, index: nat)
    requires Ordering(compare) && index < |h| && HeapUp(compare, h, index)
    requires index > 0 ==> compare(h[index], h[Parent(index)]) >= 0.0
    ensures HeapFrom(compare, h, 0)
  {
    if index > 0 { NotLess(compare, h[index], h[Parent(index)]); }
    forall i | 0 < i < |h| && Parent(i) >= 0
      ensures ParentFirst(compare, h, i)
    {
    }
  }

  /** Heap order from start on but for the value held back at index, which fits below everything above it. */
  ghost predicate HeapDown<T>(compare: Comparator<T>, h: seq<T>, start: nat, index: nat)
    requires index < |h|
  {
    && start <= index
    && (forall i {:trigger ParentFirst(compare, h, i)} :: 0 < i < |h| && Parent(i) >= start && Parent(i) != index ==> ParentFirst(compare, h, i))
    && (forall i {:trigger SkipsDown(compare, h, start, index, i)} :: 0 < i < |h| && Parent(i) == index ==> SkipsDown(compare, h, start, index, i))
  }

  ghost predicate SkipsDown<T>(compare: Comparator<T>, h: seq<T>, start: nat, index: nat, i: nat)
    requires index < |h| && i < |h|
  {
    index > 0 && Parent(index) >= start ==> Le(compare, h[Parent(index)], h[i])
  }

  /** child is the smaller of the children of index. */
  ghost predicate LeastChild<T>(compare: Comparator<T>, h: seq<T>, index: nat, child: nat)
    requires index < |h|
  {
    && 0 < child < |h| && Parent(child) == index
    && forall i :: 0 < i < |h| && Parent(i) == index ==> Le(compare, h[child], h[i])
  }

  lemma StepDown<T(!new)>(compare: Comparator<T>, h: seq<T>, start: nat, index: nat, child: nat, h': seq<T>)
    requires Ordering(compare) && index < |h| && HeapDown(compare, h, start, index) && LeastChild(compare, h, index, child)
    requires compare(h[child], h[index]) < 0.0
    requires h' == h[index := h[child]][child := h[index]]
    ensures HeapDown(compare, h', start, child)
  {
    NotLess(compare, h[child], h[index]);
    forall i | 0 < i < |h'| && Parent(i) >= start && Parent(i) != child
      ensures ParentFirst(compare, h', i)
    {
      if i == index {
        assert SkipsDown(compare, h, start, index, child);
      } else if Parent(i) == index {
        assert Le(compare, h[child], h[i]);
      } else {
        assert ParentFirst(compare, h, i);
      }
    }
    forall i | 0 < i < |h'| && Parent(i) == child
      ensures SkipsDown(compare, h', start, child, i)
    {
      assert ParentFirst(compare, h, i);
    }
  }

  lemma SettleDown<T(!new)>(compare: Comparator<T>, h: seq<T>, start: nat, index: nat)
    requires Ordering(compare) && index < |h| && HeapDown(compare, h, start, index)
    requires forall i :: 0 < i < |h| && Parent(i) == index ==> Le(compare, h[index], h[i])
    ensures HeapFrom(compare, h, start)
  {
    forall i | 0 < i < |h| && Parent(i) >= start
      ensures ParentFirst(compare, h, i)
    {
      assert Parent(i) != index ==> ParentFirst(compare, h, i);
    }
  }

  // ---------- The class ----------

  class BinaryHeap<T(!new)> {
    const compare: Comparator<T>
    var items: seq<T>

    ghost predicate Valid()
      reads this
    {
      Ordering(compare) && HeapFrom(compare, items, 0)
    }

    /** Floyd's construction: sift down from the last internal node. */
    constructor (compare: Comparator<T>, initial: seq<T>)
      requires Ordering(compare)
      ensures Valid() && this.compare == compare && multiset(items) == multiset(initial)
    {
      this.compare := compare;
      items := initial;
      new;
      var i := |items| / 2 - 1;
      assert HeapFrom(compare, items, i + 1);
      while i >= 0
        invariant -1 <= i < |items| || i == -1
        invariant HeapFrom(compare, items, i + 1) && multiset(items) == multiset(initial)
      {
        SiftDown(i);
        i := i - 1;
      }
    }

    method SiftUp(start: nat)
      requires Ordering(compare) && start < |items| && HeapUp(compare, items, start)
      modifies this
      ensures HeapFrom(compare, items, 0) && multiset(items) == multiset(old(items))
    {
      var index := start;
      var value := items[index];
      assert items[index := value] == items;
      while index > 0
        invariant index < |items| == |old(items)|
        invariant HeapUp(compare, items[index := value], index)
        invariant multiset(items[index := value]) == multiset(old(items))
      {
        var parent := Parent(index);
        var parentValue := items[parent];
        ghost var h := items[index := value];
        if compare(value, parentValue) >= 0.0 { break; }
        HoleMoves(items, index, parent, value);
        items := items[index := parentValue];
        assert items[parent := value] == h[index := h[parent]][parent := h[index]];
        StepUp(compare, h, index, items[parent := value]);
        index := parent;
      }
      SettleUp(compare, items[index := value], index);
      items := items[index := value];
    }

    method SiftDown(start: nat)
      requires Ordering(compare) && start < |items| && HeapFrom(compare, items, start + 1)
      modifies this
      ensures HeapFrom(compare, items, start) && multiset(items) == multiset(old(items))
    {
      var index := start;
      var length := |items|;
      var value := items[index];
      assert items[index := value] == items;
      assert HeapDown(compare, items, start, index);
      while true
        invariant index < |items| == length == |old(items)|
        invariant HeapDown(compare, items[index := value], start, index)
        invariant multiset(items[index := value]) == multiset(old(items))
        decreases length - index
      {
        ghost var h := items[index := value];
        var left := index * 2 + 1;
        if left >= length { break; }
        var child := PickChild(index, value);
        NotLess(compare, items[child], value);
        if compare(items[child], value) >= 0.0 {
          forall i | 0 < i < |h| && Parent(i) == index
            ensures Le(compare, h[index], h[i])
          {
            assert Chains(compare, value, h[child], h[i]);
          }
          break;
        }
        HoleMoves(items, index, child, value);
        items := items[index := items[child]];
        assert items[child := value] == h[index := h[child]][child := h[index]];
        StepDown(compare, h, start, index, child, items[child := value]);
        index := child;
      }
      SettleDown(compare, items[index := value], start, index);
      items := items[index := value];
    }

    /** The smaller child of an internal node; the left one on a tie. */
    method PickChild(index: nat, ghost value: T) returns (child: nat)
      requires Ordering(compare) && index * 2 + 1 < |items|
      ensures index < child && LeastChild(compare, items[index := value], index, child)
    {
      var left := index * 2 + 1;
      var right := left + 1;
      child := left;
      if right < |items| && compare(items[right], items[left]) < 0.0 {
        child := right;
      }
      if right < |items| { NotLess(compare, items[right], items[left]); }
      NotLess(compare, items[child], items[child]);
    }

    method Push(value: T)
      requires Valid()
      modifies this
      ensures Valid() && multiset(items) == multiset(old(items)) + multiset{value}
    {
      items := items + [value];
      forall i | 0 < i < |items| && i != |items| - 1
        ensures ParentFirst(compare, items, i)
      {
        assert ParentFirst(compare, old(items), i);
      }
      SiftUp(|items| - 1);
    }

    /** Removes and returns a least element. */
    method Pop() returns (r: Option<T>)
      requires Valid()
      modifies this
      ensures Valid()
      ensures old(items) == [] ==> r.None? && items == []
      ensures old(items) != [] ==> r == Some(old(items)[0]) && multiset(items) == multiset(old(items)) - multiset{r.value}
      ensures r.Some? ==> forall x :: x in old(items) ==> Le(compare, r.value, x)
    {
      if |items| == 0 { return None; }
      RootIsLeastIn(compare, items);
      var top := items[0];
      var last := items[|items| - 1];
      ghost var before := items;
      items := items[..|items| - 1];
      assert before == items + [last];
      if |items| > 0 {
        items := items[0 := last];
        forall i | 0 < i < |items| && Parent(i) >= 1
          ensures ParentFirst(compare, items, i)
        {
          assert ParentFirst(compare, before, i);
        }
        SiftDown(0);
      }
      return Some(top);
    }

    /** Swaps a least element for the given one. */
    method ReplaceTop(value: T) returns (r: Option<T>)
      requires Valid()
      modifies this
      ensures Valid()
      ensures old(items) == [] ==> r.None? && multiset(items) == multiset{value}
      ensures old(items) != [] ==> r == Some(old(items)[0]) && multiset(items) == multiset(old(items)) - multiset{r.value} + multiset{value}
      ensures r.Some? ==> forall x :: x in old(items) ==> Le(compare, r.value, x)
    {
      if |items| == 0 {
        Push(value);
        return None;
      }
      RootIsLeastIn(compare, items);
      var top := items[0];
      ghost var before := items;
      items := items[0 := value];
      forall i | 0 < i < |items| && Parent(i) >= 1
        ensures ParentFirst(compare, items, i)
      {
        assert ParentFirst(compare, before, i);
      }
      SiftDown(0);
      return Some(top);
    }

    /** Empties the heap into a sorted list of the same elements. */
    method DrainSorted() returns (out: seq<T>)
      requires Valid()
      modifies this
      ensures Valid() && items == []
      ensures multiset(out) == multiset(old(items))
      ensures Sorted(compare, out)
    {
      out := [];
      while |items| > 0
        invariant Valid() && multiset(out) + multiset(items) == multiset(old(items))
        invariant Sorted(compare, out)
        invariant forall x, y {:trigger Le(compare, x, y)} :: x in out && y in items ==> Le(compare, x, y)
        decreases |items|
      {
        ghost var before := items;
        var top := Pop();
        LeftInside(before, items, top.value);
        SortedPush(compare, out, top.value);
        out := out + [top.value];
      }
    }
  }

  lemma LeftInside<T>(before: seq<T>, left: seq<T>, x: T)
    requires multiset(left) == multiset(before) - multiset{x} && x in before
    ensures |left| == |before| - 1
    ensures forall y :: y in left ==> y in before
  {
    assert x in multiset(before);
    assert |multiset(left)| == |multiset(before)| - 1;
    forall y | y in left
      ensures y in before
    {
      assert y in multiset(left);
    }
  }

  ghost predicate Sorted<T>(compare: Comparator<T>, s: seq<T>) {
    forall i, j {:trigger InOrder(compare, s, i, j)} :: 0 <= i < j < |s| ==> InOrder(compare, s, i, j)
  }

  ghost predicate InOrder<T>(compare: Comparator<T>, s: seq<T>, i: nat, j: nat)
    requires i < |s| && j < |s|
  {
    Le(compare, s[i], s[j])
  }

  lemma SortedPush<T>(compare: Comparator<T>, s: seq<T>, x: T)
    requires Sorted(compare, s) && forall y :: y in s ==> Le(compare, y, x)
    ensures Sorted(compare, s + [x])
  {
    forall i, j | 0 <= i < j < |s + [x]|
      ensures InOrder(compare, s + [x], i, j)
    {
      if j < |s| { assert InOrder(compare, s, i, j); }
    }
  }
}
