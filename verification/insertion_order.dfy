/** The keys of a JavaScript Map or Set come back in insertion order, each exactly once. */
module InsertionOrder {
  import opened Basics

  ghost predicate Lists<K>(order: seq<K>, keys: set<K>) {
    if order == [] then keys == {}
    else
      var last := order[|order| - 1];
      last in keys && Lists(order[..|order| - 1], keys - {last})
  }

  lemma ListsAppend<K>(order: seq<K>, keys: set<K>, key: K)
    requires Lists(order, keys) && key !in keys
    ensures Lists(order + [key], keys + {key})
  {
    assert (order + [key])[..|order|] == order;
    assert keys + {key} - {key} == keys;
  }

  lemma {:induction false} ListsDistinct<K>(order: seq<K>, keys: set<K>)
    requires Lists(order, keys)
    ensures |order| == |keys|
    ensures forall i :: 0 <= i < |order| ==> order[i] in keys
    ensures forall i, j :: 0 <= i < j < |order| ==> order[i] != order[j]
    ensures forall key :: key in keys ==> key in order
  {
    if order != [] {
      var n := |order| - 1;
      ListsDistinct(order[..n], keys - {order[n]});
      assert order == order[..n] + [order[n]];
      assert forall i :: 0 <= i < n ==> order[..n][i] == order[i];
    }
  }

  lemma {:induction false} ListsUnique<K>(order: seq<K>, keys: set<K>, keys': set<K>)
    requires Lists(order, keys) && Lists(order, keys')
    ensures keys == keys'
  {
    if order != [] {
      var last := order[|order| - 1];
      ListsUnique(order[..|order| - 1], keys - {last}, keys' - {last});
      assert keys == keys - {last} + {last} && keys' == keys' - {last} + {last};
    }
  }

  /** The entry after a listed prefix is new, and the next prefix lists it as well. */
  lemma {:induction false} ListsNext<K>(order: seq<K>, keys: set<K>, i: nat, done: set<K>)
    requires Lists(order, keys) && i < |order| && Lists(order[..i], done)
    ensures order[i] !in done && order[i] in keys
    ensures Lists(order[..i + 1], done + {order[i]})
    decreases |order|
  {
    var n := |order| - 1;
    if i == n {
      ListsUnique(order[..n], done, keys - {order[n]});
    } else {
      assert order[..n][..i] == order[..i];
      ListsNext(order[..n], keys - {order[n]}, i, done);
    }
    assert order[..i + 1] == order[..i] + [order[i]];
    ListsAppend(order[..i], done, order[i]);
  }

  ghost predicate NoRepeats<K>(s: seq<K>) {
    Lists(s, Members(s))
  }

  lemma ListsMembers<K>(s: seq<K>, keys: set<K>)
    requires Lists(s, keys)
    ensures Members(s) == keys && NoRepeats(s)
  {
    ListsDistinct(s, keys);
  }
}
