/** packages/algorithms/src/lru-cache.ts: a map plus an intrusive doubly linked list. */
module LruCaches {
  import opened Basics
  import opened LruSpec

  class Node {
    const key: Key
    var value: Value
    var expiresAt: int
    var prev: Node?
    var next: Node?

    constructor (key: Key, value: Value, expiresAt: int)
      ensures this.key == key && this.value == value && this.expiresAt == expiresAt
      ensures prev == null && next == null
    {
      this.key, this.value, this.expiresAt := key, value, expiresAt;
      prev, next := null, null;
    }
  }

  // ---------- Lists without repetition ----------

  ghost predicate Distinct<T>(list: seq<T>) {
    forall i, j {:trigger Differ(list, i, j)} :: 0 <= i < j < |list| ==> Differ(list, i, j)
  }

  ghost predicate Differ<T>(list: seq<T>, i: nat, j: nat)
    requires i < |list| && j < |list|
  {
    list[i] != list[j]
  }

  /** An element occurs at its own position only. */
  lemma OnlyAt<T>(list: seq<T>, i: nat)
    requires Distinct(list) && i < |list|
    ensures forall j :: 0 <= j < |list| && j != i ==> list[j] != list[i]
  {
    forall j | 0 <= j < |list| && j != i
      ensures list[j] != list[i]
    {
      assert if j < i then Differ(list, j, i) else Differ(list, i, j);
    }
  }

  lemma {:induction false} SpliceAt<T>(list: seq<T>, i: nat, j: nat)
    requires i < |list| && j < |list| - 1
    ensures Splice(list, i)[j] == list[if j < i then j else j + 1]
  {
    if i > 0 && j > 0 {
      SpliceAt(list[1..], i - 1, j - 1);
    }
  }

  lemma SpliceDistinct<T>(list: seq<T>, i: nat)
    requires Distinct(list) && i < |list|
    ensures Distinct(Splice(list, i)) && list[i] !in Splice(list, i)
  {
    OnlyAt(list, i);
    forall j | 0 <= j < |list| - 1
      ensures Splice(list, i)[j] == list[if j < i then j else j + 1]
    {
      SpliceAt(list, i, j);
    }
    forall j, m | 0 <= j < m < |list| - 1
      ensures Differ(Splice(list, i), j, m)
    {
      assert Differ(list, if j < i then j else j + 1, if m < i then m else m + 1);
    }
  }

  lemma PushDistinct<T>(x: T, list: seq<T>)
    requires Distinct(list) && x !in list
    ensures Distinct([x] + list)
  {
    forall j, m | 0 <= j < m < |[x] + list|
      ensures Differ([x] + list, j, m)
    {
      assert j > 0 ==> Differ(list, j - 1, m - 1);
    }
  }

  /** Moving the element at position i to the front. */
  ghost function Rotate<T>(list: seq<T>, i: nat): (r: seq<T>)
    requires i < |list|
    ensures |r| == |list|
  {
    [list[i]] + Splice(list, i)
  }

  lemma RotateAt<T>(list: seq<T>, i: nat, j: nat)
    requires i < |list| && j < |list|
    ensures Rotate(list, i)[j] == list[if j == 0 then i else if j <= i then j - 1 else j]
  {
    if j > 0 { SpliceAt(list, i, j - 1); }
  }

  lemma RotateFirst<T>(list: seq<T>)
    requires list != []
    ensures Rotate(list, 0) == list
  {
  }

  lemma {:induction false} SpliceLast<T>(list: seq<T>)
    requires list != []
    ensures Splice(list, |list| - 1) == list[..|list| - 1]
  {
    if |list| > 1 { SpliceLast(list[1..]); }
  }

  lemma {:induction false} SpliceUpdate<T>(list: seq<T>, i: nat, x: T)
    requires i < |list|
    ensures Splice(list[i := x], i) == Splice(list, i)
  {
    if i > 0 {
      assert list[i := x][1..] == list[1..][i - 1 := x];
      SpliceUpdate(list[1..], i - 1, x);
    }
  }

  // ---------- What the links, the map and the entries say ----------

  ghost function At(list: seq<Node>, i: int): Node? {
    if 0 <= i < |list| then list[i] else null
  }

  /** head and tail delimit a chain whose forward links spell the list and whose backward links spell its reverse. */
  ghost predicate Chain(list: seq<Node>, head: Node?, tail: Node?)
    reads list
  {
    && Distinct(list)
    && head == At(list, 0) && tail == At(list, |list| - 1)
    && forall i {:trigger Placed(list, i)} :: 0 <= i < |list| ==> Placed(list, i)
  }

  ghost predicate Placed(list: seq<Node>, i: nat)
    requires i < |list|
    reads list
  {
    list[i].next == At(list, i + 1) && list[i].prev == At(list, i - 1)
  }

  /** Node m is linked as in the chain, but past node i. */
  ghost predicate Bypasses(list: seq<Node>, i: nat, m: nat)
    requires i < |list| && m < |list|
    reads list
  {
    && list[m].next == At(list, if m + 1 == i then i + 1 else m + 1)
    && list[m].prev == At(list, if m - 1 == i then i - 1 else m - 1)
  }

  ghost predicate Within(list: seq<Node>, repr: set<Node>) {
    forall i {:trigger Member(list, repr, i)} :: 0 <= i < |list| ==> Member(list, repr, i)
  }

  ghost predicate Member(list: seq<Node>, repr: set<Node>, i: nat)
    requires i < |list|
  {
    list[i] in repr
  }

  lemma SpliceWithin(list: seq<Node>, repr: set<Node>, i: nat)
    requires Within(list, repr) && i < |list|
    ensures Within(Splice(list, i), repr)
  {
    forall j | 0 <= j < |list| - 1
      ensures Member(Splice(list, i), repr, j)
    {
      SpliceAt(list, i, j);
      assert Member(list, repr, if j < i then j else j + 1);
    }
  }

  /** The map and the list hold exactly the same nodes. */
  ghost predicate Indexes(nodes: map<Key, Node>, list: seq<Node>) {
    && (forall k {:trigger Reached(nodes, list, k)} :: k in nodes ==> Reached(nodes, list, k))
    && (forall i {:trigger Indexed(nodes, list, i)} :: 0 <= i < |list| ==> Indexed(nodes, list, i))
  }

  ghost predicate Reached(nodes: map<Key, Node>, list: seq<Node>, k: Key)
    requires k in nodes
  {
    nodes[k].key == k && nodes[k] in list
  }

  ghost predicate Indexed(nodes: map<Key, Node>, list: seq<Node>, i: nat)
    requires i < |list|
  {
    list[i].key in nodes && nodes[list[i].key] == list[i]
  }

  /** The entries are what the nodes of the list hold, in order. */
  ghost predicate Mirrors(list: seq<Node>, entries: seq<Entry>)
    reads list
  {
    && |entries| == |list|
    && forall i {:trigger Mirror(list, entries, i)} :: 0 <= i < |list| ==> Mirror(list, entries, i)
  }

  ghost predicate Mirror(list: seq<Node>, entries: seq<Entry>, i: nat)
    requires i < |list| && i < |entries|
    reads list
  {
    entries[i] == Entry(list[i].key, list[i].value, list[i].expiresAt)
  }

  // ---------- From positions in the chain to keys ----------

  lemma {:induction false} HoldsIndex(s: seq<Entry>, i: nat)
    requires i < |s|
    ensures Holds(s, s[i].key)
  {
    if i > 0 { HoldsIndex(s[1..], i - 1); }
  }

  lemma {:induction false} HoldsSomewhere(s: seq<Entry>, k: Key) returns (i: nat)
    requires Holds(s, k)
    ensures i < |s| && s[i].key == k
  {
    if s[0].key == k {
      i := 0;
    } else {
      i := HoldsSomewhere(s[1..], k);
      i := i + 1;
    }
  }

  lemma {:induction false} SpliceIsWithout(s: seq<Entry>, i: nat)
    requires DistinctKeys(s) && i < |s|
    ensures Holds(s, s[i].key) && Find(s, s[i].key) == s[i]
    ensures Without(s, s[i].key) == Splice(s, i)
  {
    HoldsIndex(s, i);
    if i > 0 {
      HoldsIndex(s[1..], i - 1);
      SpliceIsWithout(s[1..], i - 1);
    }
  }

  lemma {:induction false} KeysDistinct(s: seq<Entry>)
    requires forall i, j :: 0 <= i < j < |s| ==> s[i].key != s[j].key
    ensures DistinctKeys(s)
  {
    if s != [] {
      KeysDistinct(s[1..]);
      NotHeld(s[1..], s[0].key);
    }
  }

  lemma {:induction false} NotHeld(s: seq<Entry>, k: Key)
    requires forall i :: 0 <= i < |s| ==> s[i].key != k
    ensures !Holds(s, k)
  {
    if s != [] { NotHeld(s[1..], k); }
  }

  lemma IndexedKeys(nodes: map<Key, Node>, list: seq<Node>, entries: seq<Entry>)
    requires Distinct(list) && Indexes(nodes, list) && Mirrors(list, entries)
    ensures DistinctKeys(entries)
    ensures forall k :: k in nodes <==> Holds(entries, k)
  {
    forall i, j | 0 <= i < j < |entries|
      ensures entries[i].key != entries[j].key
    {
      assert Differ(list, i, j) && Mirror(list, entries, i) && Mirror(list, entries, j);
      assert Indexed(nodes, list, i) && Indexed(nodes, list, j);
    }
    KeysDistinct(entries);
    forall k | k in nodes
      ensures Holds(entries, k)
    {
      assert Reached(nodes, list, k);
      var i :| 0 <= i < |list| && list[i] == nodes[k];
      assert Mirror(list, entries, i);
      HoldsIndex(entries, i);
    }
    forall k | Holds(entries, k)
      ensures k in nodes
    {
      var i := HoldsSomewhere(entries, k);
      assert Mirror(list, entries, i) && Indexed(nodes, list, i);
    }
  }

  lemma SpliceReached(nodes: map<Key, Node>, list: seq<Node>, i: nat, k: Key)
    requires Indexes(nodes, list) && i < |list| && k in nodes && k != list[i].key
    ensures Reached(nodes - {list[i].key}, Splice(list, i), k)
  {
    assert Reached(nodes, list, k);
    var m :| 0 <= m < |list| && list[m] == nodes[k];
    var j := if m < i then m else m - 1;
    SpliceAt(list, i, j);
    assert Splice(list, i)[j] == nodes[k];
  }

  lemma SpliceIndexed(nodes: map<Key, Node>, list: seq<Node>, i: nat, j: nat)
    requires Distinct(list) && Indexes(nodes, list) && i < |list| && j < |list| - 1
    ensures Indexed(nodes - {list[i].key}, Splice(list, i), j)
  {
    OnlyAt(list, i);
    SpliceAt(list, i, j);
    assert Indexed(nodes, list, i) && Indexed(nodes, list, if j < i then j else j + 1);
  }

  lemma IndexesSplice(nodes: map<Key, Node>, list: seq<Node>, i: nat)
    requires Distinct(list) && Indexes(nodes, list) && i < |list|
    ensures Indexes(nodes - {list[i].key}, Splice(list, i))
  {
    var rest, list' := nodes - {list[i].key}, Splice(list, i);
    forall k | k in rest
      ensures Reached(rest, list', k)
    {
      SpliceReached(nodes, list, i, k);
    }
    forall j | 0 <= j < |list'|
      ensures Indexed(rest, list', j)
    {
      SpliceIndexed(nodes, list, i, j);
    }
  }

  lemma IndexesRotate(nodes: map<Key, Node>, list: seq<Node>, i: nat)
    requires Indexes(nodes, list) && i < |list|
    ensures Indexes(nodes, Rotate(list, i))
  {
    forall k | k in nodes
      ensures Reached(nodes, Rotate(list, i), k)
    {
      assert Reached(nodes, list, k);
      var m :| 0 <= m < |list| && list[m] == nodes[k];
      RotateAt(list, i, if m == i then 0 else if m < i then m + 1 else m);
    }
    forall j | 0 <= j < |list|
      ensures Indexed(nodes, Rotate(list, i), j)
    {
      RotateAt(list, i, j);
      assert Indexed(nodes, list, if j == 0 then i else if j <= i then j - 1 else j);
    }
  }

  lemma FreshNodeIndexes(nodes: map<Key, Node>, list: seq<Node>, repr: set<Node>, node: Node)
    requires Indexes(nodes, list) && Within(list, repr) && node !in list && node.key !in nodes
    ensures Indexes(nodes[node.key := node], [node] + list) && Within([node] + list, repr + {node})
  {
    var nodes', list' := nodes[node.key := node], [node] + list;
    forall k | k in nodes'
      ensures Reached(nodes', list', k)
    {
      assert k != node.key ==> Reached(nodes, list, k);
    }
    forall j | 0 <= j < |list'|
      ensures Indexed(nodes', list', j) && Member(list', repr + {node}, j)
    {
      assert j > 0 ==> Indexed(nodes, list, j - 1) && Member(list, repr, j - 1);
    }
  }

  lemma KeysAreListed(nodes: map<Key, Node>, list: seq<Node>)
    requires Indexes(nodes, list)
    ensures nodes.Keys <= set i | 0 <= i < |list| :: list[i].key
  {
    forall k | k in nodes
      ensures exists i :: 0 <= i < |list| && list[i].key == k
    {
      assert Reached(nodes, list, k);
    }
  }

  lemma {:induction false} IndexedSize(nodes: map<Key, Node>, list: seq<Node>)
    requires Distinct(list) && Indexes(nodes, list)
    ensures |nodes| == |list|
    decreases |list|
  {
    KeysAreListed(nodes, list);
    if list == [] {
      assert nodes.Keys == {};
    } else {
      var rest := nodes - {list[0].key};
      assert Indexed(nodes, list, 0);
      SpliceDistinct(list, 0);
      IndexesSplice(nodes, list, 0);
      IndexedSize(rest, Splice(list, 0));
      assert rest.Keys == nodes.Keys - {list[0].key};
      assert |nodes| == |nodes.Keys| && |rest| == |rest.Keys|;
    }
  }

  /** The entries left when a sweep has examined every key outside pending. */
  ghost function FreshBut(s: seq<Entry>, now: int, pending: set<Key>): (r: seq<Entry>)
    ensures |r| <= |s|
    ensures forall j :: Holds(r, j) ==> Holds(s, j)
  {
    if s == [] then []
    else if Expired(s[0].expiresAt, now) && s[0].key !in pending then FreshBut(s[1..], now, pending)
    else [s[0]] + FreshBut(s[1..], now, pending)
  }

  lemma {:induction false} SweepStarts(s: seq<Entry>, now: int, pending: set<Key>)
    requires forall k :: Holds(s, k) ==> k in pending
    ensures FreshBut(s, now, pending) == s
  {
    if s != [] { SweepStarts(s[1..], now, pending); }
  }

  lemma {:induction false} SweepEnds(s: seq<Entry>, now: int)
    ensures FreshBut(s, now, {}) == Fresh(s, now)
  {
    if s != [] { SweepEnds(s[1..], now); }
  }

  lemma {:induction false} SweepKeeps(s: seq<Entry>, now: int, pending: set<Key>, k: Key)
    requires k in pending && Holds(s, k)
    ensures Holds(FreshBut(s, now, pending), k) && Find(FreshBut(s, now, pending), k) == Find(s, k)
  {
    if s[0].key != k { SweepKeeps(s[1..], now, pending, k); }
  }

  lemma {:induction false} SweepOthers(s: seq<Entry>, now: int, pending: set<Key>, k: Key)
    requires !Holds(s, k)
    ensures FreshBut(s, now, pending - {k}) == FreshBut(s, now, pending)
  {
    if s != [] { SweepOthers(s[1..], now, pending, k); }
  }

  /** Examining one more key removes exactly its entry, and only if that has expired. */
  lemma {:induction false} SweepStep(s: seq<Entry>, now: int, pending: set<Key>, k: Key)
    requires DistinctKeys(s) && k in pending && Holds(s, k)
    ensures FreshBut(s, now, pending - {k}) ==
            if Expired(Find(s, k).expiresAt, now) then Without(FreshBut(s, now, pending), k) else FreshBut(s, now, pending)
  {
    var r := FreshBut(s, now, pending);
    if s[0].key == k {
      SweepOthers(s[1..], now, pending, k);
      assert r[1..] == FreshBut(s[1..], now, pending);
    } else {
      SweepStep(s[1..], now, pending, k);
      if !(Expired(s[0].expiresAt, now) && s[0].key !in pending) {
        assert r[1..] == FreshBut(s[1..], now, pending);
      }
    }
  }

  // ---------- The class ----------

  class LruCache {
    const maxSize: int
    const ttlMs: int
    var nodes: map<Key, Node>
    var head: Node?
    var tail: Node?
    var hits: int
    var misses: int
    var evictions: int
    var expirations: int
    ghost var list: seq<Node>
    /** The abstract value: the entries from the most to the least recently used one. */
    ghost var entries: seq<Entry>
    /** Every node ever linked in. */
    ghost var repr: set<Node>

    ghost predicate Linked()
      reads this`nodes, this`head, this`tail, this`list, this`entries, this`repr, list
    {
      Chain(list, head, tail) && Within(list, repr) && Indexes(nodes, list) && Mirrors(list, entries)
    }

    ghost predicate Valid()
      reads this`nodes, this`head, this`tail, this`list, this`entries, this`repr, list
    {
      maxSize > 0 && |list| <= maxSize && Linked()
    }

    constructor (maxSize: int, ttlMs: Option<int>)
      requires maxSize > 0
      ensures Valid() && entries == [] && this.maxSize == maxSize
      ensures this.ttlMs == if ttlMs.Some? then ttlMs.value else 0
      ensures hits == misses == evictions == expirations == 0
    {
      this.maxSize := maxSize;
      this.ttlMs := if ttlMs.Some? then ttlMs.value else 0;
      nodes, head, tail := map[], null, null;
      list, entries, repr := [], [], {};
      hits, misses, evictions, expirations := 0, 0, 0, 0;
    }

    method AddToFront(node: Node)
      requires Chain(list, head, tail) && Within(list, repr) && node !in list
      modifies this`head, this`tail, this`list, node`prev, node`next, repr`prev
      ensures list == [node] + old(list) && Chain(list, head, tail)
    {
      ghost var before := list;
      if list != [] {
        OnlyAt(list, 0);
        assert Member(list, repr, 0);
      }

      node.prev := null;
      node.next := head;
      if head != null { head.prev := node; }
      head := node;
      if tail == null { tail := node; }
      list := [node] + before;
      PushDistinct(node, before);
      forall j | 0 <= j < |list|
        ensures Placed(list, j)
      {
        assert j > 0 ==> old(Placed(list, j - 1));
      }
    }

    method RemoveNode(node: Node, ghost i: nat)
      requires Chain(list, head, tail) && Within(list, repr) && i < |list| && list[i] == node
      modifies this`head, this`tail, this`list, repr`prev, repr`next
      ensures list == Splice(old(list), i) && Chain(list, head, tail) && Within(list, repr)
      ensures node.prev == null && node.next == null && node !in list
    {
      ghost var before := list;
      SpliceWithin(before, repr, i);
      SpliceDistinct(list, i);
      Unlink(node, i);
      list := Splice(before, i);
      if list != [] {
        SpliceAt(before, i, 0);
        SpliceAt(before, i, |list| - 1);
      }
      forall j | 0 <= j < |list|
        ensures Placed(list, j)
      {
        SpliceAt(before, i, j);
        if j > 0 { SpliceAt(before, i, j - 1); }
        if j + 1 < |list| { SpliceAt(before, i, j + 1); }
        assert Bypasses(before, i, if j < i then j else j + 1);
      }
    }

    /** The neighbours are linked to each other, and the node to nothing. */
    method Unlink(node: Node, ghost i: nat)
      requires Chain(list, head, tail) && Within(list, repr) && i < |list| && list[i] == node
      modifies this`head, this`tail, repr`prev, repr`next
      ensures head == At(list, if i == 0 then 1 else 0) && tail == At(list, if i == |list| - 1 then i - 1 else |list| - 1)
      ensures node.prev == null && node.next == null
      ensures forall m {:trigger Bypasses(list, i, m)} :: 0 <= m < |list| && m != i ==> Bypasses(list, i, m)
    {
      OnlyAt(list, i);
      assert Placed(list, i) && Member(list, repr, i);
      if i > 0 {
        OnlyAt(list, i - 1);
        assert Member(list, repr, i - 1);
      }
      if i + 1 < |list| {
        OnlyAt(list, i + 1);
        assert Member(list, repr, i + 1);
      }

      if node.prev != null { node.prev.next := node.next; } else { head := node.next; }
      if node.next != null { node.next.prev := node.prev; } else { tail := node.prev; }
      node.prev := null;
      node.next := null;
      forall m | 0 <= m < |list| && m != i
        ensures Bypasses(list, i, m)
      {
        assert old(Placed(list, m));
      }
    }

    method MoveToFront(node: Node, ghost i: nat)
      requires Linked() && i < |list| && list[i] == node
      modifies this`head, this`tail, this`list, this`entries, repr`prev, repr`next
      ensures Linked() && list == Rotate(old(list), i) && entries == Rotate(old(entries), i)
    {
      IndexesRotate(nodes, list, i);
      ghost var list0, entries0 := list, entries;
      if head == node {
        OnlyAt(list, 0);
        RotateFirst(list);
        RotateFirst(entries);
        return;
      }
      assert Member(list, repr, i);
      RemoveNode(node, i);
      AddToFront(node);
      entries := Rotate(entries, i);
      forall j | 0 <= j < |list|
        ensures Member(list, repr, j) && Mirror(list, entries, j)
      {
        RotateAt(list0, i, j);
        RotateAt(entries0, i, j);
        assert Member(list0, repr, if j == 0 then i else if j <= i then j - 1 else j);
        assert old(Mirror(list, entries, if j == 0 then i else if j <= i then j - 1 else j));
      }
    }

    /** Unlink a node and forget its key. */
    method Drop(node: Node, ghost i: nat)
      requires Linked() && i < |list| && list[i] == node
      modifies this`head, this`tail, this`list, this`entries, this`nodes, repr`prev, repr`next
      ensures Linked() && |list| == |old(list)| - 1
      ensures entries == Splice(old(entries), i)
    {
      ghost var list0, entries0 := list, entries;
      IndexesSplice(nodes, list, i);
      RemoveNode(node, i);
      nodes := nodes - {node.key};
      entries := Splice(entries, i);
      forall j | 0 <= j < |list|
        ensures Mirror(list, entries, j)
      {
        SpliceAt(list0, i, j);
        SpliceAt(entries0, i, j);
        assert old(Mirror(list, entries, if j < i then j else j + 1));
      }
    }

    /** Where the map's node for a key sits in the list. */
    ghost method Locate(key: Key) returns (i: nat)
      requires Linked() && key in nodes
      ensures i < |list| && list[i] == nodes[key] && nodes[key].key == key && nodes[key] in repr
      ensures entries[i] == Entry(key, list[i].value, list[i].expiresAt)
      ensures Holds(entries, key) && Find(entries, key) == entries[i]
      ensures Without(entries, key) == Splice(entries, i)
    {
      IndexedKeys(nodes, list, entries);
      assert Reached(nodes, list, key);
      i :| 0 <= i < |list| && list[i] == nodes[key];
      assert Mirror(list, entries, i) && Member(list, repr, i);
      SpliceIsWithout(entries, i);
    }

    method Get(key: Key, now: int) returns (r: Option<Value>)
      requires Valid()
      modifies this, repr
      ensures Valid() && entries == GetResult(old(entries), key, now)
      ensures r == if Alive(old(entries), key, now) then Some(Find(old(entries), key).value) else None
      ensures hits == old(hits) + if r.Some? then 1 else 0
      ensures misses == old(misses) + if r.Some? then 0 else 1
      ensures expirations == old(expirations) + if Holds(old(entries), key) && !Alive(old(entries), key, now) then 1 else 0
      ensures evictions == old(evictions) && repr == old(repr)
    {
      IndexedKeys(nodes, list, entries);
      if key !in nodes {
        WithoutAbsent(entries, key);
        misses := misses + 1;
        return None;
      }
      var node := nodes[key];
      ghost var i := Locate(key);
      if Expired(node.expiresAt, now) {
        Drop(node, i);
        expirations := expirations + 1;
        misses := misses + 1;
        return None;
      }
      MoveToFront(node, i);
      hits := hits + 1;
      return Some(node.value);
    }

    method Has(key: Key, now: int) returns (r: bool)
      requires Valid()
      modifies this, repr
      ensures Valid() && entries == HasResult(old(entries), key, now)
      ensures r == Alive(old(entries), key, now)
      ensures expirations == old(expirations) + if Holds(old(entries), key) && !r then 1 else 0
      ensures hits == old(hits) && misses == old(misses) && evictions == old(evictions) && repr == old(repr)
    {
      IndexedKeys(nodes, list, entries);
      if key !in nodes {
        WithoutAbsent(entries, key);
        return false;
      }
      var node := nodes[key];
      ghost var i := Locate(key);
      if Expired(node.expiresAt, now) {
        Drop(node, i);
        expirations := expirations + 1;
        return false;
      }
      return true;
    }

    method Delete(key: Key) returns (r: bool)
      requires Valid()
      modifies this, repr
      ensures Valid() && entries == Without(old(entries), key)
      ensures r == Holds(old(entries), key)
      ensures hits == old(hits) && misses == old(misses) && evictions == old(evictions) && expirations == old(expirations)
      ensures repr == old(repr)
    {
      IndexedKeys(nodes, list, entries);
      if key !in nodes {
        WithoutAbsent(entries, key);
        return false;
      }
      ghost var i := Locate(key);
      Drop(nodes[key], i);
      return true;
    }

    method Clear()
      requires Valid()
      modifies this
      ensures Valid() && entries == [] && repr == old(repr)
      ensures hits == old(hits) && misses == old(misses) && evictions == old(evictions) && expirations == old(expirations)
    {
      nodes, head, tail := map[], null, null;
      list, entries := [], [];
    }

    /** Insert or overwrite, evicting the least recently used entry when the cache overflows. */
    method Put(key: Key, value: Value, ttlMs: Option<int>, now: int)
      requires Valid()
      modifies this, repr
      ensures Valid()
      ensures entries == PutResult(old(entries), Entry(key, value, ExpiryFor(ttlMs, this.ttlMs, now)), maxSize)
      ensures evictions == old(evictions) + if !Holds(old(entries), key) && |old(entries)| == maxSize then 1 else 0
      ensures hits == old(hits) && misses == old(misses) && expirations == old(expirations)
      ensures old(repr) <= repr && fresh(repr - old(repr))
    {
      var ttl := if ttlMs.Some? then ttlMs.value else this.ttlMs;
      var expiresAt := if ttl > 0 then now + ttl else 0;
      IndexedKeys(nodes, list, entries);
      if key in nodes {
        Overwrite(key, value, expiresAt);
      } else {
        Insert(key, value, expiresAt);
      }
    }

    method Overwrite(key: Key, value: Value, expiresAt: int)
      requires Linked() && key in nodes
      modifies this`head, this`tail, this`list, this`entries, repr
      ensures Linked() && |list| == |old(list)|
      ensures entries == [Entry(key, value, expiresAt)] + Without(old(entries), key)
    {
      var existing := nodes[key];
      ghost var i := Locate(key);
      OnlyAt(list, i);
      existing.value := value;
      existing.expiresAt := expiresAt;
      ghost var e := Entry(key, value, expiresAt);
      SpliceUpdate(entries, i, e);
      entries := entries[i := e];
      forall j | 0 <= j < |list|
        ensures Mirror(list, entries, j) && Placed(list, j)
      {
        assert old(Mirror(list, entries, j)) && old(Placed(list, j));
      }
      MoveToFront(existing, i);
    }

    method Insert(key: Key, value: Value, expiresAt: int)
      requires Valid() && key !in nodes
      modifies this`nodes, this`head, this`tail, this`list, this`entries, this`repr, this`evictions, repr`prev, repr`next
      ensures Valid()
      ensures entries == PutResult(old(entries), Entry(key, value, expiresAt), maxSize)
      ensures evictions == old(evictions) + if |old(entries)| == maxSize then 1 else 0
      ensures old(repr) <= repr && fresh(repr - old(repr))
    {
      IndexedKeys(nodes, list, entries);
      WithoutAbsent(entries, key);
      LinkIn(key, value, expiresAt);
      IndexedSize(nodes, list);
      if |nodes| > maxSize { Evict(); }
    }

    /** A new node at the front of the list and in the map. */
    method LinkIn(key: Key, value: Value, expiresAt: int)
      requires Linked() && key !in nodes
      modifies this`nodes, this`head, this`tail, this`list, this`entries, this`repr, repr`prev
      ensures Linked() && entries == [Entry(key, value, expiresAt)] + old(entries)
      ensures old(repr) <= repr && fresh(repr - old(repr))
    {
      var node := new Node(key, value, expiresAt);
      FreshNodeIndexes(nodes, list, repr, node);
      nodes := nodes[key := node];
      AddToFront(node);
      repr := repr + {node};
      entries := [Entry(key, value, expiresAt)] + entries;
      forall j | 0 <= j < |list|
        ensures Mirror(list, entries, j)
      {
        assert j > 0 ==> old(Mirror(list, entries, j - 1));
      }
    }

    method Evict()
      requires Linked()
      modifies this`nodes, this`head, this`tail, this`list, this`entries, this`evictions, repr`prev, repr`next
      ensures Linked()
      ensures if old(entries) == [] then entries == [] && evictions == old(evictions)
              else entries == old(entries)[..|old(entries)| - 1] && evictions == old(evictions) + 1
    {
      if tail == null { return; }
      SpliceLast(entries);
      Drop(tail, |list| - 1);
      evictions := evictions + 1;
    }

    /** Drop every expired entry; the order in which the map offers its nodes does not matter. */
    method Prune(now: int) returns (removed: int)
      requires Valid()
      modifies this, repr
      ensures Valid() && entries == Fresh(old(entries), now)
      ensures removed == |old(entries)| - |entries|
      ensures expirations == old(expirations) + removed
      ensures hits == old(hits) && misses == old(misses) && evictions == old(evictions) && repr == old(repr)
    {
      removed := 0;
      var pending := nodes.Keys;
      IndexedKeys(nodes, list, entries);
      SweepStarts(entries, now, pending);
      while pending != {}
        invariant Valid() && repr == old(repr)
        invariant hits == old(hits) && misses == old(misses) && evictions == old(evictions) && expirations == old(expirations)
        invariant forall k :: k in pending ==> Holds(old(entries), k)
        invariant entries == FreshBut(old(entries), now, pending)
        invariant removed == |old(entries)| - |entries|
        decreases pending
      {
        var k :| k in pending;
        removed := PruneOne(k, now, removed, pending, old(entries));
        pending := pending - {k};
      }
      SweepEnds(old(entries), now);
      expirations := expirations + removed;
    }

    method PruneOne(k: Key, now: int, removed: int, ghost pending: set<Key>, ghost s: seq<Entry>) returns (removed': int)
      requires Valid() && DistinctKeys(s)
      requires k in pending && Holds(s, k) && entries == FreshBut(s, now, pending)
      modifies this`nodes, this`head, this`tail, this`list, this`entries, repr`prev, repr`next
      ensures Valid() && entries == FreshBut(s, now, pending - {k})
      ensures removed' == removed + |old(entries)| - |entries|
    {
      SweepKeeps(s, now, pending, k);
      SweepStep(s, now, pending, k);
      IndexedKeys(nodes, list, entries);
      ghost var i := Locate(k);
      removed' := removed;
      if Expired(nodes[k].expiresAt, now) {
        Drop(nodes[k], i);
        removed' := removed' + 1;
      }
    }

    /** The keys from the most to the least recently used one. */
    method Keys() returns (out: seq<Key>)
      requires Valid()
      ensures |out| == |entries| && forall i :: 0 <= i < |out| ==> out[i] == entries[i].key
    {
      out := [];
      var n := head;
      while n != null
        invariant |out| <= |list| && n == At(list, |out|)
        invariant forall i :: 0 <= i < |out| ==> out[i] == entries[i].key
        decreases |list| - |out|
      {
        assert Placed(list, |out|) && Mirror(list, entries, |out|);
        out := out + [n.key];
        n := n.next;
      }
    }
  }
}
