/** packages/algorithms/src/trie.ts: prefix completion with the best completions cached at every node. */
module Tries {
  import opened Basics
  import opened BestLists

  type Char(==, !new)

  type Key = seq<Char>

  /** The node reached by a prefix. */
  datatype Node = Node(terminal: Option<Entry>, best: seq<Entry>)

  /** The term under each key. */
  type Entries = map<Key, Entry>

  // ---------- What the nodes are for ----------

  ghost predicate Needed(entries: Entries, p: Key) {
    p == [] || exists k {:trigger k in entries} :: k in entries && p <= k
  }

  /** The entries whose keys start with the prefix. */
  ghost function Below(entries: Entries, p: Key): set<Entry> {
    set k | k in entries && p <= k :: entries[k]
  }

  /** A term determines its key. */
  ghost predicate Keyed(entries: Entries, keyOf: Term -> Key) {
    forall k {:trigger entries[k]} :: k in entries ==> keyOf(entries[k].term) == k
  }

  ghost predicate NodeAt(nodes: map<Key, Node>, entries: Entries, cap: int, p: Key) {
    && (p in nodes <==> Needed(entries, p))
    && (p in nodes ==>
          && Sorted(nodes[p].best) && |nodes[p].best| <= Max(0, cap)
          && nodes[p].terminal == if p in entries then Some(entries[p]) else None)
  }

  /** There is a node for every prefix of a key and no other, and every list is sorted and within its cap. */
  ghost predicate NodesMirror(nodes: map<Key, Node>, entries: Entries, cap: int) {
    forall p {:trigger NodeAt(nodes, entries, cap, p)} :: NodeAt(nodes, entries, cap, p)
  }

  /** The cached list of the prefix is the true best below it. */
  ghost predicate TrueAt(nodes: map<Key, Node>, entries: Entries, cap: int, p: Key) {
    p in nodes ==> Top(nodes[p].best, Below(entries, p), cap)
  }

  ghost predicate AllTrue(nodes: map<Key, Node>, entries: Entries, cap: int) {
    forall p {:trigger TrueAt(nodes, entries, cap, p)} :: TrueAt(nodes, entries, cap, p)
  }

  // ---------- Inserting an entry ----------

  /** The node at a prefix once an entry has been inserted under a key. */
  ghost function NodeAfter(nodes: map<Key, Node>, key: Key, e: Entry, cap: int, p: Key): Option<Node> {
    var before := if p in nodes then nodes[p] else Node(None, []);
    if p <= key then Some(Node(if p == key then Some(e) else before.terminal, Merge(before.best, e, cap)))
    else if p in nodes then Some(before) else None
  }

  ghost predicate InsertedAt(nodes: map<Key, Node>, after: map<Key, Node>, key: Key, e: Entry, cap: int, p: Key) {
    (if p in after then Some(after[p]) else None) == NodeAfter(nodes, key, e, cap, p)
  }

  ghost predicate Inserted(nodes: map<Key, Node>, after: map<Key, Node>, key: Key, e: Entry, cap: int) {
    forall p {:trigger InsertedAt(nodes, after, key, e, cap, p)} :: InsertedAt(nodes, after, key, e, cap, p)
  }

  lemma NeededAfter(entries: Entries, key: Key, e: Entry, p: Key)
    ensures Needed(entries[key := e], p) <==> Needed(entries, p) || p <= key
  {
    var after := entries[key := e];
    assert key in after;
    if p != [] && Needed(entries, p) {
      var k :| k in entries && p <= k;
      assert k in after;
    }
  }

  lemma InsertKeepsNodes(nodes: map<Key, Node>, after: map<Key, Node>, entries: Entries, key: Key, e: Entry, cap: int)
    requires NodesMirror(nodes, entries, cap) && Inserted(nodes, after, key, e, cap)
    ensures NodesMirror(after, entries[key := e], cap)
  {
    var entries' := entries[key := e];
    forall p
      ensures NodeAt(after, entries', cap, p)
    {
      assert NodeAt(nodes, entries, cap, p) && InsertedAt(nodes, after, key, e, cap, p);
      NeededAfter(entries, key, e, p);
      if p in entries { assert Needed(entries, p); }
      if p <= key { MergeParts(if p in nodes then nodes[p].best else [], e, cap); }
    }
  }

  lemma BelowIsUnique(entries: Entries, keyOf: Term -> Key, p: Key)
    requires Keyed(entries, keyOf)
    ensures UniqueTerms(Below(entries, p))
  {
  }

  /** The key is there already, spelt differently. */
  ghost predicate Respelt(entries: Entries, key: Key, e: Entry) {
    key in entries && entries[key].term != e.term
  }

  lemma BelowAfter(entries: Entries, keyOf: Term -> Key, key: Key, e: Entry, p: Key)
    requires Keyed(entries, keyOf) && keyOf(e.term) == key && !Respelt(entries, key, e)
    ensures Below(entries[key := e], p) == if p <= key then Updated(Below(entries, p), e) else Below(entries, p)
  {
    var after := entries[key := e];
    forall x
      ensures x in Below(after, p) <==> (p <= key && x == e) || (x in Below(entries, p) && x.term != e.term)
    {
      if x in Below(after, p) {
        var k :| k in after && p <= k && after[k] == x;
        if k != key { assert entries[k] == x; }
      }
      if x in Below(entries, p) && x.term != e.term {
        var k :| k in entries && p <= k && entries[k] == x;
        assert after[k] == x;
      }
      if p <= key && x == e { assert after[key] == x; }
    }
    if !(p <= key) {
      forall x | x in Below(entries, p) ensures x.term != e.term {
        var k :| k in entries && p <= k && entries[k] == x;
      }
    }
  }

  lemma BelowRespelt(entries: Entries, keyOf: Term -> Key, key: Key, e: Entry, p: Key)
    requires Keyed(entries, keyOf) && keyOf(e.term) == key && Respelt(entries, key, e)
    ensures p <= key ==> entries[key] in Below(entries, p) && NewTerm(Below(entries, p), e)
    ensures Below(entries[key := e], p) == if p <= key then Below(entries, p) - {entries[key]} + {e} else Below(entries, p)
  {
    var after, former := entries[key := e], entries[key];
    assert keyOf(former.term) == key;
    if p <= key { assert former in Below(entries, p) && after[key] in Below(after, p); }
    forall x | x in Below(after, p) && !(p <= key && x == e)
      ensures x in Below(entries, p) && (p <= key ==> x != former)
    {
      var k :| k in after && p <= k && after[k] == x;
      assert entries[k] == x;
    }
    forall x | x in Below(entries, p) && (p <= key ==> x != former)
      ensures x in Below(after, p)
    {
      var k :| k in entries && p <= k && entries[k] == x;
      assert after[k] == x;
    }
  }

  /**
   * The insertion spoils the cached list of a prefix of the key: a former
   * spelling stays listed, or a lowered entry stays before a better one.
   */
  ghost predicate Disturbs(nodes: map<Key, Node>, entries: Entries, key: Key, e: Entry, cap: int, p: Key) {
    p in nodes &&
    if Respelt(entries, key, e) then Outlives(nodes[p].best, entries[key], e, cap)
    else WithTerm(nodes[p].best, e.term) != {} && Overtaken(Members(nodes[p].best), Below(entries, p), e)
  }

  /**
   * After any insertion the cached list of a prefix is again the true best
   * below it, except exactly in two cases.  Under its old spelling the key is
   * listed there, and it is not the last of a full list with a lower score.
   * Or the entry replaces a listed one and an entry left out scores more.
   */
  lemma InsertIsExact(nodes: map<Key, Node>, after: map<Key, Node>, entries: Entries, keyOf: Term -> Key, key: Key, e: Entry, cap: int, p: Key)
    requires NodesMirror(nodes, entries, cap) && Inserted(nodes, after, key, e, cap) && TrueAt(nodes, entries, cap, p)
    requires Keyed(entries, keyOf) && keyOf(e.term) == key
    ensures TrueAt(after, entries[key := e], cap, p) <==> !(p <= key && Disturbs(nodes, entries, key, e, cap, p))
  {
    assert InsertedAt(nodes, after, key, e, cap, p) && NodeAt(nodes, entries, cap, p);
    BelowIsUnique(entries, keyOf, p);
    if Respelt(entries, key, e) {
      BelowRespelt(entries, keyOf, key, e, p);
      if p <= key {
        assert Needed(entries, p);
        MergeSuperseding(nodes[p].best, Below(entries, p), e, cap, entries[key]);
      }
    } else {
      BelowAfter(entries, keyOf, key, e, p);
      if p <= key {
        if p !in nodes { NothingBelow(entries, p); }
        MergeIsExact(if p in nodes then nodes[p].best else [], Below(entries, p), e, cap);
      }
    }
  }

  lemma NothingBelow(entries: Entries, p: Key)
    requires !Needed(entries, p)
    ensures Below(entries, p) == {}
  {
    assert forall k {:trigger k in entries} :: k in entries ==> !(p <= k);
  }

  /** The score under the key does not fall. */
  ghost predicate Rises(entries: Entries, key: Key, e: Entry) {
    key in entries ==> entries[key].score <= e.score
  }

  lemma RisingInsertKeepsTrue(nodes: map<Key, Node>, after: map<Key, Node>, entries: Entries, keyOf: Term -> Key, key: Key, e: Entry, cap: int)
    requires NodesMirror(nodes, entries, cap) && Inserted(nodes, after, key, e, cap) && AllTrue(nodes, entries, cap)
    requires Keyed(entries, keyOf) && keyOf(e.term) == key && !Respelt(entries, key, e) && Rises(entries, key, e)
    ensures AllTrue(after, entries[key := e], cap)
  {
    var entries' := entries[key := e];
    forall p
      ensures TrueAt(after, entries', cap, p)
    {
      InsertIsExact(nodes, after, entries, keyOf, key, e, cap, p);
      assert NodeAt(nodes, entries, cap, p) && TrueAt(nodes, entries, cap, p);
      if p <= key && p in nodes { RisingDoesNotDisturb(nodes[p].best, entries, keyOf, key, e, cap, p); }
    }
  }

  lemma RisingDoesNotDisturb(best: seq<Entry>, entries: Entries, keyOf: Term -> Key, key: Key, e: Entry, cap: int, p: Key)
    requires Top(best, Below(entries, p), cap) && Keyed(entries, keyOf) && keyOf(e.term) == key && Rises(entries, key, e)
    ensures !(WithTerm(best, e.term) != {} && Overtaken(Members(best), Below(entries, p), e))
  {
    if o :| o in WithTerm(best, e.term) {
      assert o in Members(best) && o in Below(entries, p);
      var k :| k in entries && p <= k && entries[k] == o;
      forall d | d in Below(entries, p) && d !in Members(best) ensures d.score <= e.score { assert Dominates(Members(best), d); }
    }
  }

  // ---------- Suggestions ----------

  /** Array.prototype.slice(0, limit). */
  function Slice<T>(s: seq<T>, limit: int): seq<T> {
    if limit >= |s| then s
    else if limit >= 0 then s[..limit]
    else if |s| + limit >= 0 then s[..|s| + limit] else []
  }

  /** A shorter list of the best is the head of a longer one. */
  lemma HeadOfTop(best: seq<Entry>, s: set<Entry>, cap: int, limit: nat)
    requires Top(best, s, cap)
    ensures Top(Slice(best, limit), s, Min(cap, limit))
  {
    var head := Slice(best, limit);
    forall i, j | 0 <= i < j < |head| ensures InOrder(head, i, j) { assert InOrder(best, i, j); }
    forall x | x in Members(head) ensures x in s { assert x in Members(best); }
    forall d | d in s && d !in Members(head)
      ensures Dominates(Members(head), d)
    {
      forall x | x in Members(head) ensures d.score <= x.score {
        var i :| 0 <= i < |head| && head[i] == x;
        if d in best {
          var j :| 0 <= j < |best| && best[j] == d;
          forall m | 0 <= m < |head| ensures best[m] != d { assert head[m] in Members(head); }
          assert InOrder(best, i, j);
        } else {
          assert Dominates(Members(best), d) && best[i] in Members(best);
        }
      }
    }
  }

  // ---------- The class ----------

  class Trie {
    const cap: int
    const keyOf: Term -> Key
    var nodes: map<Key, Node>
    var count: int
    ghost var entries: Entries

    ghost predicate Valid()
      reads this
    {
      NodesMirror(nodes, entries, cap) && Keyed(entries, keyOf) && count == |entries| && [] !in entries
    }

    constructor (cap: int, keyOf: Term -> Key)
      ensures Valid() && entries == map[] && AllTrue(nodes, entries, cap) && this.cap == cap && this.keyOf == keyOf
    {
      this.cap, this.keyOf := cap, keyOf;
      nodes, count, entries := map[[] := Node(None, [])], 0, map[];
      new;
      forall p ensures NodeAt(nodes, entries, cap, p) && TrueAt(nodes, entries, cap, p) {}
    }

    /** An empty key is ignored. */
    method Insert(e: Entry)
      requires Valid()
      modifies this
      ensures Valid()
      ensures keyOf(e.term) == [] ==> entries == old(entries) && nodes == old(nodes)
      ensures keyOf(e.term) != [] ==> entries == old(entries)[keyOf(e.term) := e] && Inserted(old(nodes), nodes, keyOf(e.term), e, cap)
      ensures old(AllTrue(nodes, entries, cap)) && !Respelt(old(entries), keyOf(e.term), e) && Rises(old(entries), keyOf(e.term), e)
              ==> AllTrue(nodes, entries, cap)
    {
      var key := keyOf(e.term);
      if |key| == 0 { return; }
      ghost var before := nodes;
      assert NodeAt(nodes, entries, cap, key) && NodeAt(nodes, entries, cap, []);
      var isNew := key !in nodes || nodes[key].terminal.None?;
      var grown := InsertPath(nodes, key, e, cap);
      InsertKeepsNodes(nodes, grown, entries, key, e, cap);
      if AllTrue(nodes, entries, cap) && !Respelt(entries, key, e) && Rises(entries, key, e) {
        RisingInsertKeepsTrue(nodes, grown, entries, keyOf, key, e, cap);
      }
      if key in entries { assert Needed(entries, key); }
      if isNew { count := count + 1; }
      nodes := grown;
      entries := entries[key := e];
    }

    method Suggest(prefix: Key, limit: int) returns (r: seq<Entry>)
      requires Valid()
      ensures AllTrue(nodes, entries, cap) && limit >= 0 ==> Top(r, Below(entries, prefix), Min(cap, limit))
      ensures r == Slice(if prefix in nodes then nodes[prefix].best else [], limit)
    {
      assert NodeAt(nodes, entries, cap, prefix);
      r := Slice(if prefix in nodes then nodes[prefix].best else [], limit);
      if AllTrue(nodes, entries, cap) && limit >= 0 {
        assert TrueAt(nodes, entries, cap, prefix);
        if prefix in nodes {
          HeadOfTop(nodes[prefix].best, Below(entries, prefix), cap, limit);
        } else {
          NothingBelow(entries, prefix);
        }
      }
    }

    method Lookup(key: Key) returns (r: Option<Entry>)
      requires Valid()
      ensures r == if key in entries then Some(entries[key]) else None
    {
      assert NodeAt(nodes, entries, cap, key);
      if key in entries { assert Needed(entries, key); }
      r := if key in nodes then nodes[key].terminal else None;
    }
  }

  // ---------- The two loops along the path ----------

  /** The first n prefixes of the key have nodes. */
  ghost predicate GrownAt(nodes: map<Key, Node>, grown: map<Key, Node>, key: Key, n: nat, p: Key) {
    (if p in grown then Some(grown[p]) else None)
    == if p in nodes then Some(nodes[p]) else if p <= key && |p| <= n then Some(Node(None, [])) else None
  }

  ghost predicate MergedAt(grown: map<Key, Node>, after: map<Key, Node>, key: Key, e: Entry, cap: int, n: nat, p: Key) {
    && (p in after <==> p in grown)
    && (p in after ==> after[p] == if p <= key && |p| < n then grown[p].(best := Merge(grown[p].best, e, cap)) else grown[p])
  }

  method InsertPath(nodes: map<Key, Node>, key: Key, e: Entry, cap: int) returns (after: map<Key, Node>)
    requires [] in nodes
    ensures Inserted(nodes, after, key, e, cap)
  {
    var grown := Grow(nodes, key);
    ghost var full := grown;
    assert GrownAt(nodes, full, key, |key|, key);
    grown := grown[key := grown[key].(terminal := Some(e))];
    forall p | p <= key ensures p in grown { assert GrownAt(nodes, full, key, |key|, p); }
    after := MergePath(grown, key, e, cap);
    forall p
      ensures InsertedAt(nodes, after, key, e, cap, p)
    {
      assert GrownAt(nodes, full, key, |key|, p) && MergedAt(grown, after, key, e, cap, |key| + 1, p);
    }
  }

  method Grow(nodes: map<Key, Node>, key: Key) returns (grown: map<Key, Node>)
    requires [] in nodes
    ensures forall p {:trigger GrownAt(nodes, grown, key, |key|, p)} :: GrownAt(nodes, grown, key, |key|, p)
  {
    grown := nodes;
    for n := 0 to |key|
      invariant forall p {:trigger GrownAt(nodes, grown, key, n, p)} :: GrownAt(nodes, grown, key, n, p)
    {
      ghost var before, m := grown, n + 1;
      var next := key[..n + 1];
      if next !in grown { grown := grown[next := Node(None, [])]; }
      forall p
        ensures GrownAt(nodes, grown, key, m, p)
      {
        assert GrownAt(nodes, before, key, n, p) && GrownAt(nodes, before, key, n, next);
        if p <= key && |p| == n + 1 { assert p == next; }
      }
    }
  }

  method MergePath(grown: map<Key, Node>, key: Key, e: Entry, cap: int) returns (after: map<Key, Node>)
    requires forall p {:trigger p in grown} :: p <= key ==> p in grown
    ensures forall p {:trigger MergedAt(grown, after, key, e, cap, |key| + 1, p)} :: MergedAt(grown, after, key, e, cap, |key| + 1, p)
  {
    after := grown;
    for n := 0 to |key| + 1
      invariant forall p {:trigger MergedAt(grown, after, key, e, cap, n, p)} :: MergedAt(grown, after, key, e, cap, n, p)
    {
      ghost var before, m := after, n + 1;
      var visited := key[..n];
      assert visited in grown && MergedAt(grown, before, key, e, cap, n, visited);
      after := after[visited := after[visited].(best := Merge(after[visited].best, e, cap))];
      forall p
        ensures MergedAt(grown, after, key, e, cap, m, p)
      {
        assert MergedAt(grown, before, key, e, cap, n, p);
        if p <= key && |p| == n { assert p == visited; }
      }
    }
  }
}
