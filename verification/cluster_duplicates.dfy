/** packages/algorithms/src/union-find.ts: duplicate clusters from blocked pairwise comparison. */
module DuplicateClustering {
  import opened Closure
  import opened InsertionOrder
  import opened UnionFinds

  /** The three functions a caller supplies to describe its records. */
  datatype Matcher<!T> = Matcher(identify: T -> Id, blockingKey: T -> Id, isSimilar: (T, T) -> bool)

  function Identities<T>(items: seq<T>, rules: Matcher<T>): (ids: seq<Id>)
    ensures |ids| == |items| && forall i :: 0 <= i < |items| ==> ids[i] == rules.identify(items[i])
  {
    seq(|items|, i requires 0 <= i < |items| => rules.identify(items[i]))
  }

  ghost function LinkOf<T>(first: T, second: T, rules: Matcher<T>): Link {
    (rules.identify(first), rules.identify(second))
  }

  /** The records at positions i < j share a block and are similar. */
  ghost predicate Candidate<T>(items: seq<T>, rules: Matcher<T>, i: int, j: int) {
    && 0 <= i < j < |items|
    && rules.blockingKey(items[i]) == rules.blockingKey(items[j])
    && rules.isSimilar(items[i], items[j])
  }

  /** Every pair of the records, in list order, that share a block and are similar. */
  ghost function SimilarPairs<T>(items: seq<T>, rules: Matcher<T>): set<Link> {
    set i, j | 0 <= i < j < |items| && Candidate(items, rules, i, j) :: LinkOf(items[i], items[j], rules)
  }

  /** at[key] lists, in increasing order, the positions of the first n records whose blocking key is key. */
  ghost predicate Blocked<T>(items: seq<T>, rules: Matcher<T>, n: nat, blocks: map<Id, seq<T>>, at: map<Id, seq<nat>>)
    requires n <= |items|
  {
    && at.Keys == blocks.Keys
    && (forall key {:trigger at[key]} :: key in at ==> BlockAt(items, rules, n, key, blocks[key], at[key]))
    && (forall i {:trigger rules.blockingKey(items[i])} :: 0 <= i < n ==>
          rules.blockingKey(items[i]) in at && i in at[rules.blockingKey(items[i])])
  }

  ghost predicate BlockAt<T>(items: seq<T>, rules: Matcher<T>, n: nat, key: Id, block: seq<T>, at: seq<nat>)
    requires n <= |items|
  {
    && |at| == |block|
    && (forall k {:trigger at[k]} :: 0 <= k < |at| ==> at[k] < n && items[at[k]] == block[k] && rules.blockingKey(block[k]) == key)
    && (forall k, m :: 0 <= k < m < |at| ==> at[k] < at[m])
  }

  /** Push a record onto the bucket of its key, opening the bucket when it is the first. */
  method AddToBlock<T>(items: seq<T>, rules: Matcher<T>, n: nat, keys: seq<Id>, blocks: map<Id, seq<T>>, ghost at: map<Id, seq<nat>>)
    returns (keys': seq<Id>, blocks': map<Id, seq<T>>, ghost at': map<Id, seq<nat>>)
    requires n < |items| && Blocked(items, rules, n, blocks, at) && Lists(keys, blocks.Keys)
    ensures Blocked(items, rules, n + 1, blocks', at') && Lists(keys', blocks'.Keys)
  {
    var item := items[n];
    var key := rules.blockingKey(item);
    if key in blocks {
      BlockGrows(items, rules, n, blocks, at, key, blocks[key], at[key]);
      KeyGrows(keys, blocks, key, blocks[key] + [item]);
      keys', blocks', at' := keys, blocks[key := blocks[key] + [item]], at[key := at[key] + [n]];
    } else {
      BlockGrows(items, rules, n, blocks, at, key, [], []);
      KeyGrows(keys, blocks, key, [] + [item]);
      keys', blocks', at' := keys + [key], blocks[key := [] + [item]], at[key := [] + [n]];
    }
  }

  method BuildBlocks<T>(items: seq<T>, rules: Matcher<T>) returns (keys: seq<Id>, blocks: map<Id, seq<T>>, ghost at: map<Id, seq<nat>>)
    ensures Blocked(items, rules, |items|, blocks, at) && Lists(keys, blocks.Keys)
  {
    keys, blocks, at := [], map[], map[];
    for n := 0 to |items|
      invariant Blocked(items, rules, n, blocks, at) && Lists(keys, blocks.Keys)
    {
      keys, blocks, at := AddToBlock(items, rules, n, keys, blocks, at);
    }
  }

  lemma KeyGrows<V>(keys: seq<Id>, values: map<Id, V>, key: Id, value: V)
    requires Lists(keys, values.Keys)
    ensures Lists(if key in values then keys else keys + [key], values[key := value].Keys)
  {
    assert values[key := value].Keys == values.Keys + {key};
    if key in values {
      assert values.Keys + {key} == values.Keys;
    } else {
      ListsAppend(keys, values.Keys, key);
    }
  }

  lemma BlockAtPush<T>(items: seq<T>, rules: Matcher<T>, n: nat, key: Id, bucket: seq<T>, places: seq<nat>)
    requires n < |items| && key == rules.blockingKey(items[n]) && BlockAt(items, rules, n, key, bucket, places)
    ensures BlockAt(items, rules, n + 1, key, bucket + [items[n]], places + [n])
  {
    var bucket', at := bucket + [items[n]], places + [n];
    forall k | 0 <= k < |at|
      ensures at[k] < n + 1 && items[at[k]] == bucket'[k] && rules.blockingKey(bucket'[k]) == key
    {
      if k < |places| { assert at[k] == places[k] && bucket'[k] == bucket[k]; }
    }
  }

  lemma BlockGrows<T>(items: seq<T>, rules: Matcher<T>, n: nat, blocks: map<Id, seq<T>>, at: map<Id, seq<nat>>, key: Id, bucket: seq<T>, places: seq<nat>)
    requires n < |items| && Blocked(items, rules, n, blocks, at) && key == rules.blockingKey(items[n])
    requires if key in at then bucket == blocks[key] && places == at[key] else bucket == [] && places == []
    ensures Blocked(items, rules, n + 1, blocks[key := bucket + [items[n]]], at[key := places + [n]])
  {
    var blocks', at' := blocks[key := bucket + [items[n]]], at[key := places + [n]];
    assert BlockAt(items, rules, n, key, bucket, places);
    BlockAtPush(items, rules, n, key, bucket, places);
    forall k | k in at'
      ensures BlockAt(items, rules, n + 1, k, blocks'[k], at'[k])
    {
      if k != key {
        assert BlockAt(items, rules, n, k, blocks[k], at[k]);
      }
    }
    forall i | 0 <= i < n + 1
      ensures rules.blockingKey(items[i]) in at' && i in at'[rules.blockingKey(items[i])]
    {
      if i < n {
        assert i in at[rules.blockingKey(items[i])];
      } else {
        assert at'[key][|places|] == n;
      }
    }
  }

  /** The similar pairs of the records whose block is among the finished ones. */
  ghost function PairsWithin<T>(items: seq<T>, rules: Matcher<T>, done: set<Id>): set<Link> {
    set i, j | 0 <= i < j < |items| && Candidate(items, rules, i, j) && rules.blockingKey(items[i]) in done ::
      LinkOf(items[i], items[j], rules)
  }

  ghost predicate Match<T>(bucket: seq<T>, rules: Matcher<T>, i: int, j: int) {
    0 <= i < j < |bucket| && rules.isSimilar(bucket[i], bucket[j])
  }

  /** The similar pairs of one bucket whose first member is among the first n. */
  ghost function BucketPairs<T>(bucket: seq<T>, rules: Matcher<T>, n: nat): set<Link>
    requires n <= |bucket|
  {
    set i, j | 0 <= i < n && i < j < |bucket| && Match(bucket, rules, i, j) :: LinkOf(bucket[i], bucket[j], rules)
  }

  /** The similar pairs of one bucket that start at position i and end before position m. */
  ghost function RowPairs<T>(bucket: seq<T>, rules: Matcher<T>, i: nat, m: nat): set<Link>
    requires i < m <= |bucket|
  {
    set j | i < j < m && Match(bucket, rules, i, j) :: LinkOf(bucket[i], bucket[j], rules)
  }

  lemma RowStep<T>(bucket: seq<T>, rules: Matcher<T>, i: nat, m: nat)
    requires i < m < |bucket|
    ensures RowPairs(bucket, rules, i, m + 1) == RowPairs(bucket, rules, i, m) +
            if rules.isSimilar(bucket[i], bucket[m]) then {LinkOf(bucket[i], bucket[m], rules)} else {}
  {
    assert Match(bucket, rules, i, m) <==> rules.isSimilar(bucket[i], bucket[m]);
  }

  lemma BucketStep<T>(bucket: seq<T>, rules: Matcher<T>, n: nat)
    requires n < |bucket|
    ensures BucketPairs(bucket, rules, n + 1) == BucketPairs(bucket, rules, n) + RowPairs(bucket, rules, n, |bucket|)
  {
    var before, row := BucketPairs(bucket, rules, n), RowPairs(bucket, rules, n, |bucket|);
    forall e | e in BucketPairs(bucket, rules, n + 1)
      ensures e in before + row
    {
      var i, j :| 0 <= i < n + 1 && i < j < |bucket| && Match(bucket, rules, i, j) && e == LinkOf(bucket[i], bucket[j], rules);
      if i < n { assert e in before; } else { assert e in row; }
    }
  }

  /** A bucket compares exactly the pairs of records that share its key. */
  lemma BlockStep<T>(items: seq<T>, rules: Matcher<T>, blocks: map<Id, seq<T>>, at: map<Id, seq<nat>>, key: Id, done: set<Id>)
    requires Blocked(items, rules, |items|, blocks, at) && key in blocks
    ensures PairsWithin(items, rules, done + {key}) ==
            PairsWithin(items, rules, done) + BucketPairs(blocks[key], rules, |blocks[key]|)
  {
    var bucket, places := blocks[key], at[key];
    var before, row, after := PairsWithin(items, rules, done), BucketPairs(bucket, rules, |bucket|), PairsWithin(items, rules, done + {key});
    assert BlockAt(items, rules, |items|, key, bucket, places);
    forall e | e in after
      ensures e in before + row
    {
      var i, j :| 0 <= i < j < |items| && Candidate(items, rules, i, j) && rules.blockingKey(items[i]) in done + {key}
                  && e == LinkOf(items[i], items[j], rules);
      if rules.blockingKey(items[i]) == key {
        assert i in places && j in places;
        PairInBucket(items, rules, key, bucket, places, i, j);
      } else {
        assert e in before;
      }
    }
    forall e | e in row
      ensures e in after
    {
      var a, b :| 0 <= a < |bucket| && a < b < |bucket| && Match(bucket, rules, a, b) && e == LinkOf(bucket[a], bucket[b], rules);
      assert Candidate(items, rules, places[a], places[b]);
    }
  }

  lemma PairInBucket<T>(items: seq<T>, rules: Matcher<T>, key: Id, bucket: seq<T>, places: seq<nat>, i: nat, j: nat)
    requires BlockAt(items, rules, |items|, key, bucket, places)
    requires Candidate(items, rules, i, j) && i in places && j in places
    ensures LinkOf(items[i], items[j], rules) in BucketPairs(bucket, rules, |bucket|)
  {
    var a :| 0 <= a < |places| && places[a] == i;
    var b :| 0 <= b < |places| && places[b] == j;
    OrderedPositions(places, a, b);
    assert Match(bucket, rules, a, b);
  }

  lemma OrderedPositions(at: seq<nat>, a: nat, b: nat)
    requires forall k, m :: 0 <= k < m < |at| ==> at[k] < at[m]
    requires a < |at| && b < |at| && at[a] < at[b]
    ensures a < b
  {
  }

  // ---------- The driver ----------

  ghost predicate Tracks<T>(dsu: UnionFind, items: seq<T>, rules: Matcher<T>)
    reads dsu
  {
    forall k {:trigger rules.identify(items[k])} :: 0 <= k < |items| ==> rules.identify(items[k]) in dsu.parent
  }

  method CompareRow<T>(dsu: UnionFind, bucket: seq<T>, rules: Matcher<T>, i: nat)
    requires dsu.Valid() && Tracks(dsu, bucket, rules) && i < |bucket|
    modifies dsu
    ensures dsu.Valid() && dsu.parent.Keys == old(dsu.parent.Keys)
    ensures dsu.links == old(dsu.links) + RowPairs(bucket, rules, i, |bucket|)
  {
    for j := i + 1 to |bucket|
      invariant dsu.Valid() && dsu.parent.Keys == old(dsu.parent.Keys)
      invariant dsu.links == old(dsu.links) + RowPairs(bucket, rules, i, j)
    {
      RowStep(bucket, rules, i, j);
      if rules.isSimilar(bucket[i], bucket[j]) {
        var a, b := rules.identify(bucket[i]), rules.identify(bucket[j]);
        assert dsu.parent.Keys + {a} + {b} == dsu.parent.Keys;
        var _ := dsu.Union(a, b);
      }
    }
  }

  method CompareBucket<T>(dsu: UnionFind, bucket: seq<T>, rules: Matcher<T>)
    requires dsu.Valid() && Tracks(dsu, bucket, rules)
    modifies dsu
    ensures dsu.Valid() && dsu.parent.Keys == old(dsu.parent.Keys)
    ensures dsu.links == old(dsu.links) + BucketPairs(bucket, rules, |bucket|)
  {
    for i := 0 to |bucket|
      invariant dsu.Valid() && dsu.parent.Keys == old(dsu.parent.Keys)
      invariant dsu.links == old(dsu.links) + BucketPairs(bucket, rules, i)
    {
      CompareRow(dsu, bucket, rules, i);
      BucketStep(bucket, rules, i);
    }
  }

  /** Exactly the components of size above one of the within-block similarity graph. */
  method ClusterDuplicates<T>(items: seq<T>, rules: Matcher<T>) returns (clusters: seq<seq<Id>>)
    ensures NonTrivialClasses(clusters, Elements(Identities(items, rules)), SimilarPairs(items, rules))
  {
    var dsu := new UnionFind(Identities(items, rules));

    var keys, blocks, at := BuildBlocks(items, rules);
    ghost var done := {};
    var k := 0;
    while k < |keys|
      invariant 0 <= k <= |keys| && Lists(keys[..k], done) && done <= blocks.Keys
      invariant dsu.Valid() && fresh(dsu) && dsu.parent.Keys == Elements(Identities(items, rules))
      invariant dsu.links == PairsWithin(items, rules, done)
    {
      ListsNext(keys, blocks.Keys, k, done);
      BlockMembers(items, rules, blocks, at, keys[k]);
      BlockStep(items, rules, blocks, at, keys[k], done);
      CompareBucket(dsu, blocks[keys[k]], rules);
      done := done + {keys[k]};
      k := k + 1;
    }
    assert keys[..k] == keys;
    ListsUnique(keys, done, blocks.Keys);
    AllPairsFound(items, rules, blocks, at);
    clusters := dsu.DuplicateClusters();
  }

  lemma BlockMembers<T>(items: seq<T>, rules: Matcher<T>, blocks: map<Id, seq<T>>, at: map<Id, seq<nat>>, key: Id)
    requires Blocked(items, rules, |items|, blocks, at) && key in blocks
    ensures forall k {:trigger rules.identify(blocks[key][k])} :: 0 <= k < |blocks[key]| ==> rules.identify(blocks[key][k]) in Elements(Identities(items, rules))
  {
    assert BlockAt(items, rules, |items|, key, blocks[key], at[key]);
    forall k | 0 <= k < |blocks[key]|
      ensures rules.identify(blocks[key][k]) in Elements(Identities(items, rules))
    {
      assert Identities(items, rules)[at[key][k]] == rules.identify(blocks[key][k]);
    }
  }

  lemma AllPairsFound<T>(items: seq<T>, rules: Matcher<T>, blocks: map<Id, seq<T>>, at: map<Id, seq<nat>>)
    requires Blocked(items, rules, |items|, blocks, at)
    ensures PairsWithin(items, rules, blocks.Keys) == SimilarPairs(items, rules)
  {
    assert forall i :: 0 <= i < |items| ==> rules.blockingKey(items[i]) in blocks.Keys;
  }
}
