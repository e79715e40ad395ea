/** packages/algorithms/src/trie.ts: the cached list of best completions of one node. */
module BestLists {
  import opened Basics

  type Term(==, !new)

  datatype Entry = Entry(term: Term, score: real)

  // ---------- Merging an entry into the list ----------

  /** The first entry with the term is taken out. */
  function WithoutTerm(best: seq<Entry>, term: Term): seq<Entry> {
    if best == [] then []
    else if best[0].term == term then best[1..]
    else [best[0]] + WithoutTerm(best[1..], term)
  }

  /** The position of the first entry with a smaller score, or the end. */
  function Position(best: seq<Entry>, score: real): (i: nat)
    ensures i <= |best|
  {
    if best == [] || best[0].score < score then 0 else 1 + Position(best[1..], score)
  }

  /** Put in at its position, unless that is beyond the cap, and cut back to the cap. */
  function Placed(rest: seq<Entry>, e: Entry, cap: int): seq<Entry> {
    var i := Position(rest, e.score);
    if i >= cap then rest
    else
      var longer := rest[..i] + [e] + rest[i..];
      if |longer| > cap then longer[..|longer| - 1] else longer
  }

  function Merge(best: seq<Entry>, e: Entry, cap: int): seq<Entry> {
    Placed(WithoutTerm(best, e.term), e, cap)
  }

  // ---------- Sorted lists of different terms ----------

  ghost predicate InOrder(best: seq<Entry>, i: nat, j: nat)
    requires i < |best| && j < |best|
  {
    best[i].score >= best[j].score && best[i].term != best[j].term
  }

  /** Descending scores, no term twice. */
  ghost predicate Sorted(best: seq<Entry>) {
    forall i, j {:trigger InOrder(best, i, j)} :: 0 <= i < j < |best| ==> InOrder(best, i, j)
  }

  /** The position of the first entry with the term, or the end. */
  ghost function PlaceOf(best: seq<Entry>, term: Term): (k: nat)
    ensures k <= |best| && (k < |best| ==> best[k].term == term)
    ensures forall i {:trigger best[i]} :: 0 <= i < k ==> best[i].term != term
  {
    if best == [] || best[0].term == term then 0 else 1 + PlaceOf(best[1..], term)
  }

  lemma {:induction false} WithoutTermIs(best: seq<Entry>, term: Term)
    ensures var k := PlaceOf(best, term);
            WithoutTerm(best, term) == if k < |best| then best[..k] + best[k + 1..] else best
  {
    if best != [] && best[0].term != term { WithoutTermIs(best[1..], term); }
  }

  lemma {:induction false} PositionIs(best: seq<Entry>, score: real)
    requires Sorted(best)
    ensures var i := Position(best, score);
            && (forall k {:trigger best[k]} :: 0 <= k < i ==> best[k].score >= score)
            && (forall k {:trigger best[k]} :: i <= k < |best| ==> best[k].score < score)
  {
    if best != [] {
      if best[0].score < score {
        forall k | 0 <= k < |best| ensures best[k].score < score { if k > 0 { assert InOrder(best, 0, k); } }
      } else {
        forall i, j | 0 <= i < j < |best[1..]| ensures InOrder(best[1..], i, j) { assert InOrder(best, i + 1, j + 1); }
        PositionIs(best[1..], score);
        forall k | 0 <= k < |best|
          ensures k < Position(best, score) ==> best[k].score >= score
          ensures k >= Position(best, score) ==> best[k].score < score
        {
          if k > 0 { assert best[1..][k - 1] == best[k]; }
        }
      }
    }
  }

  /** The entry of the list with this term, as a set of at most one. */
  ghost function WithTerm(best: seq<Entry>, term: Term): set<Entry> {
    set e | e in best && e.term == term
  }

  /** The list without its k-th entry. */
  lemma GapKeepsSorted(best: seq<Entry>, k: nat)
    requires Sorted(best) && k < |best|
    ensures Sorted(best[..k] + best[k + 1..])
  {
    var rest := best[..k] + best[k + 1..];
    forall i, j | 0 <= i < j < |rest|
      ensures InOrder(rest, i, j)
    {
      assert InOrder(best, if i < k then i else i + 1, if j < k then j else j + 1);
    }
  }

  lemma GapMembers(best: seq<Entry>, k: nat)
    requires Sorted(best) && k < |best|
    ensures Members(best[..k] + best[k + 1..]) == Members(best) - {best[k]}
    ensures WithTerm(best, best[k].term) == {best[k]}
  {
    var rest := best[..k] + best[k + 1..];
    forall i | 0 <= i < |best| && i != k ensures best[i].term != best[k].term {
      if i > k { assert InOrder(best, k, i); } else { assert InOrder(best, i, k); }
    }
    forall e | e in best && e != best[k] ensures e in rest {
      var i :| 0 <= i < |best| && best[i] == e;
      assert rest[if i < k then i else i - 1] == e;
    }
  }

  lemma TakenOut(best: seq<Entry>, term: Term)
    requires Sorted(best)
    ensures var rest := WithoutTerm(best, term);
            && Sorted(rest) && Members(rest) == Members(best) - WithTerm(best, term)
            && (forall e {:trigger e in rest} :: e in rest ==> e.term != term)
            && |rest| == |best| - |WithTerm(best, term)| && |WithTerm(best, term)| <= 1
  {
    var rest := WithoutTerm(best, term);
    var k := PlaceOf(best, term);
    WithoutTermIs(best, term);
    if k == |best| {
      assert WithTerm(best, term) == {};
    } else {
      GapKeepsSorted(best, k);
      GapMembers(best, k);
    }
    forall e | e in rest ensures e.term != term { assert e in Members(rest); }
  }

  lemma PutInOrder(rest: seq<Entry>, e: Entry)
    requires Sorted(rest) && forall x {:trigger x in rest} :: x in rest ==> x.term != e.term
    ensures var i := Position(rest, e.score); Sorted(rest[..i] + [e] + rest[i..])
  {
    var i := Position(rest, e.score);
    var longer := rest[..i] + [e] + rest[i..];
    PositionIs(rest, e.score);
    forall k | 0 <= k < |rest| ensures rest[k].term != e.term { assert rest[k] in rest; }
    forall a, b | 0 <= a < b < |longer|
      ensures InOrder(longer, a, b)
    {
      if a != i && b != i { assert InOrder(rest, if a < i then a else a - 1, if b < i then b else b - 1); }
    }
  }

  lemma PutIn(rest: seq<Entry>, e: Entry)
    requires Sorted(rest) && forall x {:trigger x in rest} :: x in rest ==> x.term != e.term
    ensures var i := Position(rest, e.score);
            var longer := rest[..i] + [e] + rest[i..];
            Sorted(longer) && Members(longer) == Members(rest) + {e}
  {
    var i := Position(rest, e.score);
    PutInOrder(rest, e);
    assert rest == rest[..i] + rest[i..];
  }

  lemma CutOff(longer: seq<Entry>)
    requires Sorted(longer) && longer != []
    ensures var n := |longer| - 1;
            && Sorted(longer[..n]) && Members(longer[..n]) == Members(longer) - {longer[n]}
            && forall x {:trigger x in longer} :: x in longer ==> longer[n].score <= x.score
  {
    var n := |longer| - 1;
    var front := longer[..n];
    forall i, j | 0 <= i < j < n ensures InOrder(front, i, j) { assert InOrder(longer, i, j); }
    forall x | x in longer ensures longer[n].score <= x.score {
      var k :| 0 <= k < |longer| && longer[k] == x;
      if k < n { assert InOrder(longer, k, n); }
    }
    forall x ensures x in front <==> x in longer && x != longer[n] {
      if x in front {
        var k :| 0 <= k < n && front[k] == x;
        assert InOrder(longer, k, n);
      }
    }
  }

  /** With room it is added, and in a full list it takes the place of a last entry that scores less. */
  lemma PlacedParts(rest: seq<Entry>, e: Entry, cap: int)
    requires Sorted(rest) && |rest| <= Max(0, cap) && forall x {:trigger x in rest} :: x in rest ==> x.term != e.term
    ensures var after := Placed(rest, e, cap);
            && Sorted(after)
            && (|rest| < cap ==> Members(after) == Members(rest) + {e} && |after| == |rest| + 1)
            && (|rest| >= cap ==>
                  |after| == |rest|
                  && if rest != [] && rest[|rest| - 1].score < e.score
                     then Members(after) == Members(rest) + {e} - {rest[|rest| - 1]}
                     else after == rest)
  {
    var i := Position(rest, e.score);
    PutIn(rest, e);
    PositionIs(rest, e.score);
    if |rest| >= cap && i < |rest| { CutOff(rest[..i] + [e] + rest[i..]); }
  }

  /** Where the merged entry goes: in place of its namesake, into a free place, in place of the last, or nowhere. */
  lemma MergeParts(best: seq<Entry>, e: Entry, cap: int)
    requires Sorted(best) && |best| <= Max(0, cap)
    ensures var after := Merge(best, e, cap);
            && Sorted(after)
            && (WithTerm(best, e.term) != {} ==> Members(after) == Members(best) - WithTerm(best, e.term) + {e} && |after| == |best|)
            && (WithTerm(best, e.term) == {} && |best| < cap ==> Members(after) == Members(best) + {e} && |after| == |best| + 1)
            && (WithTerm(best, e.term) == {} && |best| >= cap ==>
                  |after| == |best|
                  && if best != [] && best[|best| - 1].score < e.score
                     then Members(after) == Members(best) + {e} - {best[|best| - 1]}
                     else after == best)
  {
    TakenOut(best, e.term);
    PlacedParts(WithoutTerm(best, e.term), e, cap);
    if WithTerm(best, e.term) == {} { NothingTaken(best, e.term); }
  }

  lemma NothingTaken(best: seq<Entry>, term: Term)
    requires WithTerm(best, term) == {}
    ensures WithoutTerm(best, term) == best
  {
    WithoutTermIs(best, term);
    forall x | x in best ensures x.term != term { assert x !in WithTerm(best, term); }
  }

  // ---------- The best of a set ----------

  ghost predicate UniqueTerms(s: set<Entry>) {
    forall x, y {:trigger x in s, y in s} :: x in s && y in s && x.term == y.term ==> x == y
  }

  /** Nothing in m scores less than this entry. */
  ghost predicate Dominates(m: set<Entry>, d: Entry) {
    forall x {:trigger x in m} :: x in m ==> d.score <= x.score
  }

  /** m is a part of s that holds its highest scores. */
  ghost predicate Leads(m: set<Entry>, s: set<Entry>) {
    m <= s && forall d {:trigger Dominates(m, d)} :: d in s && d !in m ==> Dominates(m, d)
  }

  /** The list holds the highest scores of the set, as many as the cap allows, in descending order. */
  ghost predicate Top(best: seq<Entry>, s: set<Entry>, cap: int) {
    Sorted(best) && |best| == Min(Max(0, cap), |s|) && Leads(Members(best), s)
  }

  /** The set once the entry has replaced the one with its term. */
  ghost function Updated(s: set<Entry>, e: Entry): set<Entry> {
    (set x | x in s && x.term != e.term) + {e}
  }

  /** An entry that is left out scores more than this one. */
  ghost predicate Overtaken(m: set<Entry>, s: set<Entry>, e: Entry) {
    exists d :: d in s && d !in m && d.score > e.score
  }

  lemma {:induction false} MembersCount(best: seq<Entry>)
    requires Sorted(best)
    ensures |Members(best)| == |best|
    decreases |best|
  {
    if best != [] {
      CutOff(best);
      MembersCount(best[..|best| - 1]);
      assert best[|best| - 1] in Members(best);
    }
  }

  /** All of a set is listed when the list is as long as the set. */
  lemma AllListed(best: seq<Entry>, s: set<Entry>)
    requires Sorted(best) && Members(best) <= s && |best| == |s|
    ensures Members(best) == s
  {
    MembersCount(best);
    assert s == Members(best) + (s - Members(best));
  }

  lemma UpdatedNew(s: set<Entry>, e: Entry)
    requires forall x {:trigger x in s} :: x in s ==> x.term != e.term
    ensures Updated(s, e) == s + {e} && |Updated(s, e)| == |s| + 1
  {
  }

  lemma UpdatedOld(s: set<Entry>, e: Entry, o: Entry)
    requires UniqueTerms(s) && o in s && o.term == e.term
    ensures Updated(s, e) == s - {o} + {e} && |Updated(s, e)| == |s|
  {
  }

  lemma LeadsReplaced(m: set<Entry>, s: set<Entry>, e: Entry, o: Entry)
    requires Leads(m, s) && UniqueTerms(s) && o in m && o.term == e.term
    ensures Leads(m - {o} + {e}, Updated(s, e)) <==> !Overtaken(m, s, e)
  {
    UpdatedOld(s, e, o);
    var m', s' := m - {o} + {e}, s - {o} + {e};
    if Overtaken(m, s, e) {
      var d :| d in s && d !in m && d.score > e.score;
      assert e in m' && d in s' && d !in m' && !Dominates(m', d);
    } else {
      forall d | d in s' && d !in m' ensures Dominates(m', d) { assert Dominates(m, d); }
    }
  }

  lemma LeadsUnlessIn(m: set<Entry>, s: set<Entry>, e: Entry)
    requires Leads(m, s) && UniqueTerms(s) && Dominates(m, e) && forall x {:trigger x in m} :: x in m ==> x.term != e.term
    ensures Leads(m, Updated(s, e))
  {
    forall d | d in Updated(s, e) && d !in m ensures Dominates(m, d) { if d != e { assert Dominates(m, d); } }
  }

  lemma LeadsWithoutLast(m: set<Entry>, s: set<Entry>, e: Entry, last: Entry)
    requires Leads(m, s) && UniqueTerms(s) && last in m && Dominates(m, last) && last.score < e.score
    requires forall x {:trigger x in m} :: x in m ==> x.term != e.term
    ensures Leads(m + {e} - {last}, Updated(s, e))
  {
    var m' := m + {e} - {last};
    forall d | d in Updated(s, e) && d !in m'
      ensures Dominates(m', d)
    {
      if d != last { assert Dominates(m, d); }
    }
  }

  /** Re-inserting a listed term: the list is right again unless something left out now scores more. */
  lemma MergeListed(best: seq<Entry>, s: set<Entry>, e: Entry, cap: int, o: Entry)
    requires Top(best, s, cap) && UniqueTerms(s) && o in best && o.term == e.term
    ensures Top(Merge(best, e, cap), Updated(s, e), cap) <==> !Overtaken(Members(best), s, e)
  {
    MergeParts(best, e, cap);
    assert o in Members(best);
    assert WithTerm(best, e.term) == {o} by {
      forall x | x in WithTerm(best, e.term) ensures x == o { assert x in Members(best); }
    }
    UpdatedOld(s, e, o);
    LeadsReplaced(Members(best), s, e, o);
  }

  /** Inserting a term that is not listed always leaves the list right. */
  lemma MergeUnlisted(best: seq<Entry>, s: set<Entry>, e: Entry, cap: int)
    requires Top(best, s, cap) && UniqueTerms(s) && WithTerm(best, e.term) == {}
    ensures Top(Merge(best, e, cap), Updated(s, e), cap)
  {
    MergeParts(best, e, cap);
    var m := Members(best);
    forall x | x in m ensures x.term != e.term { assert x in best ==> x.term != e.term || x in WithTerm(best, e.term); }
    if |best| < cap {
      AllListed(best, s);
      UpdatedNew(s, e);
    } else {
      UpdatedCount(s, e);
      if best != [] { LastIsLeast(best); }
      if best != [] && best[|best| - 1].score < e.score {
        LeadsWithoutLast(m, s, e, best[|best| - 1]);
      } else {
        LeadsUnlessIn(m, s, e);
      }
    }
  }

  lemma UpdatedCount(s: set<Entry>, e: Entry)
    requires UniqueTerms(s)
    ensures |Updated(s, e)| >= |s| >= |Updated(s, e)| - 1
  {
    if o :| o in s && o.term == e.term { UpdatedOld(s, e, o); } else { UpdatedNew(s, e); }
  }

  lemma LastIsLeast(best: seq<Entry>)
    requires Sorted(best) && best != []
    ensures best[|best| - 1] in Members(best) && Dominates(Members(best), best[|best| - 1])
  {
    CutOff(best);
    forall x | x in Members(best) ensures best[|best| - 1].score <= x.score { assert x in best; }
  }

  /**
   * Merging an entry keeps the list the true best of its node, except exactly
   * when the entry replaces a listed one and something left out scores more.
   */
  lemma MergeIsExact(best: seq<Entry>, s: set<Entry>, e: Entry, cap: int)
    requires Top(best, s, cap) && UniqueTerms(s)
    ensures Top(Merge(best, e, cap), Updated(s, e), cap) <==>
              !(WithTerm(best, e.term) != {} && Overtaken(Members(best), s, e))
  {
    if o :| o in WithTerm(best, e.term) {
      MergeListed(best, s, e, cap, o);
    } else {
      MergeUnlisted(best, s, e, cap);
    }
  }

  /** The entry given up for the new one is listed, and it is not the one that makes room. */
  ghost predicate Outlives(best: seq<Entry>, former: Entry, e: Entry, cap: int) {
    former in best && !(|best| == Max(0, cap) && best[|best| - 1] == former && former.score < e.score)
  }

  ghost predicate NewTerm(s: set<Entry>, e: Entry) {
    forall x {:trigger x in s} :: x in s ==> x.term != e.term
  }

  lemma LeadsOnlyWithin(m: set<Entry>, s: set<Entry>, former: Entry)
    requires former in m && former !in s
    ensures !Leads(m, s)
  {
  }

  /** A full list from which the last entry was dropped, or which already left the new one out. */
  lemma FullListLeads(best: seq<Entry>, s: set<Entry>, e: Entry, former: Entry)
    requires Sorted(best) && best != [] && Leads(Members(best), s) && NewTerm(s, e) && former in s
    requires former in best ==> best[|best| - 1] == former && former.score < e.score
    ensures var m, last := Members(best), best[|best| - 1];
            Leads(if last.score < e.score then m + {e} - {last} else m, s - {former} + {e})
  {
    var m, last := Members(best), best[|best| - 1];
    var m', s' := if last.score < e.score then m + {e} - {last} else m, s - {former} + {e};
    LastIsLeast(best);
    forall d | d in s' && d !in m' ensures Dominates(m', d) { if d in s && d !in m { assert Dominates(m, d); } }
  }

  /**
   * When the new entry takes the place of one with another term, the list
   * stays the true best exactly when the former entry was not listed, or was
   * the last of a full list and scored less.
   */
  lemma MergeSuperseding(best: seq<Entry>, s: set<Entry>, e: Entry, cap: int, former: Entry)
    requires Top(best, s, cap) && NewTerm(s, e) && former in s
    ensures Top(Merge(best, e, cap), s - {former} + {e}, cap) <==> !Outlives(best, former, e, cap)
  {
    MergeParts(best, e, cap);
    assert WithTerm(best, e.term) == {} by {
      forall x | x in best ensures x.term != e.term { assert x in Members(best); }
    }
    assert former in best <==> former in Members(best);
    if |best| < cap {
      AllListed(best, s);
      LeadsOnlyWithin(Members(best) + {e}, s - {former} + {e}, former);
    } else if Outlives(best, former, e, cap) {
      LeadsOnlyWithin(Members(Merge(best, e, cap)), s - {former} + {e}, former);
    } else if best != [] {
      FullListLeads(best, s, e, former);
    }
  }

  /** So it does whenever the score does not fall. */
  lemma RisingScoreIsSafe(best: seq<Entry>, s: set<Entry>, e: Entry, cap: int)
    requires Top(best, s, cap) && UniqueTerms(s) && forall o {:trigger o in s} :: o in s && o.term == e.term ==> o.score <= e.score
    ensures Top(Merge(best, e, cap), Updated(s, e), cap)
  {
    MergeIsExact(best, s, e, cap);
    if o :| o in WithTerm(best, e.term) {
      assert o in Members(best);
      forall d | d in s && d !in Members(best) ensures d.score <= e.score { assert Dominates(Members(best), d); }
    }
  }

  /** With room for one, lowering the listed score hides the better term. */
  lemma FallingScoreHidesABetterTerm(a: Term, b: Term)
    requires a != b
    ensures var s := {Entry(a, 5.0), Entry(b, 3.0)};
            Top([Entry(a, 5.0)], s, 1) && !Top(Merge([Entry(a, 5.0)], Entry(a, 1.0), 1), Updated(s, Entry(a, 1.0)), 1)
  {
    var best, s := [Entry(a, 5.0)], {Entry(a, 5.0), Entry(b, 3.0)};
    assert Members(best) == {Entry(a, 5.0)};
    forall d | d in s && d !in Members(best) ensures Dominates(Members(best), d) {}
    assert |s| == 2;
    MergeIsExact(best, s, Entry(a, 1.0), 1);
    assert Entry(b, 3.0) in s && Entry(b, 3.0) !in Members(best);
    assert best[0] in best && best[0] in WithTerm(best, a);
  }
}
