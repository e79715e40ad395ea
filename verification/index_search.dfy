/** packages/algorithms/src/inverted-index.ts: ranked retrieval against a scan of all documents. */
module IndexSearch {
  import opened Basics
  import opened InsertionOrder
  import opened InvertedIndexes
  import TopKs

  /** The BM25 constants, and the logarithm, of which nothing is assumed. */
  datatype Params = Params(k1: real, b: real, log: real -> real)

  ghost predicate ValidParams(p: Params) {
    p.k1 >= 0.0 && 0.0 <= p.b <= 1.0
  }

  function Idf(p: Params, documents: nat, matching: nat): real {
    if matching == 0 then 0.0
    else p.log(1.0 + (documents as real - matching as real + 0.5) / (matching as real + 0.5))
  }

  function Normalisation(p: Params, length: real, average: real): real {
    if average == 0.0 then 1.0 else 1.0 - p.b + p.b * (length / average)
  }

  lemma NormalisationIsNotNegative(p: Params, length: real, average: real)
    requires ValidParams(p) && length >= 0.0 && average >= 0.0
    ensures p.k1 * Normalisation(p, length, average) >= 0.0
  {
    if average != 0.0 {
      var q := length / average;
      assert q >= 0.0;
      assert p.b * q >= 0.0;
    }
  }

  function Contribution(p: Params, idf: real, frequency: real, length: real, average: real): real
    requires ValidParams(p) && frequency > 0.0 && length >= 0.0 && average >= 0.0
  {
    NormalisationIsNotNegative(p, length, average);
    (idf * (frequency * (p.k1 + 1.0))) / (frequency + p.k1 * Normalisation(p, length, average))
  }

  // ---------- Scanning all documents ----------

  ghost predicate PositiveText(text: seq<Occurrence>) {
    forall i {:trigger text[i]} :: 0 <= i < |text| ==> text[i].weight > 0.0
  }

  ghost predicate PositiveAt(corpus: Corpus, id: DocId) {
    id in corpus ==> PositiveText(corpus[id].occurrences)
  }

  /** Field weights are positive. */
  ghost predicate Positive(corpus: Corpus) {
    forall id {:trigger PositiveAt(corpus, id)} :: PositiveAt(corpus, id)
  }

  lemma {:induction false} PositiveSums(text: seq<Occurrence>, term: Term)
    requires PositiveText(text)
    ensures Length(text) >= 0.0 && Frequency(text, term) >= 0.0 && (Occurs(text, term) ==> Frequency(text, term) > 0.0)
    decreases |text|
  {
    if text != [] { PositiveSums(text[..|text| - 1], term); }
  }

  ghost predicate Has(corpus: Corpus, term: Term, id: DocId) {
    id in corpus && Occurs(corpus[id].occurrences, term)
  }

  /** The documents a term occurs in. */
  ghost function Matching(corpus: Corpus, term: Term): set<DocId> {
    set id | id in corpus && Has(corpus, term, id)
  }

  /** What a term adds to the score of a document. */
  ghost function TermScore(p: Params, corpus: Corpus, average: real, term: Term, id: DocId): real
    requires ValidParams(p) && Positive(corpus) && average >= 0.0
  {
    if !Has(corpus, term, id) then 0.0
    else
      var text := corpus[id].occurrences;
      assert PositiveAt(corpus, id);
      PositiveSums(text, term);
      Contribution(p, Idf(p, |corpus|, |Matching(corpus, term)|), Frequency(text, term), Length(text), average)
  }

  /** The score of a document for a query, looking at nothing but the documents. */
  ghost function ScanScore(p: Params, corpus: Corpus, average: real, terms: seq<Term>, id: DocId): real
    requires ValidParams(p) && Positive(corpus) && average >= 0.0
    decreases |terms|, 1
  {
    if terms == [] then 0.0 else ScanScoreOfSome(p, corpus, average, terms, id)
  }

  /** Split off so that a proof unfolds one step at a time. */
  ghost function ScanScoreOfSome(p: Params, corpus: Corpus, average: real, terms: seq<Term>, id: DocId): real
    requires ValidParams(p) && Positive(corpus) && average >= 0.0 && terms != []
    decreases |terms|, 0
  {
    ScanScore(p, corpus, average, terms[..|terms| - 1], id) + TermScore(p, corpus, average, terms[|terms| - 1], id)
  }

  ghost function MatchedBy(corpus: Corpus, terms: seq<Term>, id: DocId): set<Term> {
    set term | term in terms && Has(corpus, term, id)
  }

  /** Documents with any query term, or, when all are required, as many different terms as the query is long. */
  ghost function Candidates(corpus: Corpus, terms: seq<Term>, requireAll: bool, keep: DocId -> bool): set<DocId> {
    set id | id in corpus && MatchedBy(corpus, terms, id) != {}
             && (requireAll ==> |MatchedBy(corpus, terms, id)| >= |terms|) && keep(id)
  }

  /** A query without repetitions requires all of its terms; one with a repetition matches nothing. */
  lemma RequireAllExactly(corpus: Corpus, terms: seq<Term>, keep: DocId -> bool, id: DocId)
    requires terms != []
    ensures id in Candidates(corpus, terms, true, keep) <==>
              NoRepeats(terms) && keep(id) && id in corpus && forall term :: term in terms ==> Has(corpus, term, id)
  {
    var all, matched := Members(terms), MatchedBy(corpus, terms, id);
    MembersCount(terms);
    assert matched <= all;
    SubsetSize(matched, all);
    assert terms[0] in all;
    if matched == all {
      forall term | term in terms ensures Has(corpus, term, id) { assert term in all && term in matched; }
    }
    if forall term :: term in terms ==> Has(corpus, term, id) {
      forall term | term in all ensures term in matched {}
      assert matched == all;
    }
  }

  lemma {:induction false} MembersCount<T>(s: seq<T>)
    ensures |Members(s)| <= |s| && (|Members(s)| == |s| <==> NoRepeats(s))
    decreases |s|
  {
    if s != [] {
      var front, last := s[..|s| - 1], s[|s| - 1];
      MembersCount(front);
      assert Members(s) == Members(front) + {last};
      if last !in front {
        assert Members(s) - {last} == Members(front);
      } else {
        assert Members(s) == Members(front);
        if NoRepeats(s) { ListsDistinct(s, Members(s)); assert false; }
      }
    }
  }

  // ---------- The search ----------

  ghost predicate ScoredAt(scores: map<DocId, real>, p: Params, corpus: Corpus, average: real, terms: seq<Term>, id: DocId)
    requires ValidParams(p) && Positive(corpus) && average >= 0.0
  {
    && (id in scores <==> MatchedBy(corpus, terms, id) != {})
    && ScanScore(p, corpus, average, terms, id) == if id in scores then scores[id] else 0.0
  }

  ghost predicate MatchedAt(matched: map<DocId, set<Term>>, corpus: Corpus, terms: seq<Term>, id: DocId) {
    MatchedBy(corpus, terms, id) == if id in matched then matched[id] else {}
  }

  ghost predicate AllScored(scores: map<DocId, real>, matched: map<DocId, set<Term>>, p: Params, corpus: Corpus, average: real, terms: seq<Term>)
    requires ValidParams(p) && Positive(corpus) && average >= 0.0
  {
    && (forall id {:trigger ScoredAt(scores, p, corpus, average, terms, id)} :: ScoredAt(scores, p, corpus, average, terms, id))
    && (forall id {:trigger MatchedAt(matched, corpus, terms, id)} :: MatchedAt(matched, corpus, terms, id))
  }

  // ---------- One query term ----------

  lemma PostingsOfTerm(postings: Postings, corpus: Corpus, term: Term)
    requires PostingsMirror(postings, corpus)
    ensures (if term in postings then postings[term].Keys else {}) == Matching(corpus, term)
  {
    forall id
      ensures (term in postings && id in postings[term]) <==> Has(corpus, term, id)
    {
      assert PostingAt(postings, corpus, term, id);
    }
  }

  /** The value a map of scores has for a document, zero if none. */
  ghost function ScoreIn(scores: map<DocId, real>, id: DocId): real {
    if id in scores then scores[id] else 0.0
  }

  ghost function TermsIn(matched: map<DocId, set<Term>>, id: DocId): set<Term> {
    if id in matched then matched[id] else {}
  }

  datatype Tally = Tally(scores: map<DocId, real>, matched: map<DocId, set<Term>>)

  function Count(t: Tally, id: DocId, term: Term, contribution: real): Tally {
    Tally(t.scores[id := (if id in t.scores then t.scores[id] else 0.0) + contribution],
          t.matched[id := (if id in t.matched then t.matched[id] else {}) + {term}])
  }

  /** Part of the way through a posting list: the documents still to come are untouched. */
  ghost predicate CountedFor(before: Tally, t: Tally, p: Params, corpus: Corpus, average: real, term: Term, todo: set<DocId>, id: DocId)
    requires ValidParams(p) && Positive(corpus) && average >= 0.0
  {
    if Has(corpus, term, id) && id !in todo then
      && id in t.scores && t.scores[id] == ScoreIn(before.scores, id) + TermScore(p, corpus, average, term, id)
      && id in t.matched && t.matched[id] == TermsIn(before.matched, id) + {term}
    else
      && (id in t.scores <==> id in before.scores) && ScoreIn(t.scores, id) == ScoreIn(before.scores, id)
      && TermsIn(t.matched, id) == TermsIn(before.matched, id)
  }

  ghost predicate AllCountedFor(before: Tally, t: Tally, p: Params, corpus: Corpus, average: real, term: Term, todo: set<DocId>)
    requires ValidParams(p) && Positive(corpus) && average >= 0.0
  {
    forall id {:trigger CountedFor(before, t, p, corpus, average, term, todo, id)} :: CountedFor(before, t, p, corpus, average, term, todo, id)
  }

  lemma CountsNext(before: Tally, t: Tally, p: Params, corpus: Corpus, average: real, term: Term, todo: set<DocId>, id: DocId)
    requires ValidParams(p) && Positive(corpus) && average >= 0.0 && id in todo && Has(corpus, term, id)
    requires AllCountedFor(before, t, p, corpus, average, term, todo)
    ensures AllCountedFor(before, Count(t, id, term, TermScore(p, corpus, average, term, id)), p, corpus, average, term, todo - {id})
  {
    var t', rest := Count(t, id, term, TermScore(p, corpus, average, term, id)), todo - {id};
    forall d
      ensures CountedFor(before, t', p, corpus, average, term, rest, d)
    {
      assert CountedFor(before, t, p, corpus, average, term, todo, d);
    }
  }

  lemma MatchedByNext(corpus: Corpus, terms: seq<Term>, term: Term, id: DocId)
    ensures MatchedBy(corpus, terms + [term], id) == MatchedBy(corpus, terms, id) + if Has(corpus, term, id) then {term} else {}
  {
  }

  lemma ScanNext(p: Params, corpus: Corpus, average: real, terms: seq<Term>, term: Term, id: DocId)
    requires ValidParams(p) && Positive(corpus) && average >= 0.0
    ensures ScanScore(p, corpus, average, terms + [term], id)
            == ScanScore(p, corpus, average, terms, id) + TermScore(p, corpus, average, term, id)
  {
    assert (terms + [term])[..|terms|] == terms;
  }

  lemma TermCounted(before: Tally, t: Tally, p: Params, corpus: Corpus, average: real, terms: seq<Term>, term: Term)
    requires ValidParams(p) && Positive(corpus) && average >= 0.0
    requires AllScored(before.scores, before.matched, p, corpus, average, terms)
    requires AllCountedFor(before, t, p, corpus, average, term, {})
    ensures AllScored(t.scores, t.matched, p, corpus, average, terms + [term])
  {
    var next := terms + [term];
    forall id
      ensures ScoredAt(t.scores, p, corpus, average, next, id) && MatchedAt(t.matched, corpus, next, id)
    {
      assert ScoredAt(before.scores, p, corpus, average, terms, id) && MatchedAt(before.matched, corpus, terms, id);
      assert CountedFor(before, t, p, corpus, average, term, {}, id);
      MatchedByNext(corpus, terms, term, id);
      ScanNext(p, corpus, average, terms, term, id);
    }
  }

  lemma ContributionIsTermScore(index: InvertedIndex, p: Params, average: real, term: Term, id: DocId)
    requires index.Valid() && ValidParams(p) && Positive(index.corpus) && average >= 0.0
    requires term in index.postings && id in index.postings[term]
    ensures id in index.documents && index.postings[term][id] > 0.0 && index.documents[id].length >= 0.0
    ensures Has(index.corpus, term, id)
    ensures Contribution(p, Idf(p, |index.documents|, |index.postings[term]|), index.postings[term][id], index.documents[id].length, average)
            == TermScore(p, index.corpus, average, term, id)
  {
    assert PostingAt(index.postings, index.corpus, term, id) && StoredAt(index.documents, index.corpus, id);
    assert PositiveAt(index.corpus, id);
    PositiveSums(index.corpus[id].occurrences, term);
    PostingsOfTerm(index.postings, index.corpus, term);
    assert |index.postings[term]| == |index.postings[term].Keys|;
    SameSize(index);
  }

  lemma SameSize(index: InvertedIndex)
    requires index.Valid()
    ensures |index.documents| == |index.corpus|
  {
    forall id ensures id in index.documents.Keys <==> id in index.corpus.Keys { assert StoredAt(index.documents, index.corpus, id); }
    assert index.documents.Keys == index.corpus.Keys;
  }

  method ScoreTerm(index: InvertedIndex, p: Params, average: real, term: Term, before: Tally, ghost terms: seq<Term>) returns (t: Tally)
    requires index.Valid() && ValidParams(p) && Positive(index.corpus) && average >= 0.0
    requires AllScored(before.scores, before.matched, p, index.corpus, average, terms)
    ensures AllScored(t.scores, t.matched, p, index.corpus, average, terms + [term])
  {
    t := before;
    PostingsOfTerm(index.postings, index.corpus, term);
    forall id ensures CountedFor(before, t, p, index.corpus, average, term, Matching(index.corpus, term), id) {}
    if term in index.postings {
      var bucket := index.postings[term];
      var idf := Idf(p, |index.documents|, |bucket|);
      var todo := bucket.Keys;
      while todo != {}
        invariant todo <= bucket.Keys && AllCountedFor(before, t, p, index.corpus, average, term, todo)
        decreases |todo|
      {
        var id :| id in todo;
        ContributionIsTermScore(index, p, average, term, id);
        var contribution := Contribution(p, idf, bucket[id], index.documents[id].length, average);
        CountsNext(before, t, p, index.corpus, average, term, todo, id);
        t := Count(t, id, term, contribution);
        todo := todo - {id};
      }
    }
    TermCounted(before, t, p, index.corpus, average, terms, term);
  }

  // ---------- The whole query ----------

  datatype Hit = Hit(id: DocId, score: real, matched: set<Term>)

  function ScoreOf(h: Hit): real {
    h.score
  }

  ghost function IdsOf(hits: seq<Hit>): seq<DocId> {
    if hits == [] then [] else IdsOf(hits[..|hits| - 1]) + [hits[|hits| - 1].id]
  }

  /** The score and the matched terms are those of the scan. */
  ghost predicate HitAt(h: Hit, p: Params, corpus: Corpus, average: real, terms: seq<Term>)
    requires ValidParams(p) && Positive(corpus) && average >= 0.0
  {
    h.id in corpus && h.score == ScanScore(p, corpus, average, terms, h.id) * corpus[h.id].boost
    && h.matched == MatchedBy(corpus, terms, h.id)
  }

  /** The hits are the candidates of the scan, each once, with the scan's scores. */
  ghost predicate ScanHits(hits: seq<Hit>, p: Params, corpus: Corpus, average: real, terms: seq<Term>, ids: set<DocId>)
    requires ValidParams(p) && Positive(corpus) && average >= 0.0
  {
    Lists(IdsOf(hits), ids) && forall i {:trigger hits[i]} :: 0 <= i < |hits| ==> HitAt(hits[i], p, corpus, average, terms)
  }

  lemma {:induction false} TotalNotNegative(order: seq<DocId>, corpus: Corpus)
    requires Lists(order, corpus.Keys) && Positive(corpus)
    ensures TotalLength(order, corpus) >= 0.0
    decreases |order|
  {
    if order != [] {
      var last := order[|order| - 1];
      assert (corpus - {last}).Keys == corpus.Keys - {last};
      forall id ensures PositiveAt(corpus - {last}, id) { assert PositiveAt(corpus, id); }
      TotalNotNegative(order[..|order| - 1], corpus - {last});
      assert PositiveAt(corpus, last);
      var o: seq<Occurrence> := corpus[last].occurrences;
      if o != [] { PositiveSums(o, o[0].term); }
    }
  }

  ghost function Average(index: InvertedIndex): real
    reads index
  {
    if |index.documents| == 0 then 0.0 else index.totalLength / |index.documents| as real
  }

  lemma AverageNotNegative(index: InvertedIndex)
    requires index.Valid() && Positive(index.corpus)
    ensures Average(index) >= 0.0
  {
    TotalNotNegative(index.order, index.corpus);
    if |index.documents| > 0 { Quotient(index.totalLength, |index.documents| as real); }
  }

  lemma Quotient(x: real, y: real)
    requires x >= 0.0 && y > 0.0
    ensures x / y >= 0.0
  {
  }

  /**
   * Ranks the documents of the index as scanning all of them would: hits are
   * the candidates of the scan with the scan's scores, and ranked is a best-first
   * selection of at most limit of them.
   */
  method Search(index: InvertedIndex, p: Params, terms: seq<Term>, limit: int, requireAll: bool, keep: DocId -> bool)
      returns (ranked: seq<TopKs.Scored<Hit>>, hits: seq<Hit>)
    requires index.Valid() && ValidParams(p) && Positive(index.corpus)
    ensures Average(index) >= 0.0
    ensures ScanHits(hits, p, index.corpus, Average(index), terms, Candidates(index.corpus, terms, requireAll, keep))
    ensures TopKs.Selects(TopKs.WorstFirst(None), ranked, multiset(TopKs.ScoreAll(hits, ScoreOf)), limit)
  {
    var average := if |index.documents| == 0 then 0.0 else index.totalLength / |index.documents| as real;
    AverageNotNegative(index);
    var t := Tally(map[], map[]);
    forall id ensures ScoredAt(t.scores, p, index.corpus, average, [], id) && MatchedAt(t.matched, index.corpus, [], id) {}
    for i := 0 to |terms|
      invariant AllScored(t.scores, t.matched, p, index.corpus, average, terms[..i])
    {
      t := ScoreTerm(index, p, average, terms[i], t, terms[..i]);
      assert terms[..i + 1] == terms[..i] + [terms[i]];
    }
    assert terms[..|terms|] == terms;
    hits := CollectHits(index.documents, index.corpus, p, average, terms, t, requireAll, keep);
    ranked := TopKs.TopK(hits, limit, ScoreOf, None);
  }

  /** What the tally says of a document with a score. */
  lemma TallyIsScan(documents: map<DocId, Stored>, corpus: Corpus, p: Params, average: real, terms: seq<Term>, t: Tally, requireAll: bool, keep: DocId -> bool, id: DocId)
    requires DocumentsMirror(documents, corpus) && ValidParams(p) && Positive(corpus) && average >= 0.0
    requires AllScored(t.scores, t.matched, p, corpus, average, terms)
    ensures id in Candidates(corpus, terms, requireAll, keep) <==>
              id in t.scores && (requireAll ==> |TermsIn(t.matched, id)| >= |terms|) && keep(id)
    ensures id in t.scores ==>
              id in documents && HitAt(Hit(id, t.scores[id] * documents[id].boost, TermsIn(t.matched, id)), p, corpus, average, terms)
  {
    assert ScoredAt(t.scores, p, corpus, average, terms, id) && MatchedAt(t.matched, corpus, terms, id);
    assert StoredAt(documents, corpus, id);
    if id in t.scores {
      var term :| term in MatchedBy(corpus, terms, id);
      assert Has(corpus, term, id);
    }
  }

  lemma HitAdded(hits: seq<Hit>, h: Hit, p: Params, corpus: Corpus, average: real, terms: seq<Term>, ids: set<DocId>)
    requires ValidParams(p) && Positive(corpus) && average >= 0.0
    requires ScanHits(hits, p, corpus, average, terms, ids) && HitAt(h, p, corpus, average, terms) && h.id !in ids
    ensures ScanHits(hits + [h], p, corpus, average, terms, ids + {h.id})
  {
    ListsAppend(IdsOf(hits), ids, h.id);
    assert (hits + [h])[..|hits|] == hits;
  }

  lemma Split(wanted: set<DocId>, todo: set<DocId>, id: DocId)
    requires id in todo
    ensures wanted - (todo - {id}) == if id in wanted then wanted - todo + {id} else wanted - todo
  {
  }

  method CollectHits(documents: map<DocId, Stored>, ghost corpus: Corpus, ghost p: Params, ghost average: real, terms: seq<Term>, t: Tally, requireAll: bool, keep: DocId -> bool)
      returns (hits: seq<Hit>)
    requires DocumentsMirror(documents, corpus) && ValidParams(p) && Positive(corpus) && average >= 0.0
    requires AllScored(t.scores, t.matched, p, corpus, average, terms)
    ensures ScanHits(hits, p, corpus, average, terms, Candidates(corpus, terms, requireAll, keep))
  {
    hits := [];
    ghost var wanted := Candidates(corpus, terms, requireAll, keep);
    var todo := t.scores.Keys;
    forall id | id in wanted ensures id in todo { TallyIsScan(documents, corpus, p, average, terms, t, requireAll, keep, id); }
    assert wanted - todo == {};
    while todo != {}
      invariant todo <= t.scores.Keys
      invariant ScanHits(hits, p, corpus, average, terms, wanted - todo)
      decreases |todo|
    {
      var id :| id in todo;
      TallyIsScan(documents, corpus, p, average, terms, t, requireAll, keep, id);
      Split(wanted, todo, id);
      var matched := if id in t.matched then t.matched[id] else {};
      if (requireAll ==> |matched| >= |terms|) && keep(id) {
        var h := Hit(id, t.scores[id] * documents[id].boost, matched);
        HitAdded(hits, h, p, corpus, average, terms, wanted - todo);
        hits := hits + [h];
      }
      todo := todo - {id};
    }
    assert wanted - {} == wanted;
  }
}
