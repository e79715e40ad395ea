/** packages/algorithms/src/inverted-index.ts: posting lists kept in step with the documents. */
module InvertedIndexes {
  import opened Basics
  import opened InsertionOrder

  type Term(==, !new)

  type DocId(==, !new)

  // ---------- Documents ----------

  /** A field after analysis. */
  datatype Field = Field(terms: seq<Term>, weight: real)

  datatype Document = Document(id: DocId, fields: seq<Field>, boost: real)

  /** One appearance of a term, with the weight of its field. */
  datatype Occurrence = Occurrence(term: Term, weight: real)

  /** What a document says, whatever the index does with it. */
  datatype Text = Text(occurrences: seq<Occurrence>, boost: real)

  ghost function InField(terms: seq<Term>, weight: real): seq<Occurrence> {
    if terms == [] then [] else InField(terms[..|terms| - 1], weight) + [Occurrence(terms[|terms| - 1], weight)]
  }

  ghost function InFields(fields: seq<Field>): seq<Occurrence> {
    if fields == [] then []
    else InFields(fields[..|fields| - 1]) + InField(fields[|fields| - 1].terms, fields[|fields| - 1].weight)
  }

  ghost function TextOf(document: Document): Text {
    Text(InFields(document.fields), document.boost)
  }

  ghost predicate Occurs(text: seq<Occurrence>, term: Term) {
    text != [] && (text[|text| - 1].term == term || Occurs(text[..|text| - 1], term))
  }

  /** The summed weight of a term's appearances, and of all appearances. */
  ghost function Frequency(text: seq<Occurrence>, term: Term): real {
    if text == [] then 0.0
    else Frequency(text[..|text| - 1], term) + if text[|text| - 1].term == term then text[|text| - 1].weight else 0.0
  }

  ghost function Length(text: seq<Occurrence>): real {
    if text == [] then 0.0 else Length(text[..|text| - 1]) + text[|text| - 1].weight
  }

  lemma TextPush(text: seq<Occurrence>, o: Occurrence, term: Term)
    ensures Occurs(text + [o], term) <==> Occurs(text, term) || o.term == term
    ensures Frequency(text + [o], term) == Frequency(text, term) + if o.term == term then o.weight else 0.0
    ensures Length(text + [o]) == Length(text) + o.weight
  {
    assert (text + [o])[..|text|] == text;
  }

  // ---------- Counting a document ----------

  datatype Counts = Counts(frequencies: map<Term, real>, keys: seq<Term>, length: real)

  ghost predicate CountedAt(frequencies: map<Term, real>, text: seq<Occurrence>, term: Term) {
    && (term in frequencies <==> Occurs(text, term))
    && (term in frequencies ==> frequencies[term] == Frequency(text, term))
    && (term !in frequencies ==> Frequency(text, term) == 0.0)
  }

  /** The counts are those of the text, and keys lists the counted terms. */
  ghost predicate Counted(c: Counts, text: seq<Occurrence>) {
    && (forall term {:trigger CountedAt(c.frequencies, text, term)} :: CountedAt(c.frequencies, text, term))
    && Lists(c.keys, c.frequencies.Keys) && c.length == Length(text)
  }

  function CountOne(c: Counts, term: Term, weight: real): Counts {
    if term in c.frequencies then
      Counts(c.frequencies[term := c.frequencies[term] + weight], c.keys, c.length + weight)
    else
      Counts(c.frequencies[term := 0.0 + weight], c.keys + [term], c.length + weight)
  }

  lemma CountOneCounts(c: Counts, text: seq<Occurrence>, term: Term, weight: real)
    requires Counted(c, text)
    ensures Counted(CountOne(c, term, weight), text + [Occurrence(term, weight)])
  {
    var c', o := CountOne(c, term, weight), Occurrence(term, weight);
    assert CountedAt(c.frequencies, text, term);
    TextPush(text, o, term);
    if term in c.frequencies {
      assert c'.frequencies.Keys == c.frequencies.Keys;
    } else {
      ListsAppend(c.keys, c.frequencies.Keys, term);
      assert c'.frequencies.Keys == c.frequencies.Keys + {term};
    }
    forall t
      ensures CountedAt(c'.frequencies, text + [o], t)
    {
      assert CountedAt(c.frequencies, text, t);
      TextPush(text, o, t);
    }
  }

  method CountTerms(fields: seq<Field>) returns (c: Counts)
    ensures Counted(c, InFields(fields))
  {
    c := Counts(map[], [], 0.0);
    for i := 0 to |fields|
      invariant Counted(c, InFields(fields[..i]))
    {
      assert fields[..i + 1][..i] == fields[..i];
      c := CountField(c, InFields(fields[..i]), fields[i]);
    }
    assert fields[..|fields|] == fields;
  }

  method CountField(before: Counts, ghost text: seq<Occurrence>, field: Field) returns (c: Counts)
    requires Counted(before, text)
    ensures Counted(c, text + InField(field.terms, field.weight))
  {
    c := before;
    assert text + [] == text;
    for j := 0 to |field.terms|
      invariant Counted(c, text + InField(field.terms[..j], field.weight))
    {
      CountOneCounts(c, text + InField(field.terms[..j], field.weight), field.terms[j], field.weight);
      c := CountOne(c, field.terms[j], field.weight);
      assert field.terms[..j + 1][..j] == field.terms[..j];
      assert text + InField(field.terms[..j], field.weight) + [Occurrence(field.terms[j], field.weight)]
          == text + (InField(field.terms[..j], field.weight) + [Occurrence(field.terms[j], field.weight)]);
    }
    assert field.terms[..|field.terms|] == field.terms;
  }

  // ---------- Postings ----------

  type Postings = map<Term, map<DocId, real>>

  ghost function Posting(p: Postings, term: Term, id: DocId): Option<real> {
    if term in p && id in p[term] then Some(p[term][id]) else None
  }

  function WithPosting(p: Postings, term: Term, id: DocId, frequency: real): Postings {
    p[term := (if term in p then p[term] else map[])[id := frequency]]
  }

  /** The entry is gone, and so is the list if that was its last one. */
  function WithoutPosting(p: Postings, term: Term, id: DocId): Postings {
    if term !in p then p
    else
      var bucket := p[term] - {id};
      if |bucket| == 0 then p - {term} else p[term := bucket]
  }

  ghost predicate NotEmpty(p: Postings, term: Term) {
    term in p ==> p[term] != map[]
  }

  /** No posting list is empty. */
  ghost predicate Tidy(p: Postings) {
    forall term {:trigger NotEmpty(p, term)} :: NotEmpty(p, term)
  }

  lemma WithPostingIs(p: Postings, term: Term, id: DocId, frequency: real, t: Term, d: DocId)
    requires Tidy(p)
    ensures Tidy(WithPosting(p, term, id, frequency))
    ensures Posting(WithPosting(p, term, id, frequency), t, d) == if t == term && d == id then Some(frequency) else Posting(p, t, d)
  {
    var q := WithPosting(p, term, id, frequency);
    assert id in q[term];
    forall u ensures NotEmpty(q, u) { assert NotEmpty(p, u); }
  }

  lemma WithoutPostingIs(p: Postings, term: Term, id: DocId, t: Term, d: DocId)
    requires Tidy(p)
    ensures Tidy(WithoutPosting(p, term, id))
    ensures Posting(WithoutPosting(p, term, id), t, d) == if t == term && d == id then None else Posting(p, t, d)
  {
    var q := WithoutPosting(p, term, id);
    forall u ensures NotEmpty(q, u) { assert NotEmpty(p, u); }
    if term in p && |p[term] - {id}| == 0 {
      assert (p[term] - {id}).Keys == {};
      assert forall e :: e in p[term] && e != id ==> e in (p[term] - {id}).Keys;
    }
  }

  // ---------- The index mirrors its documents ----------

  datatype Stored = Stored(length: real, boost: real, terms: seq<Term>)

  type Corpus = map<DocId, Text>

  /** What a posting should be, going by the documents alone. */
  ghost function Expected(corpus: Corpus, term: Term, id: DocId): Option<real> {
    if id in corpus && Occurs(corpus[id].occurrences, term) then Some(Frequency(corpus[id].occurrences, term)) else None
  }

  ghost predicate PostingAt(p: Postings, corpus: Corpus, term: Term, id: DocId) {
    Posting(p, term, id) == Expected(corpus, term, id)
  }

  ghost predicate PostingsMirror(p: Postings, corpus: Corpus) {
    Tidy(p) && forall term, id {:trigger PostingAt(p, corpus, term, id)} :: PostingAt(p, corpus, term, id)
  }

  ghost predicate ListsTerm(terms: seq<Term>, text: seq<Occurrence>, term: Term) {
    term in terms <==> Occurs(text, term)
  }

  ghost predicate StoredAt(documents: map<DocId, Stored>, corpus: Corpus, id: DocId) {
    && (id in documents <==> id in corpus)
    && (id in documents ==>
          && documents[id].length == Length(corpus[id].occurrences) && documents[id].boost == corpus[id].boost
          && forall term {:trigger ListsTerm(documents[id].terms, corpus[id].occurrences, term)} ::
               ListsTerm(documents[id].terms, corpus[id].occurrences, term))
  }

  ghost predicate DocumentsMirror(documents: map<DocId, Stored>, corpus: Corpus) {
    forall id {:trigger StoredAt(documents, corpus, id)} :: StoredAt(documents, corpus, id)
  }

  /** The lengths of the listed documents. */
  ghost function TotalLength(order: seq<DocId>, corpus: Corpus): real
    requires Lists(order, corpus.Keys)
  {
    if order == [] then 0.0
    else
      var last := order[|order| - 1];
      assert (corpus - {last}).Keys == corpus.Keys - {last};
      TotalLength(order[..|order| - 1], corpus - {last}) + Length(corpus[last].occurrences)
  }

  /** The index is determined by the documents: two that mirror the same ones have the same posting lists. */
  lemma SameDocumentsSameIndex(p: Postings, q: Postings, corpus: Corpus)
    requires PostingsMirror(p, corpus) && PostingsMirror(q, corpus)
    ensures p == q
  {
    forall term
      ensures term in p <==> term in q
      ensures term in p && term in q ==> p[term] == q[term]
    {
      forall id
        ensures Posting(p, term, id) == Posting(q, term, id)
      {
        assert PostingAt(p, corpus, term, id) && PostingAt(q, corpus, term, id);
      }
      assert NotEmpty(p, term) && NotEmpty(q, term);
      if term in p {
        var id :| id in p[term];
        assert Posting(p, term, id) == Posting(q, term, id);
      }
      if term in q {
        var id :| id in q[term];
        assert Posting(p, term, id) == Posting(q, term, id);
      }
      if term in p && term in q {
        forall id ensures id in p[term] <==> id in q[term] { assert Posting(p, term, id) == Posting(q, term, id); }
        forall id | id in p[term] ensures p[term][id] == q[term][id] { assert Posting(p, term, id) == Posting(q, term, id); }
      }
    }
  }

  // ---------- Removing and adding ----------

  ghost predicate DroppedAt(p: Postings, q: Postings, terms: seq<Term>, id: DocId, term: Term, d: DocId) {
    Posting(q, term, d) == if d == id && term in terms then None else Posting(p, term, d)
  }

  method DropPostings(p: Postings, terms: seq<Term>, id: DocId) returns (q: Postings)
    requires Tidy(p)
    ensures Tidy(q) && forall term, d {:trigger DroppedAt(p, q, terms, id, term, d)} :: DroppedAt(p, q, terms, id, term, d)
  {
    q := p;
    for i := 0 to |terms|
      invariant Tidy(q) && forall term, d {:trigger DroppedAt(p, q, terms[..i], id, term, d)} :: DroppedAt(p, q, terms[..i], id, term, d)
    {
      ghost var before, done, next := q, terms[..i], terms[..i + 1];
      q := WithoutPosting(q, terms[i], id);
      assert next == done + [terms[i]];
      WithoutPostingIs(before, terms[i], id, terms[i], id);
      forall term, d
        ensures DroppedAt(p, q, next, id, term, d)
      {
        assert DroppedAt(p, before, done, id, term, d);
        WithoutPostingIs(before, terms[i], id, term, d);
      }
    }
    assert terms[..|terms|] == terms;
  }

  ghost predicate AddedAt(p: Postings, q: Postings, keys: seq<Term>, frequencies: map<Term, real>, id: DocId, term: Term, d: DocId) {
    Posting(q, term, d) == if d == id && term in keys && term in frequencies then Some(frequencies[term]) else Posting(p, term, d)
  }

  method AddPostings(p: Postings, keys: seq<Term>, frequencies: map<Term, real>, id: DocId) returns (q: Postings)
    requires Tidy(p) && forall k :: 0 <= k < |keys| ==> keys[k] in frequencies
    ensures Tidy(q)
    ensures forall term, d {:trigger AddedAt(p, q, keys, frequencies, id, term, d)} :: AddedAt(p, q, keys, frequencies, id, term, d)
  {
    q := p;
    for i := 0 to |keys|
      invariant Tidy(q)
      invariant forall term, d {:trigger AddedAt(p, q, keys[..i], frequencies, id, term, d)} :: AddedAt(p, q, keys[..i], frequencies, id, term, d)
    {
      ghost var before, done, next := q, keys[..i], keys[..i + 1];
      q := WithPosting(q, keys[i], id, frequencies[keys[i]]);
      assert next == done + [keys[i]];
      WithPostingIs(before, keys[i], id, frequencies[keys[i]], keys[i], id);
      forall term, d
        ensures AddedAt(p, q, next, frequencies, id, term, d)
      {
        assert AddedAt(p, before, done, frequencies, id, term, d);
        WithPostingIs(before, keys[i], id, frequencies[keys[i]], term, d);
      }
    }
    assert keys[..|keys|] == keys;
  }

  lemma PostingsAfterDrop(p: Postings, q: Postings, corpus: Corpus, terms: seq<Term>, id: DocId)
    requires PostingsMirror(p, corpus) && id in corpus && Tidy(q)
    requires forall term {:trigger ListsTerm(terms, corpus[id].occurrences, term)} :: ListsTerm(terms, corpus[id].occurrences, term)
    requires forall term, d {:trigger DroppedAt(p, q, terms, id, term, d)} :: DroppedAt(p, q, terms, id, term, d)
    ensures PostingsMirror(q, corpus - {id})
  {
    var smaller := corpus - {id};
    forall term, d
      ensures PostingAt(q, smaller, term, d)
    {
      assert DroppedAt(p, q, terms, id, term, d) && PostingAt(p, corpus, term, d) && ListsTerm(terms, corpus[id].occurrences, term);
    }
  }

  lemma PostingsAfterAdd(p: Postings, q: Postings, corpus: Corpus, c: Counts, id: DocId, text: Text)
    requires PostingsMirror(p, corpus) && id !in corpus && Tidy(q) && Counted(c, text.occurrences)
    requires forall term, d {:trigger AddedAt(p, q, c.keys, c.frequencies, id, term, d)} :: AddedAt(p, q, c.keys, c.frequencies, id, term, d)
    ensures PostingsMirror(q, corpus[id := text])
  {
    ListsDistinct(c.keys, c.frequencies.Keys);
    var bigger := corpus[id := text];
    forall term, d
      ensures PostingAt(q, bigger, term, d)
    {
      assert AddedAt(p, q, c.keys, c.frequencies, id, term, d) && PostingAt(p, corpus, term, d);
      assert CountedAt(c.frequencies, text.occurrences, term);
    }
  }

  lemma DocumentsAfterDrop(documents: map<DocId, Stored>, corpus: Corpus, id: DocId)
    requires DocumentsMirror(documents, corpus)
    ensures DocumentsMirror(documents - {id}, corpus - {id})
  {
    var documents', corpus' := documents - {id}, corpus - {id};
    forall d
      ensures StoredAt(documents', corpus', d)
    {
      assert StoredAt(documents, corpus, d);
    }
  }

  lemma DocumentsAfterAdd(documents: map<DocId, Stored>, corpus: Corpus, c: Counts, id: DocId, text: Text)
    requires DocumentsMirror(documents, corpus) && Counted(c, text.occurrences)
    ensures DocumentsMirror(documents[id := Stored(c.length, text.boost, c.keys)], corpus[id := text])
  {
    ListsDistinct(c.keys, c.frequencies.Keys);
    var documents', corpus' := documents[id := Stored(c.length, text.boost, c.keys)], corpus[id := text];
    forall d
      ensures StoredAt(documents', corpus', d)
    {
      assert StoredAt(documents, corpus, d);
      forall term
        ensures ListsTerm(c.keys, text.occurrences, term)
      {
        assert CountedAt(c.frequencies, text.occurrences, term);
      }
    }
  }

  // ---------- The total length ----------

  ghost function OrderWithout(order: seq<DocId>, id: DocId): seq<DocId> {
    if order == [] then []
    else if order[|order| - 1] == id then order[..|order| - 1]
    else OrderWithout(order[..|order| - 1], id) + [order[|order| - 1]]
  }

  lemma {:induction false} TotalWithout(order: seq<DocId>, corpus: Corpus, id: DocId)
    requires Lists(order, corpus.Keys) && id in corpus
    ensures (corpus - {id}).Keys == corpus.Keys - {id}
    ensures Lists(OrderWithout(order, id), (corpus - {id}).Keys)
    ensures TotalLength(OrderWithout(order, id), corpus - {id}) == TotalLength(order, corpus) - Length(corpus[id].occurrences)
    decreases |order|
  {
    assert (corpus - {id}).Keys == corpus.Keys - {id};
    var n := |order| - 1;
    var last := order[n];
    if last != id {
      var front := order[..n];
      assert (corpus - {last}).Keys == corpus.Keys - {last};
      TotalWithout(front, corpus - {last}, id);
      var rest := OrderWithout(front, id);
      assert corpus - {last} - {id} == corpus - {id} - {last};
      assert (corpus - {id} - {last}).Keys + {last} == (corpus - {id}).Keys;
      ListsAppend(rest, (corpus - {id} - {last}).Keys, last);
      assert (rest + [last])[..|rest|] == rest;
    }
  }

  lemma TotalWith(order: seq<DocId>, corpus: Corpus, id: DocId, text: Text)
    requires Lists(order, corpus.Keys) && id !in corpus
    ensures Lists(order + [id], corpus[id := text].Keys)
    ensures TotalLength(order + [id], corpus[id := text]) == TotalLength(order, corpus) + Length(text.occurrences)
  {
    var bigger := corpus[id := text];
    assert bigger.Keys == corpus.Keys + {id};
    ListsAppend(order, corpus.Keys, id);
    assert (order + [id])[..|order|] == order && bigger - {id} == corpus;
  }

  // ---------- The class ----------

  class InvertedIndex {
    var postings: Postings
    var documents: map<DocId, Stored>
    var totalLength: real
    /** The documents, and the order in which they were put in. */
    ghost var corpus: Corpus
    ghost var order: seq<DocId>

    ghost predicate Valid()
      reads this
    {
      && PostingsMirror(postings, corpus) && DocumentsMirror(documents, corpus)
      && Lists(order, corpus.Keys) && totalLength == TotalLength(order, corpus)
    }

    constructor ()
      ensures Valid() && corpus == map[]
    {
      postings, documents, totalLength := map[], map[], 0.0;
      corpus, order := map[], [];
      new;
      forall term, id ensures PostingAt(postings, corpus, term, id) {}
      forall term ensures NotEmpty(postings, term) {}
      forall id ensures StoredAt(documents, corpus, id) {}
    }

    method Remove(id: DocId) returns (removed: bool)
      requires Valid()
      modifies this
      ensures Valid() && corpus == old(corpus) - {id}
      ensures removed <==> id in old(corpus)
    {
      assert StoredAt(documents, corpus, id);
      if id !in documents {
        assert corpus - {id} == corpus;
        return false;
      }
      var stored := documents[id];
      var q := DropPostings(postings, stored.terms, id);
      PostingsAfterDrop(postings, q, corpus, stored.terms, id);
      DocumentsAfterDrop(documents, corpus, id);
      TotalWithout(order, corpus, id);
      postings := q;
      totalLength := totalLength - stored.length;
      documents := documents - {id};
      corpus, order := corpus - {id}, OrderWithout(order, id);
      removed := true;
    }

    /** The index becomes that of the documents with this one put in or replaced, so adding it again changes nothing. */
    method Add(document: Document)
      requires Valid()
      modifies this
      ensures Valid() && corpus == old(corpus)[document.id := TextOf(document)]
    {
      var _ := Remove(document.id);
      ghost var text := TextOf(document);
      var c := CountTerms(document.fields);
      ListsDistinct(c.keys, c.frequencies.Keys);
      var q := AddPostings(postings, c.keys, c.frequencies, document.id);
      PostingsAfterAdd(postings, q, corpus, c, document.id, text);
      DocumentsAfterAdd(documents, corpus, c, document.id, text);
      TotalWith(order, corpus, document.id, text);
      postings := q;
      documents := documents[document.id := Stored(c.length, document.boost, c.keys)];
      totalLength := totalLength + c.length;
      corpus, order := corpus[document.id := text], order + [document.id];
    }

    method Clear()
      modifies this
      ensures Valid() && corpus == map[]
    {
      postings, documents, totalLength := map[], map[], 0.0;
      corpus, order := map[], [];
      forall term, id ensures PostingAt(postings, corpus, term, id) {}
      forall term ensures NotEmpty(postings, term) {}
      forall id ensures StoredAt(documents, corpus, id) {}
    }
  }
}
