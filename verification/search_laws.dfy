/** packages/algorithms/src/inverted-index.ts: what the score of a search hit depends on, and how. */
module SearchLaws {
  import opened Basics
  import opened IndexSearch
  import opened InvertedIndexes

  // ---------- Quotients ----------

  lemma Clear(x: real, y: real)
    requires y > 0.0
    ensures (x / y) * y == x
  {
  }

  /** Fractions with positive denominators are compared crosswise. */
  lemma Crosswise(a: real, x: real, b: real, y: real)
    requires x > 0.0 && y > 0.0
    ensures a / x < b / y <==> a * y < b * x
    ensures a / x == b / y <==> a * y == b * x
  {
    var p, q := a / x, b / y;
    Clear(a, x);
    Clear(b, y);
    ProductPositive(x, y);
    assert a * y == p * (x * y) && b * x == q * (x * y);
    if p < q { ProductPositive(q - p, x * y); assert (q - p) * (x * y) == q * (x * y) - p * (x * y); }
    if q < p { ProductPositive(p - q, x * y); assert (p - q) * (x * y) == p * (x * y) - q * (x * y); }
  }

  lemma IsQuotient(q: real, x: real, y: real)
    requires y > 0.0 && q * y == x
    ensures q == x / y
  {
    var z := x / y;
    Clear(x, y);
    SameFactor(q, z, y);
  }

  lemma OnePlus(x: real, y: real)
    requires y > 0.0
    ensures 1.0 + x / y == (y + x) / y
  {
    Clear(x, y);
    IsQuotient(1.0 + x / y, y + x, y);
  }

  lemma ProductPositive(x: real, y: real)
    requires x > 0.0 && y > 0.0
    ensures x * y > 0.0
  {
  }

  // ---------- The weight of a term ----------

  /** A logarithm as far as ranking cares: increasing, and zero at one. */
  ghost predicate Increasing(log: real -> real) {
    forall x: real, y: real {:trigger log(x), log(y)} :: 0.0 < x < y ==> log(x) < log(y)
  }

  lemma IdfIsLog(p: Params, documents: nat, matching: nat)
    requires 0 < matching <= documents
    ensures var x := (documents as real + 1.0) / (matching as real + 0.5);
            x > 1.0 && Idf(p, documents, matching) == p.log(x)
  {
    var n, m := documents as real, matching as real;
    OnePlus(n - m + 0.5, m + 0.5);
    assert m + 0.5 + (n - m + 0.5) == n + 1.0;
    Crosswise(1.0, 1.0, n + 1.0, m + 0.5);
  }

  lemma LargerBelow(a: real, x: real, y: real)
    requires a > 0.0 && 0.0 < x < y
    ensures a / y < a / x
  {
    ProductPositive(a, y - x);
    assert a * y - a * x == a * (y - x);
    Crosswise(a, y, a, x);
  }

  lemma LargerAbove(a: real, b: real, x: real)
    requires a < b && x > 0.0
    ensures a / x < b / x
  {
    ProductPositive(b - a, x);
    Crosswise(a, x, b, x);
  }

  lemma LogGrows(p: Params, x: real, y: real)
    requires Increasing(p.log) && 0.0 < x < y
    ensures p.log(x) < p.log(y)
  {
  }

  /** The fewer documents a term occurs in, the more it weighs... */
  lemma RareTermsWeighMore(p: Params, documents: nat, few: nat, many: nat)
    requires Increasing(p.log) && 0 < few < many <= documents
    ensures Idf(p, documents, few) > Idf(p, documents, many)
  {
    var n := documents as real + 1.0;
    IdfIsLog(p, documents, few);
    IdfIsLog(p, documents, many);
    LargerBelow(n, few as real + 0.5, many as real + 0.5);
    LogGrows(p, n / (many as real + 0.5), n / (few as real + 0.5));
  }

  /** ...and the more documents there are; it always weighs something. */
  lemma TermsWeighMoreAmongMore(p: Params, documents: nat, more: nat, matching: nat)
    requires Increasing(p.log) && 0 < matching <= documents < more
    ensures Idf(p, documents, matching) < Idf(p, more, matching)
    ensures p.log(1.0) == 0.0 ==> Idf(p, documents, matching) > 0.0
  {
    var m := matching as real + 0.5;
    IdfIsLog(p, documents, matching);
    IdfIsLog(p, more, matching);
    LargerAbove(documents as real + 1.0, more as real + 1.0, m);
    LogGrows(p, (documents as real + 1.0) / m, (more as real + 1.0) / m);
    LogGrows(p, 1.0, (documents as real + 1.0) / m);
  }

  /** A term in half of the documents weighs log 2, and one in no document nothing. */
  lemma TermInHalfTheDocuments(p: Params, matching: nat)
    ensures Idf(p, 2 * matching, matching) == if matching > 0 then p.log(2.0) else 0.0
  {
    if matching > 0 {
      var m := matching as real;
      assert (2 * matching) as real == 2.0 * m;
      assert 2.0 * m - m + 0.5 == m + 0.5;
      IsQuotient(1.0, m + 0.5, m + 0.5);
    }
  }

  // ---------- One term in one document ----------

  lemma {:induction false} FrequencyWithinLength(text: seq<Occurrence>, term: Term)
    requires PositiveText(text)
    ensures 0.0 <= Frequency(text, term) <= Length(text) && (Occurs(text, term) ==> Frequency(text, term) > 0.0)
  {
    if text != [] { FrequencyWithinLength(text[..|text| - 1], term); }
  }

  /** How often the document has the term, and how long it is, both weighted by field. */
  ghost function FrequencyIn(corpus: Corpus, term: Term, id: DocId): real
    requires id in corpus
  {
    Frequency(corpus[id].occurrences, term)
  }

  ghost function LengthOf(corpus: Corpus, id: DocId): real
    requires id in corpus
  {
    Length(corpus[id].occurrences)
  }

  ghost function IdfIn(p: Params, corpus: Corpus, term: Term): real {
    Idf(p, |corpus|, |Matching(corpus, term)|)
  }

  /** What enters the score of a document for a term: the weight of the term, and its frequency and the length of the document. */
  lemma Scored(p: Params, corpus: Corpus, average: real, term: Term, id: DocId)
    requires ValidParams(p) && Positive(corpus) && average > 0.0 && Has(corpus, term, id)
    ensures FrequencyIn(corpus, term, id) > 0.0 && LengthOf(corpus, id) > 0.0
    ensures TermScore(p, corpus, average, term, id)
            == Contribution(p, IdfIn(p, corpus, term), FrequencyIn(corpus, term, id), LengthOf(corpus, id), average)
  {
    assert PositiveAt(corpus, id);
    FrequencyWithinLength(corpus[id].occurrences, term);
  }

  // ---------- The formula ----------

  /** n is the share of the saturation constant k1 that the length of a document makes up, and d the denominator. */
  ghost predicate Shape(k1: real, b: real, f: real, length: real, average: real, n: real, d: real) {
    && n > 0.0 && n * average == (1.0 - b) * average + b * length && (length == average || b == 0.0 ==> n == 1.0)
    && d == f + k1 * n && d > 0.0
  }

  lemma ShapeOf(k1: real, b: real, f: real, length: real, average: real) returns (n: real, d: real)
    requires k1 >= 0.0 && 0.0 <= b <= 1.0 && f > 0.0 && length > 0.0 && average > 0.0
    ensures Shape(k1, b, f, length, average, n, d)
  {
    n := 1.0 - b + b * (length / average);
    NormAt(b, length, average, n);
    NotNegative(k1, n);
    d := f + k1 * n;
  }

  /** The score s is the fraction of this shape; top is the most that a term can add. */
  ghost predicate IsScore(k1: real, b: real, top: real, f: real, length: real, average: real, s: real) {
    forall n: real, d: real {:trigger Shape(k1, b, f, length, average, n, d)} ::
      Shape(k1, b, f, length, average, n, d) ==> s == (top * f) / d
  }

  lemma ContributionIsScore(p: Params, w: real, f: real, length: real, average: real)
    requires ValidParams(p) && f > 0.0 && length > 0.0 && average > 0.0
    ensures IsScore(p.k1, p.b, w * (p.k1 + 1.0), f, length, average, Contribution(p, w, f, length, average))
  {
    var s := ScoreOf(p, p.k1, w * (p.k1 + 1.0), w, f, length, average);
  }

  lemma ScoreOf(p: Params, k1: real, top: real, w: real, f: real, length: real, average: real) returns (s: real)
    requires ValidParams(p) && p.k1 == k1 && top == w * (k1 + 1.0) && f > 0.0 && length > 0.0 && average > 0.0
    ensures s == Contribution(p, w, f, length, average) && IsScore(k1, p.b, top, f, length, average, s)
  {
    s := Contribution(p, w, f, length, average);
    forall n: real, d: real | Shape(k1, p.b, f, length, average, n, d) ensures s == (top * f) / d {
      NormalisationIs(p, length, average, n);
      Regrouped(w, f, k1, top);
    }
  }

  lemma Regrouped(w: real, f: real, k1: real, top: real)
    requires top == w * (k1 + 1.0)
    ensures w * (f * (k1 + 1.0)) == top * f
  {
  }

  lemma NormalisationIs(p: Params, length: real, average: real, n: real)
    requires ValidParams(p) && length > 0.0 && average > 0.0 && n * average == (1.0 - p.b) * average + p.b * length
    ensures n == Normalisation(p, length, average)
  {
    NormAt(p.b, length, average, Normalisation(p, length, average));
    SameFactor(n, Normalisation(p, length, average), average);
  }

  lemma NotNegative(x: real, y: real)
    requires x >= 0.0 && y >= 0.0
    ensures x * y >= 0.0
  {
  }

  lemma NormAt(b: real, length: real, average: real, n: real)
    requires 0.0 <= b <= 1.0 && length > 0.0 && average > 0.0 && n == 1.0 - b + b * (length / average)
    ensures n > 0.0 && n * average == (1.0 - b) * average + b * length
    ensures (length == average || b == 0.0) ==> n == 1.0
  {
    var q := length / average;
    Clear(length, average);
    if length == average { IsQuotient(1.0, length, average); }
    if q <= 0.0 { NotPositive(q, average); }
    if b > 0.0 { ProductPositive(b, q); }
    assert n * average == (1.0 - b) * average + b * (q * average);
  }

  lemma NotPositive(q: real, x: real)
    requires q <= 0.0 && x > 0.0
    ensures q * x <= 0.0
  {
  }

  /** Fractions scaled alike compare as their crosswise products. */
  lemma CrossScale(w: real, f: real, d: real, g: real, e: real)
    requires d > 0.0 && e > 0.0
    ensures f * e == g * d ==> (w * f) / d == (w * g) / e
    ensures f * e < g * d && w > 0.0 ==> (w * f) / d < (w * g) / e
  {
    assert (w * f) * e == w * (f * e) && (w * g) * d == w * (g * d);
    if f * e < g * d && w > 0.0 {
      ProductPositive(w, g * d - f * e);
      assert w * (g * d - f * e) == w * (g * d) - w * (f * e);
    }
    Crosswise(w * f, d, w * g, e);
  }

  lemma SameShareSameScore(p: Params, q: Params, w: real, f: real, x: real, y: real, average: real)
    requires ValidParams(p) && ValidParams(q) && p.k1 == q.k1 && f > 0.0 && x > 0.0 && y > 0.0 && average > 0.0
    requires (p.b == 0.0 && q.b == 0.0) || (x == average && y == average)
    ensures Contribution(p, w, f, x, average) == Contribution(q, w, f, y, average)
  {
    var top := w * (p.k1 + 1.0);
    var s := ScoreOf(p, p.k1, top, w, f, x, average);
    var t := ScoreOf(q, p.k1, top, w, f, y, average);
    SameShare(p.k1, p.b, q.b, top, f, x, y, average, s, t);
  }

  lemma SameShare(k1: real, b: real, c: real, w: real, f: real, x: real, y: real, average: real, s: real, t: real)
    requires k1 >= 0.0 && 0.0 <= b <= 1.0 && 0.0 <= c <= 1.0 && f > 0.0 && x > 0.0 && y > 0.0 && average > 0.0
    requires (b == 0.0 && c == 0.0) || (x == average && y == average)
    requires IsScore(k1, b, w, f, x, average, s) && IsScore(k1, c, w, f, y, average, t)
    ensures s == t
  {
    var m, d := ShapeOf(k1, b, f, x, average);
    var n, e := ShapeOf(k1, c, f, y, average);
    assert m == n == 1.0 && d == e;
  }

  lemma SameDensity(f: real, m: real, x: real, g: real, n: real, y: real, average: real)
    requires average > 0.0 && m * average == x && n * average == y && f * y == g * x
    ensures f * n == g * m
  {
    assert (f * n) * average == f * (n * average) && (g * m) * average == g * (m * average);
    SameFactor(f * n, g * m, average);
  }

  lemma SameProportion(f: real, d: real, g: real, e: real, k1: real, m: real, n: real)
    requires d == f + k1 * m && e == g + k1 * n && f * n == g * m
    ensures f * e == g * d
  {
    assert f * e == f * g + k1 * (f * n) && g * d == g * f + k1 * (g * m);
  }

  lemma DensityDecides(p: Params, w: real, f: real, x: real, g: real, y: real, average: real)
    requires ValidParams(p) && p.b == 1.0 && f > 0.0 && g > 0.0 && x > 0.0 && y > 0.0 && average > 0.0 && f * y == g * x
    ensures Contribution(p, w, f, x, average) == Contribution(p, w, g, y, average)
  {
    ContributionIsScore(p, w, f, x, average);
    ContributionIsScore(p, w, g, y, average);
    Dense(p.k1, w * (p.k1 + 1.0), f, x, g, y, average, Contribution(p, w, f, x, average), Contribution(p, w, g, y, average));
  }

  lemma Dense(k1: real, top: real, f: real, x: real, g: real, y: real, average: real, s: real, t: real)
    requires k1 >= 0.0 && f > 0.0 && g > 0.0 && x > 0.0 && y > 0.0 && average > 0.0 && f * y == g * x
    requires IsScore(k1, 1.0, top, f, x, average, s) && IsScore(k1, 1.0, top, g, y, average, t)
    ensures s == t
  {
    var m, d := ShapeOf(k1, 1.0, f, x, average);
    var n, e := ShapeOf(k1, 1.0, g, y, average);
    DenseAt(k1, top, f, x, m, d, g, y, n, e, average);
  }

  lemma DenseAt(k1: real, top: real, f: real, x: real, m: real, d: real, g: real, y: real, n: real, e: real, average: real)
    requires average > 0.0 && Shape(k1, 1.0, f, x, average, m, d) && Shape(k1, 1.0, g, y, average, n, e) && f * y == g * x
    ensures (top * f) / d == (top * g) / e
  {
    SameDensity(f, m, x, g, n, y, average);
    SameProportion(f, d, g, e, k1, m, n);
    CrossScale(top, f, d, g, e);
  }

  lemma MoreOfIt(f: real, g: real, k1: real, n: real, d: real, e: real)
    requires k1 > 0.0 && n > 0.0 && f < g && d == f + k1 * n && e == g + k1 * n
    ensures f * e < g * d
  {
    ProductPositive(k1, n);
    ProductPositive(k1 * n, g - f);
    assert f * e == f * g + f * (k1 * n) && g * d == g * f + g * (k1 * n);
    assert (k1 * n) * (g - f) == g * (k1 * n) - f * (k1 * n);
  }

  lemma FrequencyRaises(p: Params, w: real, f: real, g: real, length: real, average: real)
    requires ValidParams(p) && p.k1 > 0.0 && w > 0.0 && 0.0 < f < g && length > 0.0 && average > 0.0
    ensures Contribution(p, w, f, length, average) < Contribution(p, w, g, length, average)
  {
    ProductPositive(w, p.k1 + 1.0);
    ContributionIsScore(p, w, f, length, average);
    ContributionIsScore(p, w, g, length, average);
    Raised(p.k1, p.b, w * (p.k1 + 1.0), length, average, f, g, Contribution(p, w, f, length, average), Contribution(p, w, g, length, average));
  }

  lemma Raised(k1: real, b: real, top: real, length: real, average: real, f: real, g: real, s: real, t: real)
    requires k1 > 0.0 && 0.0 <= b <= 1.0 && top > 0.0 && 0.0 < f < g && length > 0.0 && average > 0.0
    requires IsScore(k1, b, top, f, length, average, s) && IsScore(k1, b, top, g, length, average, t)
    ensures s < t
  {
    var m, d := ShapeOf(k1, b, f, length, average);
    var n, e := ShapeOf(k1, b, g, length, average);
    RaisedAt(k1, b, top, length, average, f, m, d, g, n, e);
  }

  lemma RaisedAt(k1: real, b: real, top: real, length: real, average: real, f: real, m: real, d: real, g: real, n: real, e: real)
    requires k1 > 0.0 && top > 0.0 && f < g && average > 0.0
    requires Shape(k1, b, f, length, average, m, d) && Shape(k1, b, g, length, average, n, e)
    ensures (top * f) / d < (top * g) / e
  {
    SameFactor(m, n, average);
    MoreOfIt(f, g, k1, n, d, e);
    CrossScale(top, f, d, g, e);
  }

  lemma LargerDenominator(f: real, k1: real, m: real, d: real, n: real, e: real)
    requires f > 0.0 && k1 > 0.0 && m > n && d == f + k1 * m && e == f + k1 * n
    ensures f * e < f * d
  {
    ProductPositive(k1, m - n);
    assert d - e == k1 * (m - n);
    ProductPositive(f, d - e);
    assert f * (d - e) == f * d - f * e;
  }

  lemma LongerHasMore(b: real, m: real, x: real, n: real, y: real, average: real)
    requires average > 0.0 && b > 0.0 && x > y
    requires m * average == (1.0 - b) * average + b * x && n * average == (1.0 - b) * average + b * y
    ensures m > n
  {
    ProductPositive(b, x - y);
    assert (m - n) * average == b * (x - y);
    if m <= n { NotPositive(m - n, average); }
  }

  lemma LengthLowers(p: Params, w: real, f: real, x: real, y: real, average: real)
    requires ValidParams(p) && p.k1 > 0.0 && p.b > 0.0 && w > 0.0 && f > 0.0 && x > y > 0.0 && average > 0.0
    ensures Contribution(p, w, f, x, average) < Contribution(p, w, f, y, average)
  {
    ProductPositive(w, p.k1 + 1.0);
    ContributionIsScore(p, w, f, x, average);
    ContributionIsScore(p, w, f, y, average);
    Lowered(p.k1, p.b, w * (p.k1 + 1.0), f, average, x, y, Contribution(p, w, f, x, average), Contribution(p, w, f, y, average));
  }

  lemma Lowered(k1: real, b: real, top: real, f: real, average: real, x: real, y: real, s: real, t: real)
    requires k1 > 0.0 && 0.0 < b <= 1.0 && top > 0.0 && f > 0.0 && x > y > 0.0 && average > 0.0
    requires IsScore(k1, b, top, f, x, average, s) && IsScore(k1, b, top, f, y, average, t)
    ensures s < t
  {
    var m, d := ShapeOf(k1, b, f, x, average);
    var n, e := ShapeOf(k1, b, f, y, average);
    LoweredAt(k1, b, top, f, average, x, m, d, y, n, e);
  }

  lemma LoweredAt(k1: real, b: real, top: real, f: real, average: real, x: real, m: real, d: real, y: real, n: real, e: real)
    requires k1 > 0.0 && b > 0.0 && top > 0.0 && f > 0.0 && x > y && average > 0.0
    requires Shape(k1, b, f, x, average, m, d) && Shape(k1, b, f, y, average, n, e)
    ensures (top * f) / d < (top * f) / e
  {
    LongerHasMore(b, m, x, n, y, average);
    LargerDenominator(f, k1, m, d, n, e);
    CrossScale(top, f, d, f, e);
  }

  lemma NoSaturation(p: Params, w: real, f: real, length: real, average: real)
    requires ValidParams(p) && f > 0.0 && length > 0.0 && average > 0.0
    requires p.k1 == 0.0 || (f == 1.0 && length == average)
    ensures Contribution(p, w, f, length, average) == w
  {
    ContributionIsScore(p, w, f, length, average);
    Unsaturated(p.k1, p.b, w, f, length, average, Contribution(p, w, f, length, average));
  }

  lemma Unsaturated(k1: real, b: real, w: real, f: real, length: real, average: real, s: real)
    requires k1 >= 0.0 && 0.0 <= b <= 1.0 && f > 0.0 && length > 0.0 && average > 0.0
    requires IsScore(k1, b, w * (k1 + 1.0), f, length, average, s)
    requires k1 == 0.0 || (f == 1.0 && length == average)
    ensures s == w
  {
    var n, d := ShapeOf(k1, b, f, length, average);
    assert (w * (k1 + 1.0)) * f == w * d;
    IsQuotient(w, w * d, d);
  }

  lemma BelowSaturation(p: Params, w: real, f: real, length: real, average: real)
    requires ValidParams(p) && p.k1 > 0.0 && w > 0.0 && f > 0.0 && length > 0.0 && average > 0.0
    ensures 0.0 < Contribution(p, w, f, length, average) < w * (p.k1 + 1.0)
    ensures f == p.k1 && length == average ==> 2.0 * Contribution(p, w, f, length, average) == w * (p.k1 + 1.0)
  {
    ProductPositive(w, p.k1 + 1.0);
    ContributionIsScore(p, w, f, length, average);
    Saturating(p.k1, p.b, w * (p.k1 + 1.0), f, length, average, Contribution(p, w, f, length, average));
  }

  lemma Saturating(k1: real, b: real, top: real, f: real, length: real, average: real, s: real)
    requires k1 > 0.0 && 0.0 <= b <= 1.0 && top > 0.0 && f > 0.0 && length > 0.0 && average > 0.0
    requires IsScore(k1, b, top, f, length, average, s)
    ensures 0.0 < s < top
    ensures f == k1 && length == average ==> 2.0 * s == top
  {
    var n, d := ShapeOf(k1, b, f, length, average);
    SaturatingAt(k1, top, f, n, d);
  }

  lemma SaturatingAt(k1: real, top: real, f: real, n: real, d: real)
    requires k1 > 0.0 && top > 0.0 && f > 0.0 && n > 0.0 && d == f + k1 * n
    ensures 0.0 < (top * f) / d < top
    ensures f == k1 && n == 1.0 ==> 2.0 * ((top * f) / d) == top
  {
    ProductPositive(k1, n);
    Between(top, f, d);
    if f == k1 && n == 1.0 { Half(top, f, d); }
  }

  lemma Between(top: real, f: real, d: real)
    requires top > 0.0 && 0.0 < f < d
    ensures 0.0 < (top * f) / d < top
  {
    ProductPositive(top, f);
    Crosswise(0.0, 1.0, top * f, d);
    ProductPositive(top, d - f);
    assert top * (d - f) == top * d - top * f;
    Crosswise(top * f, d, top, 1.0);
  }

  lemma Half(top: real, f: real, d: real)
    requires f > 0.0 && d == 2.0 * f
    ensures 2.0 * ((top * f) / d) == top
  {
    IsQuotient(top / 2.0, top * f, d);
  }

  lemma Mixed(b: real, f: real, k1: real, n0: real, n1: real, n: real, average: real, length: real)
    requires average > 0.0 && n0 == 1.0 && n1 * average == length && n * average == (1.0 - b) * average + b * length
    ensures f + k1 * n == (1.0 - b) * (f + k1 * n0) + b * (f + k1 * n1)
  {
    assert ((1.0 - b) * n0 + b * n1) * average == (1.0 - b) * average + b * (n1 * average);
    SameFactor(n, (1.0 - b) * n0 + b * n1, average);
  }

  lemma Interpolated(w: real, b: real, d0: real, d1: real, d: real)
    requires d0 > 0.0 && d1 > 0.0 && d > 0.0 && d == (1.0 - b) * d0 + b * d1
    ensures (w / d0) * (w / d1) == (w / d) * ((1.0 - b) * (w / d1) + b * (w / d0))
  {
    var s0, s1, s := w / d0, w / d1, w / d;
    Clear(w, d0);
    Clear(w, d1);
    Clear(w, d);
    MixedProducts(w, b, s0, d0, s1, d1, s, d);
    ProductPositive(d0, d1);
    SameFactor(s0 * s1, s * ((1.0 - b) * s1 + b * s0), d0 * d1);
  }

  lemma MixedProducts(w: real, b: real, s0: real, d0: real, s1: real, d1: real, s: real, d: real)
    requires s0 * d0 == w && s1 * d1 == w && s * d == w && d == (1.0 - b) * d0 + b * d1
    ensures (s0 * s1) * (d0 * d1) == (s * ((1.0 - b) * s1 + b * s0)) * (d0 * d1)
  {
    assert (s0 * s1) * (d0 * d1) == (s0 * d0) * (s1 * d1) == w * w;
    assert ((1.0 - b) * s1 + b * s0) * (d0 * d1) == (1.0 - b) * d0 * (s1 * d1) + b * d1 * (s0 * d0);
    assert (1.0 - b) * d0 * w + b * d1 * w == w * d;
    assert s * (w * d) == w * (s * d);
  }

  lemma Interpolates(p: Params, w: real, f: real, length: real, average: real)
    requires ValidParams(p) && f > 0.0 && length > 0.0 && average > 0.0
    ensures Mixes(p.b, Contribution(p, w, f, length, average), Contribution(p.(b := 0.0), w, f, length, average),
                  Contribution(p.(b := 1.0), w, f, length, average))
  {
    var top := w * (p.k1 + 1.0);
    var s := ScoreOf(p, p.k1, top, w, f, length, average);
    var s0 := ScoreOf(p.(b := 0.0), p.k1, top, w, f, length, average);
    var s1 := ScoreOf(p.(b := 1.0), p.k1, top, w, f, length, average);
    Mix(p.k1, p.b, top, f, length, average, s, s0, s1);
  }

  /** The reciprocal of s lies between those of none and full, at the share b of the way. */
  ghost predicate Mixes(b: real, s: real, none: real, full: real) {
    none * full == s * ((1.0 - b) * full + b * none)
  }

  lemma Mix(k1: real, b: real, top: real, f: real, length: real, average: real, s: real, s0: real, s1: real)
    requires k1 >= 0.0 && 0.0 <= b <= 1.0 && f > 0.0 && length > 0.0 && average > 0.0
    requires IsScore(k1, b, top, f, length, average, s)
    requires IsScore(k1, 0.0, top, f, length, average, s0) && IsScore(k1, 1.0, top, f, length, average, s1)
    ensures Mixes(b, s, s0, s1)
  {
    var n, d := ShapeOf(k1, b, f, length, average);
    var n0, d0 := ShapeOf(k1, 0.0, f, length, average);
    var n1, d1 := ShapeOf(k1, 1.0, f, length, average);
    MixAt(k1, b, top * f, f, length, average, n, d, n0, d0, n1, d1);
  }

  lemma MixAt(k1: real, b: real, w: real, f: real, length: real, average: real, n: real, d: real, n0: real, d0: real, n1: real, d1: real)
    requires average > 0.0 && Shape(k1, b, f, length, average, n, d)
    requires Shape(k1, 0.0, f, length, average, n0, d0) && Shape(k1, 1.0, f, length, average, n1, d1)
    ensures Mixes(b, w / d, w / d0, w / d1)
  {
    Mixed(b, f, k1, n0, n1, n, average, length);
    Interpolated(w, b, d0, d1, d);
  }

  lemma SameFactor(x: real, y: real, z: real)
    requires z > 0.0 && x * z == y * z
    ensures x == y
  {
    if x < y { ProductPositive(y - x, z); }
    if x > y { ProductPositive(x - y, z); }
  }

  // ---------- Laws of the score of a document for a term ----------

  /** Without length normalisation the length of a document does not matter. */
  lemma LengthDoesNotMatterWithoutB(p: Params, corpus: Corpus, average: real, term: Term, x: DocId, y: DocId)
    requires ValidParams(p) && Positive(corpus) && average > 0.0 && Has(corpus, term, x) && Has(corpus, term, y)
    requires p.b == 0.0 && FrequencyIn(corpus, term, x) == FrequencyIn(corpus, term, y)
    ensures TermScore(p, corpus, average, term, x) == TermScore(p, corpus, average, term, y)
  {
    Scored(p, corpus, average, term, x);
    Scored(p, corpus, average, term, y);
    SameShareSameScore(p, p, IdfIn(p, corpus, term), FrequencyIn(corpus, term, x), LengthOf(corpus, x), LengthOf(corpus, y), average);
  }

  /** A document of average length scores the same for every strength of the normalisation. */
  lemma AverageLengthIsNeutral(p: Params, b: real, corpus: Corpus, average: real, term: Term, id: DocId)
    requires ValidParams(p) && 0.0 <= b <= 1.0 && Positive(corpus) && average > 0.0
    requires Has(corpus, term, id) && LengthOf(corpus, id) == average
    ensures TermScore(p, corpus, average, term, id) == TermScore(p.(b := b), corpus, average, term, id)
  {
    Scored(p, corpus, average, term, id);
    Scored(p.(b := b), corpus, average, term, id);
    SameShareSameScore(p, p.(b := b), IdfIn(p, corpus, term), FrequencyIn(corpus, term, id), average, average, average);
  }

  /** With full length normalisation only the density of the term counts. */
  lemma OnlyDensityCountsWithFullB(p: Params, corpus: Corpus, average: real, term: Term, x: DocId, y: DocId)
    requires ValidParams(p) && Positive(corpus) && average > 0.0 && Has(corpus, term, x) && Has(corpus, term, y)
    requires p.b == 1.0 && FrequencyIn(corpus, term, x) * LengthOf(corpus, y) == FrequencyIn(corpus, term, y) * LengthOf(corpus, x)
    ensures TermScore(p, corpus, average, term, x) == TermScore(p, corpus, average, term, y)
  {
    Scored(p, corpus, average, term, x);
    Scored(p, corpus, average, term, y);
    DensityDecides(p, IdfIn(p, corpus, term), FrequencyIn(corpus, term, x), LengthOf(corpus, x),
                   FrequencyIn(corpus, term, y), LengthOf(corpus, y), average);
  }

  /** Of two documents of the same length the one that has the term more often scores more. */
  lemma MoreFrequentScoresMore(p: Params, corpus: Corpus, average: real, term: Term, x: DocId, y: DocId)
    requires ValidParams(p) && Positive(corpus) && average > 0.0 && Has(corpus, term, x) && Has(corpus, term, y)
    requires p.k1 > 0.0 && IdfIn(p, corpus, term) > 0.0
    requires LengthOf(corpus, x) == LengthOf(corpus, y) && FrequencyIn(corpus, term, x) < FrequencyIn(corpus, term, y)
    ensures TermScore(p, corpus, average, term, x) < TermScore(p, corpus, average, term, y)
  {
    Scored(p, corpus, average, term, x);
    Scored(p, corpus, average, term, y);
    FrequencyRaises(p, IdfIn(p, corpus, term), FrequencyIn(corpus, term, x), FrequencyIn(corpus, term, y), LengthOf(corpus, x), average);
  }

  /** Of two documents that have the term equally often the longer one scores less. */
  lemma LongerScoresLess(p: Params, corpus: Corpus, average: real, term: Term, x: DocId, y: DocId)
    requires ValidParams(p) && Positive(corpus) && average > 0.0 && Has(corpus, term, x) && Has(corpus, term, y)
    requires p.k1 > 0.0 && p.b > 0.0 && IdfIn(p, corpus, term) > 0.0
    requires FrequencyIn(corpus, term, x) == FrequencyIn(corpus, term, y) && LengthOf(corpus, x) > LengthOf(corpus, y)
    ensures TermScore(p, corpus, average, term, x) < TermScore(p, corpus, average, term, y)
  {
    Scored(p, corpus, average, term, x);
    Scored(p, corpus, average, term, y);
    LengthLowers(p, IdfIn(p, corpus, term), FrequencyIn(corpus, term, x), LengthOf(corpus, x), LengthOf(corpus, y), average);
  }

  /** A term adds exactly its weight without saturation, and where it occurs once in a document of average length. */
  lemma JustTheWeight(p: Params, corpus: Corpus, average: real, term: Term, id: DocId)
    requires ValidParams(p) && Positive(corpus) && average > 0.0 && Has(corpus, term, id)
    requires p.k1 == 0.0 || (FrequencyIn(corpus, term, id) == 1.0 && LengthOf(corpus, id) == average)
    ensures TermScore(p, corpus, average, term, id) == IdfIn(p, corpus, term)
  {
    Scored(p, corpus, average, term, id);
    NoSaturation(p, IdfIn(p, corpus, term), FrequencyIn(corpus, term, id), LengthOf(corpus, id), average);
  }

  /** However often it occurs, a term never adds k1 + 1 times its weight; it adds half of that at frequency k1 in a document of average length. */
  lemma ScoresAreSaturated(p: Params, corpus: Corpus, average: real, term: Term, id: DocId)
    requires ValidParams(p) && Positive(corpus) && average > 0.0 && Has(corpus, term, id)
    requires p.k1 > 0.0 && IdfIn(p, corpus, term) > 0.0
    ensures 0.0 < TermScore(p, corpus, average, term, id) < IdfIn(p, corpus, term) * (p.k1 + 1.0)
    ensures FrequencyIn(corpus, term, id) == p.k1 && LengthOf(corpus, id) == average
            ==> 2.0 * TermScore(p, corpus, average, term, id) == IdfIn(p, corpus, term) * (p.k1 + 1.0)
  {
    Scored(p, corpus, average, term, id);
    BelowSaturation(p, IdfIn(p, corpus, term), FrequencyIn(corpus, term, id), LengthOf(corpus, id), average);
  }

  /** The strength of the normalisation interpolates between the reciprocals of the scores without it and with all of it. */
  lemma NormalisationInterpolates(p: Params, corpus: Corpus, average: real, term: Term, id: DocId)
    requires ValidParams(p) && Positive(corpus) && average > 0.0 && Has(corpus, term, id)
    ensures Mixes(p.b, TermScore(p, corpus, average, term, id),
                  TermScore(p.(b := 0.0), corpus, average, term, id), TermScore(p.(b := 1.0), corpus, average, term, id))
  {
    Scored(p, corpus, average, term, id);
    Scored(p.(b := 0.0), corpus, average, term, id);
    Scored(p.(b := 1.0), corpus, average, term, id);
    Interpolates(p, IdfIn(p, corpus, term), FrequencyIn(corpus, term, id), LengthOf(corpus, id), average);
  }

  // ---------- Whole queries ----------

  /** The terms of a query contribute independently. */
  lemma {:induction false} QueriesAdd(p: Params, corpus: Corpus, average: real, a: seq<Term>, b: seq<Term>, id: DocId)
    requires ValidParams(p) && Positive(corpus) && average >= 0.0
    ensures ScanScore(p, corpus, average, a + b, id) == ScanScore(p, corpus, average, a, id) + ScanScore(p, corpus, average, b, id)
    decreases |b|
  {
    if b == [] {
      assert a + b == a;
    } else {
      var n := |b| - 1;
      assert a + b == (a + b[..n]) + [b[n]] && b == b[..n] + [b[n]];
      QueriesAdd(p, corpus, average, a, b[..n], id);
      ScanNext(p, corpus, average, a + b[..n], b[n], id);
      ScanNext(p, corpus, average, b[..n], b[n], id);
    }
  }

  /** The boost of a document multiplies its score, and changes nothing else. */
  lemma BoostMultiplies(p: Params, corpus: Corpus, average: real, terms: seq<Term>, id: DocId, boost: real, h: Hit, g: Hit)
    requires ValidParams(p) && Positive(corpus) && average >= 0.0
    requires id in corpus && Positive(corpus[id := Text(corpus[id].occurrences, boost)])
    requires h.id == g.id == id && HitAt(h, p, corpus, average, terms)
    requires HitAt(g, p, corpus[id := Text(corpus[id].occurrences, boost)], average, terms)
    ensures g.score * corpus[id].boost == h.score * boost && g.matched == h.matched
  {
    var corpus' := corpus[id := Text(corpus[id].occurrences, boost)];
    SameTextSameScore(p, corpus, corpus', average, terms, id);
    forall term ensures Has(corpus', term, id) <==> Has(corpus, term, id) {}
    assert MatchedBy(corpus', terms, id) == MatchedBy(corpus, terms, id);
  }

  lemma {:induction false} SameTextSameScore(p: Params, corpus: Corpus, corpus': Corpus, average: real, terms: seq<Term>, id: DocId)
    requires ValidParams(p) && Positive(corpus) && Positive(corpus') && average >= 0.0 && corpus'.Keys == corpus.Keys
    requires forall k {:trigger corpus'[k]} :: k in corpus ==> corpus'[k].occurrences == corpus[k].occurrences
    ensures ScanScore(p, corpus', average, terms, id) == ScanScore(p, corpus, average, terms, id)
    decreases |terms|
  {
    if terms != [] {
      var n := |terms| - 1;
      SameTextSameScore(p, corpus, corpus', average, terms[..n], id);
      forall k ensures Has(corpus', terms[n], k) <==> Has(corpus, terms[n], k) {}
      assert Matching(corpus', terms[n]) == Matching(corpus, terms[n]);
      assert |corpus'| == |corpus'.Keys| && |corpus| == |corpus.Keys|;
    }
  }

  /** The average length against which documents are measured is their mean. */
  lemma AverageIsMean(index: InvertedIndex)
    requires index.Valid()
    ensures Average(index) * |index.corpus| as real == TotalLength(index.order, index.corpus)
  {
    SameSize(index);
    if |index.documents| > 0 {
      Clear(index.totalLength, |index.documents| as real);
    } else {
      assert index.corpus.Keys == {};
      NothingIsZeroLong(index);
    }
  }

  lemma NothingIsZeroLong(index: InvertedIndex)
    requires index.Valid() && index.corpus.Keys == {}
    ensures TotalLength(index.order, index.corpus) == 0.0
  {
  }
}
