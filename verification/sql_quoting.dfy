/** packages/database/src/client.ts: what the statement scanner takes for quoted, said in literal delimiters. */
module SqlQuoting {
  import opened SqlScanner
  import opened SplitStatements

  // ---------- Delimiters ----------

  /** A dollar, letters and underscores, and a dollar. */
  ghost predicate IsDollarQuote(t: string) {
    && |t| >= 2 && t[0] == '$' && t[|t| - 1] == '$'
    && forall i :: 1 <= i < |t| - 1 ==> 'A' <= t[i] <= 'Z' || 'a' <= t[i] <= 'z' || t[i] == '_'
  }

  ghost predicate OccursAt(s: string, p: string, i: nat) {
    i + |p| <= |s| && s[i..i + |p|] == p
  }

  lemma {:induction false} TagRunExactly(s: string, n: nat)
    requires n <= |s| && forall i :: 0 <= i < n ==> 'A' <= s[i] <= 'Z' || 'a' <= s[i] <= 'z' || s[i] == '_'
    requires n < |s| ==> !('A' <= s[n] <= 'Z' || 'a' <= s[n] <= 'z' || s[n] == '_')
    ensures TagRun(s) == n
  {
    if n > 0 { TagRunExactly(s[1..], n - 1); }
  }

  /** The text starts with a dollar quote of exactly the length that is recognised. */
  lemma TagLengthExactly(s: string, n: nat)
    requires 0 < n <= |s|
    ensures TagLength(s) == n <==> IsDollarQuote(s[..n])
  {
    if IsDollarQuote(s[..n]) {
      forall i | 0 <= i < n - 2 ensures 'A' <= s[1..][i] <= 'Z' || 'a' <= s[1..][i] <= 'z' || s[1..][i] == '_' {
        assert s[1..][i] == s[..n][i + 1];
      }
      assert s[1..][n - 2] == s[..n][n - 1] == '$';
      TagRunExactly(s[1..], n - 2);
    }
    if TagLength(s) == n {
      forall i | 1 <= i < n - 1 ensures 'A' <= s[..n][i] <= 'Z' || 'a' <= s[..n][i] <= 'z' || s[..n][i] == '_' {
        TagRunIsTag(s[1..], i - 1);
      }
    }
  }

  /** The five ways of quoting. */
  datatype Quoting = SingleQuoted | DoubleQuoted | LineComment | BlockComment | DollarQuoted(tag: string)

  ghost predicate WellMade(q: Quoting) {
    q.DollarQuoted? ==> IsDollarQuote(q.tag)
  }

  /** What opens it and what closes it. */
  ghost function Open(q: Quoting): (o: string)
  {
    match q
    case SingleQuoted => "'"
    case DoubleQuoted => "\""
    case LineComment => "--"
    case BlockComment => "/*"
    case DollarQuoted(tag) => tag
  }

  ghost function Close(q: Quoting): (c: string) {
    match q
    case SingleQuoted => "'"
    case DoubleQuoted => "\""
    case LineComment => "\n"
    case BlockComment => "*/"
    case DollarQuoted(tag) => tag
  }

  /** The text starts with something that opens a quotation. */
  ghost predicate Opens(s: string) {
    exists q :: WellMade(q) && OccursAt(s, Open(q), 0)
  }

  // ---------- Inside a quotation ----------

  ghost function ModeFor(q: Quoting): (m: Mode) {
    match q
    case SingleQuoted => Single
    case DoubleQuoted => Double
    case LineComment => Line
    case BlockComment => Block
    case DollarQuoted(tag) => Dollar(tag)
  }

  /** The second character of a comment opener is scanned again inside the comment, so that it may be part of the closer. */
  ghost function Rescanned(q: Quoting): string {
    match q
    case LineComment => "-"
    case BlockComment => "*"
    case _ => ""
  }

  /** It starts at none of the first n positions. */
  ghost predicate AbsentBefore(s: string, p: string, n: nat) {
    forall i: nat {:trigger OccursAt(s, p, i)} :: i < n ==> !OccursAt(s, p, i)
  }

  /** Behind the opener the closer does not start before the end of the body. */
  ghost predicate EndsAtClose(q: Quoting, body: string) {
    AbsentBefore(Rescanned(q) + body + Close(q), Close(q), |Rescanned(q)| + |body|)
  }

  ghost function Quoted(q: Quoting, body: string): string {
    Open(q) + body + Close(q)
  }

  /** Scanning exactly n characters leads to another mode, without meeting the end of a statement. */
  ghost predicate Passes(m: Mode, s: string, n: nat, r: Mode)
    requires Proper(m)
    decreases n, 1
  {
    n <= |s| && if n == 0 then m == r else PassesSome(m, s, n, r)
  }

  /** Split off so that a proof unfolds one step at a time. */
  ghost predicate PassesSome(m: Mode, s: string, n: nat, r: Mode)
    requires Proper(m) && 0 < n <= |s|
    decreases n, 0
  {
    !Cuts(m, s) && Width(m, s) <= n && Passes(Then(m, s), s[Width(m, s)..], n - Width(m, s), r)
  }

  lemma TopLevelMoves(m: Mode, s: string, p: int)
    requires s != "" && Proper(m) && !Cuts(m, s)
    ensures TopLevel(m, s, p) <==> TopLevel(Then(m, s), s[Width(m, s)..], p - Width(m, s))
  {
    if p > 0 { assert TopLevel(m, s, p) == TopLevelInSome(m, s, p) == TopLevelAfter(m, s, p); }
  }

  /** From position n on the text is scanned as if it stood alone, in this mode. */
  ghost predicate Resumes(m: Mode, s: string, n: nat, r: Mode, p: int)
    requires Proper(m) && Proper(r) && n <= |s|
  {
    && EndMode(m, s) == EndMode(r, s[n..]) && FirstCut(m, s) == n + FirstCut(r, s[n..])
    && (TopLevel(m, s, p) <==> TopLevel(r, s[n..], p - n))
  }

  lemma FirstPass(m: Mode, s: string, n: nat, r: Mode, p: int) returns (w: nat, q: Mode)
    requires Proper(m) && 0 < n && Passes(m, s, n, r)
    ensures 1 <= w <= n <= |s| && Proper(q) && Passes(q, s[w..], n - w, r) && Resumes(m, s, w, q, p)
  {
    w, q := Width(m, s), Then(m, s);
    OneStep(m, s);
    TopLevelMoves(m, s, p);
  }

  lemma ResumesTwice(m: Mode, s: string, w: nat, q: Mode, n: nat, r: Mode, p: int)
    requires Proper(m) && Proper(q) && Proper(r) && w <= n <= |s|
    requires Resumes(m, s, w, q, p) && Resumes(q, s[w..], n - w, r, p - w)
    ensures Resumes(m, s, n, r, p)
  {
    assert s[w..][n - w..] == s[n..];
  }

  lemma {:induction false} PassedOver(m: Mode, s: string, n: nat, r: Mode, p: int)
    requires Proper(m) && Passes(m, s, n, r)
    ensures Proper(r) && Resumes(m, s, n, r, p)
    decreases n
  {
    if n > 0 {
      var w, q := FirstPass(m, s, n, r, p);
      PassedOver(q, s[w..], n - w, r, p - w);
      ResumesTwice(m, s, w, q, n, r, p);
    } else {
      assert s[0..] == s;
    }
  }

  /** What ends a mode other than the normal one. */
  ghost function Closer(m: Mode): (c: string)
    requires m != Normal && Proper(m)
    ensures c != ""
  {
    match m
    case Single => "'"
    case Double => "\""
    case Line => "\n"
    case Block => "*/"
    case Dollar(tag) => tag
  }

  /** Inside a quotation only its closer is taken for anything but text. */
  lemma InsideStep(m: Mode, s: string)
    requires m != Normal && Proper(m) && s != ""
    ensures !Cuts(m, s) && if OccursAt(s, Closer(m), 0) then Width(m, s) == |Closer(m)| && Then(m, s) == Normal
                           else Width(m, s) == 1 && Then(m, s) == m
  {
    if m == Block { assert OccursAt(s, Closer(m), 0) <==> |s| >= 2 && s[0] == '*' && s[1] == '/'; }
  }

  lemma AbsentFromTail(s: string, p: string, n: nat)
    requires 0 < n <= |s| && AbsentBefore(s, p, n)
    ensures !OccursAt(s, p, 0) && AbsentBefore(s[1..], p, n - 1)
  {
    forall i: nat | i < n - 1 ensures !OccursAt(s[1..], p, i) {
      assert !OccursAt(s, p, i + 1);
      if i + |p| <= |s| - 1 { assert s[1..][i..i + |p|] == s[i + 1..i + 1 + |p|]; }
    }
  }

  lemma OccursInTail(s: string, p: string, n: nat)
    requires 0 < n && OccursAt(s, p, n)
    ensures OccursAt(s[1..], p, n - 1)
  {
    assert s[1..][n - 1..n - 1 + |p|] == s[n..n + |p|];
  }

  /** The scanner goes through the first closer in the text and is back to normal behind it. */
  lemma {:induction false} InsideUntilClose(m: Mode, s: string, n: nat)
    requires m != Normal && Proper(m) && OccursAt(s, Closer(m), n) && AbsentBefore(s, Closer(m), n)
    ensures Passes(m, s, n + |Closer(m)|, Normal)
    decreases n
  {
    InsideStep(m, s);
    if n > 0 {
      AbsentFromTail(s, Closer(m), n);
      OccursInTail(s, Closer(m), n);
      InsideUntilClose(m, s[1..], n - 1);
    }
  }

  // ---------- Quoted texts ----------

  /** What the first step makes of an opener. */
  lemma OpenerStep(q: Quoting, s: string)
    requires WellMade(q) && OccursAt(s, Open(q), 0)
    ensures s != "" && !Cuts(Normal, s) && Then(Normal, s) == ModeFor(q)
    ensures Width(Normal, s) == |Open(q)| - |Rescanned(q)|
  {
    assert s[0..0 + |Open(q)|] == s[..|Open(q)|] == Open(q);
    assert s[0] == Open(q)[0];
    if q.DollarQuoted? { TagLengthExactly(s, |Open(q)|); }
  }

  lemma ModeCloses(q: Quoting)
    requires WellMade(q)
    ensures Proper(ModeFor(q)) && ModeFor(q) != Normal && Closer(ModeFor(q)) == Close(q)
    ensures |Rescanned(q)| < |Open(q)| && Open(q)[|Open(q)| - |Rescanned(q)|..] == Rescanned(q)
  {
  }

  lemma FirstCloserStays(s: string, close: string, n: nat, rest: string)
    requires |s| == n + |close| && OccursAt(s, close, n) && AbsentBefore(s, close, n)
    ensures OccursAt(s + rest, close, n) && AbsentBefore(s + rest, close, n)
  {
    assert (s + rest)[n..n + |close|] == s[n..n + |close|];
    forall i: nat | i < n ensures !OccursAt(s + rest, close, i) {
      assert !OccursAt(s, close, i);
      assert (s + rest)[i..i + |close|] == s[i..i + |close|];
    }
  }

  /** The text behind its first w characters, of which the opener takes some. */
  lemma BehindOpener(open: string, w: nat, again: string, body: string, close: string, rest: string)
    requires w <= |open| && open[w..] == again
    ensures OccursAt(open + body + close + rest, open, 0)
    ensures (open + body + close + rest)[w..] == again + body + close + rest
  {
    var t := open + body + close + rest;
    assert t[0..0 + |open|] == open;
    assert t == open[..w] + (again + body + close + rest);
  }

  lemma BodyCloses(again: string, body: string, close: string, rest: string)
    requires AbsentBefore(again + body + close, close, |again| + |body|)
    ensures OccursAt(again + body + close + rest, close, |again| + |body|)
    ensures AbsentBefore(again + body + close + rest, close, |again| + |body|)
  {
    var inner, n := again + body + close, |again| + |body|;
    assert inner[n..n + |close|] == close;
    FirstCloserStays(inner, close, n, rest);
  }

  lemma OpenedAndClosed(s: string, w: nat, m: Mode, n: nat)
    requires 0 < w <= |s| && Width(Normal, s) == w && Then(Normal, s) == m && !Cuts(Normal, s)
    requires Proper(m) && m != Normal && OccursAt(s[w..], Closer(m), n) && AbsentBefore(s[w..], Closer(m), n)
    ensures Passes(Normal, s, w + n + |Closer(m)|, Normal)
  {
    InsideUntilClose(m, s[w..], n);
  }

  lemma QuotedTextPasses(q: Quoting, body: string, rest: string)
    requires WellMade(q) && EndsAtClose(q, body)
    ensures Passes(Normal, Quoted(q, body) + rest, |Quoted(q, body)|, Normal)
  {
    var t, w := Quoted(q, body) + rest, |Open(q)| - |Rescanned(q)|;
    ModeCloses(q);
    BehindOpener(Open(q), w, Rescanned(q), body, Close(q), rest);
    OpenerStep(q, t);
    BodyCloses(Rescanned(q), body, Close(q), rest);
    OpenedAndClosed(t, w, ModeFor(q), |Rescanned(q)| + |body|);
  }

  /**
   * A complete quoted text is passed over as a whole, wherever it stands and
   * whatever follows: what follows is scanned as if it stood alone.
   */
  lemma QuotedTextIsSkipped(q: Quoting, body: string, rest: string, p: int)
    requires WellMade(q) && EndsAtClose(q, body)
    ensures var t, n := Quoted(q, body) + rest, |Quoted(q, body)|;
            && EndMode(Normal, t) == EndMode(Normal, rest) && FirstCut(Normal, t) == n + FirstCut(Normal, rest)
            && (TopLevel(Normal, t, p) <==> TopLevel(Normal, rest, p - n))
  {
    var t, n := Quoted(q, body) + rest, |Quoted(q, body)|;
    QuotedTextPasses(q, body, rest);
    PassedOver(Normal, t, n, Normal, p);
    assert t[n..] == rest;
  }

  /** By itself it has no end of a statement in it, and is one statement. */
  lemma QuotedTextIsOneStatement(q: Quoting, body: string, p: int)
    requires WellMade(q) && EndsAtClose(q, body)
    ensures var t := Quoted(q, body);
            EndMode(Normal, t) == Normal && !TopLevel(Normal, t, p) && Statements(t) == [Trim(t)] && Trim(t) != ""
  {
    var t := Quoted(q, body);
    QuotedTextIsSkipped(q, body, "", p);
    assert t + "" == t;
    StatementsUncut(t);
    assert t[0] == Open(q)[0] && !IsSpace(t[0]);
    TrimEndLeavesFirst(t);
  }

  lemma {:induction false} TrimEndLeavesFirst(t: string)
    requires t != "" && !IsSpace(t[0])
    ensures TrimEnd(t) != ""
  {
    if IsSpace(t[|t| - 1]) { TrimEndLeavesFirst(t[..|t| - 1]); }
  }

  lemma {:induction false} NeverClosed(m: Mode, s: string)
    requires m != Normal && Proper(m) && AbsentBefore(s, Closer(m), |s|)
    ensures Passes(m, s, |s|, m)
    decreases |s|
  {
    if s != "" {
      AbsentFromTail(s, Closer(m), |s|);
      InsideStep(m, s);
      NeverClosed(m, s[1..]);
    }
  }

  lemma OpenedForGood(s: string, w: nat, m: Mode)
    requires 0 < w <= |s| && Width(Normal, s) == w && Then(Normal, s) == m && !Cuts(Normal, s)
    requires Proper(m) && m != Normal && AbsentBefore(s[w..], Closer(m), |s| - w)
    ensures Passes(Normal, s, |s|, m)
  {
    NeverClosed(m, s[w..]);
  }

  /** A quotation that is not closed takes in the rest of the script. */
  lemma UnclosedTakesTheRest(q: Quoting, body: string, p: int)
    requires WellMade(q) && AbsentBefore(Rescanned(q) + body, Close(q), |Rescanned(q) + body|)
    ensures !TopLevel(Normal, Open(q) + body, p) && FirstCut(Normal, Open(q) + body) == |Open(q) + body|
    ensures EndMode(Normal, Open(q) + body) != Normal
  {
    var s, w := Open(q) + body, |Open(q)| - |Rescanned(q)|;
    ModeCloses(q);
    assert s[0..0 + |Open(q)|] == Open(q);
    OpenerStep(q, s);
    assert s == Open(q)[..w] + (Rescanned(q) + body);
    OpenedForGood(s, w, ModeFor(q));
    PassedOver(Normal, s, |s|, ModeFor(q), p);
    assert s[|s|..] == "";
  }

  // ---------- Everything else ----------

  /** A character that opens no quotation is passed over, and if it is a semicolon it ends a statement. */
  lemma PlainCharacter(s: string, p: int)
    requires s != "" && !Opens(s)
    ensures TopLevel(Normal, s, p) <==> (p == 0 && s[0] == ';') || TopLevel(Normal, s[1..], p - 1)
  {
    NothingOpened(s);
    if p > 0 { assert TopLevel(Normal, s, p) == TopLevelInSome(Normal, s, p) == TopLevelAfter(Normal, s, p); }
  }

  lemma NothingOpened(s: string)
    requires s != "" && !Opens(s)
    ensures Width(Normal, s) == 1 && Then(Normal, s) == Normal
  {
    assert !OccursAt(s, Open(SingleQuoted), 0) && !OccursAt(s, Open(DoubleQuoted), 0)
           && !OccursAt(s, Open(LineComment), 0) && !OccursAt(s, Open(BlockComment), 0);
    assert |s| >= 2 ==> s[0..2] == [s[0], s[1]];
    assert s[0..1] == [s[0]];
    if TagLength(s) > 0 { DollarQuoteOpens(s); }
  }

  lemma DollarQuoteOpens(s: string)
    requires TagLength(s) > 0
    ensures Opens(s)
  {
    var n := TagLength(s);
    TagLengthExactly(s, n);
    assert WellMade(DollarQuoted(s[..n])) && s[0..0 + n] == s[..n] == Open(DollarQuoted(s[..n]));
  }

  /** A script in which nothing is quoted is split at every semicolon. */
  lemma {:induction false} UnquotedIsCutEverywhere(s: string, p: int)
    requires forall i {:trigger s[i..]} :: 0 <= i < |s| ==> !Opens(s[i..])
    ensures TopLevel(Normal, s, p) <==> 0 <= p < |s| && s[p] == ';'
    decreases |s|
  {
    if s != "" {
      assert s[0..] == s;
      PlainCharacter(s, p);
      forall i | 0 <= i < |s[1..]| ensures !Opens(s[1..][i..]) { assert s[1..][i..] == s[i + 1..]; }
      UnquotedIsCutEverywhere(s[1..], p - 1);
    }
  }
}
