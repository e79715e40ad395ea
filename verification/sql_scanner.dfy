/** packages/database/src/client.ts: the scanner inside splitStatements, one lexical unit at a time. */
module SqlScanner {

  datatype Mode = Normal | Single | Double | Line | Block | Dollar(tag: string)

  // ---------- Characters ----------

  /** What String.prototype.trim removes. */
  predicate IsSpace(c: char) {
    || '\t' <= c <= '\r' || c == ' ' || c == '\U{a0}' || c == '\U{1680}' || '\U{2000}' <= c <= '\U{200a}'
    || c == '\U{2028}' || c == '\U{2029}' || c == '\U{202f}' || c == '\U{205f}' || c == '\U{3000}' || c == '\U{feff}'
  }

  /** By code point: the ASCII controls and space, the byte order mark, and the other space, line and paragraph separators of Unicode. */
  lemma SpacesByCodePoint(c: char)
    ensures IsSpace(c) <==>
              c as int in {9, 10, 11, 12, 13, 32, 0xfeff} + {0xa0, 0x1680, 0x202f, 0x205f, 0x3000} + {0x2028, 0x2029}
              || 0x2000 <= c as int <= 0x200a
  {
  }

  predicate IsTagChar(c: char) {
    'A' <= c <= 'Z' || 'a' <= c <= 'z' || c == '_'
  }

  /** Whitespace and the semicolon are part of no token the scanner looks ahead for. */
  ghost predicate Inert(w: string) {
    w != "" ==> IsSpace(w[0]) || w[0] == ';'
  }

  // ---------- Tokens ----------

  predicate At(s: string, i: nat, c: char) {
    i < |s| && s[i] == c
  }

  /** How many tag characters the text starts with. */
  function TagRun(s: string): (n: nat)
    ensures n <= |s|
  {
    if s != "" && IsTagChar(s[0]) then 1 + TagRun(s[1..]) else 0
  }

  /** The length of the dollar quote the text starts with, or 0. */
  function TagLength(s: string): (n: nat)
    ensures n <= |s| && n != 1
  {
    if !At(s, 0, '$') then 0
    else
      var n := TagRun(s[1..]);
      if At(s, n + 1, '$') then n + 2 else 0
  }

  predicate StartsWith(s: string, p: string) {
    |p| <= |s| && s[..|p|] == p
  }

  /** Dollar mode carries the quote that opened it. */
  ghost predicate Proper(m: Mode) {
    m.Dollar? ==> m.tag != "" && m.tag[0] == '$' && forall i :: 0 <= i < |m.tag| ==> m.tag[i] == '$' || IsTagChar(m.tag[i])
  }

  // ---------- One step ----------

  /** A semicolon in normal mode ends a statement. */
  predicate Cuts(m: Mode, s: string)
    requires s != ""
  {
    m == Normal && s[0] == ';'
  }

  /** How many characters the next iteration of the loop consumes. */
  function Width(m: Mode, s: string): (n: nat)
    requires s != "" && Proper(m)
    ensures 1 <= n <= |s|
  {
    match m
    case Block => if s[0] == '*' && At(s, 1, '/') then 2 else 1
    case Dollar(tag) => if StartsWith(s, tag) then |tag| else 1
    case Normal => if TagLength(s) > 0 then TagLength(s) else 1
    case _ => 1
  }

  /** The mode after it. */
  function Then(m: Mode, s: string): (r: Mode)
    requires s != "" && Proper(m)
    ensures Proper(r)
  {
    match m
    case Line => if s[0] == '\n' then Normal else Line
    case Block => if s[0] == '*' && At(s, 1, '/') then Normal else Block
    case Dollar(tag) => if StartsWith(s, tag) then Normal else m
    case Single => if s[0] == '\'' then Normal else Single
    case Double => if s[0] == '"' then Normal else Double
    case Normal =>
      if s[0] == '-' && At(s, 1, '-') then Line
      else if s[0] == '/' && At(s, 1, '*') then Block
      else if TagLength(s) > 0 then TagOk(s); Dollar(s[..TagLength(s)])
      else if s[0] == '\'' then Single
      else if s[0] == '"' then Double
      else Normal
  }

  lemma TagRunIsTag(s: string, i: nat)
    requires i < TagRun(s)
    ensures IsTagChar(s[i])
  {
    if i > 0 { TagRunIsTag(s[1..], i - 1); }
  }

  lemma TagOk(s: string)
    requires TagLength(s) > 0
    ensures Proper(Dollar(s[..TagLength(s)]))
  {
    var tag := s[..TagLength(s)];
    forall i | 0 <= i < |tag|
      ensures tag[i] == '$' || IsTagChar(tag[i])
    {
      if 0 < i < |tag| - 1 { TagRunIsTag(s[1..], i - 1); }
    }
  }

  // ---------- What follows does not matter ----------

  lemma {:induction false} TagRunLocal(x: string, w: string)
    requires Inert(w)
    ensures TagRun(x + w) == TagRun(x)
  {
    if x == "" {
      assert x + w == w;
    } else {
      assert (x + w)[1..] == x[1..] + w;
      TagRunLocal(x[1..], w);
    }
  }

  lemma TagLengthLocal(x: string, w: string)
    requires x != "" && Inert(w)
    ensures TagLength(x + w) == TagLength(x)
  {
    assert (x + w)[1..] == x[1..] + w;
    TagRunLocal(x[1..], w);
  }

  lemma StartsWithLocal(x: string, w: string, m: Mode)
    requires x != "" && Inert(w) && m.Dollar? && Proper(m)
    ensures StartsWith(x + w, m.tag) <==> StartsWith(x, m.tag)
  {
    if |m.tag| <= |x| {
      assert (x + w)[..|m.tag|] == x[..|m.tag|];
    } else if |m.tag| <= |x + w| {
      assert (x + w)[..|m.tag|][|x|] == w[0] != m.tag[|x|];
    }
  }

  /** A step sees nothing beyond a following space or semicolon. */
  lemma StepLocal(m: Mode, x: string, w: string)
    requires x != "" && Proper(m) && Inert(w)
    ensures Width(m, x + w) == Width(m, x) && Then(m, x + w) == Then(m, x) && Cuts(m, x + w) == Cuts(m, x)
  {
    TagLengthLocal(x, w);
    if m.Dollar? { StartsWithLocal(x, w, m); }
    assert forall c :: c == '-' || c == '/' || c == '*' ==> At(x + w, 1, c) == At(x, 1, c);
    assert (x + w)[..TagLength(x)] == x[..TagLength(x)];
  }

  // ---------- Whole texts ----------

  /** The mode after scanning all of the text. */
  ghost function EndMode(m: Mode, s: string): (r: Mode)
    requires Proper(m)
    ensures Proper(r)
    decreases |s|, 1
  {
    if s == "" then m else EndModeAfter(m, s)
  }

  ghost function EndModeAfter(m: Mode, s: string): (r: Mode)
    requires s != "" && Proper(m)
    ensures Proper(r)
    decreases |s|, 0
  {
    EndMode(Then(m, s), s[Width(m, s)..])
  }

  /** The position of the first semicolon that ends a statement, or the length of the text. */
  ghost function FirstCut(m: Mode, s: string): (c: nat)
    requires Proper(m)
    ensures c <= |s| && (c < |s| ==> s[c] == ';')
    decreases |s|, 2
  {
    if s == "" then 0 else CutOfSome(m, s)
  }

  /** Split off so that a proof unfolds one step at a time. */
  ghost function CutOfSome(m: Mode, s: string): (c: nat)
    requires s != "" && Proper(m)
    ensures c <= |s| && (c < |s| ==> s[c] == ';')
    decreases |s|, 1
  {
    if Cuts(m, s) then 0 else CutAfter(m, s)
  }

  ghost function CutAfter(m: Mode, s: string): (c: nat)
    requires s != "" && Proper(m)
    ensures c <= |s| && (c < |s| ==> s[c] == ';')
    decreases |s|, 0
  {
    Width(m, s) + FirstCut(Then(m, s), s[Width(m, s)..])
  }

  /** No statement ends inside the text. */
  ghost predicate Whole(m: Mode, s: string)
    requires Proper(m)
  {
    FirstCut(m, s) == |s|
  }

  /** The text is scanned up to position p exactly, where the mode is Normal and a semicolon stands. */
  ghost predicate TopLevel(m: Mode, s: string, p: int)
    requires Proper(m)
    decreases |s|, 2
  {
    if s == "" || p < 0 then false else TopLevelInSome(m, s, p)
  }

  ghost predicate TopLevelInSome(m: Mode, s: string, p: nat)
    requires s != "" && Proper(m)
    decreases |s|, 1
  {
    if p == 0 then Cuts(m, s) else TopLevelAfter(m, s, p)
  }

  ghost predicate TopLevelAfter(m: Mode, s: string, p: nat)
    requires s != "" && Proper(m)
    decreases |s|, 0
  {
    TopLevel(Then(m, s), s[Width(m, s)..], p - Width(m, s))
  }

  /** What one step does to the mode at the end and to the first cut. */
  ghost predicate Steps(m: Mode, s: string, n: nat, r: Mode)
    requires s != "" && Proper(m) && Proper(r)
  {
    && 1 <= n <= |s| && EndMode(m, s) == EndMode(r, s[n..])
    && if Cuts(m, s) then FirstCut(m, s) == 0 && n == 1 && r == Normal else FirstCut(m, s) == n + FirstCut(r, s[n..])
  }

  lemma OneStep(m: Mode, s: string)
    requires s != "" && Proper(m)
    ensures Steps(m, s, Width(m, s), Then(m, s))
  {
    assert FirstCut(m, s) == CutOfSome(m, s) && (!Cuts(m, s) ==> CutOfSome(m, s) == CutAfter(m, s));
    assert EndMode(m, s) == EndModeAfter(m, s);
  }

  /** The step is the same with more text behind, if that starts with a space or a semicolon. */
  lemma SameStep(m: Mode, x: string, w: string) returns (n: nat, r: Mode)
    requires x != "" && Proper(m) && Inert(w)
    ensures Proper(r) && Steps(m, x, n, r) && Steps(m, x + w, n, r)
    ensures Cuts(m, x + w) == Cuts(m, x) && (x + w)[n..] == x[n..] + w
  {
    StepLocal(m, x, w);
    OneStep(m, x);
    OneStep(m, x + w);
    n, r := Width(m, x), Then(m, x);
  }

  lemma {:induction false} EndModeLocal(m: Mode, x: string, w: string)
    requires Proper(m) && Inert(w)
    ensures EndMode(m, x + w) == EndMode(EndMode(m, x), w)
    decreases |x|
  {
    if x == "" {
      assert x + w == w;
    } else {
      var n, r := SameStep(m, x, w);
      EndModeLocal(r, x[n..], w);
    }
  }

  lemma {:induction false} FirstCutLocal(m: Mode, x: string, w: string)
    requires Proper(m) && Inert(w)
    ensures FirstCut(m, x + w) == if Whole(m, x) then |x| + FirstCut(EndMode(m, x), w) else FirstCut(m, x)
    decreases |x|
  {
    if x == "" {
      assert x + w == w;
    } else {
      var n, r := SameStep(m, x, w);
      if !Cuts(m, x) { FirstCutLocal(r, x[n..], w); }
    }
  }

  /** Up to its first cut a text is whole, and it is in normal mode there. */
  lemma {:induction false} UpToFirstCut(m: Mode, s: string)
    requires Proper(m)
    ensures var c := FirstCut(m, s); Whole(m, s[..c]) && (c < |s| ==> EndMode(m, s[..c]) == Normal)
    decreases |s|
  {
    if s != "" {
      OneStep(m, s);
      if !Cuts(m, s) { UpToLaterCut(m, s, FirstCut(m, s)); }
    }
  }

  lemma {:induction false} UpToLaterCut(m: Mode, s: string, c: nat)
    requires s != "" && Proper(m) && c == FirstCut(m, s) && !Cuts(m, s) && c > 0
    ensures Whole(m, s[..c]) && (c < |s| ==> EndMode(m, s[..c]) == Normal)
    decreases |s|, 0
  {
    var x, w := s[..c], s[c..];
    assert s == x + w;
    var n, r := SameStep(m, x, w);
    UpToFirstCut(r, s[n..]);
    assert s[n..][..c - n] == x[n..];
  }

  /** Nothing before the first cut is at top level; the cut is; and behind it the scan starts afresh. */
  lemma {:induction false} TopLevelFromCut(m: Mode, s: string, p: int)
    requires Proper(m)
    ensures var c := FirstCut(m, s);
            TopLevel(m, s, p) <==> c < |s| && (p == c || TopLevel(Normal, s[c + 1..], p - c - 1))
    decreases |s|
  {
    if s != "" {
      var n, r := TopLevelStep(m, s, p);
      if !Cuts(m, s) {
        TopLevelFromCut(r, s[n..], p - n);
        var c := FirstCut(m, s);
        if c < |s| { assert s[n..][c - n + 1..] == s[c + 1..]; }
      }
    }
  }

  lemma TopLevelStep(m: Mode, s: string, p: int) returns (n: nat, r: Mode)
    requires s != "" && Proper(m)
    ensures Proper(r) && Steps(m, s, n, r)
    ensures TopLevel(m, s, p) <==> (p == 0 && Cuts(m, s)) || TopLevel(r, s[n..], p - n)
  {
    OneStep(m, s);
    n, r := Width(m, s), Then(m, s);
    if p > 0 { assert TopLevel(m, s, p) == TopLevelAfter(m, s, p); }
  }
}
