/** packages/database/src/client.ts: splitting a SQL script into statements. */
module SplitStatements {
  import opened SqlScanner

  // ---------- Trimming ----------

  ghost predicate Spaces(w: string) {
    forall i :: 0 <= i < |w| ==> IsSpace(w[i])
  }

  function TrimStart(s: string): string {
    if s != "" && IsSpace(s[0]) then TrimStart(s[1..]) else s
  }

  function TrimEnd(s: string): string {
    if s != "" && IsSpace(s[|s| - 1]) then TrimEnd(s[..|s| - 1]) else s
  }

  function Trim(s: string): string {
    TrimEnd(TrimStart(s))
  }

  /** No space at either end. */
  ghost predicate Trimmed(t: string) {
    t != "" ==> !IsSpace(t[0]) && !IsSpace(t[|t| - 1])
  }

  lemma {:induction false} TrimStartParts(s: string) returns (lead: string)
    ensures s == lead + TrimStart(s) && Spaces(lead)
    ensures TrimStart(s) != "" ==> !IsSpace(TrimStart(s)[0])
  {
    if s != "" && IsSpace(s[0]) {
      var l := TrimStartParts(s[1..]);
      lead := [s[0]] + l;
    } else {
      lead := "";
    }
  }

  lemma {:induction false} TrimEndParts(s: string) returns (trail: string)
    ensures s == TrimEnd(s) + trail && Spaces(trail)
    ensures TrimEnd(s) != "" ==> !IsSpace(TrimEnd(s)[|TrimEnd(s)| - 1])
  {
    if s != "" && IsSpace(s[|s| - 1]) {
      var l := TrimEndParts(s[..|s| - 1]);
      trail := l + [s[|s| - 1]];
    } else {
      trail := "";
    }
  }

  /** Trimming removes spaces only, at the ends only, and all of them. */
  lemma TrimParts(s: string) returns (lead: string, trail: string)
    ensures s == lead + Trim(s) + trail && Spaces(lead) && Spaces(trail) && Trimmed(Trim(s))
  {
    lead := TrimStartParts(s);
    trail := TrimEndParts(TrimStart(s));
    if Trim(s) != "" { assert Trim(s)[0] == TrimStart(s)[0]; }
  }

  lemma {:induction false} TrimStartIs(lead: string, x: string)
    requires Spaces(lead) && x != "" && !IsSpace(x[0])
    ensures TrimStart(lead + x) == x
  {
    if lead == "" {
      assert lead + x == x;
    } else {
      assert (lead + x)[1..] == lead[1..] + x;
      TrimStartIs(lead[1..], x);
    }
  }

  lemma {:induction false} TrimEndIs(x: string, trail: string)
    requires Spaces(trail) && x != "" && !IsSpace(x[|x| - 1])
    ensures TrimEnd(x + trail) == x
  {
    if trail == "" {
      assert x + trail == x;
    } else {
      assert (x + trail)[..|x + trail| - 1] == x + trail[..|trail| - 1];
      TrimEndIs(x, trail[..|trail| - 1]);
    }
  }

  lemma TrimIs(lead: string, t: string, trail: string)
    requires Spaces(lead) && Spaces(trail) && Trimmed(t) && t != ""
    ensures Trim(lead + t + trail) == t
  {
    assert lead + t + trail == lead + (t + trail);
    TrimStartIs(lead, t + trail);
    TrimEndIs(t, trail);
  }

  // ---------- The scanner on spaces ----------

  lemma {:induction false} LeadingSpaces(lead: string, x: string)
    requires Spaces(lead)
    ensures FirstCut(Normal, lead + x) == |lead| + FirstCut(Normal, x)
    ensures EndMode(Normal, lead + x) == EndMode(Normal, x)
  {
    if lead == "" {
      assert lead + x == x;
    } else {
      var s := lead + x;
      OneStep(Normal, s);
      assert Width(Normal, s) == 1 && Then(Normal, s) == Normal;
      assert s[1..] == lead[1..] + x;
      LeadingSpaces(lead[1..], x);
    }
  }

  lemma {:induction false} SpacesKeepMode(m: Mode, w: string)
    requires Spaces(w) && Proper(m) && m != Normal && m != Line
    ensures EndMode(m, w) == m
  {
    if w != "" {
      assert m.Dollar? && |m.tag| <= |w| ==> w[..|m.tag|][0] == w[0] != m.tag[0];
      OneStep(m, w);
      assert Width(m, w) == 1 && Then(m, w) == m;
      SpacesKeepMode(m, w[1..]);
    }
  }

  /** Behind this text a newline brings the scanner back to normal mode. */
  ghost predicate Closes(t: string) {
    EndMode(Normal, t) == Normal || EndMode(Normal, t) == Line
  }

  /** A statement that the scanner does not split and trimming does not change. */
  ghost predicate Statement(t: string) {
    t != "" && Trimmed(t) && Whole(Normal, t)
  }

  lemma TrimmedSegment(s: string)
    requires Whole(Normal, s)
    ensures Trim(s) != "" ==> Statement(Trim(s)) && (EndMode(Normal, s) == Normal ==> Closes(Trim(s)))
  {
    var lead, trail := TrimParts(s);
    var t := Trim(s);
    if t != "" {
      assert s == lead + (t + trail);
      LeadingSpaces(lead, t + trail);
      FirstCutLocal(Normal, t, trail);
      EndModeLocal(Normal, t, trail);
      if !Closes(t) { SpacesKeepMode(EndMode(Normal, t), trail); }
    }
  }

  // ---------- Segments ----------

  /** The text between the semicolons that end a statement. */
  ghost function Segments(s: string): (r: seq<string>)
    ensures r != []
    decreases |s|, 1
  {
    if FirstCut(Normal, s) == |s| then [s] else SegmentsFromCut(s)
  }

  /** Split off so that a proof unfolds one step at a time. */
  ghost function SegmentsFromCut(s: string): (r: seq<string>)
    requires FirstCut(Normal, s) < |s|
    ensures r != []
    decreases |s|, 0
  {
    [s[..FirstCut(Normal, s)]] + Segments(s[FirstCut(Normal, s) + 1..])
  }

  ghost function Join(parts: seq<string>, separator: string): string {
    if parts == [] then ""
    else if |parts| == 1 then parts[0]
    else parts[0] + separator + Join(parts[1..], separator)
  }

  /** Trimmed, and dropped if nothing is left. */
  ghost function Cleaned(s: string): seq<string> {
    if Trim(s) == "" then [] else [Trim(s)]
  }

  ghost function Clean(parts: seq<string>): seq<string> {
    if parts == [] then [] else Cleaned(parts[0]) + Clean(parts[1..])
  }

  ghost function Statements(s: string): seq<string> {
    Clean(Segments(s))
  }

  /** Splitting loses nothing: the segments joined by semicolons are the script. */
  lemma {:induction false} SplittingIsLossless(s: string)
    ensures Join(Segments(s), ";") == s
    decreases |s|
  {
    var c := FirstCut(Normal, s);
    if c < |s| {
      var rest := s[c + 1..];
      SplittingIsLossless(rest);
      assert Segments(s)[1..] == Segments(rest);
      assert s == s[..c] + ";" + rest;
    }
  }

  /** A segment, other than the last, ends at position p. */
  ghost predicate SegmentEndsAt(parts: seq<string>, p: int) {
    |parts| > 1 && (p == |parts[0]| || SegmentEndsAt(parts[1..], p - |parts[0]| - 1))
  }

  /** The script is split at exactly the semicolons outside quotes, comments and dollar bodies. */
  lemma {:induction false} SplitsAtTopLevel(s: string, p: int)
    ensures SegmentEndsAt(Segments(s), p) <==> TopLevel(Normal, s, p)
    decreases |s|
  {
    TopLevelFromCut(Normal, s, p);
    var c := FirstCut(Normal, s);
    if c < |s| {
      SplitsAtTopLevel(s[c + 1..], p - c - 1);
      assert Segments(s)[1..] == Segments(s[c + 1..]);
    }
  }

  /** Statements that can be printed one after the other. */
  ghost predicate Printable(ts: seq<string>) {
    ts != [] ==> Statement(ts[0]) && (|ts| > 1 ==> Closes(ts[0])) && Printable(ts[1..])
  }

  lemma StatementsUncut(s: string)
    requires FirstCut(Normal, s) == |s|
    ensures Statements(s) == Cleaned(s)
  {
    assert Segments(s) == [s] + [];
    CleanMore(s, []);
    assert Cleaned(s) + [] == Cleaned(s);
  }

  lemma CleanMore(part: string, parts: seq<string>)
    ensures Clean([part] + parts) == Cleaned(part) + Clean(parts)
  {
    assert ([part] + parts)[1..] == parts;
  }

  lemma StatementsFromCut(s: string, c: nat)
    requires c == FirstCut(Normal, s) < |s|
    ensures Statements(s) == Cleaned(s[..c]) + Statements(s[c + 1..])
  {
    assert Segments(s) == SegmentsFromCut(s);
    CleanMore(s[..c], Segments(s[c + 1..]));
  }

  lemma PrintableCleaned(s: string)
    requires Whole(Normal, s)
    ensures Printable(Cleaned(s))
  {
    TrimmedSegment(s);
  }

  lemma PrintableMore(s: string, ts: seq<string>)
    requires Whole(Normal, s) && EndMode(Normal, s) == Normal && Printable(ts)
    ensures Printable(Cleaned(s) + ts)
  {
    TrimmedSegment(s);
    if Trim(s) == "" {
      assert [] + ts == ts;
    } else {
      assert ([Trim(s)] + ts)[1..] == ts;
    }
  }

  lemma PrintableFromCut(s: string, c: nat)
    requires c == FirstCut(Normal, s) < |s| && Printable(Statements(s[c + 1..]))
    ensures Printable(Statements(s))
  {
    UpToFirstCut(Normal, s);
    StatementsFromCut(s, c);
    PrintableMore(s[..c], Statements(s[c + 1..]));
  }

  lemma PrintableUncut(s: string)
    requires FirstCut(Normal, s) == |s|
    ensures Printable(Statements(s))
  {
    UpToFirstCut(Normal, s);
    assert s[..|s|] == s;
    StatementsUncut(s);
    PrintableCleaned(s);
  }

  lemma {:induction false} StatementsArePrintable(s: string)
    ensures Printable(Statements(s))
    decreases |s|
  {
    var c := FirstCut(Normal, s);
    if c == |s| {
      PrintableUncut(s);
    } else {
      StatementsArePrintable(s[c + 1..]);
      PrintableFromCut(s, c);
    }
  }

  /** Splitting a statement again gives that statement. */
  lemma StatementsStayWhole(t: string)
    requires Statement(t)
    ensures Statements(t) == [t]
  {
    TrimIs("", t, "");
    assert "" + t + "" == t;
    StatementsUncut(t);
  }

  lemma {:induction false} EveryStatement(ts: seq<string>, i: nat)
    requires Printable(ts) && i < |ts|
    ensures Statement(ts[i])
  {
    if i > 0 { EveryStatement(ts[1..], i - 1); }
  }

  /** splitStatements gives back each of its own results unchanged. */
  lemma ResultsAreStatements(s: string, i: nat)
    requires i < |Statements(s)|
    ensures Statements(Statements(s)[i]) == [Statements(s)[i]]
  {
    StatementsArePrintable(s);
    EveryStatement(Statements(s), i);
    StatementsStayWhole(Statements(s)[i]);
  }

  lemma SpaceTrimmed(s: string)
    ensures Cleaned("\n" + s) == Cleaned(s)
  {
    assert ("\n" + s)[1..] == s;
  }

  lemma NewlineMovesCut(s: string, c: nat)
    requires c < |s|
    ensures ("\n" + s)[..c + 1] == "\n" + s[..c] && ("\n" + s)[c + 1 + 1..] == s[c + 1..]
  {
  }

  lemma NewlineInFrontOfSegments(s: string)
    ensures Segments("\n" + s) == ["\n" + Segments(s)[0]] + Segments(s)[1..]
  {
    var c := FirstCut(Normal, s);
    LeadingSpaces("\n", s);
    if c < |s| {
      NewlineMovesCut(s, c);
      assert Segments("\n" + s) == SegmentsFromCut("\n" + s) && Segments(s) == SegmentsFromCut(s);
    }
  }

  lemma NewlineInFront(s: string)
    ensures Statements("\n" + s) == Statements(s)
  {
    NewlineInFrontOfSegments(s);
    SpaceTrimmed(Segments(s)[0]);
    assert Segments("\n" + s)[1..] == Segments(s)[1..];
  }

  lemma FirstCutIsSeparator(t: string, rest: string)
    requires Statement(t) && Closes(t)
    ensures FirstCut(Normal, (t + "\n") + (";\n" + rest)) == |t| + 1
  {
    var x, w := t + "\n", ";\n" + rest;
    NewlineCloses(EndMode(Normal, t));
    FirstCutLocal(Normal, t, "\n");
    EndModeLocal(Normal, t, "\n");
    FirstCutLocal(Normal, x, w);
    OneStep(Normal, w);
  }

  lemma CutAtSeparator(t: string, rest: string)
    requires Statement(t) && Closes(t)
    ensures Segments(t + "\n;\n" + rest) == [t + "\n"] + Segments("\n" + rest)
  {
    var x, w := t + "\n", ";\n" + rest;
    var s := t + "\n;\n" + rest;
    assert s == x + w;
    FirstCutIsSeparator(t, rest);
    assert s[..|x|] == x && s[|x| + 1..] == "\n" + rest;
  }

  /** A printed statement is split off at the separator behind it. */
  lemma SplitOff(t: string, rest: string)
    requires Statement(t) && Closes(t)
    ensures Statements(t + "\n;\n" + rest) == [t] + Statements(rest)
  {
    CutAtSeparator(t, rest);
    assert Segments(t + "\n;\n" + rest)[1..] == Segments("\n" + rest);
    TrimIs("", t, "\n");
    assert "" + t + "\n" == t + "\n";
    NewlineInFront(rest);
  }

  lemma NewlineCloses(m: Mode)
    requires m == Normal || m == Line
    ensures FirstCut(m, "\n") == 1 && EndMode(m, "\n") == Normal
  {
    OneStep(m, "\n");
    assert "\n"[1..] == "";
  }

  lemma {:induction false} PrintingIsInverted(ts: seq<string>)
    requires Printable(ts)
    ensures Statements(Join(ts, "\n;\n")) == ts
  {
    if ts == [] {
      assert Segments("") == [""];
    } else if |ts| == 1 {
      StatementsStayWhole(ts[0]);
    } else {
      PrintingIsInverted(ts[1..]);
      SplitOff(ts[0], Join(ts[1..], "\n;\n"));
    }
  }

  /** Printing the statements of any script, separated by lone semicolons, and splitting again gives the same statements. */
  lemma SplitPrintSplit(s: string)
    ensures Statements(Join(Statements(s), "\n;\n")) == Statements(s)
  {
    StatementsArePrintable(s);
    PrintingIsInverted(Statements(s));
  }

  // ---------- The loop ----------

  /** The statements still to come, given the text of the current one so far. */
  ghost function ToCome(current: string, m: Mode, rest: string): seq<string>
    requires Proper(m)
    decreases |rest|, 2
  {
    if rest == "" then Cleaned(current) else ToComeFrom(current, m, rest)
  }

  /** Split off so that a proof unfolds one step at a time. */
  ghost function ToComeFrom(current: string, m: Mode, rest: string): seq<string>
    requires Proper(m) && rest != ""
    decreases |rest|, 1
  {
    if Cuts(m, rest) then Cleaned(current) + ToCome("", Normal, rest[1..]) else ToComeLater(current, m, rest)
  }

  ghost function ToComeLater(current: string, m: Mode, rest: string): seq<string>
    requires Proper(m) && rest != ""
    decreases |rest|, 0
  {
    ToCome(current + rest[..Width(m, rest)], Then(m, rest), rest[Width(m, rest)..])
  }

  ghost function StatementsBehind(s: string, c: nat): seq<string>
    requires c <= |s|
  {
    if c < |s| then Statements(s[c + 1..]) else []
  }

  lemma ToComeStep(current: string, m: Mode, rest: string) returns (n: nat, r: Mode)
    requires Proper(m) && rest != "" && !Cuts(m, rest)
    ensures Proper(r) && Steps(m, rest, n, r)
    ensures ToCome(current, m, rest) == ToCome(current + rest[..n], r, rest[n..])
  {
    OneStep(m, rest);
    n, r := Width(m, rest), Then(m, rest);
    assert ToCome(current, m, rest) == ToComeFrom(current, m, rest) == ToComeLater(current, m, rest);
  }

  /** What the pass finds: the current statement, up to the first cut, and those behind it. */
  ghost predicate Found(current: string, m: Mode, rest: string)
    requires Proper(m)
  {
    ToCome(current, m, rest) == Cleaned(current + rest[..FirstCut(m, rest)]) + StatementsBehind(rest, FirstCut(m, rest))
  }

  lemma FoundAtEnd(current: string, m: Mode)
    requires Proper(m)
    ensures Found(current, m, "")
  {
    assert current + "" == current;
    assert ""[..FirstCut(m, "")] == "";
  }

  lemma FoundAtCut(current: string, m: Mode, rest: string)
    requires Proper(m) && rest != "" && Cuts(m, rest) && ToCome("", Normal, rest[1..]) == Statements(rest[1..])
    ensures Found(current, m, rest)
  {
    assert FirstCut(m, rest) == 0;
    assert current + rest[..0] == current;
    assert ToCome(current, m, rest) == ToComeFrom(current, m, rest);
  }

  lemma FoundBefore(current: string, m: Mode, rest: string, n: nat, r: Mode)
    requires Proper(m) && rest != "" && !Cuts(m, rest) && Proper(r) && Steps(m, rest, n, r)
    requires ToCome(current, m, rest) == ToCome(current + rest[..n], r, rest[n..])
    requires Found(current + rest[..n], r, rest[n..])
    ensures Found(current, m, rest)
  {
    CutText(current, rest, n, FirstCut(m, rest));
  }

  /** The loop's left-to-right pass finds the trimmed segments. */
  lemma {:induction false} ToComeIsSegments(current: string, m: Mode, rest: string)
    requires Proper(m)
    ensures Found(current, m, rest)
    decreases |rest|, 0
  {
    if rest == "" {
      FoundAtEnd(current, m);
    } else if Cuts(m, rest) {
      PassFindsStatements(rest[1..]);
      FoundAtCut(current, m, rest);
    } else {
      var n, r := ToComeStep(current, m, rest);
      ToComeIsSegments(current + rest[..n], r, rest[n..]);
      FoundBefore(current, m, rest, n, r);
    }
  }

  lemma CutText(current: string, rest: string, n: nat, c: nat)
    requires n <= c <= |rest|
    ensures current + rest[..n] + rest[n..][..c - n] == current + rest[..c]
    ensures StatementsBehind(rest[n..], c - n) == StatementsBehind(rest, c)
  {
    assert c < |rest| ==> rest[n..][c - n + 1..] == rest[c + 1..];
  }

  lemma {:induction false} PassFindsStatements(s: string)
    ensures ToCome("", Normal, s) == Statements(s)
    decreases |s|, 1
  {
    ToComeIsSegments("", Normal, s);
    var c := FirstCut(Normal, s);
    assert "" + s[..c] == s[..c];
    if c == |s| {
      assert s[..c] == s && Cleaned(s) + [] == Cleaned(s);
      StatementsUncut(s);
    } else {
      StatementsFromCut(s, c);
    }
  }

  /** The scanner's flags as a mode. */
  function ModeOf(inSingle: bool, inDouble: bool, inLineComment: bool, inBlockComment: bool, dollarTag: string): Mode {
    if inLineComment then Line
    else if inBlockComment then Block
    else if dollarTag != "" then Dollar(dollarTag)
    else if inSingle then Single
    else if inDouble then Double
    else Normal
  }

  predicate OneFlag(inSingle: bool, inDouble: bool, inLineComment: bool, inBlockComment: bool, dollarTag: string) {
    && !(inSingle && inDouble)
    && (inSingle || inDouble ==> !inLineComment && !inBlockComment && dollarTag == "")
    && (inLineComment ==> !inBlockComment && dollarTag == "")
    && (inBlockComment ==> dollarTag == "")
  }

  /** The statements found so far and those still to come are the statements of the script. */
  ghost predicate Progress(script: string, statements: seq<string>, current: string, m: Mode, i: nat)
    requires Proper(m) && i <= |script|
  {
    statements + ToCome(current, m, script[i..]) == ToCome("", Normal, script)
  }

  lemma Begins(script: string)
    ensures Progress(script, [], "", Normal, 0)
  {
    assert script[0..] == script;
  }

  lemma Continues(script: string, statements: seq<string>, current: string, m: Mode, i: nat, j: nat)
    requires Proper(m) && i < |script| && Progress(script, statements, current, m, i)
    requires !Cuts(m, script[i..]) && j == i + Width(m, script[i..])
    ensures Progress(script, statements, current + script[i..j], Then(m, script[i..]), j)
  {
    var rest := script[i..];
    assert ToCome(current, m, rest) == ToComeFrom(current, m, rest) == ToComeLater(current, m, rest);
    assert rest[..j - i] == script[i..j] && rest[j - i..] == script[j..];
  }

  lemma EndsStatement(script: string, statements: seq<string>, current: string, i: nat)
    requires i < |script| && script[i] == ';' && Progress(script, statements, current, Normal, i)
    ensures Progress(script, statements + Cleaned(current), "", Normal, i + 1)
  {
    var rest := script[i..];
    assert rest[1..] == script[i + 1..] && Cuts(Normal, rest);
    assert ToCome(current, Normal, rest) == ToComeFrom(current, Normal, rest);
    assert statements + Cleaned(current) + ToCome("", Normal, rest[1..]) == statements + (Cleaned(current) + ToCome("", Normal, rest[1..]));
  }

  lemma Finishes(script: string, statements: seq<string>, current: string, m: Mode)
    requires Proper(m) && Progress(script, statements, current, m, |script|)
    ensures statements + Cleaned(current) == Statements(script)
  {
    assert script[|script|..] == "";
    PassFindsStatements(script);
  }

  /** How a character outside comments and dollar bodies switches the quoting mode. */
  ghost function Toggled(m: Mode, c: char): Mode {
    if c == '\'' && m != Double then (if m == Single then Normal else Single)
    else if c == '"' && m != Single then (if m == Double then Normal else Double)
    else m
  }

  lemma InQuotes(script: string, statements: seq<string>, current: string, m: Mode, i: nat)
    requires i < |script| && (m == Single || m == Double) && Progress(script, statements, current, m, i)
    ensures Progress(script, statements, current + [script[i]], Toggled(m, script[i]), i + 1)
  {
    Continues(script, statements, current, m, i, i + 1);
    assert script[i..i + 1] == [script[i]];
  }

  /** The branches of the loop inside a comment or a dollar body. */
  method Inside(script: string, ghost statements: seq<string>, at: nat, text: string, line: bool, block: bool, tag: string)
      returns (i: nat, current: string, inLineComment: bool, inBlockComment: bool, dollarTag: string)
    requires at < |script| && (line || block || tag != "") && OneFlag(false, false, line, block, tag)
    requires Proper(ModeOf(false, false, line, block, tag))
    requires Progress(script, statements, text, ModeOf(false, false, line, block, tag), at)
    ensures at < i <= |script| && OneFlag(false, false, inLineComment, inBlockComment, dollarTag)
    ensures Proper(ModeOf(false, false, inLineComment, inBlockComment, dollarTag))
    ensures Progress(script, statements, current, ModeOf(false, false, inLineComment, inBlockComment, dollarTag), i)
  {
    ghost var m := ModeOf(false, false, line, block, tag);
    Continues(script, statements, text, m, at, at + Width(m, script[at..]));
    i, current, inLineComment, inBlockComment, dollarTag := at, text, line, block, tag;
    var c := script[i];
    assert script[at..at + 1] == [c];
    if inLineComment {
      current := current + [c];
      if c == '\n' { inLineComment := false; }
    } else if inBlockComment {
      current := current + [c];
      if c == '*' && At(script, i + 1, '/') {
        assert script[at..at + 2] == [c] + [script[at + 1]];
        current := current + [script[i + 1]];
        i := i + 1;
        inBlockComment := false;
      }
    } else {
      current := current + [c];
      if c == '$' && StartsWith(script[i..], dollarTag) {
        assert script[at..at + |tag|] == [c] + script[at + 1..at + |tag|];
        current := current + script[i + 1..i + |dollarTag|];
        i := i + |dollarTag| - 1;
        dollarTag := "";
      }
    }
    i := i + 1;
    assert current == text + script[at..i];
  }

  /** The branches that open a comment or a dollar body outside quotes. */
  method Opening(script: string, ghost statements: seq<string>, at: nat, text: string)
      returns (found: bool, i: nat, current: string, inLineComment: bool, inBlockComment: bool, dollarTag: string)
    requires at < |script| && Progress(script, statements, text, Normal, at)
    ensures OneFlag(false, false, inLineComment, inBlockComment, dollarTag)
    ensures Proper(ModeOf(false, false, inLineComment, inBlockComment, dollarTag))
    ensures found ==>
              && at < i <= |script|
              && Progress(script, statements, current, ModeOf(false, false, inLineComment, inBlockComment, dollarTag), i)
    ensures !found ==>
              && i == at && current == text && !inLineComment && !inBlockComment && dollarTag == ""
              && (script[at] != ';' ==> Progress(script, statements, text + [script[at]], Toggled(Normal, script[at]), at + 1))
  {
    ghost var rest := script[at..];
    if !Cuts(Normal, rest) { Continues(script, statements, text, Normal, at, at + Width(Normal, rest)); }
    found, i, current, inLineComment, inBlockComment, dollarTag := true, at, text, false, false, "";
    var c := script[i];
    if c == '-' && At(script, i + 1, '-') {
      inLineComment := true;
      current := current + [c];
      i := i + 1;
      assert script[at..i] == [c];
      return;
    }
    if c == '/' && At(script, i + 1, '*') {
      inBlockComment := true;
      current := current + [c];
      i := i + 1;
      assert script[at..i] == [c];
      return;
    }
    var length := TagLength(script[i..]);
    if c == '$' && length > 0 {
      dollarTag := script[i..i + length];
      current := current + dollarTag;
      i := i + length;
      assert script[at..i] == rest[..length];
      return;
    }
    assert script[at..at + 1] == [c];
    found := false;
  }

  /** Outside comments and dollar bodies, with at most one kind of quotes open. */
  ghost function QuoteMode(inSingle: bool, inDouble: bool): (m: Mode)
    ensures m == ModeOf(inSingle, inDouble, false, false, "")
  {
    if inSingle then Single else if inDouble then Double else Normal
  }

  /** The end of the loop body: quotes are opened and closed, and a semicolon outside them ends the statement. */
  method Plain(script: string, found: seq<string>, at: nat, text: string, single: bool, double: bool)
      returns (statements: seq<string>, current: string, inSingle: bool, inDouble: bool)
    requires at < |script| && !(single && double) && Progress(script, found, text, QuoteMode(single, double), at)
    requires single || double || script[at] != ';' ==>
               Progress(script, found, text + [script[at]], Toggled(QuoteMode(single, double), script[at]), at + 1)
    ensures !(inSingle && inDouble) && Progress(script, statements, current, QuoteMode(inSingle, inDouble), at + 1)
  {
    statements, current, inSingle, inDouble := found, text, single, double;
    var c := script[at];
    if c == '\'' && !inDouble {
      inSingle := !inSingle;
    } else if c == '"' && !inSingle {
      inDouble := !inDouble;
    }
    if c == ';' && !inSingle && !inDouble {
      EndsStatement(script, statements, current, at);
      statements := Finished(statements, current);
      current := "";
    } else {
      current := current + [c];
    }
  }

  /** A statement is kept if anything is left of it after trimming. */
  method Finished(found: seq<string>, current: string) returns (statements: seq<string>)
    ensures statements == found + Cleaned(current)
  {
    statements := found;
    var trimmed := Trim(current);
    if |trimmed| > 0 { statements := statements + [trimmed]; }
  }

  method Split(script: string) returns (statements: seq<string>)
    ensures statements == Statements(script)
  {
    statements := [];
    var current := "";
    var inSingle, inDouble, inLineComment, inBlockComment, dollarTag := false, false, false, false, "";
    var i := 0;
    Begins(script);
    while i < |script|
      invariant 0 <= i <= |script| && OneFlag(inSingle, inDouble, inLineComment, inBlockComment, dollarTag)
      invariant Proper(ModeOf(inSingle, inDouble, inLineComment, inBlockComment, dollarTag))
      invariant Progress(script, statements, current, ModeOf(inSingle, inDouble, inLineComment, inBlockComment, dollarTag), i)
    {
      if inLineComment || inBlockComment || dollarTag != "" {
        i, current, inLineComment, inBlockComment, dollarTag :=
          Inside(script, statements, i, current, inLineComment, inBlockComment, dollarTag);
        continue;
      }
      if !inSingle && !inDouble {
        var found;
        found, i, current, inLineComment, inBlockComment, dollarTag := Opening(script, statements, i, current);
        if found { continue; }
      } else {
        InQuotes(script, statements, current, QuoteMode(inSingle, inDouble), i);
      }
      statements, current, inSingle, inDouble := Plain(script, statements, i, current, inSingle, inDouble);
      i := i + 1;
    }
    Finishes(script, statements, current, ModeOf(inSingle, inDouble, inLineComment, inBlockComment, dollarTag));
    statements := Finished(statements, current);
  }
}
