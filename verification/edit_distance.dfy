/** packages/algorithms/src/text.ts: Levenshtein distance with two rolling rows and an early exit. */
module EditDistance {
  import opened Basics

  /** A UTF-16 code unit; the algorithm only compares units for equality. */
  type Unit(==, !new)

  type Text = seq<Unit>

  // ---------- What edit distance means ----------

  ghost function Inserted(s: Text, i: nat, c: Unit): Text
    requires i <= |s|
  {
    s[..i] + [c] + s[i..]
  }

  /** t is s after inserting, deleting or replacing a single unit somewhere. */
  ghost predicate OneEdit(s: Text, t: Text) {
    || (exists i: nat, c: Unit {:trigger Inserted(s, i, c)} :: i <= |s| && t == Inserted(s, i, c))
    || (exists i: nat, c: Unit {:trigger Inserted(t, i, c)} :: i <= |t| && s == Inserted(t, i, c))
    || (exists i: nat, c: Unit {:trigger s[i := c]} :: i < |s| && t == s[i := c])
  }

  /** n single edits, one after the other, turn a into b. */
  ghost predicate EditsTo(a: Text, b: Text, n: nat)
    decreases n
  {
    if n == 0 then a == b
    else exists mid {:trigger EditsTo(mid, b, n - 1)} {:trigger OneEdit(a, mid)} :: OneEdit(a, mid) && EditsTo(mid, b, n - 1)
  }

  // ---------- The table of prefix distances ----------

  /** The cell of the table for the first i units of a and the first j units of b. */
  ghost function Cell(a: Text, b: Text, i: nat, j: nat): (d: nat)
    requires i <= |a| && j <= |b|
    decreases i + j, 1
  {
    if i == 0 then j
    else if j == 0 then i
    else Inner(a, b, i, j)
  }

  /** An inner cell from its three neighbours. */
  ghost function Inner(a: Text, b: Text, i: nat, j: nat): (d: nat)
    requires 0 < i <= |a| && 0 < j <= |b|
    decreases i + j, 0
  {
    var cost := if a[i - 1] == b[j - 1] then 0 else 1;
    Min(Min(Cell(a, b, i - 1, j) + 1, Cell(a, b, i, j - 1) + 1), Cell(a, b, i - 1, j - 1) + cost)
  }

  /** The distance between two whole texts is the last cell of their table. */
  ghost function Lev(a: Text, b: Text): nat {
    Cell(a, b, |a|, |b|)
  }

  lemma {:induction false} CellSymmetric(a: Text, b: Text, i: nat, j: nat)
    requires i <= |a| && j <= |b|
    ensures Cell(a, b, i, j) == Cell(b, a, j, i)
    decreases i + j
  {
    if i > 0 && j > 0 {
      CellSymmetric(a, b, i - 1, j);
      CellSymmetric(a, b, i, j - 1);
      CellSymmetric(a, b, i - 1, j - 1);
    }
  }

  lemma {:induction false} CellDiagonal(a: Text, i: nat)
    requires i <= |a|
    ensures Cell(a, a, i, i) == 0
  {
    if i > 0 { CellDiagonal(a, i - 1); }
  }

  lemma {:induction false} CellZero(a: Text, b: Text, i: nat, j: nat)
    requires i <= |a| && j <= |b| && Cell(a, b, i, j) == 0
    ensures i == j && forall k :: 0 <= k < i ==> a[k] == b[k]
    decreases i + j
  {
    if i > 0 && j > 0 { CellZero(a, b, i - 1, j - 1); }
  }

  /** Between the difference of the lengths and the longer length. */
  lemma {:induction false} CellBounds(a: Text, b: Text, i: nat, j: nat)
    requires i <= |a| && j <= |b|
    ensures i - j <= Cell(a, b, i, j) && j - i <= Cell(a, b, i, j)
    ensures Cell(a, b, i, j) <= i || Cell(a, b, i, j) <= j
    decreases i + j
  {
    if i > 0 && j > 0 {
      CellBounds(a, b, i - 1, j);
      CellBounds(a, b, i, j - 1);
      CellBounds(a, b, i - 1, j - 1);
    }
  }

  /** A cell looks only at the units before its own position. */
  lemma {:induction false} CellLocal(a: Text, a': Text, b: Text, i: nat, j: nat)
    requires i <= |a| && i <= |a'| && j <= |b|
    requires forall k :: 0 <= k < i ==> a[k] == a'[k]
    ensures Cell(a, b, i, j) == Cell(a', b, i, j)
    decreases i + j
  {
    if i > 0 && j > 0 {
      CellLocal(a, a', b, i - 1, j);
      CellLocal(a, a', b, i, j - 1);
      CellLocal(a, a', b, i - 1, j - 1);
    }
  }

  // ---------- The recurrence counts a shortest sequence of edits ----------

  lemma OneEditPush(s: Text, t: Text, x: Unit)
    requires OneEdit(s, t)
    ensures OneEdit(s + [x], t + [x])
  {
    if i: nat, c: Unit :| i <= |s| && t == Inserted(s, i, c) {
      assert t + [x] == Inserted(s + [x], i, c);
    } else if i: nat, c: Unit :| i <= |t| && s == Inserted(t, i, c) {
      assert s + [x] == Inserted(t + [x], i, c);
    } else {
      var i: nat, c: Unit :| i < |s| && t == s[i := c];
      assert t + [x] == (s + [x])[i := c];
    }
  }

  lemma EditFirst(a: Text, mid: Text, b: Text, n: nat)
    requires OneEdit(a, mid) && EditsTo(mid, b, n)
    ensures EditsTo(a, b, n + 1)
  {
    assert EditsTo(mid, b, (n + 1) - 1);
  }

  lemma AfterFirstEdit(a: Text, b: Text, n: nat) returns (mid: Text)
    requires n > 0 && EditsTo(a, b, n)
    ensures OneEdit(a, mid) && EditsTo(mid, b, n - 1)
  {
    mid :| OneEdit(a, mid) && EditsTo(mid, b, n - 1);
  }

  /** The same edits work in front of a common last unit. */
  lemma {:induction false} EditsToPush(a: Text, b: Text, x: Unit, n: nat)
    requires EditsTo(a, b, n)
    ensures EditsTo(a + [x], b + [x], n)
    decreases n
  {
    if n > 0 {
      var mid := AfterFirstEdit(a, b, n);
      OneEditPush(a, mid, x);
      EditsToPush(mid, b, x, n - 1);
      EditFirst(a + [x], mid + [x], b + [x], n - 1);
    }
  }

  lemma {:induction false} EditsToLast(a: Text, b: Text, c: Text, n: nat)
    requires EditsTo(a, b, n) && OneEdit(b, c)
    ensures EditsTo(a, c, n + 1)
    decreases n
  {
    if n == 0 {
      EditFirst(a, c, c, 0);
    } else {
      var mid := AfterFirstEdit(a, b, n);
      EditsToLast(mid, b, c, n - 1);
      EditFirst(a, mid, c, n);
    }
  }

  lemma PushIsOneEdit(a: Text, x: Unit)
    ensures OneEdit(a + [x], a) && OneEdit(a, a + [x])
  {
    assert a + [x] == Inserted(a, |a|, x);
  }

  /** There is a sequence of as many edits as the cell says. */
  /** A script of exactly as many edits as the table says. */
  ghost predicate Achieved(a: Text, b: Text, i: nat, j: nat)
    requires i <= |a| && j <= |b|
  {
    EditsTo(a[..i], b[..j], Cell(a, b, i, j))
  }

  lemma AchievedByDeletion(a: Text, b: Text, i: nat, j: nat)
    requires 0 < i <= |a| && j <= |b| && Achieved(a, b, i - 1, j) && Cell(a, b, i, j) == Cell(a, b, i - 1, j) + 1
    ensures Achieved(a, b, i, j)
  {
    assert a[..i] == a[..i - 1] + [a[i - 1]];
    DeleteStep(a[..i - 1], a[i - 1], b[..j], Cell(a, b, i - 1, j));
  }

  lemma AchievedByInsertion(a: Text, b: Text, i: nat, j: nat)
    requires i <= |a| && 0 < j <= |b| && Achieved(a, b, i, j - 1) && Cell(a, b, i, j) == Cell(a, b, i, j - 1) + 1
    ensures Achieved(a, b, i, j)
  {
    assert b[..j] == b[..j - 1] + [b[j - 1]];
    InsertStep(a[..i], b[..j - 1], b[j - 1], Cell(a, b, i, j - 1));
  }

  lemma AchievedDiagonally(a: Text, b: Text, i: nat, j: nat)
    requires 0 < i <= |a| && 0 < j <= |b| && Achieved(a, b, i - 1, j - 1)
    requires Cell(a, b, i, j) == Cell(a, b, i - 1, j - 1) + if a[i - 1] == b[j - 1] then 0 else 1
    ensures Achieved(a, b, i, j)
  {
    assert a[..i] == a[..i - 1] + [a[i - 1]] && b[..j] == b[..j - 1] + [b[j - 1]];
    DiagonalStep(a[..i - 1], a[i - 1], b[..j - 1], b[j - 1], Cell(a, b, i - 1, j - 1));
  }

  lemma {:induction false} CellIsAchieved(a: Text, b: Text, i: nat, j: nat)
    requires i <= |a| && j <= |b|
    ensures Achieved(a, b, i, j)
    decreases i + j
  {
    if i == 0 && j == 0 {
      assert a[..0] == b[..0];
    } else if i > 0 && (j == 0 || Cell(a, b, i, j) == Cell(a, b, i - 1, j) + 1) {
      CellIsAchieved(a, b, i - 1, j);
      AchievedByDeletion(a, b, i, j);
    } else if j > 0 && (i == 0 || Cell(a, b, i, j) == Cell(a, b, i, j - 1) + 1) {
      CellIsAchieved(a, b, i, j - 1);
      AchievedByInsertion(a, b, i, j);
    } else {
      CellCases(a, b, i, j);
      CellIsAchieved(a, b, i - 1, j - 1);
      AchievedDiagonally(a, b, i, j);
    }
  }

  lemma CellCases(a: Text, b: Text, i: nat, j: nat)
    requires 0 < i <= |a| && 0 < j <= |b|
    ensures || Cell(a, b, i, j) == Cell(a, b, i - 1, j) + 1
            || Cell(a, b, i, j) == Cell(a, b, i, j - 1) + 1
            || Cell(a, b, i, j) == Cell(a, b, i - 1, j - 1) + if a[i - 1] == b[j - 1] then 0 else 1
  {
  }

  lemma DeleteStep(a: Text, x: Unit, b: Text, n: nat)
    requires EditsTo(a, b, n)
    ensures EditsTo(a + [x], b, n + 1)
  {
    PushIsOneEdit(a, x);
    assert EditsTo(a, b, (n + 1) - 1);
  }

  lemma InsertStep(a: Text, b: Text, y: Unit, n: nat)
    requires EditsTo(a, b, n)
    ensures EditsTo(a, b + [y], n + 1)
  {
    PushIsOneEdit(b, y);
    EditsToLast(a, b, b + [y], n);
  }

  lemma DiagonalStep(a: Text, x: Unit, b: Text, y: Unit, n: nat)
    requires EditsTo(a, b, n)
    ensures EditsTo(a + [x], b + [y], n + if x == y then 0 else 1)
  {
    EditsToPush(a, b, y, n);
    if x != y {
      assert a + [y] == (a + [x])[|a| := y];
      assert OneEdit(a + [x], a + [y]);
      assert EditsTo(a + [y], b + [y], (n + 1) - 1);
    }
  }

  /** Two texts that agree from a shifted position on keep cells within one of each other from there on. */
  ghost predicate Near(x: int, y: int) {
    x <= y + 1 && y <= x + 1
  }

  lemma {:induction false} PushMovesByOne(s: Text, b: Text, i: nat, j: nat)
    requires i < |s| && j <= |b|
    ensures Near(Cell(s, b, i, j), Cell(s, b, i + 1, j))
    decreases j
  {
    if j > 0 {
      PushMovesByOne(s, b, i, j - 1);
      assert Cell(s, b, i, j) <= Cell(s, b, i, j - 1) + 1;
    }
  }

  /** Inserting a unit changes the distance to any text by at most one, in either direction. */
  lemma {:induction false} InsertMovesByOne(s: Text, p: nat, c: Unit, b: Text, i: nat, j: nat)
    requires p <= i <= |s| && j <= |b|
    ensures Near(Cell(s, b, i, j), Cell(Inserted(s, p, c), b, i + 1, j))
    decreases i + j
  {
    var t := Inserted(s, p, c);
    if i == p {
      CellLocal(s, t, b, i, j);
      PushMovesByOne(t, b, i, j);
    } else if j > 0 {
      assert t[i] == s[i - 1];
      InsertMovesByOne(s, p, c, b, i - 1, j);
      InsertMovesByOne(s, p, c, b, i, j - 1);
      InsertMovesByOne(s, p, c, b, i - 1, j - 1);
    }
  }

  /** So does replacing one. */
  lemma {:induction false} ReplaceMovesByOne(s: Text, p: nat, c: Unit, b: Text, i: nat, j: nat)
    requires p < |s| && i <= |s| && j <= |b|
    ensures Near(Cell(s, b, i, j), Cell(s[p := c], b, i, j))
    decreases i + j
  {
    if i > 0 && j > 0 {
      ReplaceMovesByOne(s, p, c, b, i - 1, j);
      ReplaceMovesByOne(s, p, c, b, i, j - 1);
      if i - 1 == p {
        CellLocal(s, s[p := c], b, i - 1, j - 1);
      } else {
        ReplaceMovesByOne(s, p, c, b, i - 1, j - 1);
      }
    }
  }

  lemma OneEditMovesByOne(s: Text, t: Text, b: Text)
    requires OneEdit(s, t)
    ensures Lev(s, b) <= Lev(t, b) + 1
  {
    if i: nat, c: Unit :| i <= |s| && t == Inserted(s, i, c) {
      InsertMovesByOne(s, i, c, b, |s|, |b|);
    } else if i: nat, c: Unit :| i <= |t| && s == Inserted(t, i, c) {
      InsertMovesByOne(t, i, c, b, |t|, |b|);
    } else {
      var i: nat, c: Unit :| i < |s| && t == s[i := c];
      ReplaceMovesByOne(s, i, c, b, |s|, |b|);
    }
  }

  lemma {:induction false} EditsAreMany(a: Text, b: Text, n: nat)
    requires EditsTo(a, b, n)
    ensures Lev(a, b) <= n
    decreases n
  {
    if n == 0 {
      CellDiagonal(b, |b|);
    } else {
      var mid :| OneEdit(a, mid) && EditsTo(mid, b, n - 1);
      EditsAreMany(mid, b, n - 1);
      OneEditMovesByOne(a, mid, b);
    }
  }

  /** The table computes the least number of single-unit edits that turn a into b. */
  lemma LevIsShortest(a: Text, b: Text)
    ensures EditsTo(a, b, Lev(a, b))
    ensures forall n: nat :: EditsTo(a, b, n) ==> Lev(a, b) <= n
  {
    CellIsAchieved(a, b, |a|, |b|);
    assert a[..|a|] == a && b[..|b|] == b;
    forall n: nat | EditsTo(a, b, n)
      ensures Lev(a, b) <= n
    {
      EditsAreMany(a, b, n);
    }
  }

  lemma {:induction false} EditsToJoin(a: Text, b: Text, c: Text, n: nat, m: nat)
    requires EditsTo(a, b, n) && EditsTo(b, c, m)
    ensures EditsTo(a, c, n + m)
    decreases n
  {
    if n > 0 {
      var mid :| OneEdit(a, mid) && EditsTo(mid, b, n - 1);
      EditsToJoin(mid, b, c, n - 1, m);
      assert EditsTo(mid, c, (n + m) - 1);
    }
  }

  /** The distance is a metric: zero exactly on equal texts, symmetric, and subject to the triangle inequality. */
  lemma LevIsMetric(a: Text, b: Text, c: Text)
    ensures Lev(a, b) == 0 <==> a == b
    ensures Lev(a, b) == Lev(b, a)
    ensures Lev(a, c) <= Lev(a, b) + Lev(b, c)
  {
    CellDiagonal(a, |a|);
    if Lev(a, b) == 0 { CellZero(a, b, |a|, |b|); }
    CellSymmetric(a, b, |a|, |b|);
    LevIsShortest(a, b);
    LevIsShortest(b, c);
    EditsToJoin(a, b, c, Lev(a, b), Lev(b, c));
    EditsAreMany(a, c, Lev(a, b) + Lev(b, c));
  }

  // ---------- Early exit ----------

  /** A lower bound on one row bounds every later row, and so the final distance. */
  lemma {:induction false} RowsNeverDrop(s: Text, t: Text, j: nat, m: int, i': nat, j': nat)
    requires j <= j' <= |t| && i' <= |s|
    requires forall i {:trigger Cell(s, t, i, j)} :: 0 <= i <= |s| ==> m <= Cell(s, t, i, j)
    ensures m <= Cell(s, t, i', j')
    decreases i' + j'
  {
    if i' == 0 {
      assert m <= Cell(s, t, 0, j);
    } else if j' > j {
      RowsNeverDrop(s, t, j, m, i' - 1, j');
      RowsNeverDrop(s, t, j, m, i', j' - 1);
      RowsNeverDrop(s, t, j, m, i' - 1, j' - 1);
    }
  }

  // ---------- The method ----------

  /** row[i] is the distance between the first i units of s and the first j units of t. */
  ghost predicate RowIs(row: seq<int>, s: Text, t: Text, j: nat, upTo: nat)
    requires j <= |t| && upTo <= |row| == |s| + 1
  {
    forall i {:trigger CellIs(row, s, t, j, i)} :: 0 <= i < upTo ==> CellIs(row, s, t, j, i)
  }

  ghost predicate CellIs(row: seq<int>, s: Text, t: Text, j: nat, i: nat)
    requires j <= |t| && i < |row| == |s| + 1
  {
    row[i] == Cell(s, t, i, j)
  }

  ghost predicate Bounded(row: seq<int>, m: int, upTo: nat)
    requires upTo <= |row|
  {
    forall i :: 0 <= i < upTo ==> m <= row[i]
  }

  /** The next row of the table, written over the stale one, together with its minimum. */
  method FillRow(s: Text, t: Text, j: nat, previous: array<int>, current: array<int>) returns (rowMin: int)
    requires 0 < j <= |t| && previous != current
    requires previous.Length == |s| + 1 && current.Length == |s| + 1
    requires RowIs(previous[..], s, t, j - 1, |s| + 1)
    modifies current
    ensures RowIs(current[..], s, t, j, |s| + 1)
    ensures Bounded(current[..], rowMin, |s| + 1)
  {
    current[0] := j;
    rowMin := current[0];
    assert CellIs(current[..], s, t, j, 0);
    for i := 1 to |s| + 1
      invariant RowIs(current[..], s, t, j, i) && RowIs(previous[..], s, t, j - 1, |s| + 1)
      invariant Bounded(current[..], rowMin, i)
    {
      var cost := if s[i - 1] == t[j - 1] then 0 else 1;
      var value := current[i - 1] + 1;
      if previous[i] + 1 < value { value := previous[i] + 1; }
      if previous[i - 1] + cost < value { value := previous[i - 1] + cost; }
      assert CellIs(current[..], s, t, j, i - 1);
      assert CellIs(previous[..], s, t, j - 1, i) && CellIs(previous[..], s, t, j - 1, i - 1);
      ghost var row := current[..];
      current[i] := value;
      WriteKeepsRow(row, s, t, j, i, value);
      assert current[..] == row[i := value];
      if value < rowMin { rowMin := value; }
    }
  }

  lemma WriteKeepsRow(row: seq<int>, s: Text, t: Text, j: nat, i: nat, value: int)
    requires j <= |t| && i < |row| == |s| + 1
    requires RowIs(row, s, t, j, i) && value == Cell(s, t, i, j)
    ensures RowIs(row[i := value], s, t, j, i + 1)
  {
    var row' := row[i := value];
    forall k | 0 <= k < i + 1
      ensures CellIs(row', s, t, j, k)
    {
      assert k < i ==> CellIs(row, s, t, j, k);
    }
  }

  /**
   * The exact distance whenever it is within the limit (none: no limit), and otherwise
   * some value above the limit that still does not overestimate.
   */
  method EditDistance(a: Text, b: Text, maxDistance: Option<int>) returns (d: int)
    ensures maxDistance.None? || Lev(a, b) <= maxDistance.value ==> d == Lev(a, b)
    ensures maxDistance.Some? && Lev(a, b) > maxDistance.value ==> maxDistance.value < d <= Lev(a, b)
  {
    CellDiagonal(a, |a|);
    CellBounds(a, b, |a|, |b|);
    if a == b { return 0; }
    if |a| == 0 { return |b|; }
    if |b| == 0 { return |a|; }
    var gap := if |a| > |b| then |a| - |b| else |b| - |a|;
    if maxDistance.Some? && gap > maxDistance.value { return maxDistance.value + 1; }

    var source, target := a, b;
    if |source| > |target| {
      source, target := target, source;
      CellSymmetric(a, b, |a|, |b|);
    }
    var previous := new int[|source| + 1](i => i);
    var current := new int[|source| + 1];
    forall i | 0 <= i < |source| + 1
      ensures CellIs(previous[..], source, target, 0, i)
    {
    }
    for j := 1 to |target| + 1
      invariant previous != current && fresh(previous) && fresh(current)
      invariant previous.Length == |source| + 1 && current.Length == |source| + 1
      invariant RowIs(previous[..], source, target, j - 1, |source| + 1)
    {
      var rowMin := FillRow(source, target, j, previous, current);
      if maxDistance.Some? && rowMin > maxDistance.value {
        LateRowsExceed(current[..], source, target, j, rowMin);
        return maxDistance.value + 1;
      }
      previous, current := current, previous;
    }
    assert CellIs(previous[..], source, target, |target|, |source|);
    d := previous[|source|];
  }

  lemma LateRowsExceed(row: seq<int>, s: Text, t: Text, j: nat, m: int)
    requires j <= |t| && |row| == |s| + 1
    requires RowIs(row, s, t, j, |s| + 1) && Bounded(row, m, |s| + 1)
    ensures m <= Lev(s, t)
  {
    forall i | 0 <= i <= |s|
      ensures m <= Cell(s, t, i, j)
    {
      assert CellIs(row, s, t, j, i);
    }
    RowsNeverDrop(s, t, j, m, |s|, |t|);
  }

  ghost function Longest(a: Text, b: Text): nat {
    if |a| > |b| then |a| else |b|
  }

  /** Normalised similarity: within [0, 1], and 1 exactly for equal texts. */
  method SimilarityRatio(a: Text, b: Text) returns (r: real)
    ensures 0.0 <= r <= 1.0
    ensures r == 1.0 <==> a == b
    ensures Longest(a, b) > 0 ==> r == 1.0 - Lev(a, b) as real / Longest(a, b) as real
  {
    var longest := if |a| > |b| then |a| else |b|;
    if longest == 0 { return 1.0; }
    var d := EditDistance(a, b, None);
    SimilarityBounds(a, b, longest);
    r := 1.0 - d as real / longest as real;
  }

  lemma SimilarityBounds(a: Text, b: Text, longest: nat)
    requires longest == Longest(a, b) && longest > 0
    ensures 0.0 <= Lev(a, b) as real / longest as real <= 1.0
    ensures Lev(a, b) as real / longest as real == 0.0 <==> a == b
  {
    CellBounds(a, b, |a|, |b|);
    CellDiagonal(a, |a|);
    if Lev(a, b) == 0 { CellZero(a, b, |a|, |b|); }
    QuotientInUnit(Lev(a, b), longest);
  }

  lemma QuotientInUnit(d: int, n: int)
    requires 0 <= d <= n && n > 0
    ensures 0.0 <= d as real / n as real <= 1.0
    ensures d as real / n as real == 0.0 <==> d == 0
  {
  }
}
