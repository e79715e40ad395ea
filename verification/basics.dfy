/** The few definitions that several components share. */
module Basics {

  datatype Option<T> = None | Some(value: T)

  function Min(x: int, y: int): int {
    if x <= y then x else y
  }

  function Max(x: int, y: int): int {
    if x >= y then x else y
  }

  function Ceil(x: real): int {
    -((-x).Floor)
  }

  lemma CeilIs(x: real, n: int)
    ensures n as real >= x <==> n >= Ceil(x)
  {
  }

  function Members<T>(s: seq<T>): set<T> {
    set x | x in s
  }

  /** The list without its i-th element; the two functions call each other so that a proof unfolds one step at a time. */
  function Splice<T>(s: seq<T>, i: nat): (r: seq<T>)
    requires i < |s|
    ensures |r| == |s| - 1
    decreases i, 1
  {
    if i == 0 then s[1..] else SpliceLater(s, i)
  }

  function SpliceLater<T>(s: seq<T>, i: nat): (r: seq<T>)
    requires 0 < i < |s|
    ensures |r| == |s| - 1
    decreases i, 0
  {
    [s[0]] + Splice(s[1..], i - 1)
  }

  lemma {:induction false} SpliceIs<T>(s: seq<T>, i: nat)
    requires i < |s|
    ensures Splice(s, i) == s[..i] + s[i + 1..]
  {
    if i > 0 { SpliceIs(s[1..], i - 1); }
  }

  function Reverse<T>(s: seq<T>): (r: seq<T>)
    ensures |r| == |s|
  {
    if s == [] then [] else [s[|s| - 1]] + Reverse(s[..|s| - 1])
  }

  /** A subset is no larger, and if it is as large it is the whole set. */
  lemma SubsetSize<T>(small: set<T>, large: set<T>)
    requires small <= large
    ensures |small| <= |large| && (|small| == |large| ==> small == large)
  {
    assert large == small + (large - small);
  }
}
