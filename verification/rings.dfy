/** Positions in a ring and indices of time slots: whole numbers divided by a size. */
module Rings {

  lemma MulGrows(n: int, k: int)
    requires n > 0 && k >= 1
    ensures n * k >= n
  {
  }

  lemma MulShrinks(n: int, k: int)
    requires n > 0 && k <= -1
    ensures n * k <= -n
  {
    MulGrows(n, -k);
    assert n * k == -(n * -k);
  }

  /** Division with remainder determines the remainder. */
  lemma RemainderIs(q: int, n: int, r: int)
    requires n > 0 && 0 <= r < n
    ensures (n * q + r) % n == r
  {
    var x := n * q + r;
    var q', r' := x / n, x % n;
    assert n * (q - q') == r' - r;
    if q > q' { MulGrows(n, q - q'); }
    if q < q' { MulShrinks(n, q - q'); }
  }

  lemma QuotientIs(q: int, n: int, r: int)
    requires n > 0 && 0 <= r < n
    ensures (n * q + r) / n == q
  {
    RemainderIs(q, n, r);
    var q' := (n * q + r) / n;
    assert n * (q - q') == 0;
    if q > q' { MulGrows(n, q - q'); }
    if q < q' { MulShrinks(n, q - q'); }
  }

  /** Two numbers less than a full turn apart use different slots. */
  lemma SlotsDiffer(b: int, c: int, n: int)
    requires n > 0 && b != c && -n < b - c < n
    ensures b % n != c % n
  {
    var lo, hi := if b < c then b else c, if b < c then c else b;
    var q, r := lo / n, lo % n;
    assert lo == n * q + r;
    if r + (hi - lo) < n {
      RemainderIs(q, n, r + (hi - lo));
    } else {
      RemainderIs(q + 1, n, r + (hi - lo) - n);
      assert n * (q + 1) == n * q + n;
    }
  }

  /** Going back i places around the ring from the slot of a number leads to the slot of the number less i. */
  lemma StepBack(index: int, n: int, i: int)
    requires n > 0 && 0 <= i <= n
    ensures (index % n - i + n) % n == (index - i) % n
  {
    var q, r := index / n, index % n;
    assert index == n * q + r;
    if r >= i {
      RemainderIs(1, n, r - i);
      RemainderIs(q, n, r - i);
      assert index - i == n * q + (r - i);
    } else {
      RemainderIs(0, n, r - i + n);
      RemainderIs(q - 1, n, r - i + n);
      assert n * (q - 1) == n * q - n;
      assert index - i == n * (q - 1) + (r - i + n);
    }
  }

  lemma StepForward(index: int, n: int)
    requires n > 0
    ensures (index % n + 1) % n == (index + 1) % n
  {
    var q, r := index / n, index % n;
    assert index == n * q + r;
    if r + 1 == n {
      RemainderIs(1, n, 0);
      RemainderIs(q + 1, n, 0);
      assert n * (q + 1) == n * q + n;
    } else {
      RemainderIs(0, n, r + 1);
      RemainderIs(q, n, r + 1);
    }
  }

  /** The index of a time slot does not go back when time does not. */
  lemma IndexGrows(now: int, later: int, size: int)
    requires size > 0 && now <= later
    ensures now / size <= later / size
  {
    var a, b := now / size, later / size;
    assert now == size * a + now % size && later == size * b + later % size;
    assert size * (a - b) == size * a - size * b;
    if b < a { MulGrows(size, a - b); }
  }

  /** Times less than a slot's length apart lie in the same slot or in neighbouring ones. */
  lemma IndexStep(before: int, now: int, size: int)
    requires size > 0 && now - size < before <= now
    ensures before / size == now / size || before / size == now / size - 1
  {
    IndexGrows(before, now, size);
    var a, b := before / size, now / size;
    assert before == size * a + before % size && now == size * b + now % size;
    assert size * (b - a - 1) == size * b - size * a - size;
    if b - a - 1 >= 1 { MulGrows(size, b - a - 1); }
  }
}
