/** Division facts the rate conversions, image layouts and counters share. */
module Arithmetic {

  lemma {:induction false} CancelFactor(x: int, y: int, d: int)
    requires d > 0 && x * d < y * d
    ensures x < y
  {
  }

  lemma {:induction false} OneMore(n: nat, d: nat)
    requires n > 0
    ensures n * d == (n - 1) * d + d
  {
  }

  lemma {:induction false} ProductBound(a: nat, b: nat, c: nat, d: nat)
    requires a <= c && b <= d
    ensures a * b <= c * d
  {
    assert a * b <= c * b;
    assert c * b <= c * d;
  }

  lemma {:induction false} DivBetween(n: int, d: int, lo: int, hi: int)
    requires d > 0 && lo * d <= n < (hi + 1) * d
    ensures lo <= n / d <= hi
  {
    var q := n / d;
    assert q * d <= n < (q + 1) * d;
    CancelFactor(lo, q + 1, d);
    CancelFactor(q, hi + 1, d);
  }

  lemma {:induction false} DivMonotone(m: nat, n: nat, d: nat)
    requires d > 0 && m <= n
    ensures m / d <= n / d
  {
    var q := n / d;
    assert n < q * d + d;
    if m / d > q {
      ProductBound(q + 1, d, m / d, d);
    }
  }

  lemma {:induction false} DivAtLeast(n: nat, d: nat, q: nat)
    requires d > 0 && q * d <= n
    ensures q <= n / d
  {
    assert n < n / d * d + d;
    CancelFactor(q, n / d + 1, d);
  }

  /** n / d rounded to the nearest integer, halves away from zero. */
  function RoundDiv(n: int, d: int): int
    requires d > 0
  {
    if n >= 0 then (2 * n + d) / (2 * d) else -((-2 * n + d) / (2 * d))
  }

  lemma {:induction false} RoundBetween(n: int, d: int, lo: int, hi: int)
    requires d > 0 && lo * d <= n <= hi * d
    ensures lo <= RoundDiv(n, d) <= hi
  {
    if n >= 0 {
      DivBetween(2 * n + d, 2 * d, lo, hi);
    } else {
      DivBetween(-2 * n + d, 2 * d, -hi, -lo);
    }
  }

  /** It is within half of the exact quotient, and of two nearest integers the one farther from 0. */
  lemma {:induction false} RoundNearest(n: int, d: int)
    requires d > 0
    ensures -d <= 2 * (RoundDiv(n, d) * d) - 2 * n <= d
    ensures 2 * (RoundDiv(n, d) * d) - 2 * n == d ==> n >= 0
    ensures 2 * (RoundDiv(n, d) * d) - 2 * n == -d ==> n < 0
  {
    var m := if n >= 0 then n else -n;
    var q := (2 * m + d) / (2 * d);
    HalfUp(m, d, q);
    assert RoundDiv(n, d) == if n >= 0 then q else -q;
    hide RoundDiv;
    assert RoundDiv(n, d) * d == if n >= 0 then q * d else -(q * d);
  }

  lemma {:induction false} HalfUp(m: nat, d: nat, q: nat)
    requires d > 0 && q == (2 * m + d) / (2 * d)
    ensures 2 * (q * d) <= 2 * m + d < 2 * (q * d) + 2 * d
  {
    assert q * (2 * d) <= 2 * m + d < q * (2 * d) + 2 * d;
    assert q * (2 * d) == 2 * (q * d);
  }

  lemma {:induction false} DivOfMultiple(n: nat, d: nat)
    requires d > 0
    ensures n * d / d == n && n * d % d == 0
  {
    DivBetween(n * d, d, n, n);
  }

  lemma {:induction false} SumWhole(a: nat, b: nat, d: nat)
    requires d > 0 && a % d == 0 && b % d == 0
    ensures (a + b) % d == 0
  {
    assert a + b == (a / d + b / d) * d;
    DivOfMultiple(a / d + b / d, d);
  }

  lemma {:induction false} DifferenceWhole(a: nat, b: nat, d: nat)
    requires d > 0 && a % d == 0 && b % d == 0 && b <= a
    ensures (a - b) % d == 0
  {
    assert a - b == (a / d - b / d) * d;
    if a != b {
      CancelFactor(b / d, a / d, d);
    }
    DivOfMultiple(a / d - b / d, d);
  }

  /** Row y, column x of a grid `width` wide lies inside it, and so does the whole row. */
  lemma {:induction false} GridBound(y: nat, x: nat, height: nat, width: nat)
    requires y < height && x < width
    ensures y * width + x < height * width
  {
    GridRow(y, height, width);
  }

  lemma {:induction false} GridRow(y: nat, height: nat, width: nat)
    requires y < height
    ensures (y + 1) * width == y * width + width <= height * width
  {
    assert (y + 1) * width <= height * width;
  }
}
