// Small facts about unsigned division and multiplication that the layout
// proofs need; the solver does not find them on its own.
module Arith {

  /** Division by a positive divisor is determined by its quotient and remainder. */
  lemma DivModUnique(n: nat, d: nat, q: nat, r: nat)
    requires d > 0 && r < d && n == q * d + r
    ensures n / d == q && n % d == r
  {
    var q', r' := n / d, n % d;
    assert n == q' * d + r';
    assert (q + 1) * d == q * d + d && (q' + 1) * d == q' * d + d;
    if q' > q {
      MulMonotone(q + 1, q', d);
    } else if q' < q {
      MulMonotone(q' + 1, q, d);
    }
  }

  lemma MulMonotone(a: nat, b: nat, c: nat)
    requires a <= b
    ensures a * c <= b * c
  {
    assert b * c == a * c + (b - a) * c;
  }

  /** A value below `bound` scaled by `m` and divided by `bound` stays below `m`. */
  lemma ScaledDivBound(x: nat, bound: nat, m: nat)
    requires x < bound && m > 0
    ensures x * m / bound < m
  {
    MulMonotone(x + 1, bound, m);
    assert (x + 1) * m == x * m + m;
    var q := x * m / bound;
    assert x * m == q * bound + x * m % bound;
    assert m * bound == bound * m;
    if q >= m {
      MulMonotone(m, q, bound);
    }
  }

  /** Division by a fixed positive divisor is monotone in the dividend. */
  lemma DivMonotone(x: nat, y: nat, d: nat)
    requires x <= y && d > 0
    ensures x / d <= y / d
  {
    var qx, qy := x / d, y / d;
    assert x == qx * d + x % d && y == qy * d + y % d;
    assert (qy + 1) * d == qy * d + d;
    if qx > qy {
      MulMonotone(qy + 1, qx, d);
    }
  }
}
