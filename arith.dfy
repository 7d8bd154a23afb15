/**
 * Facts about multiplication and Euclidean division. Each is small enough
 * for the solver on its own; they are separate lemmas so that the proofs
 * about the placement invoke the one nonlinear step they need instead of
 * leaving the solver to search for it in a large context.
 */
module Arith {

  /** A positive factor does not make a non-negative number smaller. */
  lemma {:induction false} MulAtLeast(d: int, n: int)
    requires d >= 0 && n >= 1
    ensures d * n >= d
    decreases n
  {
    if n > 1 {
      MulAtLeast(d, n - 1);
      assert d * n == d * (n - 1) + d;
    }
  }

  /** Multiplying by a non-negative number keeps the order. */
  lemma MulMonotone(a: int, b: int, c: int)
    requires a <= b && c >= 0
    ensures a * c <= b * c
  {
    if a < b {
      MulAtLeast(c, b - a);
      assert b * c - a * c == c * (b - a);
    }
  }

  /** Quotient and remainder are determined by x == q * d + r with 0 <= r < d. */
  lemma DivModUnique(x: int, d: int, q: int, r: int)
    requires d >= 1 && 0 <= r < d && x == q * d + r
    ensures x / d == q && x % d == r
  {
    var q', r' := x / d, x % d;
    assert x == q' * d + r';
    var n := q' - q;
    assert n * d == r - r';
    if n >= 1 {
      MulAtLeast(d, n);
    } else if n <= -1 {
      MulAtLeast(d, -n);
    }
  }

  /** One more row of `b`. */
  lemma MulSucc(a: int, b: int)
    ensures (a + 1) * b == a * b + b
  {
  }

  /** A number at least the divisor has a quotient of at least one. */
  lemma DivAtLeastOne(x: int, d: int)
    requires d >= 1 && x >= d
    ensures x / d >= 1
  {
  }
}
