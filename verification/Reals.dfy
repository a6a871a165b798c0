/** Products and quotients of real numbers, one fact at a time. */
module Reals {

  lemma MulNonNegative(x: real, y: real)
    requires 0.0 <= x && 0.0 <= y
    ensures 0.0 <= x * y
  {}

  lemma MulPositive(x: real, y: real)
    requires 0.0 < x && 0.0 < y
    ensures 0.0 < x * y
  {}

  lemma Distribute(a: real, b: real, c: real)
    ensures (a + b) * c == a * c + b * c
    ensures c * (a + b) == a * c + b * c
  {}

  lemma Subtract(a: real, b: real, c: real)
    ensures (a - b) * c == a * c - b * c
    ensures c * (a - b) == a * c - b * c
  {}

  lemma MulMonotone(a: real, b: real, c: real)
    requires a <= b && 0.0 <= c
    ensures a * c <= b * c
  {
    MulNonNegative(b - a, c);
    Subtract(b, a, c);
  }

  lemma MulStrict(a: real, b: real, c: real)
    requires a < b && 0.0 < c
    ensures a * c < b * c
  {
    MulPositive(b - a, c);
    Subtract(b, a, c);
  }

  lemma WholeOf(a: real, u: real, t: real)
    requires u + t == 1.0
    ensures a * u + a * t == a
  {
    assert u == 1.0 - t;
  }

  lemma Quotient(n: real, d: real)
    requires d != 0.0
    ensures n / d * d == n
  {}

  /** A quotient lies between bounds that the numerator respects. */
  lemma DivBetween(n: real, d: real, low: real, high: real)
    requires 0.0 < d && low * d <= n <= high * d
    ensures low <= n / d <= high
  {
    var q := n / d;
    Quotient(n, d);
    if q < low {
      MulStrict(q, low, d);
    }
    if high < q {
      MulStrict(high, q, d);
    }
  }

  lemma DivAtLeast(n: real, d: real, t: real)
    requires 0.0 < d
    ensures n / d * d == n && (n / d >= t <==> n >= t * d)
  {
    Quotient(n, d);
    FactorAtLeast(n / d, t, d);
  }

  lemma FactorAtLeast(q: real, t: real, d: real)
    requires 0.0 < d
    ensures q >= t <==> q * d >= t * d
  {
    if q >= t {
      MulMonotone(t, q, d);
    } else {
      MulStrict(q, t, d);
    }
  }

  lemma DivBounds(a: real, b: real)
    requires 0.0 <= a <= b && 0.0 < b
    ensures 0.0 <= a / b <= 1.0
  {
    DivBetween(a, b, 0.0, 1.0);
  }

  /** A quotient is at most one exactly when the numerator is at most the denominator. */
  lemma DivAtMostOne(a: real, b: real)
    requires 0.0 <= a && 0.0 < b
    ensures 0.0 <= a / b && (a / b <= 1.0 <==> a <= b)
  {
    var q := a / b;
    Quotient(a, b);
    if q < 0.0 {
      MulStrict(q, 0.0, b);
    }
    if q <= 1.0 {
      MulMonotone(q, 1.0, b);
    } else {
      MulStrict(1.0, q, b);
    }
  }

  lemma DivMonotone(a: real, b: real, c: real)
    requires a <= b && 0.0 < c
    ensures a / c <= b / c
  {
    var q, r := a / c, b / c;
    Quotient(a, c);
    Quotient(b, c);
    if r < q {
      MulStrict(r, q, c);
    }
  }

  lemma DivAntitone(w: real, x: real, y: real)
    requires 0.0 <= w && 0.0 < x <= y
    ensures 0.0 <= w / y <= w / x
  {
    var q, r := w / y, w / x;
    Quotient(w, x);
    Quotient(w, y);
    if q < 0.0 {
      MulStrict(q, 0.0, y);
    }
    if r < q {
      MulStrict(r, q, x);
      MulMonotone(x, y, q);
    }
  }

  /** Rounding to a fixed number of digits: it keeps the order. */
  type Rounding = f: real -> real | forall x, y :: x <= y ==> f(x) <= f(y)
    witness (x: real) => x

  lemma RoundedDivMonotone(round: Rounding, a: real, b: real, n: real)
    requires a <= b && 0.0 < n
    ensures round(a / n) <= round(b / n)
  {
    DivMonotone(a, b, n);
  }
}
