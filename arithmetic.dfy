/** Facts about integer division used by the progress and duration
    computations. */
module Arithmetic {

  lemma MulBound(n: int, d: int)
    requires n > 0
    ensures d >= 1 ==> n * d >= n
    ensures d <= -1 ==> n * d <= -n
  {
  }

  /** Euclidean division is unique: a remainder in [0, n) fixes quotient and
      remainder. */
  lemma DivModUnique(a: int, n: int, q: int, r: int)
    requires n > 0 && 0 <= r < n && a == q * n + r
    ensures a / n == q && a % n == r
  {
    var d := a / n - q;
    assert n * d == r - a % n;
    MulBound(n, d);
  }

  /** Adding whole multiples of the divisor shifts the quotient and keeps the
      remainder. */
  lemma DivShift(a: int, k: int, n: int)
    requires n > 0
    ensures (a + k * n) / n == a / n + k
    ensures (a + k * n) % n == a % n
  {
    assert a + k * n == (a / n + k) * n + a % n;
    DivModUnique(a + k * n, n, a / n + k, a % n);
  }

  /** Multiplying both sides by a positive factor keeps `<=`. */
  lemma MulLe(x: int, y: int, b: int)
    requires x <= y && b > 0
    ensures x * b <= y * b
  {
    assert y * b - x * b == (y - x) * b;
  }

  /** Dividing by `b` and then by `c` is dividing by `b * c`. */
  lemma DivDiv(a: int, b: int, c: int)
    requires a >= 0 && b > 0 && c > 0
    ensures a / b / c == a / (b * c)
  {
    var q := a / b;
    var r := a % b;
    var q2 := q / c;
    var r2 := q % c;
    assert q == q2 * c + r2;
    assert a == q * b + r;
    assert q * b == q2 * (b * c) + r2 * b by {
      assert (q2 * c + r2) * b == q2 * c * b + r2 * b;
      assert q2 * c * b == q2 * (b * c);
    }
    MulLe(r2, c - 1, b);
    assert (c - 1) * b == b * c - b;
    DivModUnique(a, b * c, q2, r2 * b + r);
  }
}
