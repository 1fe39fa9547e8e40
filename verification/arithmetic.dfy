/** Facts of integer multiplication and Euclidean division that the solver needs spelled out. */
module Arithmetic {

  /** The Euclidean quotient of a non-negative dividend, times the divisor, is at most one divisor short of it. */
  lemma DivBounds(n: int, d: int)
    requires 0 <= n && d > 0
    ensures 0 <= n / d
    ensures 0 <= (n / d) * d <= n < (n / d) * d + d
  {
    assert n == (n / d) * d + n % d;
    MulNonNegative(n / d, d);
  }

  lemma MulNonNegative(a: int, b: int)
    requires 0 <= a && 0 <= b
    ensures 0 <= a * b
  {
  }

  /** Multiplying by a non-negative factor keeps order. */
  lemma MulMono(a: int, b: int, d: int)
    requires d >= 0
    ensures a <= b ==> a * d <= b * d
  {
    if a <= b {
      MulNonNegative(b - a, d);
      assert b * d - a * d == (b - a) * d;
    }
  }

  lemma MulLeftMonotone(k: int, a: int, b: int)
    requires 0 <= k && a <= b
    ensures k * a <= k * b
  {
    MulMono(a, b, k);
  }

  lemma MulRightCancel(a: int, b: int, d: int)
    requires d > 0 && a * d <= b * d
    ensures a <= b
  {
    MulMono(b + 1, a, d);
    assert (b + 1) * d == b * d + d;
  }

  /** Multiplying then dividing by the same positive number gives back a non-negative value. */
  lemma DivExact(m: int, d: int)
    requires 0 <= m && d > 0
    ensures (m * d) / d == m
  {
    MulNonNegative(m, d);
    var q := (m * d) / d;
    DivBounds(m * d, d);
    MulRightCancel(q, m, d);
    MulMono(q + 1, m, d);
    assert (q + 1) * d == q * d + d;
  }

  /** q*d <= n gives q <= n/d. */
  lemma DivLowerBound(q: int, n: int, d: int)
    requires d > 0 && q * d <= n
    ensures q <= n / d
  {
    MulMono(n / d + 1, q, d);
    assert (n / d + 1) * d == (n / d) * d + d;
  }

  /** Dividing by a positive divisor keeps order. */
  lemma DivMonotone(a: int, b: int, d: int)
    requires d > 0
    ensures a <= b ==> a / d <= b / d
  {
    MulMono(b / d + 1, a / d, d);
    assert (b / d + 1) * d == (b / d) * d + d;
  }

  /** n == h*m + r with 0 <= r < m gives n % m == r and n / m == h. */
  lemma ModOfSplit(n: int, h: int, r: int, m: int)
    requires m > 0 && 0 <= r < m && n == h * m + r
    ensures n % m == r && n / m == h
  {
    var d := n / m - h;
    assert d * m == r - n % m;
    MulMono(1, d, m);
    MulMono(d, -1, m);
  }

  /** Dividing by 2*p is halving and then dividing by p. */
  lemma DivHalveThen(x: int, p: int)
    requires 0 <= x && p > 0
    ensures x / (2 * p) == (x / 2) / p
  {
    var y := x / 2;
    var s := x % 2;
    var q := y / p;
    var t := y % p;
    assert y == q * p + t;
    assert x == q * (2 * p) + (2 * t + s);
    ModOfSplit(x, q, 2 * t + s, 2 * p);
  }
}
