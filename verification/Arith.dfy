/** Division with remainder, for words that wrap and bits that shift. */
module Arith {

  lemma DivModUnique(a: int, q: int, r: int, m: int)
    requires m > 0 && a == q * m + r && 0 <= r < m
    ensures a / m == q && a % m == r
  {
    var d := q - a / m;
    assert d * m == a % m - r;
    if d >= 1 {
      MulAtLeast(d, m);
    } else if d <= -1 {
      MulAtLeast(-d, m);
    }
  }

  lemma MulAtLeast(d: int, m: int)
    requires d >= 1 && m > 0
    ensures d * m >= m
  {
  }

  /** Adding a multiple moves the quotient and keeps the remainder. */
  lemma AddMultiple(x: int, k: int, m: int)
    requires m > 0
    ensures (x + k * m) / m == x / m + k
    ensures (x + k * m) % m == x % m
  {
    assert x + k * m == (x / m + k) * m + x % m;
    DivModUnique(x + k * m, x / m + k, x % m, m);
  }

  /** Dividing twice is dividing by the product. */
  lemma DivDiv(x: int, m: int, n: int)
    requires m > 0 && n > 0
    ensures m * n > 0 && x / m / n == x / (m * n)
    ensures x % (m * n) == x / m % n * m + x % m
  {
    assert m * n > 0 by { MulAtLeast(n, m); }
    var q, r := x / m / n, x / m % n;
    assert x == (q * n + r) * m + x % m;
    assert (q * n + r) * m == q * (m * n) + r * m;
    RemainderFits(r, x % m, m, n);
    DivModUnique(x, q, r * m + x % m, m * n);
  }

  lemma RemainderFits(r: int, s: int, m: int, n: int)
    requires 0 <= r < n && 0 <= s < m
    ensures 0 <= r * m + s < m * n
  {
    MulNonNegative(r, m);
    MulNonNegative(n - 1 - r, m);
    Distribute(n, r + 1, m);
    Distribute(r, -1, m);
  }

  lemma MulNonNegative(a: int, b: int)
    requires a >= 0 && b >= 0
    ensures a * b >= 0
  {
  }

  lemma Distribute(a: int, b: int, m: int)
    ensures (a - b) * m == a * m - b * m
  {
  }

  lemma QuotientNonNegative(n: int, m: int)
    requires n >= 0 && m > 0
    ensures n / m >= 0
  {
    var q := n / m;
    assert n == q * m + n % m;
    if q < 0 { MulAtLeast(-q, m); }
  }
}
