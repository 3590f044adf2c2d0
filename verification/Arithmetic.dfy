/** Division and remainder by a variable. */
module Arithmetic {
  lemma Multiples(x: int, m: int)
    requires 0 < m
    ensures (x >= 1 ==> x * m >= m) && (x <= -1 ==> x * m <= 0 - m)
    ensures x >= 2 ==> x * m >= 2 * m
  {
  }

  lemma DivIs(a: int, m: int, q: int, r: int)
    requires 0 < m && 0 <= r < m && a == q * m + r
    ensures a / m == q && a % m == r
  {
    var q', r' := a / m, a % m;
    assert (q' - q) * m == r - r';
    Multiples(q' - q, m);
  }

  lemma DivStep(a: int, m: int)
    requires m > 0
    ensures (a + m) / m == a / m + 1 && (a + m) % m == a % m
  {
    DivIs(a + m, m, a / m + 1, a % m);
  }
}
