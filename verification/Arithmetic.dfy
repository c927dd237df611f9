/** Integer division facts that the solver does not find by itself. */
module Arithmetic {

  lemma MulAtLeast(m: int, d: int)
    requires m > 0
    ensures d >= 1 ==> m * d >= m
    ensures d <= -1 ==> m * d <= -m
  {
  }

  lemma QuotientIsUnique(x: int, m: int, q: int, r: int)
    requires m > 0 && x == m * q + r && 0 <= r < m
    ensures x / m == q && x % m == r
  {
    assert x == m * (x / m) + x % m;
    assert m * (x / m - q) == r - x % m;
    MulAtLeast(m, x / m - q);
  }
}
