/** Division of non-negative integers. */
module Arithmetic {
  /** Quotient and remainder are what they should be. */
  lemma Divided(n: nat, q: nat, m: nat, r: nat)
    requires n == q * m + r && r < m
    ensures n / m == q && n % m == r
  {
    var d, e := n / m, n % m;
    assert d * m + e == n;
    assert (d - q) * m == r - e;
    assert d - q >= 1 ==> (d - q) * m >= m;
    assert d - q <= -1 ==> (d - q) * m + m <= 0;
  }
}
