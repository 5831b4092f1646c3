/** Facts about products and quotients of unbounded integers, and the bound of the signed ones the code counts with. */
module Arithmetic {

  const INT_MAX := 0x7FFF_FFFF

  lemma ProductOrder(a: int, b: int, d: int)
    requires a <= b && d >= 0
    ensures a * d <= b * d
  {
  }

  lemma ProductBound(a: int, b: int, m: int, n: int)
    requires 0 <= a <= m && 0 <= b <= n
    ensures 0 <= a * b <= m * n
  {
    ProductOrder(a, m, b);
    ProductOrder(b, n, m);
  }

  /** The quotient is the only number with a remainder below the divisor. */
  lemma QuotientIs(n: int, d: int, q: int, rest: int)
    requires d > 0 && n == q * d + rest && 0 <= rest < d
    ensures n / d == q
  {
    var p := n / d;
    assert n == p * d + n % d;
    assert (p + 1) * d == p * d + d && (q + 1) * d == q * d + d;
    if p < q {
      ProductOrder(p + 1, q, d);
    } else if p > q {
      ProductOrder(q + 1, p, d);
    }
  }

  lemma DivideSum(q: int, d: int, r: int)
    requires d > 0
    ensures (q * d + r) / d == q + r / d
  {
    var k, rest := r / d, r % d;
    assert r == k * d + rest;
    assert q * d + r == (q + k) * d + rest;
    QuotientIs(q * d + r, d, q + k, rest);
  }
}
