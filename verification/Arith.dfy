/** Powers, and division by products, in the small steps that the solver can follow. */
module Arith {
  function Pow10(w: nat): (p: nat)
    ensures p > 0
  {
    if w == 0 then 1 else 10 * Pow10(w - 1)
  }

  lemma MulLess(a: int, b: int, p: int)
    requires p > 0 && a * p < b * p
    ensures a < b
  {
  }

  lemma DivModUnique(n: nat, p: nat, q: nat, r: nat)
    requires p > 0 && n == q * p + r && r < p
    ensures n / p == q && n % p == r
  {
    var k := n / p;
    assert k * p + n % p == q * p + r;
    assert (q + 1) * p == q * p + p && (k + 1) * p == k * p + p;
    MulLess(k, q + 1, p);
    MulLess(q, k + 1, p);
  }

  /** Dividing by q = p * r is dividing by p, then by r. */
  lemma DivSplits(n: nat, p: nat, r: nat, q: nat)
    requires p > 0 && r > 0 && q > 0 && q == p * r
    ensures n / p / r == n / q && n / p % r == n % q / p && n % q % p == n % p
  {
    var a, m := n / q, n % q;
    var c, d := m / p, m % p;
    assert n == a * q + m && m == c * p + d;
    Regroup(n, p, r, a, c, d);
    QuotientBelow(m, p, r, c, d);
    NotNegative(a, c, r, n, q, m, p);
    DivModUnique(n, p, a * r + c, d);
    DivModUnique(n / p, r, a, c);
  }

  lemma QuotientBelow(m: nat, p: nat, r: nat, c: int, d: nat)
    requires p > 0 && m == c * p + d && m < p * r
    ensures c < r
  {
    assert p * r == r * p;
    MulLess(c, r, p);
  }

  lemma NotNegative(a: int, c: int, r: nat, n: nat, q: nat, m: nat, p: nat)
    requires q > 0 && p > 0 && a == n / q && c == m / p
    ensures a >= 0 && c >= 0 && a * r + c >= 0
  {
  }

  lemma Regroup(n: int, p: int, r: int, a: int, c: int, d: int)
    requires n == a * (p * r) + (c * p + d)
    ensures n == (a * r + c) * p + d
  {
    assert a * (p * r) == a * r * p;
  }
}
