/** Division facts with a symbolic divisor. */
module Arithmetic {

  lemma MulMonotone(d: nat, a: nat, b: nat)
    requires a <= b
    ensures d * a <= d * b
  {
  }

  lemma QuotientUnique(d: nat, q: nat, p: nat, r: nat, s: nat)
    requires r < d && s < d && d * q + r == d * p + s
    ensures q == p && r == s
  {
    if q < p {
      MulMonotone(d, q + 1, p);
    } else if p < q {
      MulMonotone(d, p + 1, q);
    }
  }

  lemma DivMod(n: nat, d: nat, q: nat, r: nat)
    requires r < d && n == d * q + r
    ensures n / d == q && n % d == r
  {
    QuotientUnique(d, q, n / d, r, n % d);
  }
}
