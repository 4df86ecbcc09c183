/** Facts about products and quotients that the verifier does not find by itself. */
module Arithmetic {

  lemma ScaleMonotone(a: int, b: int, d: nat)
    requires a <= b
    ensures a * d <= b * d
  {
    assert (b - a) * d >= 0;
  }

  lemma DivideBack(q: nat, s: nat, r: nat)
    requires r < s
    ensures (q * s + r) / s == q && (q * s + r) % s == r
  {
    var n := q * s + r;
    if n / s < q {
      ScaleMonotone(n / s + 1, q, s);
    } else if q < n / s {
      ScaleMonotone(q + 1, n / s, s);
    }
  }

  lemma QuotientBelow(k: nat, p: nat, s: nat)
    requires s > 0 && k < p * s
    ensures k / s < p
  {
    if p <= k / s {
      ScaleMonotone(p, k / s, s);
    }
  }
}
