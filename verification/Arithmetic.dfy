/** Products and quotients, regrouped by hand so that no proof elsewhere has to search for the grouping. */
module Arithmetic {

  lemma Distribute(a: int, b: int, c: int)
    ensures (a + b) * c == a * c + b * c
  {
  }

  lemma MulAssoc(a: int, b: int, c: int)
    ensures (a * b) * c == a * (b * c)
  {
  }

  lemma Scaled(d: nat, m: nat)
    requires d > 0
    ensures d * m >= m
  {
  }

  /** Quotient and remainder, by what they mean. */
  function DivMod(a: nat, m: nat): (r: (nat, nat))
    requires m > 0
    ensures r.0 * m + r.1 == a && r.1 < m
  {
    (a / m, a % m)
  }

  lemma DivModUnique(q: int, r: nat, q': int, r': nat, m: nat)
    requires r < m && r' < m && q * m + r == q' * m + r'
    ensures q == q' && r == r'
  {
    if q < q' { Scaled(q' - q, m); Distribute(q, q' - q, m); }
    if q' < q { Scaled(q - q', m); Distribute(q', q - q', m); }
  }

  lemma DivModOf(v: int, m: nat)
    requires m > 0
    ensures v == v / m * m + v % m && 0 <= v % m < m
  {
  }

  lemma QuotientOf(q: int, r: nat, m: nat)
    requires r < m
    ensures (q * m + r) / m == q && (q * m + r) % m == r
  {
    var v := q * m + r;
    DivModOf(v, m);
    DivModUnique(q, r, v / m, v % m, m);
  }

  lemma BelowProduct(s: nat, b: nat, r: nat, a: nat)
    requires s < b && r < a
    ensures 0 <= s * a + r < a * b && a * b > 0
  {
    Scaled(b - s, a);
    Distribute(s, b - s, a);
  }

  /** Dividing by a product is dividing by its factors in turn, and the remainder is made of theirs. */
  lemma Nested(v: int, a: nat, b: nat)
    requires a > 0 && b > 0
    ensures a * b > 0 && v / (a * b) == v / a / b && v % (a * b) == v / a % b * a + v % a
  {
    var q, r := v / a, v % a;
    var p, s := q / b, q % b;
    DivModOf(v, a);
    DivModOf(q, b);
    BelowProduct(s, b, r, a);
    Distribute(p * b, s, a);
    MulAssoc(p, b, a);
    DivModOf(v, a * b);
    DivModUnique(p, s * a + r, v / (a * b), v % (a * b), a * b);
  }
}
