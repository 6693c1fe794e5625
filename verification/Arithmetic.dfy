/** Facts about products, quotients and remainders, one at a time. */
module Arithmetic {

  lemma Distribute(x: int, y: int, p: int)
    ensures (x + y) * p == x * p + y * p
  {}

  lemma NonNegativeProduct(x: nat, y: nat)
    ensures 0 <= x * y
  {}

  lemma ZeroProduct(x: int, y: int)
    requires y == 0
    ensures x * y == 0
  {}

  lemma AtLeastOnce(k: int, m: int)
    requires 1 <= k && 0 <= m
    ensures m <= k * m
  {}

  lemma ScaleInt(x: int, y: int, p: int)
    requires x <= y && 0 <= p
    ensures x * p <= y * p
  {}

  lemma Scale(x: real, y: real, p: real)
    requires x <= y && 0.0 <= p
    ensures x * p <= y * p
  {}

  lemma ScaleBack(x: real, y: real, p: real)
    requires x * p <= y * p && 0.0 < p
    ensures x <= y
  {}

  lemma ProductOfReals(x: int, y: int)
    ensures (x * y) as real == x as real * y as real
  {}

  lemma Quotient(x: int, p: int)
    requires 0 < p && 0 <= x
    ensures 0 <= x / p
    ensures 0 <= (x / p) * p
    ensures x - p < (x / p) * p <= x
  {
    assert x == (x / p) * p + x % p;
  }

  lemma SameQuotient(q: int, r: int, q': int, r': int, m: int)
    requires 0 <= r < m && 0 <= r' < m && q * m + r == q' * m + r'
    ensures q == q' && r == r'
  {
    if q < q' {
      AtLeastOnce(q' - q, m);
      Distribute(q, q' - q, m);
    } else if q' < q {
      AtLeastOnce(q - q', m);
      Distribute(q', q - q', m);
    }
  }

  lemma DivisionIs(x: int, q: int, m: int, r: int)
    requires x == q * m + r && 0 <= r < m
    ensures x / m == q && x % m == r
  {
    assert x == (x / m) * m + x % m;
    SameQuotient(x / m, x % m, q, r, m);
  }

  lemma AddModulo(x: nat, y: nat, m: nat)
    requires 0 < m
    ensures (x % m + y) % m == (x + y) % m
  {
    var z := x % m + y;
    assert x == (x / m) * m + x % m;
    assert z == (z / m) * m + z % m;
    Distribute(x / m, z / m, m);
    DivisionIs(x + y, x / m + z / m, m, z % m);
  }
}
