/** Products and quotients of naturals, one step at a time. */
module Arith {

  lemma Distributes(a: nat, c: nat, p: nat)
    ensures (a + c) * p == a * p + c * p && c * p >= 0
  {
  }

  lemma ScaledLess(a: nat, b: nat, p: nat, w: nat)
    requires w < p
    ensures a < b ==> a * p + w < b * p
    ensures b <= a ==> b * p <= a * p + w && (a - b) * p == a * p - b * p
  {
    if a < b {
      Distributes(a + 1, b - a - 1, p);
      Distributes(a, 1, p);
    } else {
      Distributes(b, a - b, p);
    }
  }

  /** Quotient and remainder are unique. */
  lemma DivUnique(x: nat, q: nat, p: nat, r: nat)
    requires r < p && x == q * p + r
    ensures x / p == q && x % p == r
  {
    assert x == x / p * p + x % p;
    ScaledLess(x / p, q, p, x % p);
    ScaledLess(q, x / p, p, r);
  }
}
