/** Facts about products and quotients of naturals. */
module Arithmetic {
  lemma MulMonotone(a: nat, b: nat, q: nat)
    ensures (a + 1) * q == a * q + q
    ensures a <= b ==> a * q <= b * q
  {
    if a <= b { assert b * q == a * q + (b - a) * q; }
  }

  lemma DivModUnique(x: nat, q: nat, d: nat, r: nat)
    requires r < q && x == d * q + r
    ensures x / q == d && x % q == r
  {
    var d', r' := x / q, x % q;
    assert x == d' * q + r';
    MulMonotone(d', d, q);
    MulMonotone(d, d', q);
    MulMonotone(d' + 1, d, q);
    MulMonotone(d + 1, d', q);
  }
}
