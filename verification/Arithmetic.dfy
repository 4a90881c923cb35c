/** Quotients and remainders by a variable divisor. */
module Arithmetic {

  lemma LessProduct(q: nat, d: nat, r: nat, base: nat)
    requires d < base
    ensures q < r ==> q * base + d < r * base
  {
    if q < r {
      assert (q + 1) * base <= r * base;
    }
  }

  lemma QuotientUnique(x: nat, base: nat, q: nat, d: nat)
    requires d < base && x == q * base + d
    ensures x / base == q && x % base == d
  {
    assert x == x / base * base + x % base;
    LessProduct(q, d, x / base, base);
    LessProduct(x / base, x % base, q, base);
  }

  lemma SameRemainder(x: nat, base: nat)
    requires 0 < base <= x
    ensures (x - base) % base == x % base
  {
    var q, d := (x - base) / base, (x - base) % base;
    assert x - base == q * base + d;
    assert (q + 1) * base == q * base + base;
    QuotientUnique(x, base, q + 1, d);
  }
}
