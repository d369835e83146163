/** Facts about products and remainders with a variable divisor. */
module Arithmetic {

  lemma AtLeast(x: nat, y: int)
    requires y >= 1
    ensures x * y >= x
  {
  }

  /** Quotient and remainder are unique. */
  lemma ModUnique(x: int, d: int, q: int, r: int)
    requires x == d * q + r && 0 <= r < d
    ensures x % d == r
  {
    var k := x / d;
    assert x == d * k + x % d;
    assert d * (q - k) == d * q - d * k && d * (k - q) == -(d * (q - k));
    if q > k {
      AtLeast(d, q - k);
    } else if q < k {
      AtLeast(d, k - q);
    }
  }
}
