/** Multiplication and division facts, one solver step each. */
module Arith {

  lemma MulSwap(x: nat, y: nat, z: nat)
    ensures x * (y * z) == y * (x * z)
  {
  }

  lemma MulAssoc(x: int, y: int, z: int)
    ensures x * y * z == x * (y * z)
  {
  }

  lemma Distribute(x: int, y: int, z: int)
    ensures (x + y) * z == x * z + y * z
  {
  }

  lemma MulLess(x: nat, p: nat, q: nat)
    requires x < p && q >= 1
    ensures x * q < p * q
  {
    Distribute(x, p - x, q);
    MulAtLeast(p - x, q);
  }

  lemma MulAtLeast(x: nat, q: nat)
    requires x >= 1
    ensures x * q >= q
  {
    Distribute(x - 1, 1, q);
    MulNonNegative(x - 1, q);
  }

  lemma MulNonNegative(x: nat, y: nat)
    ensures x * y >= 0
  {
  }

  /** Euclid: quotient and remainder of `h * m + r`. */
  lemma Divided(h: nat, r: nat, m: nat)
    requires r < m
    ensures (h * m + r) / m == h && (h * m + r) % m == r
  {
    var x := h * m + r;
    QuotientUnique(x, m, x / m, x % m, h, r);
  }

  lemma QuotientUnique(x: int, m: nat, d: int, s: int, h: int, r: int)
    requires 0 <= r < m && 0 <= s < m
    requires x == d * m + s == h * m + r
    ensures d == h && s == r
  {
    Distribute(d - h, h, m);
    assert (d - h) * m == r - s;
    if d > h {
      MulAtLeast(d - h, m);
    } else if d < h {
      Distribute(h - d, d, m);
      MulAtLeast(h - d, m);
    }
  }
}
