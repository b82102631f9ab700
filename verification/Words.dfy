/** Little-endian numbers and exclusive-or of bytes. */
module Words {
  import opened Bits

  /** The low `n` bytes of `v`, least significant first. */
  function Le(v: nat, n: nat): (b: seq<byte>)
    ensures |b| == n
  {
    if n == 0 then [] else [v % 256] + Le(v / 256, n - 1)
  }

  function FromLe(b: seq<byte>): (v: nat) {
    if |b| == 0 then 0 else b[0] as int + 256 * FromLe(b[1..])
  }

  function Limit(n: nat): (m: nat)
    ensures m >= 1
  {
    if n == 0 then 1 else 256 * Limit(n - 1)
  }

  lemma {:induction false} LeInverse(v: nat, n: nat)
    requires v < Limit(n)
    ensures FromLe(Le(v, n)) == v
  {
    if n > 0 {
      LeInverse(v / 256, n - 1);
      assert Le(v, n)[1..] == Le(v / 256, n - 1);
    }
  }

  lemma {:induction false} FromLeInverse(b: seq<byte>)
    ensures Le(FromLe(b), |b|) == b && FromLe(b) < Limit(|b|)
  {
    if |b| > 0 {
      FromLeInverse(b[1..]);
      var v := FromLe(b);
      assert v / 256 == FromLe(b[1..]) && v % 256 == b[0];
    }
  }

  function XorBits(n: nat, a: nat, b: nat): (r: nat)
    ensures r < Pow2(n)
  {
    if n == 0 then 0 else 2 * XorBits(n - 1, a / 2, b / 2) + (a + b) % 2
  }

  lemma Half(x: nat, q: nat, r: nat)
    requires x == 2 * q + r && r < 2
    ensures x / 2 == q && x % 2 == r
  {
  }

  lemma Halves(q: nat, a: nat, b: nat)
    ensures var r := 2 * q + (a + b) % 2; r / 2 == q && (r + b) % 2 == a % 2
  {
    if b % 2 == 0 {
      assert (a + b) % 2 == a % 2;
    } else {
      assert (a + b) % 2 == 1 - a % 2;
    }
  }

  lemma {:induction false} XorBitsTwice(n: nat, a: nat, b: nat)
    requires a < Pow2(n)
    ensures XorBits(n, XorBits(n, a, b), b) == a
  {
    if n > 0 {
      XorBitsTwice(n - 1, a / 2, b / 2);
      Halves(XorBits(n - 1, a / 2, b / 2), a, b);
    }
  }

  lemma Pow2Eight()
    ensures Pow2(8) == 256
  {
    assert Pow2(4) == 16;
  }

  function Xor(a: byte, b: byte): (c: byte) {
    Pow2Eight();
    XorBits(8, a, b)
  }

  lemma XorTwice(a: byte, b: byte)
    ensures Xor(Xor(a, b), b) == a
  {
    Pow2Eight();
    XorBitsTwice(8, a, b);
  }

  /** Bit `k` of a number. */
  predicate Bit(v: nat, k: nat) {
    if k == 0 then v % 2 == 1 else Bit(v / 2, k - 1)
  }

  lemma {:induction false} XorBitsAt(n: nat, a: nat, b: nat, k: nat)
    requires k < n
    ensures Bit(XorBits(n, a, b), k) <==> Bit(a, k) != Bit(b, k)
  {
    Half(XorBits(n, a, b), XorBits(n - 1, a / 2, b / 2), (a + b) % 2);
    if k > 0 {
      XorBitsAt(n - 1, a / 2, b / 2, k - 1);
    } else {
      Half(a, a / 2, a % 2);
      Half(b, b / 2, b % 2);
      Half(a + b, (a + b) / 2, (a + b) % 2);
    }
  }

  /** Numbers below 2^n are their lowest `n` bits. */
  lemma {:induction false} BitsDetermine(n: nat, a: nat, b: nat)
    requires a < Pow2(n) && b < Pow2(n) && forall k: nat :: k < n ==> (Bit(a, k) <==> Bit(b, k))
    ensures a == b
  {
    if n > 0 {
      assert Bit(a, 0) <==> Bit(b, 0);
      forall k: nat | k < n - 1 ensures Bit(a / 2, k) <==> Bit(b / 2, k) {
        assert Bit(a, k + 1) <==> Bit(b, k + 1);
      }
      BitsDetermine(n - 1, a / 2, b / 2);
    }
  }

  lemma XorBit(a: byte, b: byte, k: nat)
    requires k < 8
    ensures Bit(Xor(a, b), k) <==> Bit(a, k) != Bit(b, k)
  {
    Pow2Eight();
    XorBitsAt(8, a, b, k);
  }

  /** Bit by bit, `c` is set where exactly one of `a` and `b` is. */
  predicate ExactlyOne(a: byte, b: byte, c: byte) {
    forall k: nat :: k < 8 ==> (Bit(c, k) <==> Bit(a, k) != Bit(b, k))
  }

  /** The exclusive-or of two bytes is the byte whose bits are set where exactly one of theirs is. */
  lemma {:induction false} XorExactly(a: byte, b: byte, c: byte)
    ensures c == Xor(a, b) <==> ExactlyOne(a, b, c)
  {
    hide Bit, Xor;
    forall k: nat | k < 8 ensures Bit(Xor(a, b), k) <==> Bit(a, k) != Bit(b, k) {
      XorBit(a, b, k);
    }
    assert ExactlyOne(a, b, Xor(a, b));
    if ExactlyOne(a, b, c) {
      Pow2Eight();
      forall k: nat | k < 8 ensures Bit(c, k) <==> Bit(Xor(a, b), k) {
        XorBit(a, b, k);
      }
      BitsDetermine(8, c, Xor(a, b));
    }
  }

  lemma XorZero(b: byte)
    ensures Xor(0, b) == b
  {
    forall k: nat | k < 8 ensures Bit(b, k) <==> Bit(0, k) != Bit(b, k) {
      ZeroBit(k);
    }
    XorExactly(0, b, b);
  }

  lemma {:induction false} ZeroBit(k: nat)
    ensures !Bit(0, k)
  {
    if k > 0 {
      ZeroBit(k - 1);
    }
  }
}
