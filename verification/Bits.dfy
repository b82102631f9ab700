/** Big-endian bit strings, and the C 32-bit word seen as the string of its 32 bits. */
module Bits {
  import opened Arith

  type byte = x: int | 0 <= x < 256
  type uint16 = x: int | 0 <= x < 0x1_0000
  type uint32 = x: int | 0 <= x < 0x1_0000_0000

  function Pow2(n: nat): (p: nat)
    ensures p >= 1
  {
    if n == 0 then 1 else 2 * Pow2(n - 1)
  }

  /** The number a bit string denotes, most significant bit first. */
  function Value(bits: seq<bool>): (v: nat)
    ensures v < Pow2(|bits|)
  {
    if |bits| == 0 then 0
    else 2 * Value(bits[..|bits| - 1]) + (if bits[|bits| - 1] then 1 else 0)
  }

  /** The low `n` bits of `v`. */
  function BitsOf(v: nat, n: nat): (bits: seq<bool>)
    ensures |bits| == n
  {
    if n == 0 then [] else BitsOf(v / 2, n - 1) + [v % 2 == 1]
  }

  function Zeros(n: nat): (z: seq<bool>)
    ensures |z| == n && forall i :: 0 <= i < n ==> !z[i]
  {
    seq(n, _ => false)
  }

  function Ones(n: nat): (z: seq<bool>)
    ensures |z| == n && forall i :: 0 <= i < n ==> z[i]
  {
    seq(n, _ => true)
  }

  predicate AllZero(bits: seq<bool>) {
    forall i :: 0 <= i < |bits| ==> !bits[i]
  }

  lemma {:induction false} ValueOfBits(v: nat, n: nat)
    requires v < Pow2(n)
    ensures Value(BitsOf(v, n)) == v
  {
    if n > 0 {
      ValueOfBits(v / 2, n - 1);
      assert BitsOf(v, n)[..n - 1] == BitsOf(v / 2, n - 1);
    }
  }

  lemma {:induction false} BitsOfValue(bits: seq<bool>)
    ensures BitsOf(Value(bits), |bits|) == bits
  {
    var n := |bits|;
    if n > 0 {
      BitsOfValue(bits[..n - 1]);
      assert Value(bits) / 2 == Value(bits[..n - 1]);
      assert bits == bits[..n - 1] + [bits[n - 1]];
    }
  }

  lemma {:induction false} ValueOfZeros(n: nat)
    ensures Value(Zeros(n)) == 0
  {
    if n > 0 {
      assert Zeros(n)[..n - 1] == Zeros(n - 1);
      ValueOfZeros(n - 1);
    }
  }

  lemma {:induction false} Pow2Sum(a: nat, b: nat)
    ensures Pow2(a + b) == Pow2(a) * Pow2(b)
  {
    if b > 0 {
      Pow2Sum(a, b - 1);
      assert Pow2(a + b) == 2 * Pow2(a + (b - 1));
    }
  }

  lemma {:induction false} Pow2Monotone(a: nat, b: nat)
    requires a <= b
    ensures Pow2(a) <= Pow2(b)
  {
    if a < b {
      Pow2Monotone(a, b - 1);
    }
  }

  lemma {:induction false} ValueOfConcat(a: seq<bool>, b: seq<bool>)
    ensures Value(a + b) == Value(a) * Pow2(|b|) + Value(b)
  {
    if |b| == 0 {
      assert a + b == a;
    } else {
      var b' := b[..|b| - 1];
      ValueOfConcat(a, b');
      assert (a + b)[..|a + b| - 1] == a + b';
      MulSwap(Value(a), 2, Pow2(|b'|));
    }
  }

  lemma {:induction false} BitsOfPad(v: nat, n: nat, m: nat)
    requires v < Pow2(n)
    ensures BitsOf(v, m + n) == Zeros(m) + BitsOf(v, n)
  {
    if n == 0 {
      if m > 0 {
        BitsOfPad(v, n, m - 1);
        assert Zeros(m) == Zeros(m - 1) + [false];
      }
      assert Zeros(m) + [] == Zeros(m);
      assert BitsOf(v, m) == Zeros(m);
    } else {
      BitsOfPad(v / 2, n - 1, m);
      assert m + n - 1 == m + (n - 1);
      assert BitsOf(v, m + n) == BitsOf(v / 2, m + (n - 1)) + [v % 2 == 1];
      assert Zeros(m) + (BitsOf(v / 2, n - 1) + [v % 2 == 1]) == (Zeros(m) + BitsOf(v / 2, n - 1)) + [v % 2 == 1];
    }
  }

  /** Byte strings as bit strings. */
  function Unpack(data: seq<byte>): (bits: seq<bool>)
    ensures |bits| == 8 * |data|
  {
    if |data| == 0 then [] else BitsOf(data[0], 8) + Unpack(data[1..])
  }

  /** Bit strings as byte strings, zero-padded to a whole byte. */
  function Pack(bits: seq<bool>): (data: seq<byte>)
  {
    if |bits| == 0 then []
    else if |bits| < 8 then [PackByte(bits + Zeros(8 - |bits|))]
    else [PackByte(bits[..8])] + Pack(bits[8..])
  }

  function PackByte(bits: seq<bool>): (b: byte)
    requires |bits| == 8
  {
    assert Pow2(8) == 256;
    Value(bits)
  }

  function PadLength(n: nat): (pad: nat)
    ensures pad < 8 && (n + pad) % 8 == 0
  {
    if n % 8 == 0 then 0 else 8 - n % 8
  }

  lemma {:induction false} UnpackPack(bits: seq<bool>)
    ensures Unpack(Pack(bits)) == bits + Zeros(PadLength(|bits|))
  {
    if |bits| == 0 {
    } else if |bits| < 8 {
      UnpackByte(bits + Zeros(8 - |bits|));
    } else {
      UnpackPack(bits[8..]);
      UnpackPackStep(bits[..8], bits[8..], Pack(bits[8..]), Zeros(PadLength(|bits[8..]|)));
      assert bits == bits[..8] + bits[8..];
    }
  }

  lemma {:induction false} UnpackPackStep(hd: seq<bool>, tl: seq<bool>, rest: seq<byte>, pad: seq<bool>)
    requires |hd| == 8 && Unpack(rest) == tl + pad
    ensures Unpack([PackByte(hd)] + rest) == hd + tl + pad
    ensures PadLength(|hd + tl|) == PadLength(|tl|)
  {
    hide Unpack, PackByte, BitsOf, PadLength;
    UnpackByte(hd);
    UnpackCons(PackByte(hd), rest);
    assert hd + (tl + pad) == hd + tl + pad;
    PadStep(|tl|);
  }

  lemma PadStep(n: nat)
    ensures PadLength(n + 8) == PadLength(n)
  {
  }

  lemma {:induction false} UnpackByte(bits: seq<bool>)
    requires |bits| == 8
    ensures BitsOf(PackByte(bits), 8) == bits && Unpack([PackByte(bits)]) == bits
  {
    BitsOfValue(bits);
    UnpackCons(PackByte(bits), []);
    assert [PackByte(bits)] + [] == [PackByte(bits)];
  }

  lemma {:induction false} UnpackCons(b: byte, data: seq<byte>)
    ensures Unpack([b] + data) == BitsOf(b, 8) + Unpack(data)
  {
    assert ([b] + data)[1..] == data;
  }

  lemma {:induction false} UnpackStep(data: seq<byte>, i: nat)
    requires i < |data|
    ensures Unpack(data[i..]) == BitsOf(data[i], 8) + Unpack(data[i + 1..])
  {
    assert data[i..][1..] == data[i + 1..];
  }

  // ---- The C `int` as 32 bits ----

  type Word = w: seq<bool> | |w| == 32 witness seq(32, _ => false)

  /** `(int) v` for a small non-negative `v`. */
  function WordOf(v: nat): (w: Word) {
    BitsOf(v, 32)
  }

  /** `w >= 0`: two's complement sign test. */
  predicate NonNegative(w: Word) {
    !w[0]
  }

  /** `w << k`. */
  function Shl(w: Word, k: nat): (r: Word)
    requires k <= 32
  {
    w[k..] + Zeros(k)
  }

  /** `(uint32) w >> k`. */
  function Shr(w: Word, k: nat): (r: Word)
    requires k <= 32
  {
    Zeros(k) + w[..32 - k]
  }

  /** `w >> k` on a signed word: the sign bit is replicated. */
  function Sar(w: Word, k: nat): (r: Word)
    requires k <= 32
  {
    seq(k, _ => w[0]) + w[..32 - k]
  }

  /** `a | b`. */
  function Or(a: Word, b: Word): (r: Word) {
    seq(32, i requires 0 <= i < 32 => a[i] || b[i])
  }

  /** `a & b`. */
  function And(a: Word, b: Word): (r: Word) {
    seq(32, i requires 0 <= i < 32 => a[i] && b[i])
  }

  /** The shift on bits is multiplication modulo 2^32, as on a C unsigned word. */
  lemma {:induction false} ShlMultiplies(w: Word, k: nat)
    requires k <= 32
    ensures Value(Shl(w, k)) == Value(w) * Pow2(k) % Pow2(32)
  {
    var hi, lo := w[..k], w[k..];
    var p, q := Pow2(32 - k), Pow2(k);
    assert Value(w) == Value(hi) * p + Value(lo) by {
      ValueOfConcat(hi, lo);
      assert hi + lo == w;
    }
    assert Value(Shl(w, k)) == Value(lo) * q by {
      ValueOfConcat(lo, Zeros(k));
      ValueOfZeros(k);
    }
    assert Pow2(32) == p * q by { Pow2Sum(32 - k, k); }
    ShiftOut(Value(hi), Value(lo), p, q);
  }

  lemma {:induction false} ShiftOut(h: nat, l: nat, p: nat, q: nat)
    requires l < p && q >= 1
    ensures p * q > 0 && (h * p + l) * q % (p * q) == l * q
  {
    Distribute(h * p, l, q);
    MulAssoc(h, p, q);
    MulLess(l, p, q);
    Divided(h, l * q, p * q);
  }

  /** The logical shift right is division. */
  lemma {:induction false} ShrDivides(w: Word, k: nat)
    requires k <= 32
    ensures Value(Shr(w, k)) == Value(w[..32 - k]) == Value(w) / Pow2(k)
  {
    var hi, lo := w[..32 - k], w[32 - k..];
    assert Value(w) == Value(hi) * Pow2(k) + Value(lo) by {
      ValueOfConcat(hi, lo);
      assert hi + lo == w;
    }
    assert Value(Shr(w, k)) == Value(hi) by {
      ValueOfConcat(Zeros(k), hi);
      ValueOfZeros(k);
    }
    Divided(Value(hi), Value(lo), Pow2(k));
  }
}
