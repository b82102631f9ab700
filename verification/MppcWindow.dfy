/**
 The decompressor's bit window: the top `n` bits of a 32-bit word are live, the bits below are
 zero, and the live bits followed by the unread bytes are what is still to be decoded.
 */
module MppcWindow {
  import opened Bits
  import opened MppcCode

  ghost predicate Window(w: Word, n: int, i: int, data: seq<byte>) {
    0 <= n <= 24 && 0 <= i <= |data| && AllZero(w[n..])
  }

  ghost function Pending(w: Word, n: int, i: int, data: seq<byte>): (p: seq<bool>)
    requires Window(w, n, i, data)
    ensures |p| == n + 8 * (|data| - i)
  {
    w[..n] + Unpack(data[i..])
  }

  /** `data << 24`, the reload of an empty window. */
  function Reload(b: byte): (w: Word) {
    Shl(WordOf(b), 24)
  }

  /** `walker | data << (24 - walker_len)`. */
  function Fetch(w: Word, n: nat, b: byte): (r: Word)
    requires n <= 24
  {
    Or(w, Shl(WordOf(b), 24 - n))
  }

  lemma {:induction false} ByteWord(b: byte)
    ensures WordOf(b) == Zeros(24) + BitsOf(b, 8)
  {
    assert Pow2(8) == 256;
    BitsOfPad(b, 8, 24);
  }

  lemma {:induction false} ReloadPending(w: Word, i: nat, data: seq<byte>)
    requires Window(w, 0, i, data) && i < |data|
    ensures var r := Reload(data[i]);
            Window(r, 8, i + 1, data) && Pending(r, 8, i + 1, data) == Pending(w, 0, i, data)
  {
    ByteWord(data[i]);
    UnpackStep(data, i);
    assert Reload(data[i])[..8] == BitsOf(data[i], 8);
    assert w[..0] + Unpack(data[i..]) == Unpack(data[i..]);
  }

  lemma {:induction false} FetchWord(w: Word, n: nat, b: byte)
    requires n <= 24 && AllZero(w[n..])
    ensures Fetch(w, n, b)[..n + 8] == w[..n] + BitsOf(b, 8)
    ensures AllZero(Fetch(w, n, b)[n + 8..])
  {
    ByteWord(b);
    var s := Shl(WordOf(b), 24 - n);
    assert s == Zeros(n) + BitsOf(b, 8) + Zeros(24 - n);
    var r := Fetch(w, n, b);
    forall j | 0 <= j < 32 ensures r[j] == if j < n then w[j] else s[j] {
      assert j >= n ==> !w[n..][j - n];
    }
  }

  lemma {:induction false} FetchPending(w: Word, n: nat, i: nat, data: seq<byte>)
    requires Window(w, n, i, data) && n <= 16 && i < |data|
    ensures var r := Fetch(w, n, data[i]);
            Window(r, n + 8, i + 1, data) && Pending(r, n + 8, i + 1, data) == Pending(w, n, i, data)
  {
    FetchWord(w, n, data[i]);
    UnpackStep(data, i);
    Regroup(w[..n], BitsOf(data[i], 8), Unpack(data[i + 1..]));
  }

  lemma {:induction false} ShiftPending(w: Word, n: nat, i: nat, data: seq<byte>, k: nat)
    requires Window(w, n, i, data) && k <= n
    ensures Window(Shl(w, k), n - k, i, data)
    ensures Pending(Shl(w, k), n - k, i, data) == Pending(w, n, i, data)[k..]
  {
    var r := Shl(w, k);
    assert r[..n - k] == w[..n][k..];
    assert r[n - k..] == w[n..] + Zeros(k);
  }

  /** The window's sign bit and leading bits are those of the pending string. */
  lemma {:induction false} PendingTop(w: Word, n: nat, i: nat, data: seq<byte>)
    requires Window(w, n, i, data)
    ensures forall k :: 0 <= k <= n ==> Pending(w, n, i, data)[..k] == w[..k]
    ensures forall k :: 0 <= k < n ==> Pending(w, n, i, data)[k] == w[k]
  {
  }

  /** `(uint32) walker >> (32 - k)` is the number in the first `k` pending bits. */
  lemma {:induction false} TopField(w: Word, n: nat, i: nat, data: seq<byte>, k: nat)
    requires Window(w, n, i, data) && k <= n
    ensures Value(Shr(w, 32 - k)) == Value(Pending(w, n, i, data)[..k])
  {
    ShrDivides(w, 32 - k);
    PendingTop(w, n, i, data);
  }

  /** `(1 << n) - 1`. */
  function LowMask(n: nat): (w: Word)
    requires n <= 32
  {
    Zeros(32 - n) + Ones(n)
  }

  lemma {:induction false} LeadingFalse(bits: seq<bool>)
    ensures Value([false] + bits) == Value(bits)
  {
    ValueOfConcat([false], bits);
    assert Value([false]) == 0;
  }

  lemma {:induction false} LeadingTrue(bits: seq<bool>)
    ensures Value([true] + bits) == Pow2(|bits|) + Value(bits)
  {
    ValueOfConcat([true], bits);
    assert Value([true]) == 1;
  }

  /** A word made of zeros, a one and `low` denotes the one's weight plus `low`. */
  lemma {:induction false} MarkedWord(m: nat, low: seq<bool>)
    ensures Value(Zeros(m) + ([true] + low)) == Pow2(|low|) + Value(low)
  {
    ValueOfConcat(Zeros(m), [true] + low);
    ValueOfZeros(m);
    LeadingTrue(low);
  }

  lemma {:induction false} Byte128()
    ensures WordOf(128) == Zeros(24) + [true] + Zeros(7)
  {
    ByteWord(128);
    assert Pow2(7) == 128;
    ValueOfZeros(7);
    LeadingTrue(Zeros(7));
    BitsOfValue([true] + Zeros(7));
    Regroup(Zeros(24), [true], Zeros(7));
  }

  /** `walker >> 24 | 0x80` for a non-negative walker. */
  lemma {:induction false} HighLiteral(w: Word)
    requires NonNegative(w)
    ensures Value(Or(Sar(w, 24), WordOf(128))) == Pow2(7) + Value(w[1..8])
  {
    Byte128();
    OrMark(Sar(w, 24), w[1..8]);
    MarkedWord(24, w[1..8]);
  }

  lemma {:induction false} OrMark(v: Word, low: seq<bool>)
    requires |low| < 32 && v == Zeros(32 - |low|) + low
    ensures Or(v, Zeros(31 - |low|) + [true] + Zeros(|low|)) == Zeros(31 - |low|) + ([true] + low)
  {
  }

  lemma {:induction false} BitWord(n: nat)
    requires n < 32
    ensures Shl(WordOf(1), n) == Zeros(31 - n) + [true] + Zeros(n)
  {
    assert BitsOf(1, 1) == [] + [true];
    BitsOfPad(1, 1, 31);
    assert WordOf(1) == Zeros(31) + [true];
  }

  lemma {:induction false} MaskWord(w: Word, n: nat)
    requires n <= 32
    ensures And(Sar(w, 32 - n), LowMask(n)) == Zeros(32 - n) + w[..n]
  {
  }

  /** `((walker >> (32 - n)) & ((1 << n) - 1)) | (1 << n)`, whatever the sign of walker. */
  lemma {:induction false} LengthField(w: Word, n: nat)
    requires 1 <= n < 32
    ensures Value(Or(And(Sar(w, 32 - n), LowMask(n)), Shl(WordOf(1), n))) == Pow2(n) + Value(w[..n])
  {
    BitWord(n);
    MaskWord(w, n);
    OrMark(And(Sar(w, 32 - n), LowMask(n)), w[..n]);
    MarkedWord(31 - n, w[..n]);
  }
}
