/**
 The two MPPC prefix codes: the 8K code of section 4 of RFC 2118 and the 64K code of
 section 3.1.8.4 of [MS-RDPBCGR].  The encoder below is written from the code tables, the
 token reader from the branches of the decompressor, and the two are proved inverse.
 */
module MppcCode {
  import opened Bits

  datatype Token = Literal(b: byte) | Match(off: nat, len: nat)

  /** Outcome of reading one item: the item and what follows, the end of the packet, or a bad packet. */
  datatype Parsed<T> = Got(value: T, rest: seq<bool>) | End | Bad

  // ---- Code tables ----

  /** A range of offsets: `prefix`, then `width` bits of the offset less `base`. */
  datatype OffsetClass = OffsetClass(prefix: seq<bool>, width: nat, base: nat)

  function OffsetClassOf(off: nat, big: bool): (c: OffsetClass) {
    if off < 64 then OffsetClass(if big then [true, true, true] else [true, true], 6, 0)
    else if off < 320 then OffsetClass(if big then [true, true, false] else [true, false], 8, 64)
    else if !big then OffsetClass([false], 13, 320)
    else if off < 2368 then OffsetClass([true, false], 11, 320)
    else OffsetClass([false], 16, 2368)
  }

  function MaxOffset(big: bool): nat {
    if big then 2368 + 65535 else 320 + 8191
  }

  function OffsetCode(off: nat, big: bool): (code: seq<bool>) {
    var c := OffsetClassOf(off, big);
    c.prefix + BitsOf(if off >= c.base then off - c.base else 0, c.width)
  }

  /** Most one-bits a length prefix may have. */
  function MaxOnes(big: bool): nat {
    if big then 14 else 11
  }

  function MaxLength(big: bool): nat {
    if big then 65535 else 8191
  }

  function Log2(v: nat): (n: nat)
    requires v >= 1
    ensures Pow2(n) <= v < Pow2(n + 1)
  {
    if v == 1 then 0 else 1 + Log2(v / 2)
  }

  function LengthCode(len: nat): (code: seq<bool>)
    requires len >= 3
  {
    if len == 3 then [false]
    else
      var n := Log2(len);
      Unary(n - 1) + BitsOf(len - Pow2(n), n)
  }

  /** `j` ones and a zero. */
  function Unary(j: nat): (code: seq<bool>)
    ensures |code| == j + 1 && !code[j] && forall i :: 0 <= i < j ==> code[i]
  {
    Ones(j) + [false]
  }

  predicate Encodable(t: Token, big: bool) {
    t.Match? ==> t.off <= MaxOffset(big) && 3 <= t.len <= MaxLength(big)
  }

  function Encode(t: Token, big: bool): (code: seq<bool>)
    requires Encodable(t, big)
  {
    match t
    case Literal(b) => if b < 128 then [false] + BitsOf(b, 7) else [true, false] + BitsOf(b - 128, 7)
    case Match(off, len) => [true, true] + MatchCode(off, len, big)
  }

  function MatchCode(off: nat, len: nat, big: bool): (code: seq<bool>)
    requires len >= 3
  {
    OffsetCode(off, big) + LengthCode(len)
  }

  predicate AllEncodable(ts: seq<Token>, big: bool) {
    forall i :: 0 <= i < |ts| ==> Encodable(ts[i], big)
  }

  function EncodeAll(ts: seq<Token>, big: bool): (code: seq<bool>)
    requires AllEncodable(ts, big)
  {
    if |ts| == 0 then [] else Encode(ts[0], big) + EncodeAll(ts[1..], big)
  }

  // ---- The reader ----

  /** Skip `skip` bits and read `width` bits, to which `base` is added. */
  function Field(bits: seq<bool>, skip: nat, width: nat, base: nat): (p: Parsed<nat>) {
    if |bits| < skip + width then Bad
    else Got(base + Value(bits[skip..skip + width]), bits[skip + width..])
  }

  /** The offset class announced by the next bits. */
  function ReadClass(bits: seq<bool>, big: bool): (c: OffsetClass)
    requires |bits| >= if big then 3 else 2
    ensures c.prefix <= bits
  {
    if big then
      if bits[0] && bits[1] && bits[2] then OffsetClass([true, true, true], 6, 0)
      else if bits[0] && bits[1] then OffsetClass([true, true, false], 8, 64)
      else if bits[0] then OffsetClass([true, false], 11, 320)
      else OffsetClass([false], 16, 2368)
    else
      if bits[0] && bits[1] then OffsetClass([true, true], 6, 0)
      else if bits[0] then OffsetClass([true, false], 8, 64)
      else OffsetClass([false], 13, 320)
  }

  function ReadOffset(bits: seq<bool>, big: bool): (p: Parsed<nat>) {
    if |bits| < (if big then 3 else 2) then Bad
    else
      var c := ReadClass(bits, big);
      Field(bits, |c.prefix|, c.width, c.base)
  }

  function LeadingOnes(bits: seq<bool>): (j: nat)
    ensures j <= |bits| && (forall i :: 0 <= i < j ==> bits[i]) && (j < |bits| ==> !bits[j])
  {
    if |bits| == 0 || !bits[0] then 0 else 1 + LeadingOnes(bits[1..])
  }

  function ReadLength(bits: seq<bool>, big: bool): (p: Parsed<nat>) {
    if |bits| == 0 then Bad
    else if !bits[0] then Got(3, bits[1..])
    else
      var j := LeadingOnes(bits);
      if j > MaxOnes(big) then Bad else Field(bits, j + 1, j + 1, Pow2(j + 1))
  }

  function ReadMatch(bits: seq<bool>, big: bool): (p: Parsed<Token>) {
    match ReadOffset(bits, big)
    case Got(off, rest) =>
      (match ReadLength(rest, big)
       case Got(len, rest') => Got(Match(off, len), rest')
       case _ => Bad)
    case _ => Bad
  }

  function ReadLiteral(bits: seq<bool>, skip: nat, base: nat): (p: Parsed<Token>)
    requires base <= 128
  {
    assert Pow2(7) == 128;
    match Field(bits, skip, 7, base)
    case Got(v, rest) => Got(Literal(v), rest)
    case _ => Bad
  }

  function NextToken(bits: seq<bool>, big: bool): (p: Parsed<Token>)
    ensures p.Got? ==> |p.rest| < |bits|
  {
    if |bits| < 8 && AllZero(bits) then End
    else if !bits[0] then ReadLiteral(bits, 1, 0)
    else if |bits| < 2 then Bad
    else if !bits[1] then ReadLiteral(bits, 2, 128)
    else ReadMatch(bits[2..], big)
  }

  // ---- The reader inverts the encoder ----

  lemma {:induction false} Regroup(a: seq<bool>, b: seq<bool>, c: seq<bool>)
    ensures a + b + c == a + (b + c)
  {
  }

  lemma {:induction false} FieldRead(prefix: seq<bool>, width: nat, base: nat, v: nat, rest: seq<bool>)
    requires base <= v < base + Pow2(width)
    ensures Field(prefix + BitsOf(v - base, width) + rest, |prefix|, width, base) == Got(v, rest)
  {
    var s, code := |prefix|, BitsOf(v - base, width);
    var bits := prefix + code + rest;
    ValueOfBits(v - base, width);
    assert bits[s..s + width] == code;
    assert bits[s + width..] == rest;
  }

  lemma {:induction false} FieldWritten(bits: seq<bool>, prefix: seq<bool>, width: nat, base: nat, v: nat, rest: seq<bool>)
    requires prefix <= bits
    requires Field(bits, |prefix|, width, base) == Got(v, rest)
    ensures base <= v < base + Pow2(width) && bits == prefix + BitsOf(v - base, width) + rest
  {
    var s := |prefix|;
    var code := bits[s..s + width];
    BitsOfValue(code);
    assert bits == prefix + code + rest;
  }

  lemma {:induction false} FieldInverse(bits: seq<bool>, prefix: seq<bool>, width: nat, base: nat, v: nat, rest: seq<bool>)
    requires prefix <= bits
    ensures Field(bits, |prefix|, width, base) == Got(v, rest)
            <==> base <= v < base + Pow2(width) && bits == prefix + BitsOf(v - base, width) + rest
  {
    if base <= v < base + Pow2(width) && bits == prefix + BitsOf(v - base, width) + rest {
      FieldRead(prefix, width, base, v, rest);
    }
    if Field(bits, |prefix|, width, base) == Got(v, rest) {
      FieldWritten(bits, prefix, width, base, v, rest);
    }
  }

  /** The classes partition the offsets, and their prefixes are prefix-free. */
  lemma {:induction false} ClassAgrees(bits: seq<bool>, big: bool, off: nat)
    requires |bits| >= if big then 3 else 2
    requires off <= MaxOffset(big)
    ensures OffsetClassOf(off, big).prefix <= bits <==> ReadClass(bits, big) == OffsetClassOf(off, big)
    ensures var c := OffsetClassOf(off, big); c.base <= off < c.base + Pow2(c.width)
  {
    OffsetRanges(off, big);
    var c := OffsetClassOf(off, big);
    if c.prefix <= bits {
      assert forall i :: 0 <= i < |c.prefix| ==> bits[i] == c.prefix[i];
    }
  }

  lemma {:induction false} OffsetRanges(off: nat, big: bool)
    requires off <= MaxOffset(big)
    ensures var c := OffsetClassOf(off, big); c.base <= off < c.base + Pow2(c.width)
  {
    assert Pow2(6) == 64 && Pow2(8) == 256 && Pow2(11) == 2048;
    assert Pow2(13) == 8192 && Pow2(16) == 65536;
  }

  lemma {:induction false} ClassOfRange(bits: seq<bool>, big: bool, off: nat)
    requires |bits| >= if big then 3 else 2
    requires var c := ReadClass(bits, big); c.base <= off < c.base + Pow2(c.width)
    ensures off <= MaxOffset(big) && ReadClass(bits, big) == OffsetClassOf(off, big)
  {
    assert Pow2(6) == 64 && Pow2(8) == 256 && Pow2(11) == 2048;
    assert Pow2(13) == 8192 && Pow2(16) == 65536;
  }

  lemma {:induction false} OffsetInverse(bits: seq<bool>, big: bool, off: nat, rest: seq<bool>)
    ensures ReadOffset(bits, big) == Got(off, rest)
            <==> off <= MaxOffset(big) && bits == OffsetCode(off, big) + rest
  {
    if off <= MaxOffset(big) && bits == OffsetCode(off, big) + rest {
      ClassAgrees(bits, big, off);
      var c := OffsetClassOf(off, big);
      FieldInverse(bits, c.prefix, c.width, c.base, off, rest);
    }
    if ReadOffset(bits, big) == Got(off, rest) {
      var c := ReadClass(bits, big);
      FieldInverse(bits, c.prefix, c.width, c.base, off, rest);
      ClassOfRange(bits, big, off);
    }
  }

  lemma {:induction false} LeadingOnesOf(bits: seq<bool>, j: nat)
    requires j < |bits| && (forall i :: 0 <= i < j ==> bits[i]) && !bits[j]
    ensures LeadingOnes(bits) == j
  {
  }

  lemma {:induction false} Log2Unique(v: nat, n: nat)
    requires Pow2(n) <= v < Pow2(n + 1)
    ensures v >= 1 && Log2(v) == n
  {
    if Log2(v) < n {
      Pow2Monotone(Log2(v) + 1, n);
    } else if Log2(v) > n {
      Pow2Monotone(n + 1, Log2(v));
    }
  }

  lemma {:induction false} LengthInverse(bits: seq<bool>, big: bool, len: nat, rest: seq<bool>)
    ensures ReadLength(bits, big) == Got(len, rest)
            <==> 3 <= len <= MaxLength(big) && bits == LengthCode(len) + rest
  {
    if 3 <= len <= MaxLength(big) && bits == LengthCode(len) + rest {
      LengthRead(bits, big, len, rest);
    }
    if ReadLength(bits, big) == Got(len, rest) {
      LengthWritten(bits, big, len, rest);
    }
  }

  lemma {:induction false} LengthBits(len: nat, big: bool)
    requires 4 <= len <= MaxLength(big)
    ensures 2 <= Log2(len) <= MaxOnes(big) + 1
  {
    assert Pow2(12) == 4096 && Pow2(13) == 8192 && Pow2(15) == 32768 && Pow2(16) == 65536;
    var n := Log2(len);
    if n < 2 {
      Pow2Monotone(n + 1, 2);
    }
    if n > MaxOnes(big) + 1 {
      Pow2Monotone(MaxOnes(big) + 2, n);
    }
  }

  /** A length field is read after its unary prefix, and the prefix is determined by the input. */
  lemma {:induction false} ReadAfterUnary(bits: seq<bool>, j: nat, big: bool)
    requires 1 <= j <= MaxOnes(big)
    requires Unary(j) <= bits
    ensures ReadLength(bits, big) == Field(bits, j + 1, j + 1, Pow2(j + 1))
  {
    assert forall i :: 0 <= i <= j ==> bits[i] == Unary(j)[i];
    LeadingOnesOf(bits, j);
  }

  lemma {:induction false} LongLengthRead(big: bool, n: nat, base: nat, len: nat, rest: seq<bool>)
    requires 2 <= n <= MaxOnes(big) + 1
    requires base == Pow2(n) && base <= len < base + base
    ensures ReadLength(Unary(n - 1) + BitsOf(len - base, n) + rest, big) == Got(len, rest)
  {
    var bits := Unary(n - 1) + BitsOf(len - base, n) + rest;
    assert Unary(n - 1) <= bits;
    hide Unary, BitsOf, ReadLength, Field, Value, Pow2;
    ReadAfterUnary(bits, n - 1, big);
    FieldRead(Unary(n - 1), n, base, len, rest);
  }

  lemma {:induction false} LengthRead(bits: seq<bool>, big: bool, len: nat, rest: seq<bool>)
    requires 3 <= len <= MaxLength(big) && bits == LengthCode(len) + rest
    ensures ReadLength(bits, big) == Got(len, rest)
  {
    if len > 3 {
      LengthBits(len, big);
      LongLengthRead(big, Log2(len), Pow2(Log2(len)), len, rest);
    }
  }

  lemma {:induction false} OnesRead(bits: seq<bool>, big: bool)
    requires ReadLength(bits, big).Got? && bits[0]
    ensures var j := LeadingOnes(bits); 1 <= j <= MaxOnes(big) && Unary(j) <= bits
  {
  }

  lemma {:induction false} LongLengthWritten(bits: seq<bool>, big: bool, j: nat, base: nat, len: nat, rest: seq<bool>)
    requires 1 <= j <= MaxOnes(big) && Unary(j) <= bits
    requires base == Pow2(j + 1) && Field(bits, j + 1, j + 1, base) == Got(len, rest)
    ensures 4 <= len <= MaxLength(big) && bits == LengthCode(len) + rest
  {
    hide Field, Value, Pow2, BitsOf, Log2, Unary;
    FieldWritten(bits, Unary(j), j + 1, base, len, rest);
    LengthOfOnes(j, big, len);
  }

  lemma {:induction false} LengthWritten(bits: seq<bool>, big: bool, len: nat, rest: seq<bool>)
    requires ReadLength(bits, big) == Got(len, rest)
    ensures 3 <= len <= MaxLength(big) && bits == LengthCode(len) + rest
  {
    if !bits[0] {
      assert bits == [false] + bits[1..];
    } else {
      OnesRead(bits, big);
      var j := LeadingOnes(bits);
      LongLengthWritten(bits, big, j, Pow2(j + 1), len, rest);
    }
  }

  lemma {:induction false} LengthOfOnes(j: nat, big: bool, len: nat)
    requires 1 <= j <= MaxOnes(big)
    requires Pow2(j + 1) <= len < Pow2(j + 1) + Pow2(j + 1)
    ensures 4 <= len <= MaxLength(big) && Log2(len) == j + 1
  {
    Pow2Monotone(2, j + 1);
    Pow2Monotone(j + 2, MaxOnes(big) + 2);
    assert Pow2(2) == 4 && Pow2(13) == 8192 && Pow2(16) == 65536;
    Log2Unique(len, j + 1);
  }

  lemma {:induction false} LowLiteralInverse(bits: seq<bool>, b: byte, rest: seq<bool>)
    requires |bits| >= 1 && !bits[0]
    ensures ReadLiteral(bits, 1, 0) == Got(Literal(b), rest) <==> b < 128 && bits == [false] + BitsOf(b, 7) + rest
  {
    assert Pow2(7) == 128;
    assert [false] <= bits;
    FieldInverse(bits, [false], 7, 0, b, rest);
  }

  lemma {:induction false} HighLiteralInverse(bits: seq<bool>, b: byte, rest: seq<bool>)
    requires |bits| >= 2 && bits[0] && !bits[1]
    ensures ReadLiteral(bits, 2, 128) == Got(Literal(b), rest)
            <==> b >= 128 && bits == [true, false] + BitsOf(b - 128, 7) + rest
  {
    assert Pow2(7) == 128;
    assert [true, false] <= bits;
    FieldInverse(bits, [true, false], 7, 128, b, rest);
  }

  lemma {:induction false} MatchCodeRead(big: bool, off: nat, len: nat, rest: seq<bool>)
    requires Encodable(Match(off, len), big)
    ensures ReadMatch(MatchCode(off, len, big) + rest, big) == Got(Match(off, len), rest)
  {
    var o, l := OffsetCode(off, big), LengthCode(len);
    Regroup(o, l, rest);
    OffsetInverse(o + (l + rest), big, off, l + rest);
    LengthInverse(l + rest, big, len, rest);
  }

  lemma {:induction false} MatchCodeWritten(bits: seq<bool>, big: bool, off: nat, len: nat, rest: seq<bool>)
    requires ReadMatch(bits, big) == Got(Match(off, len), rest)
    ensures Encodable(Match(off, len), big) && bits == MatchCode(off, len, big) + rest
  {
    var mid := ReadOffset(bits, big).rest;
    OffsetInverse(bits, big, off, mid);
    LengthInverse(mid, big, len, rest);
    Regroup(OffsetCode(off, big), LengthCode(len), rest);
  }

  /** What the code of a token starts with. */
  lemma {:induction false} EncodeShape(t: Token, big: bool)
    requires Encodable(t, big)
    ensures var code := Encode(t, big);
            |code| >= 8
            && (t.Literal? && t.b < 128 ==> !code[0])
            && (t.Literal? && t.b >= 128 ==> code[0] && !code[1])
            && (t.Match? ==> code[0] && code[1])
  {
  }

  lemma {:induction false} LiteralRead(big: bool, b: byte, rest: seq<bool>)
    ensures NextToken(Encode(Literal(b), big) + rest, big) == Got(Literal(b), rest)
  {
    EncodeShape(Literal(b), big);
    var bits := Encode(Literal(b), big) + rest;
    if b < 128 {
      LowLiteralInverse(bits, b, rest);
    } else {
      HighLiteralInverse(bits, b, rest);
    }
  }

  /** A packet that starts with two ones is read as a match. */
  lemma {:induction false} NextIsMatch(bits: seq<bool>, big: bool)
    requires |bits| >= 2 && bits[0] && bits[1]
    ensures NextToken(bits, big) == ReadMatch(bits[2..], big)
  {
  }

  lemma {:induction false} AfterTwoOnes(code: seq<bool>, rest: seq<bool>)
    ensures var bits := [true, true] + code + rest; bits[0] && bits[1] && bits[2..] == code + rest
  {
  }

  lemma {:induction false} MatchRead(big: bool, off: nat, len: nat, rest: seq<bool>)
    requires Encodable(Match(off, len), big)
    ensures NextToken(Encode(Match(off, len), big) + rest, big) == Got(Match(off, len), rest)
  {
    var code := MatchCode(off, len, big);
    MatchCodeRead(big, off, len, rest);
    AfterTwoOnes(code, rest);
    NextIsMatch([true, true] + code + rest, big);
  }

  lemma {:induction false} TokenRead(big: bool, t: Token, rest: seq<bool>)
    requires Encodable(t, big)
    ensures NextToken(Encode(t, big) + rest, big) == Got(t, rest)
  {
    match t
    case Literal(b) => LiteralRead(big, b, rest);
    case Match(off, len) => MatchRead(big, off, len, rest);
  }

  lemma MatchIsRead(bits: seq<bool>, big: bool, t: Token, rest: seq<bool>)
    requires ReadMatch(bits, big) == Got(t, rest)
    ensures t.Match?
  {
    hide ReadOffset, ReadLength;
  }

  /** Two ones and a match code are the code of the match. */
  lemma {:induction false} EncodedMatch(bits: seq<bool>, big: bool, t: Token, rest: seq<bool>)
    requires |bits| >= 2 && bits[0] && bits[1]
    requires t.Match? && Encodable(t, big) && bits[2..] == MatchCode(t.off, t.len, big) + rest
    ensures bits == Encode(t, big) + rest
  {
    hide MatchCode, MaxOffset, MaxLength;
    assert bits == [true, true] + bits[2..];
    Regroup([true, true], MatchCode(t.off, t.len, big), rest);
  }

  lemma {:induction false} MatchWritten(bits: seq<bool>, big: bool, t: Token, rest: seq<bool>)
    requires |bits| >= 2 && bits[0] && bits[1]
    requires NextToken(bits, big) == Got(t, rest)
    ensures Encodable(t, big) && bits == Encode(t, big) + rest
  {
    hide *;
    NextIsMatch(bits, big);
    MatchIsRead(bits[2..], big, t, rest);
    MatchCodeWritten(bits[2..], big, t.off, t.len, rest);
    EncodedMatch(bits, big, t, rest);
  }

  lemma {:induction false} TokenWritten(bits: seq<bool>, big: bool, t: Token, rest: seq<bool>)
    requires NextToken(bits, big) == Got(t, rest)
    ensures Encodable(t, big) && bits == Encode(t, big) + rest
  {
    if !bits[0] {
      LowLiteralInverse(bits, t.b, rest);
    } else if !bits[1] {
      HighLiteralInverse(bits, t.b, rest);
    } else {
      MatchWritten(bits, big, t, rest);
    }
  }

  lemma {:induction false} MatchHasLength(bits: seq<bool>, big: bool, t: Token, rest: seq<bool>)
    requires NextToken(bits, big) == Got(t, rest)
    ensures t.Match? ==> t.len >= 3
  {
    TokenWritten(bits, big, t, rest);
    hide NextToken, Encode;
  }

  /**
   The reader accepts exactly the code words: it returns `t` and leaves `rest` if and only if the
   input is the code of an encodable `t` followed by `rest`.
   */
  lemma {:induction false} TokenInverse(bits: seq<bool>, big: bool, t: Token, rest: seq<bool>)
    ensures NextToken(bits, big) == Got(t, rest) <==> Encodable(t, big) && bits == Encode(t, big) + rest
  {
    if Encodable(t, big) && bits == Encode(t, big) + rest {
      TokenRead(big, t, rest);
    }
    if NextToken(bits, big) == Got(t, rest) {
      TokenWritten(bits, big, t, rest);
    }
  }
}
