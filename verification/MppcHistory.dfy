/**
 What a compressed packet does to the history buffer, and the LZ77 meaning of the tokens in it.
 `Run` acts on the whole 65536-byte array, as the code does; `Expansion` knows only the bytes
 produced so far.
 */
module MppcHistory {
  import opened Bits
  import opened MppcCode

  const DICT_SIZE := 65536

  type Hist = h: seq<byte> | |h| == DICT_SIZE witness seq(DICT_SIZE, _ => 0)

  // ---- The array machine ----

  /** Where a match starts reading: the masked difference, which wraps when the offset exceeds the position. */
  function SourceOf(pos: nat, off: nat, big: bool): (k: nat) {
    (pos - off) % (if big then 65536 else 8192)
  }

  /** Byte-by-byte copy inside the array; source and target may overlap. */
  function CopyAt(hist: Hist, pos: nat, k: nat, len: nat): (r: Hist)
    requires pos + len <= DICT_SIZE && k + len <= DICT_SIZE
    decreases len
  {
    if len == 0 then hist else CopyAt(hist[pos := hist[k]], pos + 1, k + 1, len - 1)
  }

  datatype Applied = Moved(hist: Hist, pos: nat) | Full | Beyond

  function Apply(hist: Hist, pos: nat, t: Token, big: bool): (a: Applied)
    ensures a.Moved? ==> pos <= a.pos <= DICT_SIZE
  {
    match t
    case Literal(b) => if pos >= DICT_SIZE then Full else Moved(hist[pos := b], pos + 1)
    case Match(off, len) =>
      if pos + len >= DICT_SIZE then Full
      else
        var k := SourceOf(pos, off, big);
        if k + len > DICT_SIZE then Beyond else Moved(CopyAt(hist, pos, k, len), pos + len)
  }

  /** `Overread` is where the code would read past the end of the history array. */
  datatype Outcome = Done(hist: Hist, pos: nat) | Failed(hist: Hist) | Overread(hist: Hist)

  function Run(bits: seq<bool>, big: bool, hist: Hist, pos: nat): (o: Outcome)
    requires pos <= DICT_SIZE
    ensures o.Done? ==> pos <= o.pos <= DICT_SIZE
    decreases |bits|
  {
    match NextToken(bits, big)
    case End => Done(hist, pos)
    case Bad => Failed(hist)
    case Got(t, rest) =>
      match Apply(hist, pos, t, big)
      case Moved(hist', pos') => Run(rest, big, hist', pos')
      case Full => Failed(hist)
      case Beyond => Overread(hist)
  }

  lemma {:induction false} RunToken(bits: seq<bool>, big: bool, hist: Hist, pos: nat, t: Token, rest: seq<bool>)
    requires pos <= DICT_SIZE && NextToken(bits, big) == Got(t, rest)
    ensures Run(bits, big, hist, pos)
            == match Apply(hist, pos, t, big)
               case Moved(hist', pos') => Run(rest, big, hist', pos')
               case Full => Failed(hist)
               case Beyond => Overread(hist)
  {
  }

  lemma RunStops(bits: seq<bool>, big: bool, hist: Hist, pos: nat)
    requires pos <= DICT_SIZE
    ensures NextToken(bits, big) == End ==> Run(bits, big, hist, pos) == Done(hist, pos)
    ensures NextToken(bits, big) == Bad ==> Run(bits, big, hist, pos) == Failed(hist)
  {
    hide NextToken, Apply;
  }

  // ---- LZ77 on the bytes produced so far ----

  /** Append `len` bytes, each the one `off` places back. */
  function LzCopy(out: seq<byte>, off: nat, len: nat): (r: seq<byte>)
    requires 1 <= off <= |out|
    ensures |r| == |out| + len && out <= r
    decreases len
  {
    if len == 0 then out else LzCopy(out + [out[|out| - off]], off, len - 1)
  }

  /** The matches a sender may emit when `n` bytes of history exist. */
  predicate ValidToken(n: nat, t: Token, big: bool) {
    t.Match? ==> 1 <= t.off <= n && (big || n - t.off < 8192)
  }

  predicate Fits(n: nat, t: Token) {
    match t
    case Literal(_) => n < DICT_SIZE
    case Match(_, len) => n + len < DICT_SIZE
  }

  function Lz(out: seq<byte>, t: Token, big: bool): (r: seq<byte>)
    requires ValidToken(|out|, t, big)
    ensures out <= r
  {
    match t
    case Literal(b) => out + [b]
    case Match(off, len) => LzCopy(out, off, len)
  }

  /** Every token is valid and fits where it stands. */
  predicate ValidAll(out: seq<byte>, ts: seq<Token>, big: bool)
    decreases |ts|
  {
    |ts| == 0
    || (ValidToken(|out|, ts[0], big) && Fits(|out|, ts[0]) && ValidAll(Lz(out, ts[0], big), ts[1..], big))
  }

  function LzAll(out: seq<byte>, ts: seq<Token>, big: bool): (r: seq<byte>)
    requires ValidAll(out, ts, big)
    ensures out <= r
    decreases |ts|
  {
    if |ts| == 0 then out else LzAll(Lz(out, ts[0], big), ts[1..], big)
  }

  datatype Expansion = Expanded(out: seq<byte>) | Rejected | Invalid

  /** The packet's meaning as a function of the bytes produced so far; `Invalid` on a match no sender may emit. */
  function Expand(bits: seq<bool>, big: bool, out: seq<byte>): (e: Expansion)
    ensures e.Expanded? ==> out <= e.out
    decreases |bits|
  {
    match NextToken(bits, big)
    case End => Expanded(out)
    case Bad => Rejected
    case Got(t, rest) =>
      if !Fits(|out|, t) then Rejected
      else if !ValidToken(|out|, t, big) then Invalid
      else Expand(rest, big, Lz(out, t, big))
  }

  // ---- The array machine computes the expansion ----

  lemma {:induction false} CopyIsLz(hist: Hist, pos: nat, off: nat, len: nat)
    requires 1 <= off <= pos && pos + len <= DICT_SIZE
    ensures CopyAt(hist, pos, pos - off, len)[..pos + len] == LzCopy(hist[..pos], off, len)
    decreases len
  {
    if len > 0 {
      var b := hist[pos - off];
      CopyIsLz(hist[pos := b], pos + 1, off, len - 1);
      assert hist[pos := b][..pos + 1] == hist[..pos] + [b];
    }
  }

  lemma {:induction false} ApplyIsLz(hist: Hist, pos: nat, t: Token, big: bool)
    requires pos <= DICT_SIZE && Fits(pos, t) && ValidToken(pos, t, big)
    ensures var a := Apply(hist, pos, t, big); a.Moved? && a.hist[..a.pos] == Lz(hist[..pos], t, big)
  {
    match t
    case Literal(b) =>
      assert hist[pos := b][..pos + 1] == hist[..pos] + [b];
    case Match(off, len) =>
      assert SourceOf(pos, off, big) == pos - off;
      CopyIsLz(hist, pos, off, len);
  }

  /** On packets without invalid matches the array machine only depends on the bytes produced so far. */
  lemma {:induction false} RunIsExpand(bits: seq<bool>, big: bool, hist: Hist, pos: nat)
    requires pos <= DICT_SIZE && !Expand(bits, big, hist[..pos]).Invalid?
    ensures var o := Run(bits, big, hist, pos);
            match Expand(bits, big, hist[..pos])
            case Expanded(out) => o.Done? && o.hist[..o.pos] == out
            case Rejected => o.Failed?
            case Invalid => true
    decreases |bits|
  {
    match NextToken(bits, big)
    case End =>
    case Bad =>
    case Got(t, rest) =>
      if Fits(pos, t) {
        ApplyIsLz(hist, pos, t, big);
        var a := Apply(hist, pos, t, big);
        RunIsExpand(rest, big, a.hist, a.pos);
      }
  }

  lemma {:induction false} CopyKeepsBelow(hist: Hist, pos: nat, k: nat, len: nat)
    requires pos + len <= DICT_SIZE && k + len <= DICT_SIZE
    ensures CopyAt(hist, pos, k, len)[..pos] == hist[..pos]
    decreases len
  {
    if len > 0 {
      var h := hist[pos := hist[k]];
      CopyKeepsBelow(h, pos + 1, k + 1, len - 1);
      assert h[..pos + 1][..pos] == hist[..pos];
      assert CopyAt(h, pos + 1, k + 1, len - 1)[..pos + 1][..pos] == CopyAt(hist, pos, k, len)[..pos];
    }
  }

  lemma {:induction false} ApplyKeepsBelow(hist: Hist, pos: nat, t: Token, big: bool)
    requires pos <= DICT_SIZE && Apply(hist, pos, t, big).Moved?
    ensures Apply(hist, pos, t, big).hist[..pos] == hist[..pos]
  {
    if t.Match? {
      CopyKeepsBelow(hist, pos, SourceOf(pos, t.off, big), t.len);
    }
  }

  /** No packet, valid or not, changes the history below the offset it starts at. */
  lemma {:induction false} RunKeepsBelow(bits: seq<bool>, big: bool, hist: Hist, pos: nat)
    requires pos <= DICT_SIZE
    ensures Run(bits, big, hist, pos).hist[..pos] == hist[..pos]
    decreases |bits|
  {
    match NextToken(bits, big)
    case End =>
    case Bad =>
    case Got(t, rest) =>
      var a := Apply(hist, pos, t, big);
      if a.Moved? {
        ApplyKeepsBelow(hist, pos, t, big);
        RunKeepsBelow(rest, big, a.hist, a.pos);
        var h := Run(rest, big, a.hist, a.pos).hist;
        assert h[..pos] == h[..a.pos][..pos];
        assert a.hist[..pos] == a.hist[..a.pos][..pos];
      }
  }

  lemma {:induction false} CopyKeepsAbove(hist: Hist, pos: nat, k: nat, len: nat)
    requires pos + len <= DICT_SIZE && k + len <= DICT_SIZE
    ensures CopyAt(hist, pos, k, len)[pos + len..] == hist[pos + len..]
    decreases len
  {
    if len > 0 {
      CopyKeepsAbove(hist[pos := hist[k]], pos + 1, k + 1, len - 1);
    }
  }

  /** Nor does an accepted packet change it at or above the offset it ends at. */
  lemma {:induction false} RunKeepsAbove(bits: seq<bool>, big: bool, hist: Hist, pos: nat)
    requires pos <= DICT_SIZE && Run(bits, big, hist, pos).Done?
    ensures var r := Run(bits, big, hist, pos); r.hist[r.pos..] == hist[r.pos..]
    decreases |bits|
  {
    match NextToken(bits, big)
    case End =>
    case Got(t, rest) =>
      var a := Apply(hist, pos, t, big);
      if t.Match? {
        CopyKeepsAbove(hist, pos, SourceOf(pos, t.off, big), t.len);
      }
      RunKeepsAbove(rest, big, a.hist, a.pos);
      var end := Run(rest, big, a.hist, a.pos).pos;
      assert hist[end..] == hist[a.pos..][end - a.pos..] && a.hist[end..] == a.hist[a.pos..][end - a.pos..];
  }

  lemma {:induction false} CopyReads(hist: Hist, pos: nat, k: nat, len: nat, i: nat)
    requires pos + len <= DICT_SIZE && k + len <= DICT_SIZE && i < len
    ensures var r := CopyAt(hist, pos, k, len);
            r[pos + i] == if k < pos then r[k + i] else hist[k + i]
    decreases len
  {
    var h := hist[pos := hist[k]];
    if i > 0 {
      CopyReads(h, pos + 1, k + 1, len - 1, i - 1);
    } else {
      CopyKeepsBelow(h, pos + 1, k + 1, len - 1);
      var r := CopyAt(h, pos + 1, k + 1, len - 1);
      assert r[pos] == r[..pos + 1][pos] == h[..pos + 1][pos];
      assert k < pos ==> r[k] == r[..pos + 1][k] == h[..pos + 1][k];
    }
  }

  /**
   Byte `i` of any match that is carried out, valid or not, is the one `i` places behind the offset's
   target, which is taken modulo 8192 in 8K mode and 65536 in 64K mode; a target at or above the position
   is read as it was before.
   */
  lemma {:induction false} MatchReads(hist: Hist, pos: nat, off: nat, len: nat, big: bool, i: nat)
    requires Apply(hist, pos, Match(off, len), big).Moved? && i < len
    ensures var r, k := Apply(hist, pos, Match(off, len), big).hist, (pos - off) % (if big then 65536 else 8192);
            k + i < DICT_SIZE && r[pos + i] == if k < pos then r[k + i] else hist[k + i]
  {
    CopyReads(hist, pos, SourceOf(pos, off, big), len, i);
  }

  /** How far below the end of the array a match starts that reaches before its start; offsets are read modulo 2^16. */
  function WrappedDistance(pos: nat, off: nat): (d: int) {
    if off - pos >= DICT_SIZE then off - pos - DICT_SIZE else off - pos
  }

  /**
   The code reads past its history array exactly in 64K mode, for a match that fits, reaches before
   the start of the history, and is longer than its distance to the end of the array.  In 8K mode,
   and for offsets within the history, it never does.
   */
  lemma {:induction false} OverreadExactlyWhen(hist: Hist, pos: nat, t: Token, big: bool)
    requires pos <= DICT_SIZE && Encodable(t, big)
    ensures Apply(hist, pos, t, big).Beyond?
       <==> big && t.Match? && pos + t.len < DICT_SIZE && t.off > pos && 0 < WrappedDistance(pos, t.off) < t.len
  {
    if t.Match? {
      if big && t.off > pos {
        var d := WrappedDistance(pos, t.off);
        assert SourceOf(pos, t.off, big) == if d == 0 then 0 else DICT_SIZE - d;
      }
    }
  }

  // ---- Packets that decode are exactly encodings of valid token lists ----

  lemma {:induction false} ExpandEncoded(ts: seq<Token>, pad: seq<bool>, big: bool, out: seq<byte>)
    requires AllEncodable(ts, big) && ValidAll(out, ts, big)
    requires |pad| < 8 && AllZero(pad)
    ensures Expand(EncodeAll(ts, big) + pad, big, out) == Expanded(LzAll(out, ts, big))
    decreases |ts|
  {
    if |ts| == 0 {
      assert EncodeAll(ts, big) + pad == pad;
    } else {
      var rest := EncodeAll(ts[1..], big) + pad;
      assert EncodeAll(ts, big) + pad == Encode(ts[0], big) + rest by {
        Regroup(Encode(ts[0], big), EncodeAll(ts[1..], big), pad);
      }
      TokenInverse(EncodeAll(ts, big) + pad, big, ts[0], rest);
      ExpandEncoded(ts[1..], pad, big, Lz(out, ts[0], big));
    }
  }

  /** The tokens of a packet that decodes. */
  function TokensOf(bits: seq<bool>, big: bool): (ts: seq<Token>)
    decreases |bits|
  {
    match NextToken(bits, big)
    case Got(t, rest) => [t] + TokensOf(rest, big)
    case _ => []
  }

  /** What is left when no further token is found. */
  function PaddingOf(bits: seq<bool>, big: bool): (pad: seq<bool>)
    decreases |bits|
  {
    match NextToken(bits, big)
    case Got(t, rest) => PaddingOf(rest, big)
    case _ => bits
  }

  lemma {:induction false} TokensRead(bits: seq<bool>, big: bool)
    ensures AllEncodable(TokensOf(bits, big), big)
    ensures bits == EncodeAll(TokensOf(bits, big), big) + PaddingOf(bits, big)
    decreases |bits|
  {
    match NextToken(bits, big)
    case Got(t, rest) =>
      TokensRead(rest, big);
      TokenInverse(bits, big, t, rest);
      var ts := TokensOf(rest, big);
      assert ([t] + ts)[1..] == ts;
      Regroup(Encode(t, big), EncodeAll(ts, big), PaddingOf(rest, big));
    case _ =>
      assert bits == [] + bits;
  }

  lemma {:induction false} ExpandedTokens(bits: seq<bool>, big: bool, out: seq<byte>)
    requires Expand(bits, big, out).Expanded?
    ensures ValidAll(out, TokensOf(bits, big), big)
    ensures Expand(bits, big, out).out == LzAll(out, TokensOf(bits, big), big)
    ensures |PaddingOf(bits, big)| < 8 && AllZero(PaddingOf(bits, big))
    decreases |bits|
  {
    match NextToken(bits, big)
    case Got(t, rest) =>
      ExpandedTokens(rest, big, Lz(out, t, big));
      assert ([t] + TokensOf(rest, big))[1..] == TokensOf(rest, big);
    case _ =>
  }

  predicate Encodes(bits: seq<bool>, ts: seq<Token>, pad: seq<bool>, big: bool) {
    AllEncodable(ts, big) && |pad| < 8 && AllZero(pad) && bits == EncodeAll(ts, big) + pad
  }

  /**
   A packet expands to `r` if and only if it is the encoding of some valid token list, zero-padded
   by less than a byte, whose LZ77 expansion is `r`.
   */
  lemma {:induction false} ExpandCharacterised(bits: seq<bool>, big: bool, out: seq<byte>, r: seq<byte>)
    ensures Expand(bits, big, out) == Expanded(r)
            <==> exists ts, pad :: Encodes(bits, ts, pad, big) && ValidAll(out, ts, big) && r == LzAll(out, ts, big)
  {
    if Expand(bits, big, out) == Expanded(r) {
      TokensRead(bits, big);
      ExpandedTokens(bits, big, out);
      assert Encodes(bits, TokensOf(bits, big), PaddingOf(bits, big), big);
    }
    forall ts, pad | Encodes(bits, ts, pad, big) && ValidAll(out, ts, big)
      ensures Expand(bits, big, out) == Expanded(LzAll(out, ts, big))
    {
      ExpandEncoded(ts, pad, big, out);
    }
  }
}
