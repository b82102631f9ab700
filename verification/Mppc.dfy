/** The bulk decompressor of mppc.c: the packet loop, the bit window and the persistent history. */
module Mppc {
  import opened Bits
  import opened MppcCode
  import opened MppcHistory
  import opened MppcWindow

  const RDP_MPPC_BIG: bv8 := 0x01
  const RDP_MPPC_COMPRESSED: bv8 := 0x20
  const RDP_MPPC_RESET: bv8 := 0x40
  const RDP_MPPC_FLUSH: bv8 := 0x80

  /** `OutOfBounds` is where the C code would read past its history array. */
  datatype Status = Ok | Error | OutOfBounds

  datatype State = State(hist: Hist, roff: nat)

  datatype Reply = Reply(status: Status, off: nat, len: nat)

  /** The state a packet starts from: RESET rewinds the offset, FLUSH also clears the history. */
  function Start(s: State, ctype: bv8): (r: State) {
    if ctype & RDP_MPPC_FLUSH != 0 then State(seq(DICT_SIZE, _ => 0), 0)
    else if ctype & RDP_MPPC_RESET != 0 then State(s.hist, 0)
    else s
  }

  /** State and reply after a packet that started at `roff`: the offset moves on success only. */
  function Settled(o: Outcome, roff: nat): (r: (State, Reply))
    requires o.Done? ==> roff <= o.pos
  {
    match o
    case Done(hist, pos) => (State(hist, pos), Reply(Ok, roff, pos - roff))
    case Failed(hist) => (State(hist, roff), Reply(Error, roff, 0))
    case Overread(hist) => (State(hist, roff), Reply(OutOfBounds, roff, 0))
  }

  /** What one call does, as a function of the old state. */
  function Decompress(s: State, data: seq<byte>, ctype: bv8): (r: (State, Reply))
    requires s.roff <= DICT_SIZE
    ensures r.0.roff <= DICT_SIZE
  {
    if ctype & RDP_MPPC_COMPRESSED == 0 then (s, Reply(Ok, 0, |data|))
    else
      var b := Start(s, ctype);
      Settled(Run(Unpack(data), ctype & RDP_MPPC_BIG != 0, b.hist, b.roff), b.roff)
  }

  /** `for (; walker_len < need; walker_len += 8)`: fetch bytes until `need` bits are in the window. */
  method Fill(data: seq<byte>, w0: Word, n0: nat, i0: nat, need: nat)
    returns (ok: bool, w: Word, n: nat, i: nat)
    requires Window(w0, n0, i0, data) && need <= 17
    ensures ok <==> |Pending(w0, n0, i0, data)| >= need
    ensures ok ==> Window(w, n, i, data) && n >= need && Pending(w, n, i, data) == Pending(w0, n0, i0, data)
  {
    ok, w, n, i := true, w0, n0, i0;
    while n < need
      invariant Window(w, n, i, data) && Pending(w, n, i, data) == Pending(w0, n0, i0, data)
    {
      if i >= |data| {
        return false, w, n, i;
      }
      FetchPending(w, n, i, data);
      w := Fetch(w, n, data[i]);
      n, i := n + 8, i + 1;
    }
  }

  /** Reload an empty window, as done wherever one more bit is needed. */
  method Refill(data: seq<byte>, w0: Word, n0: nat, i0: nat)
    returns (ok: bool, w: Word, n: nat, i: nat)
    requires Window(w0, n0, i0, data)
    ensures ok <==> |Pending(w0, n0, i0, data)| >= 1
    ensures ok ==> Window(w, n, i, data) && n >= 1 && Pending(w, n, i, data) == Pending(w0, n0, i0, data)
  {
    ok, w, n, i := true, w0, n0, i0;
    if n == 0 {
      if i >= |data| {
        return false, w, n, i;
      }
      ReloadPending(w, i, data);
      w := Reload(data[i]);
      n, i := 8, i + 1;
    }
  }

  /** `if (walker_len < 8)` fetch one byte; on the end of the data nothing has changed. */
  method FetchOne(data: seq<byte>, w0: Word, n0: nat, i0: nat)
    returns (ok: bool, w: Word, n: nat, i: nat)
    requires Window(w0, n0, i0, data) && n0 >= 1
    ensures ok <==> |Pending(w0, n0, i0, data)| >= 8
    ensures ok ==> Window(w, n, i, data) && n >= 8 && Pending(w, n, i, data) == Pending(w0, n0, i0, data)
    ensures !ok ==> w == w0 && n == n0 && i == i0 == |data|
  {
    ok, w, n, i := true, w0, n0, i0;
    if n < 8 {
      if i >= |data| {
        return false, w, n, i;
      }
      FetchPending(w, n, i, data);
      w := Fetch(w, n, data[i]);
      n, i := n + 8, i + 1;
    }
  }

  /** A literal below 0x80: the top byte of the window, whose top bit is zero. */
  method LowLiteral(data: seq<byte>, w0: Word, n0: nat, i: nat) returns (w: Word, n: nat, b: byte)
    requires Window(w0, n0, i, data) && n0 >= 8 && NonNegative(w0)
    ensures var p := Pending(w0, n0, i, data);
            Window(w, n, i, data) && Pending(w, n, i, data) == p[8..] && b == Value(p[1..8])
  {
    TopField(w0, n0, i, data, 8);
    PendingTop(w0, n0, i, data);
    ghost var p := Pending(w0, n0, i, data);
    assert p[..8] == [false] + p[1..8];
    LeadingFalse(p[1..8]);
    assert Pow2(7) == 128;
    b := Value(Shr(w0, 24));
    ShiftPending(w0, n0, i, data, 8);
    w, n := Shl(w0, 8), n0 - 8;
  }

  /** A literal from 0x80 up: the same byte with its top bit set. */
  method HighLiteralByte(data: seq<byte>, w0: Word, n0: nat, i: nat) returns (w: Word, n: nat, b: byte)
    requires Window(w0, n0, i, data) && n0 >= 8 && NonNegative(w0)
    ensures var p := Pending(w0, n0, i, data);
            Window(w, n, i, data) && Pending(w, n, i, data) == p[8..] && b == 128 + Value(p[1..8])
  {
    PendingTop(w0, n0, i, data);
    assert Pending(w0, n0, i, data)[1..8] == w0[1..8];
    HighLiteral(w0);
    assert Pow2(7) == 128;
    b := Value(Or(Sar(w0, 24), WordOf(128)));
    ShiftPending(w0, n0, i, data, 8);
    w, n := Shl(w0, 8), n0 - 8;
  }

  /** Drop the leading bit and make sure another follows. */
  method DropBit(data: seq<byte>, w0: Word, n0: nat, i0: nat)
    returns (ok: bool, w: Word, n: nat, i: nat)
    requires Window(w0, n0, i0, data) && n0 >= 1
    ensures ok <==> |Pending(w0, n0, i0, data)| >= 2
    ensures ok ==> Window(w, n, i, data) && n >= 1 && Pending(w, n, i, data) == Pending(w0, n0, i0, data)[1..]
  {
    ShiftPending(w0, n0, i0, data, 1);
    ok, w, n, i := Refill(data, Shl(w0, 1), n0 - 1, i0);
  }

  /** Fill, drop `skip` bits, take a `width`-bit field and add `base`. */
  method TakeField(data: seq<byte>, w0: Word, n0: nat, i0: nat, skip: nat, width: nat, base: nat)
    returns (ok: bool, w: Word, n: nat, i: nat, v: nat)
    requires Window(w0, n0, i0, data) && skip + width <= 17
    ensures var f := Field(Pending(w0, n0, i0, data), skip, width, base);
            ok == f.Got?
            && (ok ==> Window(w, n, i, data) && f == Got(v, Pending(w, n, i, data)))
  {
    hide Pending, Window, Value, Shl, Shr;
    v := 0;
    ok, w, n, i := Fill(data, w0, n0, i0, skip + width);
    if !ok {
      return;
    }
    ghost var p := Pending(w, n, i, data);
    ShiftPending(w, n, i, data, skip);
    w, n := Shl(w, skip), n - skip;
    TopField(w, n, i, data, width);
    assert p[skip..][..width] == p[skip..skip + width];
    v := Value(Shr(w, 32 - width)) + base;
    ShiftPending(w, n, i, data, width);
    assert p[skip..][width..] == p[skip + width..];
    w, n := Shl(w, width), n - width;
  }

  method DecodeOffset(data: seq<byte>, w0: Word, n0: nat, i0: nat, big: bool)
    returns (ok: bool, w: Word, n: nat, i: nat, off: nat)
    requires Window(w0, n0, i0, data)
    ensures var p := ReadOffset(Pending(w0, n0, i0, data), big);
            ok == p.Got?
            && (ok ==> Window(w, n, i, data) && p == Got(off, Pending(w, n, i, data)))
  {
    off := 0;
    ok, w, n, i := Fill(data, w0, n0, i0, if big then 3 else 2);
    if !ok {
      return;
    }
    PendingTop(w, n, i, data);
    if big {
      if w[0] && w[1] && w[2] {
        ok, w, n, i, off := TakeField(data, w, n, i, 3, 6, 0);
      } else if w[0] && w[1] {
        ok, w, n, i, off := TakeField(data, w, n, i, 3, 8, 64);
      } else if w[0] {
        ok, w, n, i, off := TakeField(data, w, n, i, 2, 11, 320);
      } else {
        ok, w, n, i, off := TakeField(data, w, n, i, 1, 16, 2368);
      }
    } else {
      if w[0] && w[1] {
        ok, w, n, i, off := TakeField(data, w, n, i, 2, 6, 0);
      } else if w[0] {
        ok, w, n, i, off := TakeField(data, w, n, i, 2, 8, 64);
      } else {
        ok, w, n, i, off := TakeField(data, w, n, i, 1, 13, 320);
      }
    }
  }

  /** The unary prefix of a length of four or more; `bits` is the number of value bits that follow. */
  method DecodePrefix(data: seq<byte>, w0: Word, n0: nat, i0: nat, big: bool)
    returns (ok: bool, w: Word, n: nat, i: nat, bits: nat)
    requires Window(w0, n0, i0, data) && n0 >= 1 && !NonNegative(w0)
    ensures var p := Pending(w0, n0, i0, data);
            var j := LeadingOnes(p);
            ok == (j < |p| && j <= MaxOnes(big))
            && (ok ==> Window(w, n, i, data) && bits == j + 1 && Pending(w, n, i, data) == p[j + 1..])
  {
    hide Pending, Window, Shl;
    ghost var p := Pending(w0, n0, i0, data);
    SignIsNext(w0, n0, i0, data);
    w, n, i := w0, n0, i0;
    var match_bits := if big then 14 else 11;
    ghost var j := 1;
    while true
      invariant Window(w, n, i, data) && n >= 1 && |w| == 32 && w[0]
      invariant 1 <= match_bits && j == MaxOnes(big) - match_bits + 1
      invariant 1 <= j <= |p| && Pending(w, n, i, data) == p[j - 1..]
      invariant forall k :: 0 <= k < j ==> p[k]
      decreases match_bits
    {
      assert p[j - 1..][1..] == p[j..];
      ok, w, n, i := DropBit(data, w, n, i);
      if !ok {
        return false, w, n, i, 0;
      }
      SignIsNext(w, n, i, data);
      assert p[j..][0] == p[j];
      if NonNegative(w) {
        break;
      }
      match_bits, j := match_bits - 1, j + 1;
      if match_bits == 0 {
        return false, w, n, i, 0;
      }
    }
    LeadingOnesOf(p, j);
    bits := (if big then 16 else 13) - match_bits;
    ShiftPending(w, n, i, data, 1);
    assert p[j..][1..] == p[j + 1..];
    w, n := Shl(w, 1), n - 1;
  }

  lemma {:induction false} LengthTop(w: Word, n: nat, i: nat, data: seq<byte>, bits: nat)
    requires Window(w, n, i, data) && 1 <= bits <= n
    ensures Value(Or(And(Sar(w, 32 - bits), LowMask(bits)), Shl(WordOf(1), bits)))
            == Pow2(bits) + Value(Pending(w, n, i, data)[0..bits])
  {
    LengthField(w, bits);
    PendingTop(w, n, i, data);
    assert Pending(w, n, i, data)[0..bits] == w[..bits];
  }

  /** The value bits of a length of four or more. */
  method TakeLength(data: seq<byte>, w0: Word, n0: nat, i0: nat, bits: nat)
    returns (ok: bool, w: Word, n: nat, i: nat, len: nat)
    requires Window(w0, n0, i0, data) && 1 <= bits <= 15
    ensures var f := Field(Pending(w0, n0, i0, data), 0, bits, Pow2(bits));
            ok == f.Got?
            && (ok ==> Window(w, n, i, data) && f == Got(len, Pending(w, n, i, data)))
  {
    hide Pending, Window, Value, Pow2, Or, And, Sar, Shl, LowMask, WordOf;
    len := 0;
    ok, w, n, i := Fill(data, w0, n0, i0, bits);
    if !ok {
      return;
    }
    ghost var p := Pending(w, n, i, data);
    LengthTop(w, n, i, data, bits);
    len := Value(Or(And(Sar(w, 32 - bits), LowMask(bits)), Shl(WordOf(1), bits)));
    assert len == Pow2(bits) + Value(p[0..bits]);
    ShiftPending(w, n, i, data, bits);
    w, n := Shl(w, bits), n - bits;
  }

  lemma {:induction false} FieldAfter(p: seq<bool>, skip: nat, width: nat, base: nat)
    requires skip <= |p|
    ensures Field(p, skip, width, base) == Field(p[skip..], 0, width, base)
  {
    if |p| >= skip + width {
      assert p[skip..][0..width] == p[skip..skip + width];
      assert p[skip..][width..] == p[skip + width..];
    }
  }

  method DecodeLength(data: seq<byte>, w0: Word, n0: nat, i0: nat, big: bool)
    returns (ok: bool, w: Word, n: nat, i: nat, len: nat)
    requires Window(w0, n0, i0, data)
    ensures var p := ReadLength(Pending(w0, n0, i0, data), big);
            ok == p.Got?
            && (ok ==> Window(w, n, i, data) && p == Got(len, Pending(w, n, i, data)))
  {
    len := 0;
    ok, w, n, i := Refill(data, w0, n0, i0);
    if !ok {
      return;
    }
    ghost var p := Pending(w, n, i, data);
    PendingTop(w, n, i, data);
    if NonNegative(w) {
      ShiftPending(w, n, i, data, 1);
      w, n, len := Shl(w, 1), n - 1, 3;
      return;
    }
    var bits;
    ok, w, n, i, bits := DecodePrefix(data, w, n, i, big);
    if !ok {
      return;
    }
    FieldAfter(p, bits, bits, Pow2(bits));
    ok, w, n, i, len := TakeLength(data, w, n, i, bits);
  }

  datatype Decoded = Item(t: Token) | Finished | Malformed

  /** What one round of the decoding loop finds, against the token reader. */
  ghost predicate Reads(d: Decoded, p: Parsed<Token>, rest: seq<bool>) {
    match d
    case Item(t) => p == Got(t, rest)
    case Finished => p == End
    case Malformed => p == Bad
  }

  lemma SignIsNext(w: Word, n: nat, i: nat, data: seq<byte>)
    requires Window(w, n, i, data) && n >= 1
    ensures |Pending(w, n, i, data)| >= n && (NonNegative(w) <==> !Pending(w, n, i, data)[0]) && (NonNegative(w) <==> !w[0])
    ensures |w| == 32
  {
  }

  lemma NoToken(p: seq<bool>, big: bool)
    requires |p| == 0
    ensures NextToken(p, big) == End
  {
  }

  lemma LowToken(p: seq<bool>, big: bool, b: byte)
    requires |p| >= 8 && !p[0] && b == Value(p[1..8])
    ensures NextToken(p, big) == Got(Literal(b), p[8..])
  {
  }

  lemma LoneOne(p: seq<bool>, big: bool)
    requires |p| == 1 && p[0]
    ensures NextToken(p, big) == Bad
  {
  }

  lemma ShortHighLiteral(p: seq<bool>, big: bool)
    requires 2 <= |p| < 9 && p[0] && !p[1]
    ensures NextToken(p, big) == Bad
  {
  }

  lemma HighToken(p: seq<bool>, big: bool, b: byte)
    requires |p| >= 9 && p[0] && !p[1] && b == 128 + Value(p[2..9])
    ensures NextToken(p, big) == Got(Literal(b), p[9..])
  {
  }

  /** One round of the decoding loop, up to the point where the token is written. */
  method DecodeToken(data: seq<byte>, w0: Word, n0: nat, i0: nat, big: bool)
    returns (item: Decoded, w: Word, n: nat, i: nat)
    requires Window(w0, n0, i0, data)
    ensures item.Item? ==> Window(w, n, i, data)
    ensures Reads(item, NextToken(Pending(w0, n0, i0, data), big), if item.Item? then Pending(w, n, i, data) else [])
  {
    hide NextToken, Pending, Window, ReadMatch, Value, Zeros;
    var ok, b;
    ghost var p := Pending(w0, n0, i0, data);
    ok, w, n, i := Refill(data, w0, n0, i0);
    if !ok {
      NoToken(p, big);
      return Finished, w, n, i;
    }
    SignIsNext(w, n, i, data);
    if NonNegative(w) {
      ok, w, n, i := FetchOne(data, w, n, i);
      if !ok {
        ShortTail(w, n, i, data, big);
        return if w != Zeros(32) then Malformed else Finished, w, n, i;
      }
      SignIsNext(w, n, i, data);
      w, n, b := LowLiteral(data, w, n, i);
      LowToken(p, big, b);
      return Item(Literal(b)), w, n, i;
    }
    ok, w, n, i := DropBit(data, w, n, i);
    if !ok {
      LoneOne(p, big);
      return Malformed, w, n, i;
    }
    SignIsNext(w, n, i, data);
    if NonNegative(w) {
      ok, w, n, i := FetchOne(data, w, n, i);
      if !ok {
        ShortHighLiteral(p, big);
        return Malformed, w, n, i;
      }
      SignIsNext(w, n, i, data);
      w, n, b := HighLiteralByte(data, w, n, i);
      assert p[1..][1..8] == p[2..9] && p[1..][8..] == p[9..];
      HighToken(p, big, b);
      return Item(Literal(b)), w, n, i;
    }
    NextIsMatch(p, big);
    ShiftPending(w, n, i, data, 1);
    assert p[1..][1..] == p[2..];
    item, w, n, i := DecodeMatch(data, Shl(w, 1), n - 1, i, big);
  }

  method DecodeMatch(data: seq<byte>, w0: Word, n0: nat, i0: nat, big: bool)
    returns (item: Decoded, w: Word, n: nat, i: nat)
    requires Window(w0, n0, i0, data)
    ensures item.Item? ==> Window(w, n, i, data)
    ensures Reads(item, ReadMatch(Pending(w0, n0, i0, data), big), if item.Item? then Pending(w, n, i, data) else [])
  {
    var ok, off, len;
    ok, w, n, i, off := DecodeOffset(data, w0, n0, i0, big);
    if !ok {
      return Malformed, w, n, i;
    }
    ok, w, n, i, len := DecodeLength(data, w, n, i, big);
    item := if ok then Item(Match(off, len)) else Malformed;
  }

  /** Fewer than eight bits left, the first of them zero: padding if the whole window is zero. */
  lemma {:induction false} ShortTail(w: Word, n: nat, i: nat, data: seq<byte>, big: bool)
    requires Window(w, n, i, data) && 1 <= n < 8 && i == |data| && !w[0]
    ensures NextToken(Pending(w, n, i, data), big) == if w != Zeros(32) then Bad else End
  {
    var p := Pending(w, n, i, data);
    assert p == w[..n];
    assert w == w[..n] + w[n..];
    if AllZero(p) {
      assert w == Zeros(32);
    }
  }

  /** What the decoding loop reports, against the outcome of `Run`. */
  ghost predicate Agrees(o: Outcome, status: Status, hist: seq<byte>, next: nat) {
    match o
    case Done(h, pos) => status == Ok && hist == h && next == pos
    case Failed(h) => status == Error && hist == h
    case Overread(h) => status == OutOfBounds && hist == h
  }

  lemma CompressedPacket(s: State, data: seq<byte>, ctype: bv8)
    requires s.roff <= DICT_SIZE && ctype & RDP_MPPC_COMPRESSED != 0
    ensures var b := Start(s, ctype);
            && b.roff <= DICT_SIZE
            && Decompress(s, data, ctype) == Settled(Run(Unpack(data), ctype & RDP_MPPC_BIG != 0, b.hist, b.roff), b.roff)
  {
    hide Run, Unpack, Settled;
  }

  lemma FreshWindow(data: seq<byte>)
    ensures Window(Zeros(32), 0, 0, data) && Pending(Zeros(32), 0, 0, data) == Unpack(data)
  {
    hide Unpack;
    assert Zeros(32)[..0] + Unpack(data[0..]) == Unpack(data[0..]);
    assert data[0..] == data;
  }

  lemma EmptyPacket(hist: Hist, roff: nat, big: bool)
    requires roff <= DICT_SIZE
    ensures Run(Unpack([]), big, hist, roff) == Done(hist, roff)
  {
  }

  /** The process-wide decompression state. */
  class Decompressor {
    var hist: array<byte>
    var roff: nat

    ghost predicate Valid()
      reads this
    {
      hist.Length == DICT_SIZE && roff <= DICT_SIZE
    }

    ghost function Contents(): (s: State)
      reads this, hist
      requires Valid()
    {
      State(hist[..], roff)
    }

    constructor ()
      ensures Valid() && fresh(hist) && roff == 0
    {
      hist := new byte[DICT_SIZE](_ => 0);
      roff := 0;
    }

    /**
     Expand one packet.  The history, the offset and the reply are exactly those of `Decompress`,
     for every input.
     */
    method Expand(data: seq<byte>, ctype: bv8) returns (r: Reply)
      requires Valid()
      modifies this, hist
      ensures Valid() && hist == old(hist)
      ensures (Contents(), r) == Decompress(old(Contents()), data, ctype)
    {
      if ctype & RDP_MPPC_COMPRESSED == 0 {
        return Reply(Ok, 0, |data|);
      }
      CompressedPacket(Contents(), data, ctype);
      hide Start, Run, Unpack, Decompress, Settled;
      Rewind(ctype);
      r := ExpandFrom(data, ctype & RDP_MPPC_BIG != 0);
    }

    /** The part behind the flags: the offset moves only when the packet was good. */
    method ExpandFrom(data: seq<byte>, big: bool) returns (r: Reply)
      requires Valid()
      modifies this, hist
      ensures Valid() && hist == old(hist)
      ensures (Contents(), r) == Settled(Run(Unpack(data), big, old(hist[..]), old(roff)), old(roff))
    {
      hide Run, Unpack;
      var oldOffset := roff;
      if |data| == 0 {
        EmptyPacket(hist[..], roff, big);
        return Reply(Ok, oldOffset, 0);
      }
      var status, next := ExpandBits(data, big);
      if status != Ok {
        return Reply(status, oldOffset, 0);
      }
      roff := next;
      return Reply(Ok, oldOffset, next - oldOffset);
    }

    method Rewind(ctype: bv8)
      requires Valid()
      modifies this, hist
      ensures Valid() && hist == old(hist) && Contents() == Start(old(Contents()), ctype)
    {
      if ctype & RDP_MPPC_RESET != 0 {
        roff := 0;
      }
      if ctype & RDP_MPPC_FLUSH != 0 {
        forall k | 0 <= k < hist.Length {
          hist[k] := 0;
        }
        roff := 0;
      }
    }

    /** The decoding loop: it writes the history and leaves `roff` to its caller. */
    method ExpandBits(data: seq<byte>, big: bool) returns (status: Status, next: nat)
      requires Valid()
      modifies hist
      ensures Agrees(Run(Unpack(data), big, old(hist[..]), roff), status, hist[..], next)
    {
      var w: Word, n: nat, i: nat := Zeros(32), 0, 0;
      next := roff;
      ghost var goal := Run(Unpack(data), big, hist[..], roff);
      FreshWindow(data);
      hide Zeros, Run, Unpack, Apply, NextToken, Pending, Window;
      while true
        invariant Window(w, n, i, data) && next <= DICT_SIZE
        invariant Run(Pending(w, n, i, data), big, hist[..], next) == goal
        decreases |Pending(w, n, i, data)|
      {
        ghost var p := Pending(w, n, i, data);
        ghost var h: Hist := hist[..];
        var item;
        item, w, n, i := DecodeToken(data, w, n, i, big);
        match item {
          case Finished =>
            RunStops(p, big, h, next);
            return Ok, next;
          case Malformed =>
            RunStops(p, big, h, next);
            return Error, next;
          case Item(t) =>
            MatchHasLength(p, big, t, Pending(w, n, i, data));
            RunToken(p, big, h, next, t, Pending(w, n, i, data));
            status, next := Store(t, big, next);
            if status != Ok {
              return;
            }
        }
      }
    }

    /** Write one token at `pos`. */
    method Store(t: Token, big: bool, pos: nat) returns (status: Status, next: nat)
      requires Valid() && pos <= DICT_SIZE && (t.Match? ==> t.len >= 1)
      modifies hist
      ensures match Apply(old(hist[..]), pos, t, big)
              case Moved(h, p) => status == Ok && hist[..] == h && next == p
              case Full => status == Error && hist[..] == old(hist[..])
              case Beyond => status == OutOfBounds && hist[..] == old(hist[..])
    {
      match t {
        case Literal(b) =>
          if pos >= DICT_SIZE {
            return Error, pos;
          }
          hist[pos] := b;
          return Ok, pos + 1;
        case Match(off, len) =>
          if pos + len >= DICT_SIZE {
            return Error, pos;
          }
          var k := SourceOf(pos, off, big);
          if k + len > DICT_SIZE {
            return OutOfBounds, pos;
          }
          CopyMatch(pos, k, len);
          return Ok, pos + len;
      }
    }

    /** `do dict[next_offset++] = dict[k++]; while (--match_len != 0)`. */
    method CopyMatch(pos: nat, k0: nat, len: nat)
      requires Valid() && len >= 1
      requires pos + len <= DICT_SIZE && k0 + len <= DICT_SIZE
      modifies hist
      ensures hist[..] == CopyAt(old(hist[..]), pos, k0, len)
    {
      var next, k, left := pos, k0, len;
      while left != 0
        invariant 0 <= left <= len && next == pos + (len - left) && k == k0 + (len - left)
        invariant CopyAt(hist[..], next, k, left) == CopyAt(old(hist[..]), pos, k0, len)
      {
        ghost var h: Hist := hist[..];
        hist[next] := hist[k];
        assert hist[..] == h[next := h[k]];
        next, k, left := next + 1, k + 1, left - 1;
      }
    }
  }
}
