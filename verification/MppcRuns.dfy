/** Whole runs of packets through one decompressor. */
module MppcRuns {
  import opened Bits
  import opened MppcCode
  import opened MppcHistory
  import opened Mppc

  datatype Packet = Packet(data: seq<byte>, ctype: bv8) {
    predicate Compressed() { ctype & RDP_MPPC_COMPRESSED != 0 }
    predicate Big() { ctype & RDP_MPPC_BIG != 0 }
    predicate Rewinds() { ctype & RDP_MPPC_FLUSH != 0 || ctype & RDP_MPPC_RESET != 0 }
  }

  /** What the caller of the decompressor sees of a packet: the status and the bytes it may copy out. */
  datatype Seen = Seen(status: Status, bytes: seq<byte>)

  predicate Sound(s: State) {
    s.roff <= DICT_SIZE
  }

  function Prefix(s: State): (out: seq<byte>)
    requires Sound(s)
  {
    s.hist[..s.roff]
  }

  function Step(s: State, p: Packet): (s': State)
    requires Sound(s)
    ensures Sound(s')
  {
    Decompress(s, p.data, p.ctype).0
  }

  /** The bytes of an uncompressed packet are the caller's own buffer, not the history. */
  function SeenOf(s: State, p: Packet): (seen: Seen)
    requires Sound(s)
  {
    var (s', r) := Decompress(s, p.data, p.ctype);
    Seen(r.status, if !p.Compressed() then p.data else s'.hist[r.off..r.off + r.len])
  }

  function RunPackets(s: State, ps: seq<Packet>): (s': State)
    requires Sound(s)
    ensures Sound(s')
    decreases |ps|
  {
    if |ps| == 0 then s else RunPackets(Step(s, ps[0]), ps[1..])
  }

  function SeenAll(s: State, ps: seq<Packet>): (seen: seq<Seen>)
    requires Sound(s)
    decreases |ps|
  {
    if |ps| == 0 then [] else [SeenOf(s, ps[0])] + SeenAll(Step(s, ps[0]), ps[1..])
  }

  // ---- The history is the output so far ----

  /** `acc` followed by the compressed packets' outputs, started afresh at each RESET or FLUSH. */
  function SinceRewind(acc: seq<byte>, ps: seq<Packet>, seen: seq<Seen>): (out: seq<byte>)
    requires |ps| == |seen|
    decreases |ps|
  {
    if |ps| == 0 then acc
    else if !ps[0].Compressed() then SinceRewind(acc, ps[1..], seen[1..])
    else SinceRewind((if ps[0].Rewinds() then [] else acc) + seen[0].bytes, ps[1..], seen[1..])
  }

  lemma {:induction false} SeenLength(s: State, ps: seq<Packet>)
    requires Sound(s)
    ensures |SeenAll(s, ps)| == |ps|
    decreases |ps|
  {
    if |ps| > 0 {
      SeenLength(Step(s, ps[0]), ps[1..]);
    }
  }

  lemma {:induction false} StepExtends(s: State, p: Packet)
    requires Sound(s) && p.Compressed()
    ensures Prefix(Step(s, p)) == (if p.Rewinds() then [] else Prefix(s)) + SeenOf(s, p).bytes
  {
    var b := Start(s, p.ctype);
    RunKeepsBelow(Unpack(p.data), p.Big(), b.hist, b.roff);
    hide MppcHistory.Run, Unpack;
    var s' := Step(s, p);
    assert SeenOf(s, p).bytes == s'.hist[b.roff..s'.roff];
    assert Prefix(b) == if p.Rewinds() then [] else Prefix(s);
    assert s'.hist[..b.roff] == Prefix(b);
    hide *;
    assert s'.hist[..s'.roff] == s'.hist[..b.roff] + s'.hist[b.roff..s'.roff];
    PrefixIs(s');
  }

  lemma PrefixIs(s: State)
    requires Sound(s)
    ensures Prefix(s) == s.hist[..s.roff]
  {
  }

  /**
   Over every run of packets, valid or not, the history below the offset is the concatenation of
   the outputs since the last RESET or FLUSH; packets that fail contribute nothing.
   */
  lemma {:induction false} HistoryIsOutput(s: State, ps: seq<Packet>)
    requires Sound(s)
    ensures |SeenAll(s, ps)| == |ps|
    ensures Prefix(RunPackets(s, ps)) == SinceRewind(Prefix(s), ps, SeenAll(s, ps))
    decreases |ps|
  {
    SeenLength(s, ps);
    if |ps| > 0 {
      HistoryIsOutput(Step(s, ps[0]), ps[1..]);
      assert SeenAll(s, ps)[1..] == SeenAll(Step(s, ps[0]), ps[1..]);
      if ps[0].Compressed() {
        StepExtends(s, ps[0]);
      }
    }
  }

  // ---- Failed packets leave no trace ----

  /** The bytes a packet starts from. */
  function Opening(out: seq<byte>, p: Packet): (r: seq<byte>) {
    if p.Compressed() && p.Rewinds() then [] else out
  }

  function Meaning(out: seq<byte>, p: Packet): (e: Expansion)
    ensures e.Expanded? ==> Opening(out, p) <= e.out
  {
    if !p.Compressed() then Expanded(out) else Expand(Unpack(p.data), p.Big(), Opening(out, p))
  }

  /** What follows `out` when the packet is handled. */
  function Closing(out: seq<byte>, p: Packet): (r: seq<byte>) {
    match Meaning(out, p)
    case Expanded(r) => r
    case _ => Opening(out, p)
  }

  /** No packet of the run holds a match that a sender may not emit where it stands. */
  predicate ValidRun(out: seq<byte>, ps: seq<Packet>)
    decreases |ps|
  {
    |ps| == 0 || (!Meaning(out, ps[0]).Invalid? && ValidRun(Closing(out, ps[0]), ps[1..]))
  }

  lemma {:induction false} StepMeans(s: State, p: Packet)
    requires Sound(s) && !Meaning(Prefix(s), p).Invalid?
    ensures Prefix(Step(s, p)) == Closing(Prefix(s), p)
    ensures p.Compressed() ==>
              match Meaning(Prefix(s), p)
              case Expanded(r) => SeenOf(s, p) == Seen(Ok, r[|Opening(Prefix(s), p)|..])
              case _ => SeenOf(s, p) == Seen(Error, [])
    ensures !p.Compressed() ==> SeenOf(s, p) == Seen(Ok, p.data)
  {
    if p.Compressed() {
      var b := Start(s, p.ctype);
      assert b.hist[..b.roff] == Opening(Prefix(s), p);
      RunIsExpand(Unpack(p.data), p.Big(), b.hist, b.roff);
      RunKeepsBelow(Unpack(p.data), p.Big(), b.hist, b.roff);
      var h, n := Step(s, p).hist, Step(s, p).roff;
      assert h[b.roff..n] == h[..n][b.roff..];
    }
  }

  /** Two states with the same bytes below the offset are indistinguishable by valid packets. */
  lemma {:induction false} SameSeen(s: State, t: State, ps: seq<Packet>)
    requires Sound(s) && Sound(t) && Prefix(s) == Prefix(t) && ValidRun(Prefix(s), ps)
    ensures SeenAll(s, ps) == SeenAll(t, ps)
    ensures Prefix(RunPackets(s, ps)) == Prefix(RunPackets(t, ps))
    decreases |ps|
  {
    if |ps| > 0 {
      StepMeans(s, ps[0]);
      StepMeans(t, ps[0]);
      SameSeen(Step(s, ps[0]), Step(t, ps[0]), ps[1..]);
    }
  }

  /**
   A packet that is refused leaves no trace beyond its RESET or FLUSH flag: what callers see of any
   valid packets that follow is what they would have seen had it never come.
   */
  lemma {:induction false} RefusedLeavesNoTrace(s: State, bad: Packet, ps: seq<Packet>)
    requires Sound(s) && SeenOf(s, bad).status == Error
    requires ValidRun(Prefix(Start(s, bad.ctype)), ps)
    ensures SeenAll(Step(s, bad), ps) == SeenAll(Start(s, bad.ctype), ps)
    ensures !bad.Rewinds() ==> SeenAll(Step(s, bad), ps) == SeenAll(s, ps)
  {
    var b := Start(s, bad.ctype);
    RunKeepsBelow(Unpack(bad.data), bad.Big(), b.hist, b.roff);
    SameSeen(Step(s, bad), b, ps);
  }

  /**
   Round trip: the encoding of any token list that is valid where it stands, packed into bytes, is
   accepted, and the history grows by exactly its LZ77 expansion.
   */
  lemma {:induction false} EncodedPacketExpands(s: State, ts: seq<Token>, ctype: bv8)
    requires Sound(s) && ctype & RDP_MPPC_COMPRESSED != 0
    requires AllEncodable(ts, ctype & RDP_MPPC_BIG != 0)
    requires ValidAll(Prefix(Start(s, ctype)), ts, ctype & RDP_MPPC_BIG != 0)
    ensures var big := ctype & RDP_MPPC_BIG != 0;
            var (s', r) := Decompress(s, Pack(EncodeAll(ts, big)), ctype);
            var before := Prefix(Start(s, ctype));
            && r.status == Ok && r.off == |before| && r.off + r.len == s'.roff
            && s'.hist[..s'.roff] == LzAll(before, ts, big)
  {
    var big := ctype & RDP_MPPC_BIG != 0;
    var code := EncodeAll(ts, big);
    var b := Start(s, ctype);
    UnpackPack(code);
    ExpandEncoded(ts, Zeros(PadLength(|code|)), big, Prefix(b));
    RunIsExpand(Unpack(Pack(code)), big, b.hist, b.roff);
  }

  lemma {:induction false} OneToken(t: Token, big: bool, pad: seq<bool>, hist: Hist, pos: nat)
    requires Encodable(t, big) && pos <= DICT_SIZE && |pad| < 8 && AllZero(pad)
    ensures Run(Encode(t, big) + pad, big, hist, pos).Overread? <==> Apply(hist, pos, t, big).Beyond?
  {
    TokenInverse(Encode(t, big) + pad, big, t, pad);
    RunToken(Encode(t, big) + pad, big, hist, pos, t, pad);
    assert NextToken(pad, big) == End;
    hide Run, Encode, NextToken, AllZero;
    var a := Apply(hist, pos, t, big);
    if a.Moved? {
      RunStops(pad, big, a.hist, a.pos);
    }
  }

  /**
   A packet that holds one match makes the code read past its history exactly in 64K mode, for a
   match that reaches before the start of the history and is longer than its wrapped distance.
   */
  lemma {:induction false} MatchPacketOverreads(s: State, off: nat, len: nat, ctype: bv8)
    requires Sound(s) && ctype & RDP_MPPC_COMPRESSED != 0
    requires Encodable(Match(off, len), ctype & RDP_MPPC_BIG != 0)
    ensures Decompress(s, Pack(Encode(Match(off, len), ctype & RDP_MPPC_BIG != 0)), ctype).1.status == OutOfBounds
       <==> ctype & RDP_MPPC_BIG != 0 && Start(s, ctype).roff + len < DICT_SIZE && off > Start(s, ctype).roff
            && 0 < WrappedDistance(Start(s, ctype).roff, off) < len
  {
    var big, b, t := ctype & RDP_MPPC_BIG != 0, Start(s, ctype), Match(off, len);
    var code := Encode(t, big);
    hide Encode, Apply, Run, Pack, Unpack, WrappedDistance, Encodable;
    UnpackPack(code);
    OneToken(t, big, Zeros(PadLength(|code|)), b.hist, b.roff);
    OverreadExactlyWhen(b.hist, b.roff, t, big);
  }

  /** Such a packet: with nothing in the history yet, three bytes from one byte back. */
  lemma {:induction false} FirstMatchOverreads(s: State)
    requires Sound(s) && s.roff == 0
    ensures Encodable(Match(1, 3), true)
    ensures Decompress(s, Pack(Encode(Match(1, 3), true)), 0x21).1.status == OutOfBounds
  {
    assert 0x21 as bv8 & RDP_MPPC_COMPRESSED != 0 && 0x21 as bv8 & RDP_MPPC_BIG != 0;
    hide Encode;
    MatchPacketOverreads(s, 1, 3, 0x21);
  }

  /** An accepted packet changes the history only between the offset it starts from and the one it ends at. */
  lemma {:induction false} OnlyOutputWritten(s: State, p: Packet)
    requires Sound(s) && p.Compressed() && Decompress(s, p.data, p.ctype).1.status == Ok
    ensures var b, s' := Start(s, p.ctype), Step(s, p);
            b.roff <= s'.roff && s'.hist[..b.roff] == b.hist[..b.roff] && s'.hist[s'.roff..] == b.hist[s'.roff..]
  {
    var b := Start(s, p.ctype);
    RunKeepsBelow(Unpack(p.data), p.Big(), b.hist, b.roff);
    RunKeepsAbove(Unpack(p.data), p.Big(), b.hist, b.roff);
    hide MppcHistory.Run, Unpack, Start;
  }

  /** An uncompressed packet leaves everything alone, and is answered with its own length. */
  lemma {:induction false} UncompressedPasses(s: State, p: Packet)
    requires Sound(s) && p.ctype & 0x20 == 0
    ensures Decompress(s, p.data, p.ctype) == (s, Reply(Ok, 0, |p.data|))
  {
  }

  /** FLUSH clears the whole history, RESET and FLUSH begin at its start. */
  lemma {:induction false} FlushClears(s: State, p: Packet)
    requires Sound(s) && p.Compressed() && Decompress(s, p.data, p.ctype).1.status == Ok
    ensures p.Rewinds() ==> Decompress(s, p.data, p.ctype).1.off == 0
    ensures !p.Rewinds() ==> Decompress(s, p.data, p.ctype).1.off == s.roff
    ensures var s' := Step(s, p);
            forall i :: s'.roff <= i < DICT_SIZE ==> s'.hist[i] == if p.ctype & 0x80 != 0 then 0 else s.hist[i]
  {
    OnlyOutputWritten(s, p);
    var b, s' := Start(s, p.ctype), Step(s, p);
    assert forall i :: s'.roff <= i < DICT_SIZE ==> s'.hist[i] == s'.hist[s'.roff..][i - s'.roff] && b.hist[i] == b.hist[s'.roff..][i - s'.roff];
    hide MppcHistory.Run, Unpack;
  }

  /** The expansion of a match repeats with period `off`, however far it overlaps itself. */
  lemma {:induction false} MatchIsPeriodic(out: seq<byte>, off: nat, len: nat, i: nat)
    requires 1 <= off <= |out| <= i < |out| + len
    ensures LzCopy(out, off, len)[i] == LzCopy(out, off, len)[i - off]
    decreases len
  {
    var out' := out + [out[|out| - off]];
    if i > |out| {
      MatchIsPeriodic(out', off, len - 1, i);
    } else {
      assert out' <= LzCopy(out', off, len - 1);
      assert out'[i] == out'[i - off];
    }
  }
}
