/** Two ends with mirrored keys exchanging sealed messages, each direction in order, both at once. */
module NtlmRuns {
  import opened Bits
  import opened NtlmSession

  /**
   One direction: the sending half, the receiving half of the other end, the messages on their way,
   the texts sent and the texts received, and how many messages the receiver refused.
   */
  datatype Line = Line(sender: Half, receiver: Half, flight: seq<seq<byte>>, sent: seq<seq<byte>>, got: seq<seq<byte>>, refused: nat)

  datatype Link = Link(ab: Line, ba: Line)

  /** A stray message reaches the receiver from elsewhere. */
  datatype Event = Send(plain: seq<byte>) | Deliver | Stray(message: seq<byte>)

  datatype Turn = Turn(fromA: bool, event: Event)

  function LineStep(l: Line, e: Event): (r: Line) {
    match e
    case Send(plain) =>
      l.(sender := Advanced(l.sender, |plain|), flight := l.flight + [Sealed(l.sender, plain)], sent := l.sent + [plain])
    case Deliver =>
      if |l.flight| == 0 then l
      else
        var o := Open(l.receiver, l.flight[0]);
        var t := l.(receiver := o.half, flight := l.flight[1..]);
        if o.plain.None? then t.(refused := t.refused + 1) else t.(got := t.got + [o.plain.value])
    case Stray(message) =>
      var o := Open(l.receiver, message);
      var t := l.(receiver := o.half);
      if o.plain.None? then t else t.(got := t.got + [o.plain.value])
  }

  function Step(k: Link, t: Turn): (r: Link) {
    if t.fromA then k.(ab := LineStep(k.ab, t.event)) else k.(ba := LineStep(k.ba, t.event))
  }

  function Fresh(h: Half): (l: Line) {
    Line(h, h, [], [], [], 0)
  }

  function Run(a: Half, b: Half, ts: seq<Turn>): (k: Link) {
    if |ts| == 0 then Link(Fresh(a), Fresh(b)) else Step(Run(a, b, ts[..|ts| - 1]), ts[|ts| - 1])
  }

  /** Strays come with a version or a sequence number that is not the one expected. */
  ghost predicate StraysOutOfSequence(a: Half, b: Half, ts: seq<Turn>) {
    forall i :: 0 <= i < |ts| ==> StrayRefused(Run(a, b, ts[..i]), ts[i])
  }

  predicate StrayRefused(k: Link, t: Turn) {
    t.event.Stray? ==> HeaderRefused(if t.fromA then k.ab.receiver else k.ba.receiver, t.event.message)
  }

  /** Sealing `plains` one after the other takes half `h` to half `h'` and makes `ws`. */
  ghost predicate Chain(h: Half, ws: seq<seq<byte>>, plains: seq<seq<byte>>, h': Half)
    decreases |ws|
  {
    && |ws| == |plains|
    && if |ws| == 0 then h == h'
       else ws[0] == Sealed(h, plains[0]) && Chain(Advanced(h, |plains[0]|), ws[1..], plains[1..], h')
  }

  lemma {:induction false} ChainGrows(h: Half, ws: seq<seq<byte>>, plains: seq<seq<byte>>, h': Half, plain: seq<byte>)
    requires Chain(h, ws, plains, h')
    ensures Chain(h, ws + [Sealed(h', plain)], plains + [plain], Advanced(h', |plain|))
    decreases |ws|
  {
    hide Sealed, Advanced;
    if |ws| > 0 {
      ChainGrows(Advanced(h, |plains[0]|), ws[1..], plains[1..], h', plain);
      assert (ws + [Sealed(h', plain)])[1..] == ws[1..] + [Sealed(h', plain)];
      assert (plains + [plain])[1..] == plains[1..] + [plain];
    } else {
      assert (ws + [Sealed(h', plain)])[1..] == [] && (plains + [plain])[1..] == [];
    }
  }

  /** Received is a prefix of sent, what flies is the rest, and the receiver is one chain behind the sender. */
  ghost predicate Aligned(l: Line) {
    && l.refused == 0
    && l.receiver.next < WORD
    && |l.got| <= |l.sent|
    && l.got == l.sent[..|l.got|]
    && Chain(l.receiver, l.flight, l.sent[|l.got|..], l.sender)
  }

  lemma {:induction false} StepAligned(l: Line, e: Event)
    requires Aligned(l)
    requires e.Stray? ==> HeaderRefused(l.receiver, e.message)
    ensures Aligned(LineStep(l, e))
  {
    hide Sealed, HeaderRefused;
    var r := LineStep(l, e);
    match e
    case Send(plain) =>
      ChainGrows(l.receiver, l.flight, l.sent[|l.got|..], l.sender, plain);
      assert r.sent[|l.got|..] == l.sent[|l.got|..] + [plain];
    case Deliver =>
      if |l.flight| > 0 {
        var plain := l.sent[|l.got|..][0];
        OpensExactlyWhatWasSealed(l.receiver, l.flight[0], plain);
        assert r.sent[|r.got|..] == l.sent[|l.got|..][1..];
      }
    case Stray(message) =>
  }

  /**
   Over every interleaving of both directions, out-of-sequence strays included: every message opens to
   the text that was sealed, in order; when none is on its way, key stream and sequence number agree.
   */
  lemma {:induction false} RunDelivers(a: Half, b: Half, ts: seq<Turn>)
    requires a.next < WORD && b.next < WORD && StraysOutOfSequence(a, b, ts)
    ensures var k := Run(a, b, ts); Aligned(k.ab) && Aligned(k.ba)
  {
    hide Aligned, Advanced, LineStep;
    if |ts| == 0 {
      FreshAligned(a);
      FreshAligned(b);
    } else {
      var ts' := ts[..|ts| - 1];
      forall i | 0 <= i < |ts'|
        ensures StrayRefused(Run(a, b, ts'[..i]), ts'[i])
      {
        assert ts'[..i] == ts[..i];
        assert StrayRefused(Run(a, b, ts[..i]), ts[i]);
      }
      RunDelivers(a, b, ts');
      var k, t := Run(a, b, ts'), ts[|ts| - 1];
      assert StrayRefused(k, t);
      StepAligned(if t.fromA then k.ab else k.ba, t.event);
    }
  }

  lemma FreshAligned(h: Half)
    requires h.next < WORD
    ensures Aligned(Fresh(h))
  {
  }

  /** With nothing on its way all was received, and the two ends agree on key stream and sequence number. */
  lemma {:induction false} QuietMeansEqual(a: Half, b: Half, ts: seq<Turn>)
    requires a.next < WORD && b.next < WORD && StraysOutOfSequence(a, b, ts)
    requires Run(a, b, ts).ab.flight == []
    ensures var l := Run(a, b, ts).ab; l.got == l.sent && l.sender == l.receiver && l.refused == 0
  {
    hide Run;
    RunDelivers(a, b, ts);
  }

  /** Key stream bytes that the texts take: their own and eight for each checksum. */
  function StreamUsed(plains: seq<seq<byte>>): (n: nat) {
    if |plains| == 0 then 0 else StreamUsed(plains[..|plains| - 1]) + |plains[|plains| - 1]| + 8
  }

  /** The sender of a line that started with half `h`: nothing skipped, nothing used twice. */
  ghost predicate Sequenced(l: Line, h: Half) {
    l.sender == h.(pos := h.pos + StreamUsed(l.sent), next := (h.next + |l.sent|) % 0x1_0000_0000)
  }

  lemma {:induction false} StepSequenced(l: Line, h: Half, e: Event)
    requires Sequenced(l, h)
    ensures Sequenced(LineStep(l, e), h)
  {
    hide Open, Sealed;
    if e.Send? {
      assert (l.sent + [e.plain])[..|l.sent|] == l.sent;
      NextNumber(h.next + |l.sent|);
    }
  }

  lemma NextNumber(n: nat)
    ensures (n % 0x1_0000_0000 + 1) % 0x1_0000_0000 == (n + 1) % 0x1_0000_0000
  {
  }

  /**
   Over every run no byte of the key stream is used twice or skipped, and sequence numbers count the
   messages, round a 32-bit word.
   */
  lemma {:induction false} StreamUsedOnce(a: Half, b: Half, ts: seq<Turn>)
    requires a.next < WORD && b.next < WORD
    ensures var k := Run(a, b, ts);
            && k.ab.sender == a.(pos := a.pos + StreamUsed(k.ab.sent), next := (a.next + |k.ab.sent|) % 0x1_0000_0000)
            && k.ba.sender == b.(pos := b.pos + StreamUsed(k.ba.sent), next := (b.next + |k.ba.sent|) % 0x1_0000_0000)
  {
    hide LineStep;
    if |ts| > 0 {
      StreamUsedOnce(a, b, ts[..|ts| - 1]);
      var k, t := Run(a, b, ts[..|ts| - 1]), ts[|ts| - 1];
      StepSequenced(if t.fromA then k.ab else k.ba, if t.fromA then a else b, t.event);
    }
  }
}
