/** The four-plane decoder, and the code that every image has. */
module PlanarImages {
  import opened Arith
  import opened Options
  import opened Bits
  import opened RleSpec
  import opened RleRows
  import opened RleImages
  import opened PlanarSpec
  import opened Planar

  // ---- The four planes ----

  datatype FourPlanes = FourPlanes(p3: seq<byte>, p2: seq<byte>, p1: seq<byte>, p0: seq<byte>, ip: nat) {
    function Of(chan: nat): (p: seq<byte>)
      requires chan < 4
    {
      if chan == 3 then p3 else if chan == 2 then p2 else if chan == 1 then p1 else p0
    }
  }

  /** The planes in the order they are coded, last byte of the pixel first. */
  function ReadPlanes(input: seq<byte>, ip: nat, width: nat, height: nat): (r: Option<FourPlanes>) {
    match Plane(input, ip, [], height, width)
    case None => None
    case Some(a) =>
      match Plane(input, a.ip, [], height, width)
      case None => None
      case Some(b) =>
        match Plane(input, b.ip, [], height, width)
        case None => None
        case Some(c) =>
          match Plane(input, c.ip, [], height, width)
          case None => None
          case Some(d) => Some(FourPlanes(a.out, b.out, c.out, d.out, d.ip))
  }

  /** What the decoder reports: the planes must use up the input exactly. */
  function PlanarStatus(input: seq<byte>, width: nat, height: nat): (s: Status) {
    if |input| == 0 then Malformed
    else if input[0] != 0x10 then Refused
    else
      match ReadPlanes(input, 1, width, height)
      case None => Malformed
      case Some(r) => if r.ip == |input| then Good else Refused
  }

  /** A plane is left alone by what is written to another. */
  lemma {:induction false} OtherChannel(was: seq<byte>, now: seq<byte>, chan: nat, other: nat, n: nat)
    requires chan < 4 && other < 4 && chan != other && 4 * n <= |was| && SameElsewhere(was, now, chan, n)
    ensures Channel(now, other, n) == Channel(was, other, n)
  {
    forall i | 0 <= i < n ensures now[4 * i + other] == was[4 * i + other] {
      assert (4 * i + other) % 4 == other;
    }
  }

  /** Plane `chan` of the buffer is the decoded plane, put in place. */
  ghost predicate PlaneDone(buf: seq<byte>, was: seq<byte>, out: seq<byte>, chan: nat, width: nat, height: nat) {
    && chan < 4 && |buf| == |was| && 4 * (height * width) <= |was| && |out| <= height * width
    && Channel(buf, chan, height * width) == Place(Channel(was, chan, height * width), out, width, height)
  }

  /** All four planes of the buffer are the decoded ones. */
  ghost predicate ImageDone(buf: seq<byte>, was: seq<byte>, r: FourPlanes, width: nat, height: nat) {
    forall c: nat :: c < 4 ==> PlaneDone(buf, was, r.Of(c), c, width, height)
  }

  /** Writing plane `chan` completes it and keeps the planes already done and those still to come. */
  lemma {:induction false} NextPlane(was: seq<byte>, mid: seq<byte>, now: seq<byte>, out: seq<byte>, chan: nat, width: nat, height: nat)
    requires chan < 4 && 4 * (height * width) <= |was| && |mid| == |was| && Holds(now, mid, out, chan, width, height)
    requires Channel(mid, chan, height * width) == Channel(was, chan, height * width)
    ensures PlaneDone(now, was, out, chan, width, height)
    ensures forall c: nat :: c < 4 && c != chan ==> Channel(now, c, height * width) == Channel(mid, c, height * width)
  {
    forall c: nat | c < 4 && c != chan ensures Channel(now, c, height * width) == Channel(mid, c, height * width) {
      OtherChannel(mid, now, chan, c, height * width);
    }
  }

  /**
   `bitmap_decompress4`.  When the planes could be read, each of the four is in place, whatever the
   verdict on the length.
   */
  method Decompress4(output: array<byte>, width: nat, height: nat, input: seq<byte>) returns (status: Status)
    requires 4 * (height * width) <= output.Length
    modifies output
    ensures status == PlanarStatus(input, width, height)
    ensures |input| > 0 && input[0] == 0x10 && ReadPlanes(input, 1, width, height).Some? ==>
              ImageDone(output[..], old(output[..]), ReadPlanes(input, 1, width, height).value, width, height)
    ensures forall i: nat :: 4 * (height * width) <= i < output.Length ==> output[i] == old(output[i])
  {
    ghost var was := output[..];
    if |input| == 0 {
      return Malformed;
    }
    if input[0] != 0x10 {
      return Refused;
    }
    var ok, ip := true, 1;
    ghost var b0 := output[..];
    ok, ip := ProcessPlane(output, 3, width, height, input, ip);
    if !ok { return Malformed; }
    ghost var b1, p3 := output[..], Plane(input, 1, [], height, width).value;
    NextPlane(was, b0, b1, p3.out, 3, width, height);
    ok, ip := ProcessPlane(output, 2, width, height, input, ip);
    if !ok { return Malformed; }
    ghost var b2, p2 := output[..], Plane(input, p3.ip, [], height, width).value;
    NextPlane(was, b1, b2, p2.out, 2, width, height);
    ok, ip := ProcessPlane(output, 1, width, height, input, ip);
    if !ok { return Malformed; }
    ghost var b3, p1 := output[..], Plane(input, p2.ip, [], height, width).value;
    NextPlane(was, b2, b3, p1.out, 1, width, height);
    ok, ip := ProcessPlane(output, 0, width, height, input, ip);
    if !ok { return Malformed; }
    ghost var p0 := Plane(input, p1.ip, [], height, width).value;
    NextPlane(was, b3, output[..], p0.out, 0, width, height);
    status := if |input| == ip then Good else Refused;
  }

  /** Any first byte but 0x10 is refused, and an image without one is too short. */
  lemma {:induction false} FormatRefused(input: seq<byte>, width: nat, height: nat)
    ensures |input| == 0 ==> PlanarStatus(input, width, height) == Malformed
    ensures |input| > 0 && input[0] != 0x10 ==> PlanarStatus(input, width, height) == Refused
  {
  }

  // ---- Control bytes ----

  /** The pairs a control byte can carry: runs of one and two stand for long runs. */
  predicate Codable(raw: nat, run: nat) {
    (raw <= 15 && (run == 0 || 3 <= run <= 15)) || (raw == 0 && 16 <= run <= 47)
  }

  function ControlCode(raw: nat, run: nat): (code: byte)
    requires Codable(raw, run)
  {
    if run >= 16 then run % 16 * 16 + run / 16 else raw * 16 + run
  }

  lemma {:induction false} ControlOfCode(raw: nat, run: nat)
    requires Codable(raw, run)
    ensures Control(ControlCode(raw, run)) == (raw, run)
  {
    var code := ControlCode(raw, run);
    if run >= 16 {
      Nibbles(code, run % 16, run / 16);
    } else {
      Nibbles(code, raw, run);
    }
  }

  lemma {:induction false} Nibbles(code: byte, high: nat, low: nat)
    requires code == 16 * high + low && low < 16
    ensures code / 16 == high && code % 16 == low
  {
  }

  lemma {:induction false} CodeOfControl(code: byte)
    ensures var (raw, run) := Control(code); Codable(raw, run) && ControlCode(raw, run) == code
  {
    var low, high := code % 16, code / 16;
    assert code == 16 * high + low;
    if low == 1 || low == 2 {
      assert Control(code) == (0, 16 * low + high);
    } else {
      assert Control(code) == (high, low);
    }
  }

  /** Control bytes and codable pairs correspond one to one. */
  lemma {:induction false} ControlInverse(code: byte, raw: nat, run: nat)
    ensures Control(code) == (raw, run) <==> Codable(raw, run) && code == ControlCode(raw, run)
  {
    hide ControlCode, Control;
    CodeOfControl(code);
    if Codable(raw, run) {
      ControlOfCode(raw, run);
    }
  }

  // ---- Differences ----

  function CodeOfDelta(d: int): (b: byte)
    requires -128 <= d <= 127
  {
    if d >= 0 then 2 * d else -2 * d - 1
  }

  function Signed(v: byte): (d: int)
    ensures -128 <= d <= 127
  {
    if v < 128 then v else v - 256
  }

  /** Coded differences correspond one to one to the bytes modulo 256. */
  lemma {:induction false} DeltaBijective(b: byte, d: int)
    requires -128 <= d <= 127
    ensures Delta(b) == d <==> b == CodeOfDelta(d)
    ensures Signed(Delta(b) % 256) == Delta(b)
  {
  }

  function Difference(v: byte, a: byte): (d: byte) {
    (v as int - a as int) % 256
  }

  /** The coded byte that makes `v` come out below `a`. */
  lemma {:induction false} DifferenceTints(a: byte, v: byte)
    ensures Tinted(Some(a), Delta(CodeOfDelta(Signed(Difference(v, a))))) == v
  {
    DeltaBijective(CodeOfDelta(Signed(Difference(v, a))), Signed(Difference(v, a)));
    SignedDifference(a, v);
    hide Delta, CodeOfDelta, Signed, Difference;
  }

  lemma SignedDifference(a: byte, v: byte)
    ensures (a as int + Signed(Difference(v, a))) % 256 == v
  {
  }

  // ---- Segments: what an encoder may choose ----

  datatype Segment = Segment(raw: seq<byte>, run: nat)

  /** Segments that cannot be coded have no code. */
  function SegmentCode(g: Segment): (code: seq<byte>) {
    if Codable(|g.raw|, g.run) then [ControlCode(|g.raw|, g.run)] + g.raw else []
  }

  /** The bytes of raw values, one after the other. */
  function PaintRaw(s: Flow, raw: seq<byte>, width: nat): (r: Flow)
    ensures r.x == s.x + |raw| && r.ip == s.ip
    decreases |raw|
  {
    if |raw| == 0 then s else PaintRaw(Emit(s, ColourOf(raw[0], |s.out| < width), width), raw[1..], width)
  }

  function PaintSegment(s: Flow, g: Segment, width: nat): (r: Flow) {
    RunPart(PaintRaw(s, g.raw, width), g.run, width)
  }

  lemma {:induction false} RawReads(before: seq<byte>, s: Flow, raw: seq<byte>, rest: seq<byte>, width: nat)
    requires s.ip == |before| && s.x + |raw| <= width
    ensures RawPart(before + raw + rest, s, |raw|, width)
            == Some(PaintRaw(s, raw, width).(ip := |before| + |raw|))
    decreases |raw|
  {
    if |raw| > 0 {
      var input := before + raw + rest;
      var c := ColourOf(raw[0], |s.out| < width);
      assert input == (before + [raw[0]]) + raw[1..] + rest;
      RawReads(before + [raw[0]], Emit(s.(ip := s.ip + 1), c, width), raw[1..], rest, width);
      PaintIgnoresIp(Emit(s, c, width), raw[1..], s.ip + 1, width);
    }
  }

  lemma {:induction false} PaintIgnoresIp(s: Flow, raw: seq<byte>, ip: nat, width: nat)
    ensures PaintRaw(s.(ip := ip), raw, width) == PaintRaw(s, raw, width).(ip := ip)
    decreases |raw|
  {
    if |raw| > 0 {
      PaintIgnoresIp(Emit(s, ColourOf(raw[0], |s.out| < width), width), raw[1..], ip, width);
    }
  }

  /** One segment is read back as what it paints, and the line goes on behind it. */
  lemma {:induction false} SegmentReads(input: seq<byte>, before: seq<byte>, s: Flow, g: Segment, rest: seq<byte>, width: nat)
    requires Codable(|g.raw|, g.run) && s.ip == |before| && s.x < width && s.x + |g.raw| <= width
    requires input == before + SegmentCode(g) + rest
    ensures Line(input, s, width) == Line(input, PaintSegment(s.(ip := |before| + 1 + |g.raw|), g, width), width)
  {
    hide RunPart, Emit, ControlCode, Control;
    var code := ControlCode(|g.raw|, g.run);
    ControlInverse(code, |g.raw|, g.run);
    assert input[s.ip] == code;
    assert input == (before + [code]) + g.raw + rest;
    RawReads(before + [code], s.(ip := s.ip + 1), g.raw, rest, width);
    PaintIgnoresIp(s, g.raw, s.ip + 1, width);
    PaintIgnoresIp(s, g.raw, |before| + 1 + |g.raw|, width);
  }

  function SegmentsCode(gs: seq<Segment>): (code: seq<byte>) {
    if |gs| == 0 then [] else SegmentCode(gs[0]) + SegmentsCode(gs[1..])
  }

  function PaintAll(s: Flow, gs: seq<Segment>, width: nat): (r: Flow)
    decreases |gs|
  {
    if |gs| == 0 then s else PaintAll(PaintSegment(s, gs[0], width), gs[1..], width)
  }

  /** The segments can be coded and fill the rest of the line, each starting before its end. */
  predicate FillLine(gs: seq<Segment>, x: nat, width: nat)
    decreases |gs|
  {
    if |gs| == 0 then x == width
    else x < width && Codable(|gs[0].raw|, gs[0].run) && x + |gs[0].raw| + gs[0].run <= width && FillLine(gs[1..], x + |gs[0].raw| + gs[0].run, width)
  }

  lemma {:induction false} RunColumns(s: Flow, n: nat, width: nat)
    requires s.x + n <= width
    ensures RunPart(s, n, width).x == s.x + n
    decreases n
  {
    if n > 0 {
      RunColumns(Emit(s, s.colour, width), n - 1, width);
    }
  }

  lemma {:induction false} Regrouped(a: seq<byte>, b: seq<byte>, c: seq<byte>, d: seq<byte>)
    ensures a + (b + c) + d == a + b + (c + d) == (a + b) + c + d
  {
  }

  /** The first segment is read: what is left is a shorter such line. */
  lemma {:induction false} FirstSegment(input: seq<byte>, before: seq<byte>, s: Flow, gs: seq<Segment>, rest: seq<byte>, width: nat)
    returns (before': seq<byte>, t: Flow)
    requires |gs| > 0
    requires s.ip == |before| && FillLine(gs, s.x, width) && input == before + SegmentsCode(gs) + rest
    ensures t.ip == |before'| && FillLine(gs[1..], t.x, width)
    ensures input == before' + SegmentsCode(gs[1..]) + rest
    ensures Line(input, s, width) == Line(input, t, width)
    ensures PaintAll(t, gs[1..], width) == PaintAll(s, gs, width).(ip := t.ip)
  {
    hide Line, PaintRaw, RunPart, PaintAll, ControlCode;
    var g, head, tail := gs[0], SegmentCode(gs[0]), SegmentsCode(gs[1..]);
    before' := before + head;
    t := PaintSegment(s.(ip := |before'|), g, width);
    Regrouped(before, head, tail, rest);
    SegmentReads(input, before, s, g, tail + rest, width);
    SegmentPaints(s, gs, |before'|, width);
  }

  lemma {:induction false} SegmentPaints(s: Flow, gs: seq<Segment>, ip: nat, width: nat)
    requires |gs| > 0 && FillLine(gs, s.x, width)
    ensures var t := PaintSegment(s.(ip := ip), gs[0], width);
            && t.ip == ip && FillLine(gs[1..], t.x, width)
            && PaintAll(t, gs[1..], width) == PaintAll(s, gs, width).(ip := ip)
  {
    RunColumns(PaintRaw(s.(ip := ip), gs[0].raw, width), gs[0].run, width);
    SegmentIgnoresIp(s, gs[0], ip, width);
    AllIgnoreIp(PaintSegment(s, gs[0], width), gs[1..], ip, width);
  }

  lemma {:induction false} LinePaints(input: seq<byte>, before: seq<byte>, s: Flow, gs: seq<Segment>, rest: seq<byte>, width: nat)
    requires s.ip == |before| && FillLine(gs, s.x, width) && input == before + SegmentsCode(gs) + rest
    ensures Line(input, s, width) == Some(PaintAll(s, gs, width).(ip := |input| - |rest|))
    decreases |gs|
  {
    if |gs| > 0 {
      var before', t := FirstSegment(input, before, s, gs, rest, width);
      LinePaints(input, before', t, gs[1..], rest, width);
    }
  }

  lemma {:induction false} RunIgnoresIp(s: Flow, n: nat, ip: nat, width: nat)
    ensures RunPart(s.(ip := ip), n, width) == RunPart(s, n, width).(ip := ip)
    decreases n
  {
    if n > 0 && s.x < width {
      RunIgnoresIp(Emit(s, s.colour, width), n - 1, ip, width);
    }
  }

  lemma {:induction false} SegmentIgnoresIp(s: Flow, g: Segment, ip: nat, width: nat)
    ensures PaintSegment(s.(ip := ip), g, width) == PaintSegment(s, g, width).(ip := ip)
  {
    PaintIgnoresIp(s, g.raw, ip, width);
    RunIgnoresIp(PaintRaw(s, g.raw, width), g.run, ip, width);
  }

  lemma {:induction false} AllIgnoreIp(s: Flow, gs: seq<Segment>, ip: nat, width: nat)
    ensures PaintAll(s.(ip := ip), gs, width) == PaintAll(s, gs, width).(ip := ip)
    decreases |gs|
  {
    if |gs| > 0 {
      SegmentIgnoresIp(s, gs[0], ip, width);
      AllIgnoreIp(PaintSegment(s, gs[0], width), gs[1..], ip, width);
    }
  }

  // ---- What segments paint, byte by byte ----

  /** Bytes of the given colours: on the first line the colour itself, below it the byte above plus the colour. */
  function PaintColours(out: seq<byte>, cs: seq<int>, width: nat): (r: seq<byte>)
    ensures |r| == |out| + |cs| && out <= r
    decreases |cs|
  {
    if |cs| == 0 then out
    else
      var n := |out|;
      PaintColours(out + [(if width == 0 || n < width then cs[0] else out[n - width] as int + cs[0]) % 256], cs[1..], width)
  }

  /** Each byte painted is its colour, or the byte one line earlier plus its colour, modulo 256. */
  lemma {:induction false} PaintedAt(out: seq<byte>, cs: seq<int>, width: nat, j: nat)
    requires width > 0 && j < |cs|
    ensures var r, n := PaintColours(out, cs, width), |out| + j;
            r[n] == (if n < width then cs[j] else r[n - width] as int + cs[j]) % 256
    decreases |cs|
  {
    var n := |out|;
    var out' := out + [(if n < width then cs[0] else out[n - width] as int + cs[0]) % 256];
    var r := PaintColours(out', cs[1..], width);
    assert out' <= r;
    if j > 0 {
      PaintedAt(out', cs[1..], width, j - 1);
    } else {
      assert r[n] == out'[n] && (n >= width ==> r[n - width] == out'[n - width]);
    }
  }

  lemma {:induction false} PaintConcat(out: seq<byte>, a: seq<int>, b: seq<int>, width: nat)
    ensures PaintColours(PaintColours(out, a, width), b, width) == PaintColours(out, a + b, width)
    decreases |a|
  {
    if |a| == 0 {
      assert a + b == b;
    } else {
      assert (a + b)[0] == a[0] && (a + b)[1..] == a[1..] + b;
      var n := |out|;
      var out' := out + [(if width == 0 || n < width then a[0] else out[n - width] as int + a[0]) % 256];
      PaintConcat(out', a[1..], b, width);
    }
  }

  function LastOr(cs: seq<int>, last: int): (c: int) {
    if |cs| == 0 then last else cs[|cs| - 1]
  }

  /** Raw values behind `n` bytes: as they are on the first line, as differences below. */
  function RawColours(raw: seq<byte>, n: nat, width: nat): (cs: seq<int>)
    ensures |cs| == |raw|
  {
    seq(|raw|, i requires 0 <= i < |raw| => if n + i < width then raw[i] as int else Delta(raw[i]))
  }

  /** The raw values, then the last of them as often as the run says; without any, the last before them. */
  function SegmentColours(g: Segment, n: nat, last: int, width: nat): (cs: seq<int>)
    ensures |cs| == |g.raw| + g.run
  {
    var cs := RawColours(g.raw, n, width);
    cs + seq(g.run, _ => LastOr(cs, last))
  }

  function LineColours(gs: seq<Segment>, n: nat, last: int, width: nat): (cs: seq<int>) {
    if |gs| == 0 then []
    else
      var cs := SegmentColours(gs[0], n, last, width);
      cs + LineColours(gs[1..], n + |cs|, LastOr(cs, last), width)
  }

  lemma {:induction false} RawPaintsColours(s: Flow, raw: seq<byte>, width: nat)
    ensures var cs := RawColours(raw, |s.out|, width);
            PaintRaw(s, raw, width) == Flow(s.ip, PaintColours(s.out, cs, width), s.x + |raw|, LastOr(cs, s.colour))
    decreases |raw|
  {
    if |raw| > 0 {
      var cs, c := RawColours(raw, |s.out|, width), ColourOf(raw[0], |s.out| < width);
      hide Delta;
      RawPaintsColours(Emit(s, c, width), raw[1..], width);
      assert cs[1..] == RawColours(raw[1..], |s.out| + 1, width) && cs[0] == c;
    }
  }

  /**
   A run repeats its colour: on the first line the same byte, below it the line above shifted by the
   same difference.
   */
  lemma {:induction false} RunRepeats(s: Flow, n: nat, width: nat)
    requires s.x + n <= width
    ensures RunPart(s, n, width) == Flow(s.ip, PaintColours(s.out, seq(n, _ => s.colour), width), s.x + n, s.colour)
    decreases n
  {
    if n > 0 {
      var cs := seq(n, _ => s.colour);
      assert cs[1..] == seq(n - 1, _ => s.colour) && cs[0] == s.colour;
      RunRepeats(Emit(s, s.colour, width), n - 1, width);
    }
  }

  lemma {:induction false} SegmentPaintsColours(s: Flow, g: Segment, width: nat)
    requires s.x + |g.raw| + g.run <= width
    ensures var cs := SegmentColours(g, |s.out|, s.colour, width);
            PaintSegment(s, g, width) == Flow(s.ip, PaintColours(s.out, cs, width), s.x + |cs|, LastOr(cs, s.colour))
  {
    hide PaintRaw, PaintColours, RunPart, RawColours;
    RawPaintsColours(s, g.raw, width);
    var cs := RawColours(g.raw, |s.out|, width);
    RunRepeats(PaintRaw(s, g.raw, width), g.run, width);
    PaintConcat(s.out, cs, seq(g.run, _ => LastOr(cs, s.colour)), width);
  }

  lemma {:induction false} AllPaintColours(s: Flow, gs: seq<Segment>, width: nat)
    requires FillLine(gs, s.x, width)
    ensures var cs := LineColours(gs, |s.out|, s.colour, width);
            PaintAll(s, gs, width) == Flow(s.ip, PaintColours(s.out, cs, width), width, LastOr(cs, s.colour))
    decreases |gs|
  {
    hide PaintSegment, PaintColours, SegmentColours;
    if |gs| > 0 {
      var cs := SegmentColours(gs[0], |s.out|, s.colour, width);
      SegmentPaintsColours(s, gs[0], width);
      var t := PaintSegment(s, gs[0], width);
      AllPaintColours(t, gs[1..], width);
      PaintConcat(s.out, cs, LineColours(gs[1..], |t.out|, t.colour, width), width);
    }
  }

  /**
   Any way of cutting a line into codable segments, raw values and runs long or short, is read back
   as the bytes of their colours, using exactly its code.
   */
  lemma {:induction false} LineReads(input: seq<byte>, before: seq<byte>, s: Flow, gs: seq<Segment>, rest: seq<byte>, width: nat)
    requires s.ip == |before| && FillLine(gs, s.x, width) && input == before + SegmentsCode(gs) + rest
    ensures var cs := LineColours(gs, |s.out|, s.colour, width);
            Line(input, s, width) == Some(Flow(|input| - |rest|, PaintColours(s.out, cs, width), width, LastOr(cs, s.colour)))
  {
    hide Line, PaintAll, SegmentsCode, FillLine, LineColours, PaintColours, LastOr;
    LinePaints(input, before, s, gs, rest, width);
    AllPaintColours(s, gs, width);
  }

  /** Lines one after the other; no colour is carried from one to the next. */
  function PaintLines(out: seq<byte>, lines: seq<seq<Segment>>, width: nat): (r: seq<byte>)
    decreases |lines|
  {
    if |lines| == 0 then out
    else PaintLines(PaintColours(out, LineColours(lines[0], |out|, 0, width), width), lines[1..], width)
  }

  predicate FillLines(lines: seq<seq<Segment>>, width: nat) {
    forall i :: 0 <= i < |lines| ==> FillLine(lines[i], 0, width)
  }

  function LinesCode(lines: seq<seq<Segment>>): (code: seq<byte>) {
    if |lines| == 0 then [] else SegmentsCode(lines[0]) + LinesCode(lines[1..])
  }

  /** The first line of a cut plane is read: what is left is a shorter plane. */
  lemma {:induction false} FirstCutLine(input: seq<byte>, before: seq<byte>, out: seq<byte>, lines: seq<seq<Segment>>, rest: seq<byte>, width: nat)
    returns (before': seq<byte>, out': seq<byte>)
    requires |lines| > 0 && FillLines(lines, width) && input == before + LinesCode(lines) + rest
    ensures FillLines(lines[1..], width) && input == before' + LinesCode(lines[1..]) + rest
    ensures Plane(input, |before|, out, |lines|, width) == Plane(input, |before'|, out', |lines| - 1, width)
    ensures PaintLines(out, lines, width) == PaintLines(out', lines[1..], width)
  {
    hide Line, SegmentsCode, FillLine, LineColours, PaintColours, LastOr;
    var head, tail := SegmentsCode(lines[0]), LinesCode(lines[1..]);
    Regrouped(before, head, tail, rest);
    assert FillLine(lines[0], 0, width);
    LineReads(input, before, Flow(|before|, out, 0, 0), lines[0], tail + rest, width);
    before', out' := before + head, PaintColours(out, LineColours(lines[0], |out|, 0, width), width);
  }

  lemma {:induction false} LinesRead(input: seq<byte>, before: seq<byte>, out: seq<byte>, lines: seq<seq<Segment>>, rest: seq<byte>, width: nat)
    requires FillLines(lines, width) && input == before + LinesCode(lines) + rest
    ensures Plane(input, |before|, out, |lines|, width) == Some(PlaneRead(|input| - |rest|, PaintLines(out, lines, width)))
    decreases |lines|
  {
    hide *;
    if |lines| > 0 {
      var before', out' := FirstCutLine(input, before, out, lines, rest, width);
      LinesRead(input, before', out', lines[1..], rest, width);
    } else {
      NoLines(input, before, out, lines, rest, width);
    }
  }

  lemma {:induction false} NoLines(input: seq<byte>, before: seq<byte>, out: seq<byte>, lines: seq<seq<Segment>>, rest: seq<byte>, width: nat)
    requires |lines| == 0 && input == before + LinesCode(lines) + rest
    ensures Plane(input, |before|, out, |lines|, width) == Some(PlaneRead(|input| - |rest|, PaintLines(out, lines, width)))
  {
    assert input == before + rest;
  }

  lemma {:induction false} CutPlaneAt(input: seq<byte>, before: seq<byte>, lines: seq<seq<Segment>>, code: seq<byte>, rest: seq<byte>, width: nat, height: nat)
    requires |lines| == height && FillLines(lines, width) && code == LinesCode(lines) && input == before + code + rest
    ensures Plane(input, |before|, [], height, width) == Some(PlaneRead(|before| + |code|, PaintLines([], lines, width)))
  {
    hide *;
    LinesRead(input, before, [], lines, rest, width);
  }

  /**
   However the lines of four planes are cut into segments, the decoder reads from their code the planes
   that the segments paint, and accepts it if and only if nothing follows.
   */
  lemma {:induction false} EveryCutDecodes(l3: seq<seq<Segment>>, l2: seq<seq<Segment>>, l1: seq<seq<Segment>>, l0: seq<seq<Segment>>,
                                           rest: seq<byte>, width: nat, height: nat)
    requires |l3| == |l2| == |l1| == |l0| == height
    requires FillLines(l3, width) && FillLines(l2, width) && FillLines(l1, width) && FillLines(l0, width)
    ensures var code := [0x10] + LinesCode(l3) + LinesCode(l2) + LinesCode(l1) + LinesCode(l0);
            && PlanarStatus(code + rest, width, height) == (if |rest| == 0 then Good else Refused)
            && ReadPlanes(code + rest, 1, width, height)
            == Some(FourPlanes(PaintLines([], l3, width), PaintLines([], l2, width),
                               PaintLines([], l1, width), PaintLines([], l0, width), |code|))
  {
    hide Plane, LinesCode, PaintLines, FillLines, ReadPlanes;
    var c3, c2, c1, c0 := LinesCode(l3), LinesCode(l2), LinesCode(l1), LinesCode(l0);
    var code := [0x10] + c3 + c2 + c1 + c0;
    var a2, a1, a0, r3, r2, r1 := Cuts([0x10], c3, c2, c1, c0);
    var input := code + rest;
    Regrouped([0x10] + c3, [], r3, rest);
    assert input == [0x10] + c3 + (r3 + rest) == a2 + c2 + (r2 + rest) == a1 + c1 + (r1 + rest);
    CutPlaneAt(input, [0x10], l3, c3, r3 + rest, width, height);
    CutPlaneAt(input, a2, l2, c2, r2 + rest, width, height);
    CutPlaneAt(input, a1, l1, c1, r1 + rest, width, height);
    CutPlaneAt(input, a0, l0, c0, rest, width, height);
    ReadPlanesIs(input, 1, |a2|, |a1|, |a0|, |code|, PaintLines([], l3, width), PaintLines([], l2, width),
                 PaintLines([], l1, width), PaintLines([], l0, width), width, height);
    assert input[0] == 0x10;
  }

  // ---- Every image has a code ----

  /** The coded byte of position `p` of a plane: its value on the first line, a difference below. */
  function RawByte(plane: seq<byte>, p: nat, width: nat): (b: byte)
    requires p < |plane|
  {
    if p < width then plane[p] else CodeOfDelta(Signed(Difference(plane[p], plane[p - width])))
  }

  function RawBytes(plane: seq<byte>, p: nat, n: nat, width: nat): (raw: seq<byte>)
    requires p + n <= |plane|
    ensures |raw| == n
    decreases n
  {
    if n == 0 then [] else [RawByte(plane, p, width)] + RawBytes(plane, p + 1, n - 1, width)
  }

  /** Positions `p` up to `p + left` of a plane, fifteen raw values at a time. */
  function LineSegments(plane: seq<byte>, p: nat, left: nat, width: nat): (gs: seq<Segment>)
    requires p + left <= |plane|
    decreases left
  {
    if left == 0 then []
    else
      var n := if left < 15 then left else 15;
      [Segment(RawBytes(plane, p, n, width), 0)] + LineSegments(plane, p + n, left - n, width)
  }

  lemma {:induction false} RawPaints(plane: seq<byte>, s: Flow, n: nat, width: nat)
    requires |s.out| + n <= |plane| && s.out == plane[..|s.out|] && width > 0
    ensures var r := PaintRaw(s, RawBytes(plane, |s.out|, n, width), width);
            r.out == plane[..|s.out| + n] && r.x == s.x + n
    decreases n
  {
    hide Delta, CodeOfDelta, Signed, Difference;
    if n > 0 {
      var p := |s.out|;
      var b := RawByte(plane, p, width);
      if p >= width {
        DifferenceTints(plane[p - width], plane[p]);
      }
      var t := Emit(s, ColourOf(b, p < width), width);
      assert t.out == plane[..p + 1];
      RawPaints(plane, t, n - 1, width);
    }
  }

  lemma {:induction false} SegmentsPaint(plane: seq<byte>, s: Flow, left: nat, width: nat)
    requires |s.out| + left <= |plane| && s.out == plane[..|s.out|] && width > 0 && s.x + left == width
    ensures var gs := LineSegments(plane, |s.out|, left, width);
            FillLine(gs, s.x, width) && PaintAll(s, gs, width).out == plane[..|s.out| + left]
    decreases left
  {
    hide Emit, RawByte, PaintRaw, ColourOf, RawBytes;
    if left > 0 {
      var n := if left < 15 then left else 15;
      RawPaints(plane, s, n, width);
      SegmentsPaint(plane, PaintSegment(s, Segment(RawBytes(plane, |s.out|, n, width), 0), width), left - n, width);
    }
  }

  /** The next `lines` lines of a plane, from position `p` on. */
  function PlaneCode(plane: seq<byte>, p: nat, lines: nat, width: nat): (code: seq<byte>)
    decreases lines
  {
    if lines == 0 || p + width > |plane| then []
    else SegmentsCode(LineSegments(plane, p, width, width)) + PlaneCode(plane, p + width, lines - 1, width)
  }

  /** The first line is read: what is left is the plane's other lines. */
  lemma {:induction false} FirstLineReads(input: seq<byte>, before: seq<byte>, plane: seq<byte>, p: nat, lines: nat, rest: seq<byte>, width: nat)
    returns (before': seq<byte>)
    requires width > 0 && lines > 0 && p + width <= |plane|
    requires input == before + PlaneCode(plane, p, lines, width) + rest
    ensures input == before' + PlaneCode(plane, p + width, lines - 1, width) + rest
    ensures Line(input, Flow(|before|, plane[..p], 0, 0), width).Some?
    ensures var r := Line(input, Flow(|before|, plane[..p], 0, 0), width).value;
            r.ip == |before'| && r.out == plane[..p + width]
  {
    var gs := LineSegments(plane, p, width, width);
    var head, tail := SegmentsCode(gs), PlaneCode(plane, p + width, lines - 1, width);
    var s := Flow(|before|, plane[..p], 0, 0);
    before' := before + head;
    Regrouped(before, head, tail, rest);
    SegmentsPaint(plane, s, width, width);
    LinePaints(input, before, s, gs, tail + rest, width);
  }

  lemma {:induction false} PlaneReads(input: seq<byte>, before: seq<byte>, plane: seq<byte>, p: nat, lines: nat, rest: seq<byte>, width: nat)
    requires width > 0 && p + lines * width == |plane|
    requires input == before + PlaneCode(plane, p, lines, width) + rest
    ensures Plane(input, |before|, plane[..p], lines, width) == Some(PlaneRead(|input| - |rest|, plane))
    decreases lines
  {
    hide Line, SegmentsCode, LineSegments;
    if lines > 0 {
      Distribute(lines - 1, 1, width);
      MulNonNegative(lines - 1, width);
      var before' := FirstLineReads(input, before, plane, p, lines, rest, width);
      PlaneReads(input, before', plane, p + width, lines - 1, rest, width);
    } else {
      assert plane[..p] == plane;
      assert input == before + rest;
    }
  }

  function PixelByte(img: seq<byte>, chan: nat, p: nat, width: nat, height: nat): (b: byte)
    requires chan < 4 && |img| == 4 * (height * width) && width > 0 && p < height * width
  {
    PosBounds(p, width, height);
    img[4 * PosOf(p, width, height) + chan]
  }

  /** The plane of an image, in the order in which it is coded. */
  function PlaneOf(img: seq<byte>, chan: nat, width: nat, height: nat): (plane: seq<byte>)
    requires chan < 4 && |img| == 4 * (height * width)
    ensures |plane| == height * width
  {
    if width == 0 then []
    else
      seq(height * width, p requires 0 <= p < height * width => PixelByte(img, chan, p, width, height))
  }

  function ImageCode(img: seq<byte>, width: nat, height: nat): (code: seq<byte>)
    requires |img| == 4 * (height * width)
  {
    [0x10]
    + PlaneCode(PlaneOf(img, 3, width, height), 0, height, width)
    + PlaneCode(PlaneOf(img, 2, width, height), 0, height, width)
    + PlaneCode(PlaneOf(img, 1, width, height), 0, height, width)
    + PlaneCode(PlaneOf(img, 0, width, height), 0, height, width)
  }

  lemma {:induction false} WholePlaneReads(input: seq<byte>, before: seq<byte>, plane: seq<byte>, rest: seq<byte>, width: nat, height: nat)
    requires |plane| == height * width && input == before + PlaneCode(plane, 0, height, width) + rest
    ensures Plane(input, |before|, [], height, width) == Some(PlaneRead(|input| - |rest|, plane))
  {
    if width == 0 {
      NoColumns(plane, height);
      NoBytes(input, |before|, height);
    } else {
      assert plane[..0] == [];
      PlaneReads(input, before, plane, 0, height, rest, width);
    }
  }

  /** Lines without columns have no code, and reading them takes none. */
  lemma {:induction false} NoColumns(plane: seq<byte>, lines: nat)
    requires |plane| == 0
    ensures PlaneCode(plane, 0, lines, 0) == []
    decreases lines
  {
    if lines > 0 {
      NoColumns(plane, lines - 1);
    }
  }

  lemma {:induction false} NoBytes(input: seq<byte>, ip: nat, lines: nat)
    ensures Plane(input, ip, [], lines, 0) == Some(PlaneRead(ip, []))
    decreases lines
  {
    if lines > 0 {
      NoBytes(input, ip, lines - 1);
    }
  }

  lemma {:induction false} ImageCodeReads(img: seq<byte>, width: nat, height: nat)
    requires |img| == 4 * (height * width)
    ensures var code := ImageCode(img, width, height);
            ReadPlanes(code, 1, width, height)
            == Some(FourPlanes(PlaneOf(img, 3, width, height), PlaneOf(img, 2, width, height),
                               PlaneOf(img, 1, width, height), PlaneOf(img, 0, width, height), |code|))
  {
    FourPlanesRead(PlaneOf(img, 3, width, height), PlaneOf(img, 2, width, height),
                   PlaneOf(img, 1, width, height), PlaneOf(img, 0, width, height), width, height);
  }

  lemma {:induction false} FourPlanesRead(q3: seq<byte>, q2: seq<byte>, q1: seq<byte>, q0: seq<byte>, width: nat, height: nat)
    requires |q3| == |q2| == |q1| == |q0| == height * width
    ensures var code := [0x10] + PlaneCode(q3, 0, height, width) + PlaneCode(q2, 0, height, width)
                        + PlaneCode(q1, 0, height, width) + PlaneCode(q0, 0, height, width);
            ReadPlanes(code, 1, width, height) == Some(FourPlanes(q3, q2, q1, q0, |code|))
  {
    hide *;
    var c3, c2, c1, c0 := PlaneCode(q3, 0, height, width), PlaneCode(q2, 0, height, width),
                          PlaneCode(q1, 0, height, width), PlaneCode(q0, 0, height, width);
    var code := [0x10] + c3 + c2 + c1 + c0;
    var a2, a1, a0, r3, r2, r1 := Cuts([0x10], c3, c2, c1, c0);
    PlaneAt(code, [0x10], q3, c3, r3, width, height);
    PlaneAt(code, a2, q2, c2, r2, width, height);
    PlaneAt(code, a1, q1, c1, r1, width, height);
    PlaneAt(code, a0, q0, c0, [], width, height);
    ReadPlanesIs(code, 1, |a2|, |a1|, |a0|, |code|, q3, q2, q1, q0, width, height);
  }

  lemma {:induction false} PlaneAt(input: seq<byte>, before: seq<byte>, plane: seq<byte>, code: seq<byte>, rest: seq<byte>, width: nat, height: nat)
    requires |plane| == height * width && code == PlaneCode(plane, 0, height, width)
    requires input == before + code + rest
    ensures Plane(input, |before|, [], height, width) == Some(PlaneRead(|before| + |code|, plane))
    ensures |input| == |before| + |code| + |rest|
  {
    hide *;
    WholePlaneReads(input, before, plane, rest, width, height);
  }

  lemma {:induction false} ReadPlanesIs(input: seq<byte>, i3: nat, i2: nat, i1: nat, i0: nat, end: nat,
                                        q3: seq<byte>, q2: seq<byte>, q1: seq<byte>, q0: seq<byte>, width: nat, height: nat)
    requires Plane(input, i3, [], height, width) == Some(PlaneRead(i2, q3))
    requires Plane(input, i2, [], height, width) == Some(PlaneRead(i1, q2))
    requires Plane(input, i1, [], height, width) == Some(PlaneRead(i0, q1))
    requires Plane(input, i0, [], height, width) == Some(PlaneRead(end, q0))
    ensures ReadPlanes(input, i3, width, height) == Some(FourPlanes(q3, q2, q1, q0, end))
  {
  }

  lemma {:induction false} Cuts(a: seq<byte>, b: seq<byte>, c: seq<byte>, d: seq<byte>, e: seq<byte>)
    returns (ab: seq<byte>, abc: seq<byte>, abcd: seq<byte>, cde: seq<byte>, de: seq<byte>, e': seq<byte>)
    ensures var all := a + b + c + d + e;
            all == a + b + cde == ab + c + de == abc + d + e' == abcd + e + []
    ensures |ab| == |a| + |b| && |abc| == |ab| + |c| && |abcd| == |abc| + |d|
  {
    ab, abc, abcd, cde, de, e' := a + b, a + b + c, a + b + c + d, c + d + e, d + e, e;
  }

  /** A plane put in place over any buffer is the image's plane: every position is covered. */
  lemma {:induction false} PlaneRestored(was: seq<byte>, img: seq<byte>, chan: nat, width: nat, height: nat)
    requires chan < 4 && |img| == |was| == 4 * (height * width)
    ensures Place(Channel(was, chan, height * width), PlaneOf(img, chan, width, height), width, height)
            == Channel(img, chan, height * width)
  {
    var n, plane := height * width, PlaneOf(img, chan, width, height);
    var placed := Place(Channel(was, chan, n), plane, width, height);
    forall i: nat | i < n && width > 0 ensures placed[i] == Channel(img, chan, n)[i] {
      var p := PositionsCovered(i, width, height);
      PlacedAt(Channel(was, chan, n), plane, p, width, height);
    }
  }

  /** An image is its four planes. */
  lemma {:induction false} FromChannels(a: seq<byte>, b: seq<byte>, n: nat)
    requires |a| == |b| == 4 * n && forall c: nat :: c < 4 ==> Channel(a, c, n) == Channel(b, c, n)
    ensures a == b
  {
    forall i | 0 <= i < |a| ensures a[i] == b[i] {
      var c := i % 4;
      assert i == 4 * (i / 4) + c;
      assert Channel(a, c, n)[i / 4] == Channel(b, c, n)[i / 4];
    }
  }

  /**
   Every four-byte-per-pixel image has a code that the decoder accepts, using up the input exactly,
   and that puts exactly that image into any buffer.
   */
  lemma {:induction false} EveryImageHasAPlanarCode(img: seq<byte>, was: seq<byte>, now: seq<byte>, width: nat, height: nat)
    requires |img| == |was| == |now| == 4 * (height * width)
    requires var r := ReadPlanes(ImageCode(img, width, height), 1, width, height);
             r.Some? ==> ImageDone(now, was, r.value, width, height)
    ensures PlanarStatus(ImageCode(img, width, height), width, height) == Good
    ensures now == img
  {
    hide Plane, PlaneCode, Place, PosOf;
    ImageCodeReads(img, width, height);
    var r := ReadPlanes(ImageCode(img, width, height), 1, width, height).value;
    forall c: nat | c < 4 ensures Channel(now, c, height * width) == Channel(img, c, height * width) {
      assert PlaneDone(now, was, r.Of(c), c, width, height);
      PlaneRestored(was, img, c, width, height);
    }
    FromChannels(now, img, height * width);
  }
}
