/** Lists of orders: what each of them paints, how it is coded, and that decoding the code paints it. */
module RleOrders {
  import opened Arith
  import opened Options
  import opened Bits
  import opened RleSpec
  import opened RleImages

  // ---- What orders paint ----

  /** One pixel of an order: as above, mixed with the one above, or given. */
  datatype Tint = Keep | Blend | Put(pixel: Pixel)

  /** With nothing above, a kept pixel is black and a blended one is the mix alone. */
  function TintPixel(t: Tint, above: Option<Pixel>, mix: Pixel, bpp: nat): (p: Pixel) {
    match t
    case Keep => if above.Some? then above.value else seq(bpp, _ => 0)
    case Blend =>
      if above.None? then mix
      else
        var a := above.value;
        seq(if |a| < |mix| then |a| else |mix|, i requires 0 <= i < |a| && i < |mix| => Words.Xor(a[i], mix[i]))
    case Put(c) => c
  }

  /** Every bit of a blended pixel is set where exactly one of the pixel above and the mix has it. */
  lemma {:induction false} BlendBits(a: Pixel, mix: Pixel, bpp: nat, i: nat, k: nat)
    requires i < |a| == |mix| && k < 8
    ensures var p := TintPixel(Blend, Some(a), mix, bpp);
            |p| == |mix| && (Words.Bit(p[i], k) <==> Words.Bit(a[i], k) != Words.Bit(mix[i], k))
  {
    hide Words.Bit, Words.Xor;
    Words.XorBit(a[i], mix[i], k);
  }

  /** What the decoder writes for a kept and for a blended pixel. */
  lemma {:induction false} TintsWritten(above: Option<Pixel>, mix: Pixel, bpp: nat)
    ensures Above(above, bpp) == TintPixel(Keep, above, mix, bpp)
    ensures Mixed(above, mix) == TintPixel(Blend, above, mix, bpp)
  {
    hide Words.Xor;
    if above.Some? {
      var a := above.value;
      var x, p := Xor(a, mix), TintPixel(Blend, above, mix, bpp);
      assert |x| == |p|;
      forall i | 0 <= i < |x| ensures x[i] == p[i] {
        XorBytes(a, mix, i);
      }
    }
  }

  function Paint(out: seq<Pixel>, tints: seq<Tint>, mix: Pixel, width: nat, bpp: nat): (r: seq<Pixel>)
    ensures |r| == |out| + |tints|
    decreases |tints|
  {
    if |tints| == 0 then out
    else Paint(out + [TintPixel(tints[0], AboveOf(out, width), mix, bpp)], tints[1..], mix, width, bpp)
  }

  datatype Order =
    | Fill(n: nat)
    | Mix(n: nat)
    | SetMix(mix: Pixel, n: nat)
    | Masked(bits: seq<bool>)
    | SetMixMasked(mix: Pixel, bits: seq<bool>)
    | Special(alternating: bool)
    | Colour(n: nat, c: Pixel)
    | Copy(pixels: seq<Pixel>)
    | Bicolour(n: nat, c1: Pixel, c2: Pixel)
    | White
    | Black

  predicate WellFormed(o: Order, bpp: nat) {
    && 1 <= CountOf(o) < 0x1_0000
    && match o
       case SetMix(mix, _) => |mix| == bpp
       case SetMixMasked(mix, _) => |mix| == bpp
       case Colour(_, c) => |c| == bpp
       case Copy(pixels) => WellSized(pixels, bpp)
       case Bicolour(_, c1, c2) => |c1| == bpp && |c2| == bpp
       case _ => true
  }

  function Repeated(t: Tint, n: nat): (ts: seq<Tint>)
    ensures |ts| == n
  {
    seq(n, _ => t)
  }

  function BitTints(bits: seq<bool>): (ts: seq<Tint>)
    ensures |ts| == |bits|
  {
    seq(|bits|, i requires 0 <= i < |bits| => if bits[i] then Blend else Keep)
  }

  /** The fixed masks 3 and 5. */
  function SpecialBits(alternating: bool): (bits: seq<bool>)
    ensures |bits| == 8
  {
    [true, !alternating, alternating, false, false, false, false, false]
  }

  /** A fill that follows a fill, other than at the start of the second line, sets itself off by a blended pixel. */
  function Tints(o: Order, setOff: bool, bpp: nat): (ts: seq<Tint>)
    requires WellFormed(o, bpp)
  {
    match o
    case Fill(n) => [if setOff then Blend else Keep] + Repeated(Keep, n - 1)
    case Mix(n) => Repeated(Blend, n)
    case SetMix(_, n) => Repeated(Blend, n)
    case Masked(bits) => BitTints(bits)
    case SetMixMasked(_, bits) => BitTints(bits)
    case Special(alternating) => BitTints(SpecialBits(alternating))
    case Colour(n, c) => Repeated(Put(c), n)
    case Copy(pixels) => seq(|pixels|, i requires 0 <= i < |pixels| => Put(pixels[i]))
    case Bicolour(n, c1, c2) => seq(2 * n, i => if i % 2 == 0 then Put(c1) else Put(c2))
    case White => [Put(seq(bpp, _ => 0xff))]
    case Black => [Put(seq(bpp, _ => 0))]
  }

  function MixAfter(o: Order, mix: Pixel): (m: Pixel) {
    if o.SetMix? || o.SetMixMasked? then o.mix else mix
  }

  predicate SetOff(o: Order, afterFill: bool, written: nat, width: nat) {
    o.Fill? && afterFill && written != 0 && written != width
  }

  predicate AllWellFormed(os: seq<Order>, bpp: nat) {
    forall i :: 0 <= i < |os| ==> WellFormed(os[i], bpp)
  }

  /** What a list of orders paints behind `out`. */
  function PaintAll(os: seq<Order>, afterFill: bool, mix: Pixel, out: seq<Pixel>, width: nat, bpp: nat): (r: seq<Pixel>)
    requires AllWellFormed(os, bpp)
    ensures |r| >= |out|
    decreases |os|
  {
    if |os| == 0 then out
    else
      var o, m := os[0], MixAfter(os[0], mix);
      PaintAll(os[1..], o.Fill?, m, Paint(out, Tints(o, SetOff(o, afterFill, |out|, width), bpp), m, width, bpp), width, bpp)
  }

  // ---- How orders are coded ----

  function OpOf(o: Order): (op: int) {
    match o
    case Fill(_) => FILL
    case Mix(_) => MIX
    case SetMix(_, _) => SET_MIX_MIX
    case Masked(_) => FILL_OR_MIX
    case SetMixMasked(_, _) => SET_MIX_FILL_OR_MIX
    case Special(alternating) => if alternating then FILL_OR_MIX_2 else FILL_OR_MIX_1
    case Colour(_, _) => COLOUR
    case Copy(_) => COPY
    case Bicolour(_, _, _) => BICOLOUR
    case White => WHITE
    case Black => BLACK
  }

  /** The count in the header. */
  function CountOf(o: Order): (n: nat) {
    match o
    case Fill(n) => n
    case Mix(n) => n
    case SetMix(_, n) => n
    case Masked(bits) => |bits|
    case SetMixMasked(_, bits) => |bits|
    case Special(_) => 8
    case Colour(n, _) => n
    case Copy(pixels) => |pixels|
    case Bicolour(n, _, _) => n
    case White => 1
    case Black => 1
  }

  function Head(o: Order): (code: seq<byte>)
    requires 1 <= CountOf(o) < 0x1_0000
  {
    if OpOf(o) < 9 then HeaderCode(OpOf(o), CountOf(o)) else [0xf0 + OpOf(o)]
  }

  /** The pixels in front of the run. */
  function Operands(o: Order): (code: seq<byte>) {
    match o
    case SetMix(mix, _) => mix
    case SetMixMasked(mix, _) => mix
    case Colour(_, c) => c
    case Bicolour(_, c1, c2) => c1 + c2
    case _ => []
  }

  /** Bit `k` of a byte. */
  function Bit(k: nat): (m: bv8)
    requires k < 8
  {
    if k == 0 then 1 else if k == 1 then 2 else if k == 2 then 4 else if k == 3 then 8
    else if k == 4 then 16 else if k == 5 then 32 else if k == 6 then 64 else 128
  }

  function BitIf(bits: seq<bool>, k: nat): (m: bv8)
    requires k < 8
  {
    if k < |bits| && bits[k] then Bit(k) else 0
  }

  /** A mask byte: the first pixel's bit is the lowest. */
  function MaskOf(bits: seq<bool>): (m: bv8) {
    BitIf(bits, 0) | BitIf(bits, 1) | BitIf(bits, 2) | BitIf(bits, 3)
    | BitIf(bits, 4) | BitIf(bits, 5) | BitIf(bits, 6) | BitIf(bits, 7)
  }

  /** The `i`-th eight of the bits, or what is left of them. */
  function Eight(bits: seq<bool>, i: nat): (c: seq<bool>)
    requires 8 * i <= |bits|
  {
    if 8 * i + 8 <= |bits| then bits[8 * i..8 * i + 8] else bits[8 * i..]
  }

  function MaskBytes(bits: seq<bool>): (code: seq<byte>)
    ensures |code| == (|bits| + 7) / 8
  {
    seq((|bits| + 7) / 8, i requires 0 <= i < (|bits| + 7) / 8 => MaskOf(Eight(bits, i)) as byte)
  }

  function Flat(pixels: seq<Pixel>): (code: seq<byte>) {
    if |pixels| == 0 then [] else pixels[0] + Flat(pixels[1..])
  }

  /** What the run itself reads. */
  function Data(o: Order): (code: seq<byte>) {
    match o
    case Masked(bits) => MaskBytes(bits)
    case SetMixMasked(_, bits) => MaskBytes(bits)
    case Copy(pixels) => Flat(pixels)
    case _ => []
  }

  function OrderCode(o: Order): (code: seq<byte>)
    requires 1 <= CountOf(o) < 0x1_0000
  {
    Head(o) + Operands(o) + Data(o)
  }

  function CodeAll(os: seq<Order>, bpp: nat): (code: seq<byte>)
    requires AllWellFormed(os, bpp)
  {
    if |os| == 0 then [] else OrderCode(os[0]) + CodeAll(os[1..], bpp)
  }

  // ---- Masks ----

  lemma NextBit(k: nat)
    requires k < 8
    ensures NextMask(Bit(k)) == (if k < 7 then Bit(k + 1) else 0) && NextMask(0) == 0 && Bit(k) != 0
  {
  }

  lemma MaskBit(bits: seq<bool>, k: nat)
    requires k < 8
    ensures MaskOf(bits) & Bit(k) != 0 <==> k < |bits| && bits[k]
  {
  }

  lemma MaskBack(m: bv8)
    ensures 0 <= m as int < 256 && MaskByte(m as byte) == m
  {
  }

  // ---- A run paints its tints ----

  /** From `pens[j]` the run draws `tints[j]` and goes on with `pens[j + 1]`. */
  ghost predicate Inks(op: int, pens: seq<Pen>, tints: seq<Tint>, j: nat, input: seq<byte>, bpp: nat)
    requires |pens| == |tints| + 1 && j < |tints|
  {
    && pens[j].count > 0
    && forall above :: Ink(op, pens[j], above, input, bpp)
                       == Some(Inked(TintPixel(tints[j], above, pens[j].mix, bpp), pens[j + 1]))
  }

  /** A run whose pixels fit ends well with pen `q`; one that does not is refused. */
  predicate Ran(d: Drawn, q: Pen, painted: seq<Pixel>, total: nat) {
    if |painted| <= total then d == Drawn(Good, q, painted) else d.status == Refused
  }

  lemma {:induction false} RunPaints(op: int, pens: seq<Pen>, tints: seq<Tint>, mix: Pixel, out: seq<Pixel>, input: seq<byte>,
                                     width: nat, total: nat, bpp: nat)
    requires |pens| == |tints| + 1 && Draws(op) && |out| <= total
    requires forall j :: 0 <= j < |tints| ==> pens[j].mix == mix && Inks(op, pens, tints, j, input, bpp)
    requires pens[|tints|].count == 0
    ensures Ran(DrawRun(op, pens[0], out, input, width, total, bpp), pens[|tints|], Paint(out, tints, mix, width, bpp), total)
    decreases |tints|
  {
    hide Ink, TintPixel, AboveOf, Draws;
    if |tints| > 0 {
      assert Inks(op, pens, tints, 0, input, bpp);
      var c := TintPixel(tints[0], AboveOf(out, width), mix, bpp);
      assert Ink(op, pens[0], AboveOf(out, width), input, bpp) == Some(Inked(c, pens[1]));
      forall j | 0 <= j < |tints[1..]| ensures pens[1..][j].mix == mix && Inks(op, pens[1..], tints[1..], j, input, bpp) {
        assert Inks(op, pens, tints, j + 1, input, bpp);
      }
      if |out| < total {
        RunPaints(op, pens[1..], tints[1..], mix, out + [c], input, width, total, bpp);
      }
    }
  }

  /** The pen after `j` pixels of a run that reads nothing. */
  function CountedPen(p: Pen, n: nat, j: nat): (q: Pen)
    requires j <= n
  {
    p.(count := n - j, insertMix := p.insertMix && j == 0)
  }

  function CopyPen(p: Pen, n: nat, j: nat, bpp: nat): (q: Pen)
    requires j <= n
  {
    p.(count := n - j, ip := p.ip + j * bpp)
  }

  function BicolourPen(p: Pen, n: nat, j: nat): (q: Pen)
    requires j <= 2 * n
  {
    p.(count := n - j / 2, bicolour := j % 2 == 1)
  }

  function MaskedPen(p: Pen, bits: seq<bool>, j: nat): (q: Pen)
    requires j <= |bits|
  {
    if j == 0 then p
    else p.(count := |bits| - j, ip := p.ip + (j + 7) / 8, mask := MaskOf(Eight(bits, (j - 1) / 8)), mixMask := Bit((j - 1) % 8))
  }

  function SpecialPen(p: Pen, j: nat): (q: Pen)
    requires j <= 8
  {
    p.(count := 8 - j, mixMask := if j == 0 then 0 else Bit(j - 1))
  }

  /** The `j`-th pixel of a run that reads nothing and keeps its colour. */
  predicate PlainTint(op: int, p: Pen, t: Tint, j: nat, bpp: nat) {
    match t
    case Keep => op == FILL && !(p.insertMix && j == 0)
    case Blend => (op == FILL && p.insertMix && j == 0) || op == MIX
    case Put(c) => (op == COLOUR && c == p.colour2) || (op == WHITE && c == seq(bpp, _ => 0xff)) || (op == BLACK && c == seq(bpp, _ => 0))
  }

  lemma PlainInks(op: int, p: Pen, tints: seq<Tint>, j: nat, pens: seq<Pen>, input: seq<byte>, bpp: nat)
    requires |pens| == |tints| + 1 && j < |tints| && p.count == |tints|
    requires pens[j] == CountedPen(p, |tints|, j) && pens[j + 1] == CountedPen(p, |tints|, j + 1)
    requires PlainTint(op, p, tints[j], j, bpp)
    requires op == FILL || !p.insertMix
    ensures Inks(op, pens, tints, j, input, bpp)
  {
    forall above
      ensures Ink(op, pens[j], above, input, bpp) == Some(Inked(TintPixel(tints[j], above, p.mix, bpp), pens[j + 1]))
    {
      PlainInk(op, p, |tints|, tints[j], j, above, input, bpp);
    }
    hide Ink, TintPixel, PlainTint;
    InksOf(op, pens, tints, j, input, bpp);
  }

  lemma PlainInk(op: int, p: Pen, n: nat, t: Tint, j: nat, above: Option<Pixel>, input: seq<byte>, bpp: nat)
    requires j < n == p.count && PlainTint(op, p, t, j, bpp) && (op == FILL || !p.insertMix)
    ensures Ink(op, CountedPen(p, n, j), above, input, bpp)
         == Some(Inked(TintPixel(t, above, p.mix, bpp), CountedPen(p, n, j + 1)))
  {
    TintsWritten(above, p.mix, bpp);
    SolidIs(bpp);
    hide Mixed, Above, NextMaskBit, ReadPixel, TintPixel, Solid;
    assert t.Put? ==> TintPixel(t, above, p.mix, bpp) == t.pixel by { PutIs(t, above, p.mix, bpp); }
  }

  lemma SolidIs(bpp: nat)
    ensures Solid(0xff, bpp) == seq(bpp, _ => 0xff) && Solid(0, bpp) == seq(bpp, _ => 0)
  {
  }

  lemma PutIs(t: Tint, above: Option<Pixel>, mix: Pixel, bpp: nat)
    ensures t.Put? ==> TintPixel(t, above, mix, bpp) == t.pixel
  {
  }

  lemma BicolourInks(p: Pen, n: nat, tints: seq<Tint>, j: nat, pens: seq<Pen>, input: seq<byte>, bpp: nat)
    requires |pens| == |tints| + 1 && j < |tints| == 2 * n && p.count == n
    requires pens[j] == BicolourPen(p, n, j) && pens[j + 1] == BicolourPen(p, n, j + 1)
    requires tints[j] == if j % 2 == 0 then Put(p.colour1) else Put(p.colour2)
    ensures Inks(BICOLOUR, pens, tints, j, input, bpp)
  {
  }

  lemma CopyInks(p: Pen, pixels: seq<Pixel>, tints: seq<Tint>, j: nat, pens: seq<Pen>, input: seq<byte>, bpp: nat)
    requires |pens| == |tints| + 1 && j < |tints| == |pixels| && p.count == |tints|
    requires pens[j] == CopyPen(p, |tints|, j, bpp) && pens[j + 1] == CopyPen(p, |tints|, j + 1, bpp)
    requires tints[j] == Put(pixels[j]) && WellSized(pixels, bpp)
    requires p.ip + |Flat(pixels)| <= |input| && input[p.ip..p.ip + |Flat(pixels)|] == Flat(pixels)
    ensures Inks(COPY, pens, tints, j, input, bpp)
  {
    FlatIn(input, p.ip, pixels, j, bpp);
    Distribute(j, 1, bpp);
    hide Flat, WellSized;
    assert ReadPixel(input, pens[j].ip, bpp) == Some(pixels[j]);
    hide ReadPixel;
  }

  lemma FlatIn(input: seq<byte>, ip: nat, pixels: seq<Pixel>, j: nat, bpp: nat)
    requires j < |pixels| && WellSized(pixels, bpp)
    requires ip + |Flat(pixels)| <= |input| && input[ip..ip + |Flat(pixels)|] == Flat(pixels)
    ensures 0 <= j * bpp && ip + j * bpp + bpp <= |input| && input[ip + j * bpp..ip + j * bpp + bpp] == pixels[j]
  {
    FlatAt(pixels, j, bpp);
    hide Flat;
    SliceIn(input, ip, |Flat(pixels)|, j * bpp, bpp);
  }

  lemma SliceIn(s: seq<byte>, a: nat, n: nat, t: nat, k: nat)
    requires a + n <= |s| && t + k <= n
    ensures s[a..a + n][t..t + k] == s[a + t..a + t + k]
  {
    var x, y := s[a..a + n][t..t + k], s[a + t..a + t + k];
    assert |x| == |y| && forall i :: 0 <= i < k ==> x[i] == y[i];
  }

  lemma {:induction false} FlatAt(pixels: seq<Pixel>, j: nat, bpp: nat)
    requires WellSized(pixels, bpp) && j < |pixels|
    ensures |Flat(pixels)| == |pixels| * bpp && 0 <= j * bpp && j * bpp + bpp <= |Flat(pixels)|
    ensures Flat(pixels)[j * bpp..j * bpp + bpp] == pixels[j]
  {
    FlatSize(pixels, bpp);
    MulNonNegative(j, bpp);
    Distribute(j, |pixels| - j, bpp);
    MulAtLeast(|pixels| - j, bpp);
    if j > 0 {
      FlatAt(pixels[1..], j - 1, bpp);
      Distribute(j - 1, 1, bpp);
      MulNonNegative(j - 1, bpp);
      var t := (j - 1) * bpp;
      assert (pixels[0] + Flat(pixels[1..]))[bpp + t..bpp + t + bpp] == Flat(pixels[1..])[t..t + bpp];
    }
  }

  lemma {:induction false} FlatSize(pixels: seq<Pixel>, bpp: nat)
    requires WellSized(pixels, bpp)
    ensures |Flat(pixels)| == |pixels| * bpp
  {
    if |pixels| > 0 {
      FlatSize(pixels[1..], bpp);
      Distribute(1, |pixels| - 1, bpp);
    }
  }

  /** A masked pixel, once the next mask bit is known. */
  lemma MaskInk(pen: Pen, q: Pen, hit: bool, input: seq<byte>, bpp: nat)
    requires pen.count > 0 && NextMaskBit(input, pen) == Some(q) && q.mix == pen.mix && (MaskHit(q) <==> hit)
    ensures forall above :: Ink(FILL_OR_MIX, pen, above, input, bpp)
                            == Some(Inked(TintPixel(if hit then Blend else Keep, above, pen.mix, bpp), q.(count := q.count - 1)))
  {
    hide NextMaskBit, MaskHit, Above, Mixed, TintPixel;
    forall above
      ensures Ink(FILL_OR_MIX, pen, above, input, bpp)
              == Some(Inked(TintPixel(if hit then Blend else Keep, above, pen.mix, bpp), q.(count := q.count - 1)))
    {
      TintsWritten(above, pen.mix, bpp);
    }
  }

  lemma MaskedInks(p: Pen, bits: seq<bool>, tints: seq<Tint>, j: nat, pens: seq<Pen>, input: seq<byte>, bpp: nat)
    requires |pens| == |tints| + 1 && j < |tints| == |bits| && p.count == |bits| && p.mixMask == 0 && p.fomMask == 0
    requires pens[j] == MaskedPen(p, bits, j) && pens[j + 1] == MaskedPen(p, bits, j + 1)
    requires tints[j] == if bits[j] then Blend else Keep
    requires NextMaskBit(input, pens[j]) == Some(pens[j + 1].(count := |bits| - j))
    requires MaskHit(pens[j + 1].(count := |bits| - j)) <==> bits[j]
    ensures Inks(FILL_OR_MIX, pens, tints, j, input, bpp)
  {
    hide *;
    MaskedPenIs(p, bits, j);
    MaskedPenIs(p, bits, j + 1);
    MaskInk(pens[j], pens[j + 1].(count := |bits| - j), bits[j], input, bpp);
    InksOf(FILL_OR_MIX, pens, tints, j, input, bpp);
  }

  lemma MaskedNext(p: Pen, bits: seq<bool>, j: nat, input: seq<byte>)
    requires j < |bits| == p.count && p.mixMask == 0 && p.fomMask == 0
    requires p.ip + |MaskBytes(bits)| <= |input| && input[p.ip..p.ip + |MaskBytes(bits)|] == MaskBytes(bits)
    ensures var q := MaskedPen(p, bits, j + 1).(count := |bits| - j);
            NextMaskBit(input, MaskedPen(p, bits, j)) == Some(q) && (MaskHit(q) <==> bits[j])
  {
    MaskedStep(p, bits, j, input);
    hide *;
    MaskedPenMask(p, bits, j);
    EightHit(MaskedPen(p, bits, j + 1).(count := |bits| - j), bits, j);
  }

  lemma InksOf(op: int, pens: seq<Pen>, tints: seq<Tint>, j: nat, input: seq<byte>, bpp: nat)
    requires |pens| == |tints| + 1 && j < |tints| && pens[j].count > 0
    requires forall above :: Ink(op, pens[j], above, input, bpp)
                             == Some(Inked(TintPixel(tints[j], above, pens[j].mix, bpp), pens[j + 1]))
    ensures Inks(op, pens, tints, j, input, bpp)
  {
    hide Ink, TintPixel;
  }

  lemma MaskedPenIs(p: Pen, bits: seq<bool>, j: nat)
    requires j <= |bits| == p.count
    ensures MaskedPen(p, bits, j).mix == p.mix && MaskedPen(p, bits, j).count == |bits| - j
  {
    hide MaskOf, Eight, Bit;
  }

  lemma EightHit(q: Pen, bits: seq<bool>, j: nat)
    requires j < |bits| && 8 * (j / 8) <= |bits| && q.mask == MaskOf(Eight(bits, j / 8)) && q.mixMask == Bit(j % 8)
    ensures MaskHit(q) <==> bits[j]
  {
    EightAt(bits, j);
    hide MaskOf, Bit, Eight;
    MaskBit(Eight(bits, j / 8), j % 8);
  }

  lemma MaskedPenMask(p: Pen, bits: seq<bool>, j: nat)
    requires j < |bits|
    ensures 8 * (j / 8) <= |bits|
    ensures MaskedPen(p, bits, j + 1).mask == MaskOf(Eight(bits, j / 8))
    ensures MaskedPen(p, bits, j + 1).mixMask == Bit(j % 8)
  {
    hide MaskOf, Bit, Eight;
  }

  lemma EightAt(bits: seq<bool>, j: nat)
    requires j < |bits|
    ensures 8 * (j / 8) <= |bits| && j % 8 < |Eight(bits, j / 8)| && Eight(bits, j / 8)[j % 8] == bits[j]
  {
  }

  lemma MaskedStep(p: Pen, bits: seq<bool>, j: nat, input: seq<byte>)
    requires j < |bits| == p.count && p.mixMask == 0 && p.fomMask == 0
    requires p.ip + |MaskBytes(bits)| <= |input| && input[p.ip..p.ip + |MaskBytes(bits)|] == MaskBytes(bits)
    ensures NextMaskBit(input, MaskedPen(p, bits, j)) == Some(MaskedPen(p, bits, j + 1).(count := |bits| - j))
  {
    hide MaskOf, Eight, Bit, NextMask, MaskByte;
    NextBit(if j > 0 then (j - 1) % 8 else 7);
    if j % 8 == 0 {
      var i := j / 8;
      assert input[p.ip + i] == input[p.ip..p.ip + |MaskBytes(bits)|][i];
      MaskBack(MaskOf(Eight(bits, i)));
      assert (j + 7) / 8 == i;
      FirstBit();
    } else {
      assert (j - 1) / 8 == j / 8 && (j - 1) % 8 + 1 == j % 8 && (j + 7) / 8 == (j + 8) / 8;
      NextBit(j % 8);
    }
  }

  lemma FirstBit()
    ensures Bit(0) == 1
  {
  }

  lemma SpecialInks(p: Pen, alternating: bool, tints: seq<Tint>, j: nat, pens: seq<Pen>, input: seq<byte>, bpp: nat)
    requires |pens| == 9 && |tints| == 8 && j < 8 && p.count == 8 && p.mixMask == 0
    requires p.mask == p.fomMask == if alternating then 5 else 3
    requires pens[j] == SpecialPen(p, j) && pens[j + 1] == SpecialPen(p, j + 1)
    requires tints[j] == if SpecialBits(alternating)[j] then Blend else Keep
    ensures Inks(FILL_OR_MIX, pens, tints, j, input, bpp)
  {
    var q := pens[j + 1].(count := 8 - j);
    SpecialStep(p, alternating, j, input);
    hide *;
    SpecialPenIs(p, j);
    SpecialPenIs(p, j + 1);
    MaskInk(pens[j], q, SpecialBits(alternating)[j], input, bpp);
    InksOf(FILL_OR_MIX, pens, tints, j, input, bpp);
  }

  lemma SpecialPenIs(p: Pen, j: nat)
    requires j <= 8
    ensures SpecialPen(p, j).mix == p.mix && SpecialPen(p, j).count == 8 - j
  {
    hide Bit;
  }

  lemma SpecialStep(p: Pen, alternating: bool, j: nat, input: seq<byte>)
    requires j < 8 && p.count == 8 && p.mixMask == 0
    requires p.mask == p.fomMask == if alternating then 5 else 3
    ensures NextMaskBit(input, SpecialPen(p, j)) == Some(SpecialPen(p, j + 1).(count := 8 - j))
    ensures MaskHit(SpecialPen(p, j + 1).(count := 8 - j)) <==> SpecialBits(alternating)[j]
  {
    SpecialMask(alternating);
    MaskBit(SpecialBits(alternating), j);
    NextBit(if j > 0 then j - 1 else 7);
    NextBit(j);
    FirstBit();
    hide Bit, NextMask, MaskOf, SpecialBits;
  }

  lemma SpecialMask(alternating: bool)
    ensures MaskOf(SpecialBits(alternating)) == if alternating then 5 else 3
  {
  }

  // ---- The runs of the orders ----

  lemma PlainRun(op: int, p: Pen, tints: seq<Tint>, out: seq<Pixel>, input: seq<byte>, width: nat, total: nat, bpp: nat)
    returns (q: Pen)
    requires Draws(op) && p.count == |tints| >= 1 && |out| <= total && (op == FILL || !p.insertMix)
    requires forall j :: 0 <= j < |tints| ==> PlainTint(op, p, tints[j], j, bpp)
    ensures Ran(DrawRun(op, p, out, input, width, total, bpp), q,
                Paint(out, tints, p.mix, width, bpp), total)
    ensures q == p.(count := 0, insertMix := false)
  {
    var n := |tints|;
    var pens := seq(n + 1, j requires 0 <= j <= n => CountedPen(p, n, j));
    hide Draws, Inks, PlainTint, Ran;
    forall j | 0 <= j < n ensures pens[j].mix == p.mix && Inks(op, pens, tints, j, input, bpp) {
      PlainInks(op, p, tints, j, pens, input, bpp);
    }
    RunPaints(op, pens, tints, p.mix, out, input, width, total, bpp);
    q := pens[n];
  }

  lemma MaskedRun(p: Pen, bits: seq<bool>, out: seq<Pixel>, input: seq<byte>, width: nat, total: nat, bpp: nat) returns (q: Pen)
    requires p.count == |bits| >= 1 && |out| <= total && p.mixMask == 0 && p.fomMask == 0
    requires p.ip + |MaskBytes(bits)| <= |input| && input[p.ip..p.ip + |MaskBytes(bits)|] == MaskBytes(bits)
    ensures Ran(DrawRun(FILL_OR_MIX, p, out, input, width, total, bpp), q,
                Paint(out, BitTints(bits), p.mix, width, bpp), total)
    ensures q == p.(count := 0, ip := p.ip + |MaskBytes(bits)|, mask := q.mask, mixMask := q.mixMask)
  {
    var n, tints := |bits|, BitTints(bits);
    MaskedPenEnds(p, bits);
    var pens := AllMaskedInks(p, bits, tints, input, bpp);
    hide *;
    RunPaints(FILL_OR_MIX, pens, tints, p.mix, out, input, width, total, bpp);
    q := pens[n];
  }

  function MaskedPens(p: Pen, bits: seq<bool>): (pens: seq<Pen>)
    ensures |pens| == |bits| + 1 && forall j :: 0 <= j <= |bits| ==> pens[j] == MaskedPen(p, bits, j)
  {
    seq(|bits| + 1, j requires 0 <= j <= |bits| => MaskedPen(p, bits, j))
  }

  lemma AllMaskedInks(p: Pen, bits: seq<bool>, tints: seq<Tint>, input: seq<byte>, bpp: nat) returns (pens: seq<Pen>)
    requires p.count == |bits| && p.mixMask == 0 && p.fomMask == 0 && tints == BitTints(bits)
    requires p.ip + |MaskBytes(bits)| <= |input| && input[p.ip..p.ip + |MaskBytes(bits)|] == MaskBytes(bits)
    ensures |pens| == |bits| + 1 == |tints| + 1
    ensures pens[0] == MaskedPen(p, bits, 0) && pens[|bits|] == MaskedPen(p, bits, |bits|) && pens[|bits|].count == 0
    ensures forall j :: 0 <= j < |tints| ==> pens[j].mix == p.mix && Inks(FILL_OR_MIX, pens, tints, j, input, bpp)
  {
    pens := MaskedPens(p, bits);
    var n := |bits|;
    MaskedPenIs(p, bits, n);
    hide *;
    forall j | 0 <= j < n ensures pens[j].mix == p.mix && Inks(FILL_OR_MIX, pens, tints, j, input, bpp) {
      MaskedAt(p, bits, tints, j, pens, input, bpp);
    }
  }

  lemma MaskedAt(p: Pen, bits: seq<bool>, tints: seq<Tint>, j: nat, pens: seq<Pen>, input: seq<byte>, bpp: nat)
    requires p.count == |bits| && p.mixMask == 0 && p.fomMask == 0 && tints == BitTints(bits)
    requires p.ip + |MaskBytes(bits)| <= |input| && input[p.ip..p.ip + |MaskBytes(bits)|] == MaskBytes(bits)
    requires |pens| == |tints| + 1 && j < |tints|
    requires pens[j] == MaskedPen(p, bits, j) && pens[j + 1] == MaskedPen(p, bits, j + 1)
    ensures pens[j].mix == p.mix && Inks(FILL_OR_MIX, pens, tints, j, input, bpp)
  {
    assert tints[j] == if bits[j] then Blend else Keep;
    hide *;
    MaskedPenIs(p, bits, j);
    MaskedNext(p, bits, j, input);
    MaskedInks(p, bits, tints, j, pens, input, bpp);
  }

  lemma MaskedPenEnds(p: Pen, bits: seq<bool>)
    requires p.count == |bits| >= 1
    ensures MaskedPen(p, bits, 0) == p
    ensures var q := MaskedPen(p, bits, |bits|);
            q == p.(count := 0, ip := p.ip + |MaskBytes(bits)|, mask := q.mask, mixMask := q.mixMask)
  {
    hide MaskOf, Bit, Eight;
  }

  lemma SpecialRun(p: Pen, alternating: bool, out: seq<Pixel>, input: seq<byte>, width: nat, total: nat, bpp: nat) returns (q: Pen)
    requires p.count == 8 && |out| <= total && p.mixMask == 0
    requires p.mask == p.fomMask == if alternating then 5 else 3
    ensures Ran(DrawRun(FILL_OR_MIX, p, out, input, width, total, bpp), q,
                Paint(out, BitTints(SpecialBits(alternating)), p.mix, width, bpp), total)
    ensures q == p.(count := 0, mixMask := q.mixMask)
  {
    var tints := BitTints(SpecialBits(alternating));
    var pens := seq(9, j requires 0 <= j <= 8 => SpecialPen(p, j));
    hide Inks, Bit, SpecialBits, Ran;
    forall j | 0 <= j < 8 ensures pens[j].mix == p.mix && Inks(FILL_OR_MIX, pens, tints, j, input, bpp) {
      SpecialInks(p, alternating, tints, j, pens, input, bpp);
    }
    RunPaints(FILL_OR_MIX, pens, tints, p.mix, out, input, width, total, bpp);
    q := pens[8];
  }

  lemma CopyRun(p: Pen, pixels: seq<Pixel>, tints: seq<Tint>, out: seq<Pixel>, input: seq<byte>, width: nat, total: nat, bpp: nat)
    returns (q: Pen)
    requires p.count == |pixels| == |tints| >= 1 && |out| <= total && WellSized(pixels, bpp)
    requires forall j :: 0 <= j < |tints| ==> tints[j] == Put(pixels[j])
    requires p.ip + |Flat(pixels)| <= |input| && input[p.ip..p.ip + |Flat(pixels)|] == Flat(pixels)
    ensures Ran(DrawRun(COPY, p, out, input, width, total, bpp), q,
                Paint(out, tints, p.mix, width, bpp), total)
    ensures q == p.(count := 0, ip := p.ip + |Flat(pixels)|)
  {
    var n := |pixels|;
    var pens := seq(n + 1, j requires 0 <= j <= n => CopyPen(p, n, j, bpp));
    FlatSize(pixels, bpp);
    hide Inks, Flat, Ran;
    forall j | 0 <= j < n ensures pens[j].mix == p.mix && Inks(COPY, pens, tints, j, input, bpp) {
      CopyInks(p, pixels, tints, j, pens, input, bpp);
    }
    RunPaints(COPY, pens, tints, p.mix, out, input, width, total, bpp);
    q := pens[n];
  }

  lemma BicolourRun(p: Pen, n: nat, tints: seq<Tint>, out: seq<Pixel>, input: seq<byte>, width: nat, total: nat, bpp: nat)
    returns (q: Pen)
    requires p.count == n >= 1 && |tints| == 2 * n && |out| <= total && !p.bicolour
    requires forall j :: 0 <= j < |tints| ==> tints[j] == if j % 2 == 0 then Put(p.colour1) else Put(p.colour2)
    ensures Ran(DrawRun(BICOLOUR, p, out, input, width, total, bpp), q,
                Paint(out, tints, p.mix, width, bpp), total)
    ensures q == p.(count := 0)
  {
    var pens := seq(2 * n + 1, j requires 0 <= j <= 2 * n => BicolourPen(p, n, j));
    hide Inks, Ran;
    forall j | 0 <= j < 2 * n ensures pens[j].mix == p.mix && Inks(BICOLOUR, pens, tints, j, input, bpp) {
      BicolourInks(p, n, tints, j, pens, input, bpp);
    }
    RunPaints(BICOLOUR, pens, tints, p.mix, out, input, width, total, bpp);
    q := pens[2 * n];
  }

  // ---- One order ----

  function DrawOp(o: Order): (op: int) {
    if o.SetMix? then MIX else if o.SetMixMasked? || o.Special? then FILL_OR_MIX else OpOf(o)
  }

  /** Between orders: no blended pixel outstanding, no half pair of colours. */
  predicate Clean(pen: Pen) {
    !pen.insertMix && !pen.bicolour
  }

  /** The pen with which the run of an order starts. */
  function StartPen(o: Order, pen: Pen, written: nat, width: nat, next: nat): (p: Pen) {
    var p := pen.(ip := next + |Operands(o)|, count := CountOf(o), fomMask := 0, mixMask := 0, lastOp := DrawOp(o),
                  insertMix := SetOff(o, pen.lastOp == FILL, written, width), mix := MixAfter(o, pen.mix));
    match o
    case Special(alternating) => if alternating then p.(mask := 5, fomMask := 5) else p.(mask := 3, fomMask := 3)
    case Colour(_, c) => p.(colour2 := c)
    case Bicolour(_, c1, c2) => p.(colour1 := c1, colour2 := c2)
    case _ => p
  }

  lemma HeadRead(before: seq<byte>, o: Order, rest: seq<byte>)
    requires 1 <= CountOf(o) < 0x1_0000
    ensures ReadHeader(before + Head(o) + rest, |before|) == Some(Header(OpOf(o), CountOf(o), |before| + |Head(o)|))
    ensures |Head(o)| > 0
  {
    if OpOf(o) < 9 {
      HeaderRead(before, OpOf(o), CountOf(o), rest);
      hide ReadHeader, HeaderCode;
      assert |Head(o)| > 0 by { HeaderNotEmpty(OpOf(o), CountOf(o)); }
    } else {
      var input, ip := before + Head(o) + rest, |before|;
      assert input[ip] == 0xf0 + OpOf(o);
    }
  }

  lemma HeaderNotEmpty(op: int, n: nat)
    requires 0 <= op < 9 && op != 5 && 1 <= n < 0x1_0000
    ensures |HeaderCode(op, n)| > 0
  {
  }

  lemma OperandsRead(input: seq<byte>, pen: Pen, written: nat, width: nat, o: Order, next: nat, bpp: nat)
    requires WellFormed(o, bpp) && Clean(pen)
    requires next + |Operands(o)| <= |input| && input[next..next + |Operands(o)|] == Operands(o)
    ensures ReadOperands(input, pen, written, width, Header(OpOf(o), CountOf(o), next), bpp)
         == Some((DrawOp(o), StartPen(o, pen, written, width, next)))
  {
    if o.Bicolour? {
      var c := input[next..next + |Operands(o)|];
      assert input[next..next + bpp] == c[..bpp] == o.c1;
      assert input[next + bpp..next + bpp + bpp] == c[bpp..] == o.c2;
    }
  }

  lemma PlainTints(o: Order, p: Pen, setOff: bool, bpp: nat)
    requires WellFormed(o, bpp) && (o.Fill? || o.Mix? || o.SetMix? || o.Colour? || o.White? || o.Black?)
    requires p.insertMix == setOff && (o.Colour? ==> p.colour2 == o.c)
    ensures |Tints(o, setOff, bpp)| == CountOf(o)
    ensures forall j :: 0 <= j < CountOf(o) ==> PlainTint(DrawOp(o), p, Tints(o, setOff, bpp)[j], j, bpp)
  {
    hide Solid;
  }

  /** The run of an order that starts at `next` paints its tints and leaves pen `q`. */
  predicate RunsAs(o: Order, pen: Pen, out: seq<Pixel>, input: seq<byte>, next: nat, width: nat, total: nat, bpp: nat, q: Pen)
    requires WellFormed(o, bpp) && |out| <= total
  {
    && Ran(DrawRun(DrawOp(o), StartPen(o, pen, |out|, width, next), out, input, width, total, bpp), q,
           Paint(out, Tints(o, SetOff(o, pen.lastOp == FILL, |out|, width), bpp), MixAfter(o, pen.mix), width, bpp), total)
    && Clean(q) && q.mix == MixAfter(o, pen.mix) && q.lastOp == DrawOp(o)
    && q.ip == next + |Operands(o)| + |Data(o)|
  }

  predicate Readable(o: Order, input: seq<byte>, next: nat) {
    var ip, d := next + |Operands(o)|, Data(o);
    ip + |d| <= |input| && input[ip..ip + |d|] == d
  }

  lemma PlainOrder(o: Order, pen: Pen, out: seq<Pixel>, input: seq<byte>, next: nat, width: nat, total: nat, bpp: nat)
    returns (q: Pen)
    requires WellFormed(o, bpp) && Clean(pen) && Readable(o, input, next) && |out| <= total
    requires o.Fill? || o.Mix? || o.SetMix? || o.Colour? || o.White? || o.Black?
    ensures RunsAs(o, pen, out, input, next, width, total, bpp, q)
  {
    var p := StartPen(o, pen, |out|, width, next);
    PlainTints(o, p, p.insertMix, bpp);
    hide DrawRun, Paint, Tints, SetOff, PlainTint, Ran, WellFormed;
    q := PlainRun(DrawOp(o), p, Tints(o, p.insertMix, bpp), out, input, width, total, bpp);
  }

  lemma MaskedOrder(o: Order, pen: Pen, out: seq<Pixel>, input: seq<byte>, next: nat, width: nat, total: nat, bpp: nat)
    returns (q: Pen)
    requires WellFormed(o, bpp) && Clean(pen) && Readable(o, input, next) && |out| <= total
    requires o.Masked? || o.SetMixMasked?
    ensures RunsAs(o, pen, out, input, next, width, total, bpp, q)
  {
    hide DrawRun, Paint, MaskBytes, BitTints, Ran;
    q := MaskedRun(StartPen(o, pen, |out|, width, next), o.bits, out, input, width, total, bpp);
  }

  lemma SpecialOrder(o: Order, pen: Pen, out: seq<Pixel>, input: seq<byte>, next: nat, width: nat, total: nat, bpp: nat)
    returns (q: Pen)
    requires o.Special? && Clean(pen) && Readable(o, input, next) && |out| <= total
    ensures RunsAs(o, pen, out, input, next, width, total, bpp, q)
  {
    hide DrawRun, Paint, BitTints, SpecialBits, Ran;
    q := SpecialRun(StartPen(o, pen, |out|, width, next), o.alternating, out, input, width, total, bpp);
  }

  lemma PixelOrder(o: Order, pen: Pen, out: seq<Pixel>, input: seq<byte>, next: nat, width: nat, total: nat, bpp: nat)
    returns (q: Pen)
    requires WellFormed(o, bpp) && Clean(pen) && Readable(o, input, next) && |out| <= total
    requires o.Copy? || o.Bicolour?
    ensures RunsAs(o, pen, out, input, next, width, total, bpp, q)
  {
    var p, tints := StartPen(o, pen, |out|, width, next), Tints(o, false, bpp);
    hide DrawRun, Paint, Flat, Ran;
    if o.Copy? {
      q := CopyRun(p, o.pixels, tints, out, input, width, total, bpp);
    } else {
      q := BicolourRun(p, o.n, tints, out, input, width, total, bpp);
    }
  }

  lemma OrderRun(o: Order, pen: Pen, out: seq<Pixel>, input: seq<byte>, next: nat, width: nat, total: nat, bpp: nat)
    returns (q: Pen)
    requires WellFormed(o, bpp) && Clean(pen) && Readable(o, input, next) && |out| <= total
    ensures RunsAs(o, pen, out, input, next, width, total, bpp, q)
  {
    hide *;
    if o.Copy? || o.Bicolour? {
      q := PixelOrder(o, pen, out, input, next, width, total, bpp);
    } else if o.Masked? || o.SetMixMasked? {
      q := MaskedOrder(o, pen, out, input, next, width, total, bpp);
    } else if o.Special? {
      q := SpecialOrder(o, pen, out, input, next, width, total, bpp);
    } else {
      q := PlainOrder(o, pen, out, input, next, width, total, bpp);
    }
  }

  // ---- Lists of orders ----

  lemma DecodeStep(pen: Pen, out: seq<Pixel>, input: seq<byte>, h: Header, op: int, p: Pen, width: nat, total: nat, bpp: nat)
    requires |out| <= total && pen.ip < |input| && ReadHeader(input, pen.ip) == Some(h)
    requires ReadOperands(input, pen, |out|, width, h, bpp) == Some((op, p))
    ensures var d := DrawRun(op, p, out, input, width, total, bpp);
            |d.out| <= total
            && Decode(pen, out, input, width, total, bpp)
            == if d.status == Good then Decode(d.pen, d.out, input, width, total, bpp) else d
  {
    hide ReadHeader, ReadOperands, DrawRun;
    DrawRunReadsOn(op, p, out, input, width, total, bpp);
  }

  /** At `ip` the header of the order is read, and at `next` its operands and data follow. */
  predicate StandsAt(o: Order, input: seq<byte>, ip: nat, next: nat) {
    && ip < |input| && ReadHeader(input, ip) == Some(Header(OpOf(o), CountOf(o), next))
    && next + |Operands(o)| <= |input| && input[next..next + |Operands(o)|] == Operands(o)
    && Readable(o, input, next)
  }

  lemma StandsTells(o: Order, input: seq<byte>, ip: nat, next: nat)
    requires StandsAt(o, input, ip, next)
    ensures ip < |input| && ReadHeader(input, ip) == Some(Header(OpOf(o), CountOf(o), next))
    ensures next + |Operands(o)| <= |input| && input[next..next + |Operands(o)|] == Operands(o)
    ensures Readable(o, input, next)
  {
  }

  /** An order at the pen's position is carried out, and decoding goes on behind it with pen `q`. */
  lemma OrderOn(input: seq<byte>, pen: Pen, out: seq<Pixel>, o: Order, next: nat, width: nat, total: nat, bpp: nat)
    returns (q: Pen)
    requires Clean(pen) && WellFormed(o, bpp) && |out| <= total
    requires StandsAt(o, input, pen.ip, next)
    ensures var painted := Paint(out, Tints(o, SetOff(o, pen.lastOp == FILL, |out|, width), bpp), MixAfter(o, pen.mix), width, bpp);
            if |painted| <= total then Decode(pen, out, input, width, total, bpp) == Decode(q, painted, input, width, total, bpp)
            else Decode(pen, out, input, width, total, bpp).status == Refused
    ensures Clean(q) && q.mix == MixAfter(o, pen.mix) && q.lastOp == DrawOp(o) && q.ip == next + |Operands(o)| + |Data(o)|
  {
    StandsTells(o, input, pen.ip, next);
    hide *;
    OperandsRead(input, pen, |out|, width, o, next, bpp);
    q := OrderRun(o, pen, out, input, next, width, total, bpp);
    DecodeStep(pen, out, input, Header(OpOf(o), CountOf(o), next), DrawOp(o), StartPen(o, pen, |out|, width, next), width, total, bpp);
    RunTells(o, pen, out, input, next, width, total, bpp, q);
  }

  lemma RunTells(o: Order, pen: Pen, out: seq<Pixel>, input: seq<byte>, next: nat, width: nat, total: nat, bpp: nat, q: Pen)
    requires WellFormed(o, bpp) && |out| <= total && RunsAs(o, pen, out, input, next, width, total, bpp, q)
    ensures var d := DrawRun(DrawOp(o), StartPen(o, pen, |out|, width, next), out, input, width, total, bpp);
            var painted := Paint(out, Tints(o, SetOff(o, pen.lastOp == FILL, |out|, width), bpp), MixAfter(o, pen.mix), width, bpp);
            if |painted| <= total then d == Drawn(Good, q, painted) else d.status == Refused
    ensures Clean(q) && q.mix == MixAfter(o, pen.mix) && q.lastOp == DrawOp(o) && q.ip == next + |Operands(o)| + |Data(o)|
  {
    hide DrawRun, Paint, Tints, SetOff, MixAfter, StartPen, WellFormed;
  }

  /** Wherever it stands, the code of an order is read as the order. */
  lemma CodeParts(before: seq<byte>, o: Order, tail: seq<byte>) returns (input: seq<byte>)
    requires 1 <= CountOf(o) < 0x1_0000
    ensures input == before + OrderCode(o) + tail
    ensures var next := |before| + |Head(o)|;
            StandsAt(o, input, |before|, next) && |before + OrderCode(o)| == next + |Operands(o)| + |Data(o)|
  {
    hide Head, Operands, Data, ReadHeader, CountOf, OpOf;
    var rest;
    input, rest := PartsOf(before, Head(o), Operands(o), Data(o), tail);
    hide OrderCode;
    HeadRead(before, o, rest);
  }

  lemma PartsOf(before: seq<byte>, head: seq<byte>, operands: seq<byte>, data: seq<byte>, tail: seq<byte>)
    returns (input: seq<byte>, rest: seq<byte>)
    ensures input == before + (head + operands + data) + tail == before + head + rest
    ensures var a, b := |before| + |head|, |before| + |head| + |operands|;
            && a <= |input| && b + |data| <= |input| && input[a..b] == operands && input[b..b + |data|] == data
            && |before + (head + operands + data)| == b + |data|
  {
    input, rest := before + (head + operands + data) + tail, operands + data + tail;
  }

  lemma ListsSplit(before: seq<byte>, os: seq<Order>, afterFill: bool, mix: Pixel, out: seq<Pixel>, width: nat, bpp: nat)
    requires AllWellFormed(os, bpp) && |os| > 0
    ensures WellFormed(os[0], bpp) && 1 <= CountOf(os[0]) < 0x1_0000 && (DrawOp(os[0]) == FILL <==> os[0].Fill?)
    ensures AllWellFormed(os[1..], bpp)
    ensures before + CodeAll(os, bpp) == before + OrderCode(os[0]) + CodeAll(os[1..], bpp)
    ensures var o, m := os[0], MixAfter(os[0], mix);
            PaintAll(os, afterFill, mix, out, width, bpp)
            == PaintAll(os[1..], o.Fill?, m, Paint(out, Tints(o, SetOff(o, afterFill, |out|, width), bpp), m, width, bpp), width, bpp)
  {
    assert WellFormed(os[0], bpp);
    hide OrderCode, Paint, Tints, SetOff, MixAfter, WellSized;
  }

  /** Decoding carries out the first order of a list, which leaves a shorter one, or refuses it. */
  lemma FirstOfList(before: seq<byte>, pen: Pen, out: seq<Pixel>, os: seq<Order>, width: nat, total: nat, bpp: nat)
    returns (good: bool, before': seq<byte>, q: Pen, out': seq<Pixel>)
    requires pen.ip == |before| && Clean(pen) && AllWellFormed(os, bpp) && |os| > 0 && |out| <= total
    ensures AllWellFormed(os[1..], bpp)
    ensures var d := Decode(pen, out, before + CodeAll(os, bpp), width, total, bpp);
            var painted := PaintAll(os, pen.lastOp == FILL, pen.mix, out, width, bpp);
            if good then
              && q.ip == |before'| && Clean(q) && |out'| <= total
              && d == Decode(q, out', before' + CodeAll(os[1..], bpp), width, total, bpp)
              && painted == PaintAll(os[1..], q.lastOp == FILL, q.mix, out', width, bpp)
            else d.status == Refused && |painted| > total
  {
    hide *;
    var o := os[0];
    ListsSplit(before, os, pen.lastOp == FILL, pen.mix, out, width, bpp);
    var input := CodeParts(before, o, CodeAll(os[1..], bpp));
    q := OrderOn(input, pen, out, o, |before| + |Head(o)|, width, total, bpp);
    before' := before + OrderCode(o);
    out' := Paint(out, Tints(o, SetOff(o, pen.lastOp == FILL, |out|, width), bpp), MixAfter(o, pen.mix), width, bpp);
    good := |out'| <= total;
  }

  lemma {:induction false} OrdersDecode(before: seq<byte>, pen: Pen, out: seq<Pixel>, os: seq<Order>, width: nat, total: nat, bpp: nat)
    requires pen.ip == |before| && Clean(pen) && AllWellFormed(os, bpp) && |out| <= total
    ensures var d := Decode(pen, out, before + CodeAll(os, bpp), width, total, bpp);
            var painted := PaintAll(os, pen.lastOp == FILL, pen.mix, out, width, bpp);
            if |painted| <= total then d.status == Good && d.out == painted else d.status == Refused
    decreases |os|
  {
    if |os| > 0 {
      var good, before', q, out' := FirstOfList(before, pen, out, os, width, total, bpp);
      if good {
        hide *;
        OrdersDecode(before', q, out', os[1..], width, total, bpp);
      }
    } else {
      assert before + CodeAll(os, bpp) == before;
    }
  }

  /**
   The code of any list of well-formed orders is accepted exactly when the orders paint no more
   pixels than the image has, and then decodes to what they paint.
   */
  lemma {:induction false} EveryOrderListDecodes(os: seq<Order>, width: nat, total: nat, bpp: nat)
    requires AllWellFormed(os, bpp)
    ensures var d := Decode(InitialPen(bpp), [], CodeAll(os, bpp), width, total, bpp);
            var painted := PaintAll(os, false, seq(bpp, _ => 0xff), [], width, bpp);
            if |painted| <= total then d.status == Good && d.out == painted else d.status == Refused
  {
    assert [] + CodeAll(os, bpp) == CodeAll(os, bpp);
    OrdersDecode([], InitialPen(bpp), [], os, width, total, bpp);
  }

  /** An order of any other code stops the decoder as soon as it is to draw a pixel. */
  lemma {:induction false} OtherOrdersRefused(pen: Pen, out: seq<Pixel>, input: seq<byte>, h: Header, width: nat, total: nat, bpp: nat)
    requires |out| <= total && pen.ip < |input| && ReadHeader(input, pen.ip) == Some(h) && h.count > 0
    requires h.op == 5 || h.op == 11 || h.op == 12 || h.op == 15
    ensures Decode(pen, out, input, width, total, bpp).status == Refused
  {
    hide ReadHeader;
    var p := pen.(ip := h.next, count := h.count, fomMask := 0, mixMask := 0, lastOp := h.op);
    DecodeStep(pen, out, input, h, h.op, p, width, total, bpp);
  }
}
