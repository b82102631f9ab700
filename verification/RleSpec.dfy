/**
 The interleaved run-length code of bitmap.c ([MS-RDPBCGR] section 3.1.9), read as a list of
 orders that append pixels one after the other.  A pixel is its `bpp` bytes in memory order, so the
 one-, two- and three-byte decoders are this one for `bpp` 1, 2 and 3.
 */
module RleSpec {
  import opened Options
  import opened Bits
  import Words

  type Pixel = seq<byte>

  function Xor(a: Pixel, b: Pixel): (r: Pixel)
    ensures |r| == if |a| < |b| then |a| else |b|
  {
    if |a| == 0 || |b| == 0 then [] else [Words.Xor(a[0], b[0])] + Xor(a[1..], b[1..])
  }

  /** Two pixels are combined byte by byte. */
  lemma {:induction false} XorBytes(a: Pixel, b: Pixel, i: nat)
    requires i < |a| && i < |b|
    ensures Xor(a, b)[i] == Words.Xor(a[i], b[i])
  {
    if i > 0 {
      XorBytes(a[1..], b[1..], i - 1);
    }
  }

  function Solid(b: byte, bpp: nat): (p: Pixel)
    ensures |p| == bpp
  {
    seq(bpp, _ => b)
  }

  // Order codes as they stand after the header has been read.
  const FILL := 0
  const MIX := 1
  const FILL_OR_MIX := 2
  const COLOUR := 3
  const COPY := 4
  const SET_MIX_MIX := 6
  const SET_MIX_FILL_OR_MIX := 7
  const BICOLOUR := 8
  const FILL_OR_MIX_1 := 9
  const FILL_OR_MIX_2 := 10
  const WHITE := 13
  const BLACK := 14

  /** Everything the decoder carries from pixel to pixel and from order to order. */
  datatype Pen = Pen(
    ip: nat, lastOp: int, count: nat,
    insertMix: bool, bicolour: bool,
    colour1: Pixel, colour2: Pixel, mix: Pixel,
    mask: bv8, mixMask: bv8, fomMask: bv8
  )

  function InitialPen(bpp: nat): (pen: Pen) {
    Pen(0, -1, 0, false, false, Solid(0, bpp), Solid(0, bpp), Solid(0xff, bpp), 0, 0, 0)
  }

  // ---- Reading ----

  function ReadPixel(input: seq<byte>, ip: nat, bpp: nat): (r: Option<Pixel>) {
    if ip + bpp <= |input| then Some(input[ip..ip + bpp]) else None
  }

  /** Order code and run length; `next` is where the operands start. */
  datatype Header = Header(op: int, count: nat, next: nat)

  function ReadHeader(input: seq<byte>, ip: nat): (h: Option<Header>)
    requires ip < |input|
    ensures h.Some? ==> h.value.next > ip && 0 <= h.value.op < 16
  {
    var code := input[ip];
    var high := code / 16;
    if high == 15 then
      var op := code % 16;
      if op < 9 then
        if ip + 3 > |input| then None
        else Some(Header(op, input[ip + 1] as int + 256 * (input[ip + 2] as int), ip + 3))
      else Some(Header(op, if op < 11 then 8 else 1, ip + 1))
    else
      var lite := high >= 12;
      var op := if lite then high - 6 else high / 2;
      var n := if lite then code % 16 else code % 32;
      var masked := op == FILL_OR_MIX || op == SET_MIX_FILL_OR_MIX;
      if n != 0 then Some(Header(op, if masked then 8 * n else n, ip + 1))
      else if ip + 2 > |input| then None
      else Some(Header(op, input[ip + 1] as int + (if masked then 1 else if lite then 16 else 32), ip + 2))
  }

  /** The operands that precede the pixels, with the order codes that stand for others rewritten. */
  function ReadOperands(input: seq<byte>, pen: Pen, written: nat, width: nat, h: Header, bpp: nat): (r: Option<(int, Pen)>)
  {
    var p := pen.(ip := h.next, count := h.count, fomMask := 0, mixMask := 0);
    if h.op == FILL then
      Some((FILL, p.(insertMix := p.insertMix || (pen.lastOp == FILL && written != 0 && written != width), lastOp := FILL)))
    else if h.op == BICOLOUR then
      (match (ReadPixel(input, h.next, bpp), ReadPixel(input, h.next + bpp, bpp))
       case (Some(c1), Some(c2)) => Some((BICOLOUR, p.(ip := h.next + 2 * bpp, colour1 := c1, colour2 := c2, lastOp := BICOLOUR)))
       case _ => None)
    else if h.op == COLOUR then
      (match ReadPixel(input, h.next, bpp)
       case Some(c) => Some((COLOUR, p.(ip := h.next + bpp, colour2 := c, lastOp := COLOUR)))
       case None => None)
    else if h.op == SET_MIX_MIX || h.op == SET_MIX_FILL_OR_MIX then
      (match ReadPixel(input, h.next, bpp)
       case Some(c) => Some((h.op - 5, p.(ip := h.next + bpp, mix := c, lastOp := h.op - 5)))
       case None => None)
    else if h.op == FILL_OR_MIX_1 then
      Some((FILL_OR_MIX, p.(mask := 3, fomMask := 3, lastOp := FILL_OR_MIX)))
    else if h.op == FILL_OR_MIX_2 then
      Some((FILL_OR_MIX, p.(mask := 5, fomMask := 5, lastOp := FILL_OR_MIX)))
    else Some((h.op, p.(lastOp := h.op)))
  }

  predicate Draws(op: int) {
    op == FILL || op == MIX || op == FILL_OR_MIX || op == COLOUR || op == COPY || op == BICOLOUR || op == WHITE || op == BLACK
  }

  // ---- One pixel ----

  datatype Inked = Inked(pixel: Pixel, pen: Pen)

  /** Copy of the line above, black above the first line. */
  function Above(above: Option<Pixel>, bpp: nat): (p: Pixel) {
    if above.Some? then above.value else Solid(0, bpp)
  }

  function Mixed(above: Option<Pixel>, mix: Pixel): (p: Pixel) {
    if above.Some? then Xor(above.value, mix) else mix
  }

  function MaskByte(b: byte): (m: bv8) {
    b as bv8
  }

  function MaskHit(pen: Pen): (hit: bool) {
    pen.mask & pen.mixMask != 0
  }

  function NextMask(m: bv8): (r: bv8) {
    m << 1
  }

  /** Advance to the next mask bit, reading a new mask byte when one is used up. */
  function NextMaskBit(input: seq<byte>, pen: Pen): (r: Option<Pen>)
    ensures r.Some? ==> r.value.count == pen.count
  {
    var m := NextMask(pen.mixMask);
    if m != 0 then Some(pen.(mixMask := m))
    else if pen.fomMask != 0 then Some(pen.(mixMask := 1, mask := pen.fomMask))
    else if pen.ip < |input| then Some(pen.(mixMask := 1, mask := MaskByte(input[pen.ip]), ip := pen.ip + 1))
    else None
  }

  /** The next pixel of a drawing order, given the pixel above; `None` when the input runs out. */
  function Ink(op: int, pen: Pen, above: Option<Pixel>, input: seq<byte>, bpp: nat): (r: Option<Inked>)
    requires pen.count > 0
    ensures r.Some? ==> pen.count - 1 <= r.value.pen.count <= pen.count
  {
    var p := pen.(count := pen.count - 1);
    if op == FILL then
      if pen.insertMix then Some(Inked(Mixed(above, pen.mix), p.(insertMix := false)))
      else Some(Inked(Above(above, bpp), p))
    else if op == MIX then Some(Inked(Mixed(above, pen.mix), p))
    else if op == FILL_OR_MIX then
      (match NextMaskBit(input, pen)
       case Some(q) => Some(Inked(if MaskHit(q) then Mixed(above, q.mix) else Above(above, bpp), q.(count := q.count - 1)))
       case None => None)
    else if op == COLOUR then Some(Inked(pen.colour2, p))
    else if op == COPY then
      (match ReadPixel(input, pen.ip, bpp)
       case Some(c) => Some(Inked(c, p.(ip := pen.ip + bpp)))
       case None => None)
    else if op == BICOLOUR then
      if pen.bicolour then Some(Inked(pen.colour2, p.(bicolour := false)))
      else Some(Inked(pen.colour1, pen.(bicolour := true)))
    else if op == WHITE then Some(Inked(Solid(0xff, bpp), p))
    else Some(Inked(Solid(0, bpp), p))
  }

  // ---- Linear decoding: pixels in the order they are written ----

  /** `Malformed` is where the code would read past the end of its input. */
  datatype Status = Good | Refused | Malformed

  datatype Drawn = Drawn(status: Status, pen: Pen, out: seq<Pixel>)

  /** The pixel one line earlier. */
  function AboveOf<T>(out: seq<T>, width: nat): (above: Option<T>) {
    if 0 < width <= |out| then Some(out[|out| - width]) else None
  }

  /** Draw the rest of an order's run. */
  function DrawRun(op: int, pen: Pen, out: seq<Pixel>, input: seq<byte>, width: nat, total: nat, bpp: nat): (d: Drawn)
    requires |out| <= total
    ensures out <= d.out && |d.out| <= total
    decreases total - |out|
  {
    if pen.count == 0 then Drawn(Good, pen, out)
    else if |out| == total || !Draws(op) then Drawn(Refused, pen, out)
    else
      match Ink(op, pen, AboveOf(out, width), input, bpp)
      case None => Drawn(Malformed, pen, out)
      case Some(inked) => DrawRun(op, inked.pen, out + [inked.pixel], input, width, total, bpp)
  }

  lemma InkReadsOn(op: int, pen: Pen, above: Option<Pixel>, input: seq<byte>, bpp: nat)
    requires pen.count > 0
    ensures var r := Ink(op, pen, above, input, bpp); r.Some? ==> r.value.pen.ip >= pen.ip
  {
    NextMaskBitReadsOn(input, pen);
    hide NextMaskBit, Above, Mixed, MaskHit, Solid, Xor;
  }

  lemma NextMaskBitReadsOn(input: seq<byte>, pen: Pen)
    ensures var r := NextMaskBit(input, pen); r.Some? ==> r.value.ip >= pen.ip
  {
    hide NextMask, MaskByte;
  }

  lemma {:induction false} DrawRunReadsOn(op: int, pen: Pen, out: seq<Pixel>, input: seq<byte>, width: nat, total: nat, bpp: nat)
    requires |out| <= total
    ensures DrawRun(op, pen, out, input, width, total, bpp).pen.ip >= pen.ip
    decreases total - |out|
  {
    if pen.count > 0 && |out| < total && Draws(op) {
      InkReadsOn(op, pen, AboveOf(out, width), input, bpp);
      hide Ink, AboveOf, Draws;
      match Ink(op, pen, AboveOf(out, width), input, bpp) {
        case None =>
        case Some(inked) => DrawRunReadsOn(op, inked.pen, out + [inked.pixel], input, width, total, bpp);
      }
    }
  }

  /** All orders from the pen's position on. */
  function Decode(pen: Pen, out: seq<Pixel>, input: seq<byte>, width: nat, total: nat, bpp: nat): (d: Drawn)
    requires |out| <= total
    ensures out <= d.out && |d.out| <= total
    decreases |input| - pen.ip
  {
    if pen.ip >= |input| then Drawn(Good, pen, out)
    else
      match ReadHeader(input, pen.ip)
      case None => Drawn(Malformed, pen, out)
      case Some(h) =>
        match ReadOperands(input, pen, |out|, width, h, bpp)
        case None => Drawn(Malformed, pen, out)
        case Some((op, p)) =>
          DrawRunReadsOn(op, p, out, input, width, total, bpp);
          var d := DrawRun(op, p, out, input, width, total, bpp);
          if d.status.Good? then Decode(d.pen, d.out, input, width, total, bpp) else d
  }
}
