/** The line-by-line machine computes the linear decoding. */
module RleLinear {
  import opened Arith
  import opened Options
  import opened Bits
  import opened RleSpec
  import opened RleRows
  import opened RleDecoder

  /** The row machine's state stands for the pixels `out` written so far over the original buffer. */
  ghost predicate Stands(row: Row, buf: seq<Pixel>, out: seq<Pixel>, was: seq<Pixel>, width: nat, lines: nat) {
    && RowAt(row, |out|, width, lines)
    && |out| <= lines * width <= |was| && buf == Place(was, out, width, lines)
  }

  lemma {:induction false} LineFits(row: Row, n: nat, width: nat, lines: nat)
    requires RowAt(row, n, width, lines) && row.height < lines
    ensures RowOk(row, width, lines * width)
  {
    MulNonNegative(row.height, width);
    Distribute(row.height, 1, width);
    Distribute(lines - row.height - 1, row.height + 1, width);
    MulNonNegative(lines - row.height - 1, width);
    if lines - row.height >= 2 {
      Distribute(row.height + 1, 1, width);
      Distribute(lines - row.height - 2, row.height + 2, width);
      MulNonNegative(lines - row.height - 2, width);
    }
  }

  /** Where the next pixel goes, and which pixel is above it. */
  lemma {:induction false} NextPixelAt(row: Row, buf: seq<Pixel>, out: seq<Pixel>, was: seq<Pixel>, width: nat, lines: nat)
    requires Stands(row, buf, out, was, width, lines) && row.height < lines && row.x < width
    ensures RowOk(row, width, |buf|) && |out| < lines * width
    ensures PosOf(|out|, width, lines) == row.line + row.x
    ensures RowAbove(buf, row, width) == AboveOf(out, width)
  {
    LineFits(row, |out|, width, lines);
    var r := lines - row.height - 1;
    PosAt(r, row.x, width, lines);
    assert |out| < lines * width by {
      Distribute(r, 1, width);
      Distribute(r + 1, row.height, width);
      MulNonNegative(row.height, width);
    }
    AboveAt(row, buf, out, was, width, lines);
  }

  /** Which pixel stands above: none on the first line, else the one a line's width earlier. */
  lemma {:induction false} AboveIndex(row: Row, n: nat, width: nat, lines: nat)
    requires RowAt(row, n, width, lines) && row.height < lines && row.x < width
    ensures n < width <==> row.prevLine == NULL
    ensures n >= width ==> PosOf(n - width, width, lines) == row.prevLine + row.x
  {
    var r := lines - row.height - 1;
    if r >= 1 {
      Distribute(r - 1, 1, width);
      MulNonNegative(r - 1, width);
      MulNonNegative(row.height + 1, width);
      PosAt(r - 1, row.x, width, lines);
    }
  }

  lemma {:induction false} AboveAt(row: Row, buf: seq<Pixel>, out: seq<Pixel>, was: seq<Pixel>, width: nat, lines: nat)
    requires Stands(row, buf, out, was, width, lines) && row.height < lines && row.x < width && RowOk(row, width, |buf|)
    ensures RowAbove(buf, row, width) == AboveOf(out, width)
  {
    AboveIndex(row, |out|, width, lines);
    hide Place, PosOf, RowAt;
    if |out| >= width {
      PlacedAt(was, out, |out| - width, width, lines);
    }
  }

  /** One step writes the next pixel of the linear decoding. */
  lemma {:induction false} StepStands(row: Row, buf: seq<Pixel>, out: seq<Pixel>, c: Pixel, was: seq<Pixel>, width: nat, lines: nat)
    requires Stands(row, buf, out, was, width, lines) && row.height < lines && row.x < width
    requires RowOk(row, width, |buf|)
    ensures Stands(row.(x := row.x + 1), buf[row.line + row.x := c], out + [c], was, width, lines)
  {
    NextPixelAt(row, buf, out, was, width, lines);
    PlaceNext(was, out, c, width, lines);
  }

  /** One round of the plain loop is one pixel of the linear run. */
  lemma {:induction false} RoundIsLinear(op: int, pen: Pen, row: Row, buf: seq<Pixel>, out: seq<Pixel>, was: seq<Pixel>,
                                         width: nat, lines: nat, input: seq<byte>, bpp: nat)
    returns (ok: bool, pen': Pen, buf': seq<Pixel>, out': seq<Pixel>)
    requires Draws(op) && Stands(row, buf, out, was, width, lines) && row.height < lines
    requires RowOk(row, width, |buf|) && pen.count > 0 && row.x < width
    ensures var row', total := row.(x := row.x + 1), lines * width;
            if ok then
              && RowOk(row', width, |buf'|) && Stands(row', buf', out', was, width, lines)
              && PlainLoop(op, pen', row', buf', width, input, bpp) == PlainLoop(op, pen, row, buf, width, input, bpp)
              && DrawRun(op, pen', out', input, width, total, bpp) == DrawRun(op, pen, out, input, width, total, bpp)
            else
              && PlainLoop(op, pen, row, buf, width, input, bpp) == RowRun(false, pen, row, buf)
              && DrawRun(op, pen, out, input, width, total, bpp) == Drawn(Malformed, pen, out)
  {
    NextPixelAt(row, buf, out, was, width, lines);
    hide Ink, Stands, PosOf, AboveOf, RowAbove, Draws;
    ok, pen', buf', out' := false, pen, buf, out;
    match Ink(op, pen, RowAbove(buf, row, width), input, bpp) {
      case None =>
      case Some(inked) =>
        StepStands(row, buf, out, inked.pixel, was, width, lines);
        ok, pen', buf', out' := true, inked.pen, buf[row.line + row.x := inked.pixel], out + [inked.pixel];
    }
  }

  /** The plain loop of an opcode is a stretch of the linear run. */
  lemma {:induction false} PlainLoopIsLinear(op: int, pen: Pen, row: Row, buf: seq<Pixel>, out: seq<Pixel>, was: seq<Pixel>,
                                             width: nat, lines: nat, input: seq<byte>, bpp: nat)
    returns (out': seq<Pixel>)
    requires Draws(op) && Stands(row, buf, out, was, width, lines) && row.height < lines
    requires RowOk(row, width, |buf|)
    ensures var r := PlainLoop(op, pen, row, buf, width, input, bpp);
            var d := DrawRun(op, pen, out, input, width, lines * width, bpp);
            && Stands(r.row, r.buf, out', was, width, lines)
            && (r.ok ==> (r.pen.count == 0 || r.row.x == width)
                         && DrawRun(op, r.pen, out', input, width, lines * width, bpp) == d)
            && (!r.ok ==> d.status == Malformed && d.out == out')
    decreases width - row.x
  {
    out' := out;
    if pen.count > 0 && row.x < width {
      var ok, pen', buf', next := RoundIsLinear(op, pen, row, buf, out, was, width, lines, input, bpp);
      if ok {
        out' := PlainLoopIsLinear(op, pen', row.(x := row.x + 1), buf', next, was, width, lines, input, bpp);
      }
    }
  }

  // ---- Order headers ----

  /** The opcode and count of the order at `ip0`. */
  method ParseHeader(input: seq<byte>, ip0: nat) returns (h: Option<Header>)
    requires ip0 < |input|
    ensures h == ReadHeader(input, ip0)
  {
    var code, ip := input[ip0], ip0 + 1;
    var opcode := code / 16;
    var count, offset := 0, 0;
    if opcode == 12 || opcode == 13 || opcode == 14 {
      opcode, count, offset := opcode - 6, code % 16, 16;
    } else if opcode == 15 {
      opcode := code % 16;
      if opcode < 9 {
        if ip + 2 > |input| {
          return None;
        }
        count, ip := input[ip] as int + 256 * (input[ip + 1] as int), ip + 2;
      } else {
        count := if opcode < 11 then 8 else 1;
      }
      offset := 0;
    } else {
      opcode, count, offset := opcode / 2, code % 32, 32;
    }
    if offset != 0 {
      var isFillOrMix := opcode == FILL_OR_MIX || opcode == SET_MIX_FILL_OR_MIX;
      if count == 0 {
        if ip + 1 > |input| {
          return None;
        }
        count, ip := input[ip] as int + (if isFillOrMix then 1 else offset), ip + 1;
      } else if isFillOrMix {
        count := count * 8;
      }
    }
    return Some(Header(opcode, count, ip));
  }

  /** The operands of an order; `lineEnd` is the test `(x == width) && (prevline == NULL)`. */
  method ParseOperands(input: seq<byte>, pen0: Pen, h: Header, lineEnd: bool, ghost written: nat, ghost width: nat, bpp: nat)
    returns (ok: bool, op: int, pen: Pen)
    requires lineEnd == (written == 0 || written == width)
    ensures match ReadOperands(input, pen0, written, width, h, bpp)
            case None => !ok
            case Some(r) => ok && (op, pen) == r
  {
    ok, op, pen := true, h.op, pen0.(ip := h.next, count := h.count, fomMask := 0, mixMask := 0);
    if op == FILL {
      if pen.lastOp == op && !lineEnd {
        pen := pen.(insertMix := true);
      }
    } else if op == BICOLOUR {
      if pen.ip + 2 * bpp > |input| {
        return false, op, pen;
      }
      pen := pen.(colour1 := input[pen.ip..pen.ip + bpp], ip := pen.ip + bpp);
      pen := pen.(colour2 := input[pen.ip..pen.ip + bpp], ip := pen.ip + bpp);
    } else if op == COLOUR {
      if pen.ip + bpp > |input| {
        return false, op, pen;
      }
      pen := pen.(colour2 := input[pen.ip..pen.ip + bpp], ip := pen.ip + bpp);
    } else if op == SET_MIX_MIX || op == SET_MIX_FILL_OR_MIX {
      if pen.ip + bpp > |input| {
        return false, op, pen;
      }
      pen := pen.(mix := input[pen.ip..pen.ip + bpp], ip := pen.ip + bpp);
      op := op - 5;
    } else if op == FILL_OR_MIX_1 {
      pen, op := pen.(mask := 3, fomMask := 3), FILL_OR_MIX;
    } else if op == FILL_OR_MIX_2 {
      pen, op := pen.(mask := 5, fomMask := 5), FILL_OR_MIX;
    }
    pen := pen.(lastOp := op);
  }

  // ---- The output body of one order ----

  /** Between orders the current line has a pixel, or nothing has been drawn. */
  predicate Settled(row: Row, width: nat) {
    if width == 0 then row.prevLine == NULL else row.x > 0
  }

  /** The code's test for "at the very start, or just after the first line". */
  lemma {:induction false} LineEnd(row: Row, n: nat, width: nat, lines: nat)
    requires RowAt(row, n, width, lines) && Settled(row, width)
    ensures row.x == width && row.prevLine == NULL <==> n == 0 || n == width
  {
    var started := lines - row.height;
    if started >= 2 {
      Distribute(started - 2, 1, width);
      MulNonNegative(started - 2, width);
    }
  }

  method DrawOrder(op: int, pen0: Pen, row0: Row, output: array<Pixel>, width: nat, input: seq<byte>, bpp: nat,
                   ghost lines: nat, ghost was: seq<Pixel>, ghost out0: seq<Pixel>)
    returns (status: Status, pen: Pen, row: Row, ghost out: seq<Pixel>)
    requires Stands(row0, output[..], out0, was, width, lines) && (pen0.insertMix ==> width > 0) && Settled(row0, width)
    modifies output
    ensures var d := DrawRun(op, pen0, out0, input, width, lines * width, bpp);
            && status == d.status && out == d.out && output[..] == Place(was, out, width, lines)
            && (status == Good ==> pen == d.pen && Stands(row, output[..], out, was, width, lines)
                                   && (pen.insertMix ==> width > 0) && Settled(row, width))
  {
    pen, row, out := pen0, row0, out0;
    ghost var goal := DrawRun(op, pen0, out0, input, width, lines * width, bpp);
    while pen.count > 0
      invariant Stands(row, output[..], out, was, width, lines)
      invariant DrawRun(op, pen, out, input, width, lines * width, bpp) == goal
      invariant pen.insertMix ==> width > 0
      invariant Settled(row, width) || (width == 0 && goal.status == Refused)
      decreases row.height, width - row.x
    {
      if row.x >= width {
        FullAt(row, |out|, width, lines);
        if row.height == 0 {
          return Refused, pen, row, out;
        }
        NextRowAt(row, |out|, width, lines);
        row := NextRow(row, width);
      }
      if !Draws(op) {
        return Refused, pen, row, out;
      }
      LineFits(row, |out|, width, lines);
      var ok;
      ghost var start, buf := row, output[..];
      out := PlainLoopIsLinear(op, pen, row, output[..], out, was, width, lines, input, bpp);
      ok, pen, row := DrawLine(op, pen, row, output, width, input, bpp);
      if !ok {
        return Malformed, pen, row, out;
      }
    }
    return Good, pen, row, out;
  }

  /** The `switch` of the output body: the mix pixel a fill may start with, then the opcode's loop. */
  method DrawLine(op: int, pen0: Pen, row0: Row, output: array<Pixel>, width: nat, input: seq<byte>, bpp: nat)
    returns (ok: bool, pen: Pen, row: Row)
    requires Draws(op) && RowOk(row0, width, output.Length) && pen0.count > 0
    requires pen0.insertMix ==> row0.x < width
    modifies output
    ensures var goal := PlainLoop(op, pen0, row0, old(output[..]), width, input, bpp);
            ok == goal.ok && output[..] == goal.buf && (ok ==> pen == goal.pen && row == goal.row)
  {
    pen, row := pen0, row0;
    if op == FILL && pen.insertMix {
      if row.prevLine == NULL {
        output[row.line + row.x] := pen.mix;
      } else {
        output[row.line + row.x] := Xor(output[row.prevLine + row.x], pen.mix);
      }
      pen, row := pen.(insertMix := false, count := pen.count - 1), row.(x := row.x + 1);
    }
    ok, pen, row := Repeat(op, pen, row, output, width, input, bpp);
  }

  /**
   The whole decoder.  The status, and every pixel of the buffer, are those of the linear decoding,
   for every input; what was not written is as it was.
   */
  method Decompress(output: array<Pixel>, width: nat, height: nat, input: seq<byte>, bpp: nat) returns (status: Status)
    requires height * width <= output.Length
    modifies output
    ensures var d := Decode(InitialPen(bpp), [], input, width, height * width, bpp);
            status == d.status && output[..] == Place(old(output[..]), d.out, width, height)
  {
    var pen, row := InitialPen(bpp), Row(width, height, NULL, NULL);
    ghost var was, out: seq<Pixel> := output[..], [];
    ghost var goal := Decode(pen, out, input, width, height * width, bpp);
    hide Decode, DrawRun, ReadHeader, ReadOperands, Settled, Place;
    while pen.ip < |input|
      invariant Stands(row, output[..], out, was, width, height) && Settled(row, width)
      invariant pen.insertMix ==> width > 0
      invariant Decode(pen, out, input, width, height * width, bpp) == goal
      decreases |input| - pen.ip
    {
      DecodeStep(pen, out, input, width, height * width, bpp);
      var h := ParseHeader(input, pen.ip);
      if h.None? {
        return Malformed;
      }
      LineEnd(row, |out|, width, height);
      NothingInNoColumns(|out|, width, height);
      var ok, op, p := ParseOperands(input, pen, h.value, row.x == width && row.prevLine == NULL, |out|, width, bpp);
      if !ok {
        return Malformed;
      }
      OperandsKeep(input, pen, |out|, width, h.value, bpp);
      DrawRunReadsOn(op, p, out, input, width, height * width, bpp);
      status, pen, row, out := DrawOrder(op, p, row, output, width, input, bpp, height, was, out);
      if status != Good {
        return;
      }
    }
    DecodeStep(pen, out, input, width, height * width, bpp);
    return Good;
  }

  /** Reading operands moves on, and asks for a mix pixel only once something has been drawn. */
  lemma OperandsKeep(input: seq<byte>, pen: Pen, written: nat, width: nat, h: Header, bpp: nat)
    requires (pen.insertMix ==> width > 0) && (written > 0 ==> width > 0)
    ensures var r := ReadOperands(input, pen, written, width, h, bpp);
            r.Some? ==> r.value.1.ip >= h.next && (r.value.1.insertMix ==> width > 0)
  {
    hide ReadPixel;
  }

  lemma NothingInNoColumns(n: nat, width: nat, lines: nat)
    requires n <= lines * width
    ensures n > 0 ==> width > 0
  {
  }

  /** One order of the linear decoding. */
  lemma DecodeStep(pen: Pen, out: seq<Pixel>, input: seq<byte>, width: nat, total: nat, bpp: nat)
    requires |out| <= total
    ensures Decode(pen, out, input, width, total, bpp)
         == if pen.ip >= |input| then Drawn(Good, pen, out)
            else
              var h := ReadHeader(input, pen.ip);
              if h.None? then Drawn(Malformed, pen, out)
              else
                var r := ReadOperands(input, pen, |out|, width, h.value, bpp);
                if r.None? then Drawn(Malformed, pen, out)
                else
                  var d := DrawRun(r.value.0, r.value.1, out, input, width, total, bpp);
                  if d.status.Good? then Decode(d.pen, d.out, input, width, total, bpp) else d
  {
    hide DrawRun, ReadHeader, ReadOperands;
  }
}
