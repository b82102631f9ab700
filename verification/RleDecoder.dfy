/** The run-length decoder of bitmap.c, in place and line by line. */
module RleDecoder {
  import opened Options
  import opened Bits
  import opened RleSpec
  import opened RleRows

  /** The current and previous lines lie inside a buffer of `size` pixels. */
  predicate RowOk(row: Row, width: nat, size: nat) {
    && row.x <= width && 0 <= row.line && row.line + width <= size
    && (row.prevLine == NULL || (0 <= row.prevLine && row.prevLine + width <= size))
  }

  function RowAbove(buf: seq<Pixel>, row: Row, width: nat): (above: Option<Pixel>)
    requires RowOk(row, width, |buf|) && row.x < width
  {
    if row.prevLine == NULL then None else Some(buf[row.prevLine + row.x])
  }

  datatype RowRun = RowRun(ok: bool, pen: Pen, row: Row, buf: seq<Pixel>)

  /** `while (count > 0 && x < width) { statement; count--; x++; }`. */
  function PlainLoop(op: int, pen: Pen, row: Row, buf: seq<Pixel>, width: nat, input: seq<byte>, bpp: nat): (r: RowRun)
    requires RowOk(row, width, |buf|)
    ensures |r.buf| == |buf| && r.row == row.(x := r.row.x) && RowOk(r.row, width, |buf|)
    ensures r.row.x >= row.x && (r.ok && pen.count > 0 && row.x < width ==> r.row.x > row.x)
    decreases width - row.x
  {
    if pen.count == 0 || row.x >= width then RowRun(true, pen, row, buf)
    else
      match Ink(op, pen, RowAbove(buf, row, width), input, bpp)
      case None => RowRun(false, pen, row, buf)
      case Some(inked) =>
        PlainLoop(op, inked.pen, row.(x := row.x + 1), buf[row.line + row.x := inked.pixel], width, input, bpp)
  }

  /** The pixel above, black above the first line. */
  method CopyAbove(row: Row, output: array<Pixel>, width: nat, bpp: nat) returns (c: Pixel)
    requires RowOk(row, width, output.Length) && row.x < width
    ensures c == Above(RowAbove(output[..], row, width), bpp)
  {
    c := if row.prevLine == NULL then Solid(0, bpp) else output[row.prevLine + row.x];
  }

  /** The pixel above mixed in, the mix alone above the first line. */
  method MixAbove(row: Row, output: array<Pixel>, width: nat, mix: Pixel) returns (c: Pixel)
    requires RowOk(row, width, output.Length) && row.x < width
    ensures c == Mixed(RowAbove(output[..], row, width), mix)
  {
    hide Xor;
    c := if row.prevLine == NULL then mix else Xor(output[row.prevLine + row.x], mix);
  }

  /** `c` and `pen` are what `Ink` says; the count has still to go down. */
  predicate Wrote(inked: Option<Inked>, ok: bool, pen: Pen, c: Pixel) {
    match inked
    case None => !ok
    case Some(i) => ok && c == i.pixel && pen.count >= 1 && pen.(count := pen.count - 1) == i.pen
  }

  /** The value one opcode's body writes at `x`. */
  method NextPixel(op: int, pen0: Pen, row: Row, output: array<Pixel>, width: nat, input: seq<byte>, bpp: nat)
    returns (ok: bool, pen: Pen, c: Pixel)
    requires Draws(op) && pen0.count > 0 && (op == FILL ==> !pen0.insertMix)
    requires RowOk(row, width, output.Length) && row.x < width
    ensures Wrote(Ink(op, pen0, RowAbove(output[..], row, width), input, bpp), ok, pen, c)
  {
    hide Ink, RowAbove, Wrote;
    if op == FILL || op == MIX {
      ok, pen, c := NextFromAbove(op, pen0, row, output, width, input, bpp);
    } else if op == FILL_OR_MIX {
      ok, pen, c := NextMasked(pen0, row, output, width, input, bpp);
    } else {
      ok, pen, c := NextPlain(op, pen0, RowAbove(output[..], row, width), input, bpp);
    }
  }

  method NextFromAbove(op: int, pen0: Pen, row: Row, output: array<Pixel>, width: nat, input: seq<byte>, bpp: nat)
    returns (ok: bool, pen: Pen, c: Pixel)
    requires op == MIX || (op == FILL && !pen0.insertMix)
    requires pen0.count > 0
    requires RowOk(row, width, output.Length) && row.x < width
    ensures Wrote(Ink(op, pen0, RowAbove(output[..], row, width), input, bpp), ok, pen, c)
  {
    hide Above, Mixed, RowAbove, Xor, Solid, NextMaskBit, MaskHit;
    ok, pen := true, pen0;
    if op == FILL {
      c := CopyAbove(row, output, width, bpp);
    } else {
      c := MixAbove(row, output, width, pen.mix);
    }
  }

  method NextMasked(pen0: Pen, row: Row, output: array<Pixel>, width: nat, input: seq<byte>, bpp: nat)
    returns (ok: bool, pen: Pen, c: Pixel)
    requires pen0.count > 0
    requires RowOk(row, width, output.Length) && row.x < width
    ensures Wrote(Ink(FILL_OR_MIX, pen0, RowAbove(output[..], row, width), input, bpp), ok, pen, c)
  {
    hide Above, Mixed, RowAbove, Xor, Solid, NextMaskBit, MaskHit;
    c := [];
    ok, pen := MaskUpdate(pen0, input);
    if ok {
      if MaskHit(pen) {
        c := MixAbove(row, output, width, pen.mix);
      } else {
        c := CopyAbove(row, output, width, bpp);
      }
    }
  }

  /** The opcodes that do not look at the line above. */
  method NextPlain(op: int, pen0: Pen, ghost above: Option<Pixel>, input: seq<byte>, bpp: nat)
    returns (ok: bool, pen: Pen, c: Pixel)
    requires Draws(op) && op != FILL && op != MIX && op != FILL_OR_MIX && pen0.count > 0
    ensures Wrote(Ink(op, pen0, above, input, bpp), ok, pen, c)
  {
    hide Above, Mixed, Xor, Solid, NextMaskBit, MaskHit;
    ok, pen, c := true, pen0, [];
    if op == COLOUR {
      c := pen.colour2;
    } else if op == COPY {
      if pen.ip + bpp > |input| {
        return false, pen, c;
      }
      c, pen := input[pen.ip..pen.ip + bpp], pen.(ip := pen.ip + bpp);
    } else if op == BICOLOUR {
      if pen.bicolour {
        c, pen := pen.colour2, pen.(bicolour := false);
      } else {
        c, pen := pen.colour1, pen.(bicolour := true, count := pen.count + 1);
      }
    } else if op == WHITE {
      c := Solid(0xff, bpp);
    } else {
      c := Solid(0, bpp);
    }
  }

  /** `MASK_UPDATE`. */
  method MaskUpdate(pen0: Pen, input: seq<byte>) returns (ok: bool, pen: Pen)
    ensures ok == NextMaskBit(input, pen0).Some? && (ok ==> pen == NextMaskBit(input, pen0).value)
  {
    ok, pen := true, pen0.(mixMask := NextMask(pen0.mixMask));
    if pen.mixMask == 0 {
      if pen.fomMask != 0 {
        pen := pen.(mask := pen.fomMask);
      } else if pen.ip < |input| {
        pen := pen.(mask := MaskByte(input[pen.ip]), ip := pen.ip + 1);
      } else {
        return false, pen;
      }
      pen := pen.(mixMask := 1);
    }
  }

  /** The body of one opcode: write the pixel at `x`, then `count--`. */
  method Statement(op: int, pen0: Pen, row: Row, output: array<Pixel>, width: nat, input: seq<byte>, bpp: nat)
    returns (ok: bool, pen: Pen)
    requires Draws(op) && pen0.count > 0 && (op == FILL ==> !pen0.insertMix)
    requires RowOk(row, width, output.Length) && row.x < width
    modifies output
    ensures match Ink(op, pen0, RowAbove(old(output[..]), row, width), input, bpp)
            case None => !ok && output[..] == old(output[..])
            case Some(inked) =>
              ok && pen == inked.pen && output[..] == old(output[..])[row.line + row.x := inked.pixel]
  {
    var c;
    ok, pen, c := NextPixel(op, pen0, row, output, width, input, bpp);
    if ok {
      output[row.line + row.x] := c;
      pen := pen.(count := pen.count - 1);
    }
  }

  /** One step of either loop, which leaves the result of the plain loop as it was. */
  method Advance(op: int, pen0: Pen, row0: Row, output: array<Pixel>, width: nat, input: seq<byte>, bpp: nat)
    returns (ok: bool, pen: Pen, row: Row)
    requires Draws(op) && pen0.count > 0 && (op == FILL ==> !pen0.insertMix)
    requires RowOk(row0, width, output.Length) && row0.x < width
    modifies output
    ensures ok ==> row == row0.(x := row0.x + 1) && pen.count >= pen0.count - 1 && (op == FILL ==> !pen.insertMix)
    ensures var goal := PlainLoop(op, pen0, row0, old(output[..]), width, input, bpp);
            if ok then PlainLoop(op, pen, row, output[..], width, input, bpp) == goal
            else !goal.ok && goal.buf == output[..]
  {
    ok, pen := Statement(op, pen0, row0, output, width, input, bpp);
    row := row0.(x := row0.x + 1);
  }

  /**
   The `REPEAT` macro: eight steps at a time while at least eight pixels and nine columns are left,
   then one at a time.  It does what the plain loop does, for every opcode.
   */
  method Repeat(op: int, pen0: Pen, row0: Row, output: array<Pixel>, width: nat, input: seq<byte>, bpp: nat)
    returns (ok: bool, pen: Pen, row: Row)
    requires Draws(op) && (op == FILL ==> !pen0.insertMix)
    requires RowOk(row0, width, output.Length)
    modifies output
    ensures var goal := PlainLoop(op, pen0, row0, old(output[..]), width, input, bpp);
            ok == goal.ok && output[..] == goal.buf && (ok ==> pen == goal.pen && row == goal.row)
  {
    hide PlainLoop, Draws;
    ok, pen, row := true, pen0, row0;
    ghost var goal := PlainLoop(op, pen0, row0, output[..], width, input, bpp);
    while pen.count / 8 != 0 && row.x + 8 < width
      invariant RowOk(row, width, output.Length) && (op == FILL ==> !pen.insertMix)
      invariant PlainLoop(op, pen, row, output[..], width, input, bpp) == goal
      decreases width - row.x
    {
      ok, pen, row := Advance(op, pen, row, output, width, input, bpp);
      if !ok { return; }
      ok, pen, row := Advance(op, pen, row, output, width, input, bpp);
      if !ok { return; }
      ok, pen, row := Advance(op, pen, row, output, width, input, bpp);
      if !ok { return; }
      ok, pen, row := Advance(op, pen, row, output, width, input, bpp);
      if !ok { return; }
      ok, pen, row := Advance(op, pen, row, output, width, input, bpp);
      if !ok { return; }
      ok, pen, row := Advance(op, pen, row, output, width, input, bpp);
      if !ok { return; }
      ok, pen, row := Advance(op, pen, row, output, width, input, bpp);
      if !ok { return; }
      ok, pen, row := Advance(op, pen, row, output, width, input, bpp);
      if !ok { return; }
    }
    while pen.count > 0 && row.x < width
      invariant RowOk(row, width, output.Length) && (op == FILL ==> !pen.insertMix)
      invariant PlainLoop(op, pen, row, output[..], width, input, bpp) == goal
      decreases width - row.x
    {
      ok, pen, row := Advance(op, pen, row, output, width, input, bpp);
      if !ok { return; }
    }
    LoopOver(op, pen, row, output[..], width, input, bpp);
  }

  lemma LoopOver(op: int, pen: Pen, row: Row, buf: seq<Pixel>, width: nat, input: seq<byte>, bpp: nat)
    requires RowOk(row, width, |buf|) && (pen.count == 0 || row.x >= width)
    ensures PlainLoop(op, pen, row, buf, width, input, bpp) == RowRun(true, pen, row, buf)
  {
  }
}
