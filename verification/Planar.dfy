/** The planar decoder of bitmap.c: four planes written into every fourth byte of the image. */
module Planar {
  import opened Arith
  import opened Options
  import opened Bits
  import opened RleSpec
  import opened RleRows
  import opened PlanarSpec

  const NO_LINE := -1

  /** Every fourth byte from `chan` on: one plane of the image. */
  function Channel(buf: seq<byte>, chan: nat, n: nat): (p: seq<byte>)
    requires chan < 4 && 4 * n <= |buf|
    ensures |p| == n
  {
    seq(n, i requires 0 <= i < n => buf[4 * i + chan])
  }

  /** The buffers agree outside plane `chan`. */
  ghost predicate SameElsewhere(was: seq<byte>, now: seq<byte>, chan: nat, n: nat) {
    |now| == |was| && forall i :: 0 <= i < |was| && (i % 4 != chan || i >= 4 * n) ==> now[i] == was[i]
  }

  /** The image buffer holds the plane bytes written so far, and is otherwise as it was. */
  ghost predicate Holds(buf: seq<byte>, was: seq<byte>, out: seq<byte>, chan: nat, width: nat, height: nat)
    requires chan < 4 && 4 * (height * width) <= |was|
  {
    && SameElsewhere(was, buf, chan, height * width) && |out| <= height * width
    && Channel(buf, chan, height * width) == Place(Channel(was, chan, height * width), out, width, height)
  }

  lemma {:induction false} ChannelWrite(buf: seq<byte>, chan: nat, n: nat, pos: nat, v: byte)
    requires chan < 4 && 4 * n <= |buf| && pos < n
    ensures Channel(buf[4 * pos + chan := v], chan, n) == Channel(buf, chan, n)[pos := v]
  {
  }

  /** Where the next byte of line `row` goes, and the byte above it. */
  lemma {:induction false} NextByteAt(buf: seq<byte>, was: seq<byte>, out: seq<byte>, chan: nat, width: nat, height: nat, row: nat, x: nat)
    requires chan < 4 && 4 * (height * width) <= |was| && Holds(buf, was, out, chan, width, height)
    requires row < height && x < width && |out| == row * width + x
    ensures |out| < height * width && 0 <= (height - 1 - row) * width + x < height * width
    ensures PosOf(|out|, width, height) == (height - 1 - row) * width + x
    ensures row == 0 ==> AboveOf(out, width) == None
    ensures row > 0 ==> 0 <= (height - row) * width + x < height * width
                        && AboveOf(out, width) == Some(buf[4 * ((height - row) * width + x) + chan])
  {
    var n := height * width;
    PosAt(row, x, width, height);
    assert |out| < n by {
      Distribute(row, 1, width);
      Distribute(row + 1, height - 1 - row, width);
      MulNonNegative(height - 1 - row, width);
    }
    if row > 0 {
      Distribute(row - 1, 1, width);
      MulNonNegative(row - 1, width);
      PosAt(row - 1, x, width, height);
      PlacedAt(Channel(was, chan, n), out, |out| - width, width, height);
      assert Channel(buf, chan, n)[(height - row) * width + x] == out[|out| - width];
    }
  }

  lemma HoldsElsewhere(buf: seq<byte>, was: seq<byte>, out: seq<byte>, chan: nat, width: nat, height: nat)
    requires chan < 4 && 4 * (height * width) <= |was| && Holds(buf, was, out, chan, width, height)
    ensures SameElsewhere(was, buf, chan, height * width)
  {
  }

  lemma HoldsSize(buf: seq<byte>, was: seq<byte>, out: seq<byte>, chan: nat, width: nat, height: nat)
    requires chan < 4 && 4 * (height * width) <= |was| && Holds(buf, was, out, chan, width, height)
    ensures |buf| == |was|
  {
  }

  lemma {:induction false} WriteElsewhere(was: seq<byte>, buf: seq<byte>, chan: nat, n: nat, pos: nat, v: byte)
    requires chan < 4 && 4 * n <= |was| && pos < n && SameElsewhere(was, buf, chan, n)
    ensures SameElsewhere(was, buf[4 * pos + chan := v], chan, n)
  {
  }

  lemma {:induction false} EmitHolds(buf: seq<byte>, was: seq<byte>, out: seq<byte>, v: byte, chan: nat, width: nat, height: nat, pos: nat)
    requires chan < 4 && 4 * (height * width) <= |was| && Holds(buf, was, out, chan, width, height)
    requires width > 0 && |out| < height * width && pos < height * width && pos == PosOf(|out|, width, height)
    ensures Holds(buf[4 * pos + chan := v], was, out + [v], chan, width, height)
  {
    var n := height * width;
    ChannelWrite(buf, chan, n, pos, v);
    PlaceNext(Channel(was, chan, n), out, v, width, height);
    WriteElsewhere(was, buf, chan, n, pos, v);
  }

  /** Lines and columns of one plane: the byte index of the current and the previous line. */
  datatype Cursor = Cursor(row: nat, line: int, lastLine: int)

  predicate CursorOk(k: Cursor, chan: nat, width: nat, height: nat) {
    && k.row < height && k.line == 4 * ((height - 1 - k.row) * width) + chan
    && k.lastLine == (if k.row == 0 then NO_LINE else 4 * ((height - k.row) * width) + chan)
  }

  /** `x = last_line[indexw * 4] + color; *out = x`, or `*out = color` on the first line. */
  method WriteByte(output: array<byte>, k: Cursor, x: nat, colour: int, chan: nat, width: nat, height: nat,
                   ghost was: seq<byte>, ghost s: Flow)
    requires chan < 4 && 4 * (height * width) <= |was| && CursorOk(k, chan, width, height)
    requires Holds(output[..], was, s.out, chan, width, height)
    requires x == s.x < width && |s.out| == k.row * width + x
    modifies output
    ensures Holds(output[..], was, Emit(s, colour, width).out, chan, width, height)
  {
    HoldsSize(output[..], was, s.out, chan, width, height);
    ghost var pos, above := ByteAt(output[..], k, x, chan, width, height, was, s);
    hide Holds, SameElsewhere, Channel, Place, PosOf, AboveOf, CursorOk;
    var v: byte;
    if k.lastLine == NO_LINE {
      v := colour % 256;
    } else {
      v := (output[k.lastLine + 4 * x] as int + colour) % 256;
    }
    EmitHolds(output[..], was, s.out, v, chan, width, height, pos);
    ghost var target := output[..][4 * pos + chan := v];
    output[k.line + 4 * x] := v;
    assert output[..] == target;
  }

  /** The cursor's indices are those of the next byte and of the byte above it. */
  lemma ByteAt(buf: seq<byte>, k: Cursor, x: nat, chan: nat, width: nat, height: nat, was: seq<byte>, s: Flow)
    returns (pos: nat, above: Option<byte>)
    requires chan < 4 && 4 * (height * width) <= |was| == |buf| && CursorOk(k, chan, width, height)
    requires Holds(buf, was, s.out, chan, width, height)
    requires x == s.x < width && |s.out| == k.row * width + x
    ensures |s.out| < height * width && pos == PosOf(|s.out|, width, height) < height * width
    ensures k.line + 4 * x == 4 * pos + chan < |buf|
    ensures above == AboveOf(s.out, width)
    ensures if k.lastLine == NO_LINE then above == None
            else 0 <= k.lastLine + 4 * x < |buf| && above == Some(buf[k.lastLine + 4 * x])
  {
    NextByteAt(buf, was, s.out, chan, width, height, k.row, x);
    hide Holds, SameElsewhere, Channel, Place, PosOf, AboveOf;
    pos, above := (height - 1 - k.row) * width + x, AboveOf(s.out, width);
    if k.row > 0 {
      MulNonNegative(height - k.row, width);
    }
  }

  /** A coded byte: on lines below the first, the low bit is the sign and the rest the magnitude. */
  method ReadColour(code: byte, first: bool) returns (colour: int)
    ensures colour == ColourOf(code, first)
  {
    colour := code;
    if !first {
      if colour % 2 == 1 {
        colour := colour / 2;
        colour := colour + 1;
        colour := -colour;
      } else {
        colour := colour / 2;
      }
    }
  }

  lemma CursorFirst(k: Cursor, chan: nat, width: nat, height: nat)
    requires CursorOk(k, chan, width, height)
    ensures k.lastLine == NO_LINE <==> k.row == 0
  {
    if k.row > 0 {
      MulNonNegative(height - k.row, width);
    }
  }

  lemma EmitGrows(s: Flow, colour: int, width: nat)
    ensures var t := Emit(s, colour, width);
            |t.out| == |s.out| + 1 && t.x == s.x + 1 && t.ip == s.ip && t.colour == colour
  {
  }

  lemma RawNext(input: seq<byte>, s: Flow, left: nat, width: nat)
    requires s.ip < |input| && s.x < width && left > 0
    ensures RawPart(input, s, left, width)
         == RawPart(input, Emit(s.(ip := s.ip + 1), ColourOf(input[s.ip], |s.out| < width), width), left - 1, width)
  {
  }

  /** One raw value: read its colour and write the byte. */
  method WriteRawByte(output: array<byte>, k: Cursor, input: seq<byte>, ghost left: nat, chan: nat, width: nat, height: nat,
                      ip: nat, x: nat, ghost was: seq<byte>, ghost s: Flow)
    returns (colour: int, ghost t: Flow)
    requires chan < 4 && 4 * (height * width) <= |was| && CursorOk(k, chan, width, height)
    requires Holds(output[..], was, s.out, chan, width, height) && |s.out| == k.row * width + x
    requires s.ip == ip < |input| && s.x == x < width && left > 0
    modifies output
    ensures Holds(output[..], was, t.out, chan, width, height) && |t.out| == k.row * width + x + 1
    ensures t.ip == ip + 1 && t.x == x + 1 && t.colour == colour
    ensures RawPart(input, t, left - 1, width) == RawPart(input, s, left, width)
  {
    FirstLine(|s.out|, k.row, x, width);
    CursorFirst(k, chan, width, height);
    EmitGrows(s.(ip := ip + 1), ColourOf(input[ip], |s.out| < width), width);
    RawNext(input, s, left, width);
    hide Holds, CursorOk, ColourOf, RawPart, Emit;
    colour := ReadColour(input[ip], k.lastLine == NO_LINE);
    ghost var s1 := s.(ip := ip + 1);
    WriteByte(output, k, x, colour, chan, width, height, was, s1);
    t := Emit(s1, colour, width);
  }

  /** `while (indexw < width && collen > 0)`. */
  method WriteRaw(output: array<byte>, k: Cursor, input: seq<byte>, n: nat, chan: nat, width: nat, height: nat,
                  ip0: nat, x0: nat, colour0: int, ghost was: seq<byte>, ghost s0: Flow)
    returns (ok: bool, ip: nat, x: nat, colour: int, ghost s: Flow)
    requires chan < 4 && 4 * (height * width) <= |was| && CursorOk(k, chan, width, height)
    requires Holds(output[..], was, s0.out, chan, width, height) && x0 <= width && |s0.out| == k.row * width + x0
    requires s0.ip == ip0 && s0.x == x0 && s0.colour == colour0
    modifies output
    ensures ok == RawPart(input, s0, n, width).Some?
    ensures ok ==> RawPart(input, s0, n, width) == Some(s) && Holds(output[..], was, s.out, chan, width, height)
    ensures ok ==> s.ip == ip && s.x == x <= width && s.colour == colour && |s.out| == k.row * width + x
    ensures SameElsewhere(was, output[..], chan, height * width)
  {
    ok, ip, x, colour, s := true, ip0, x0, colour0, s0;
    var left := n;
    while x < width && left > 0
      invariant Holds(output[..], was, s.out, chan, width, height)
      invariant s.ip == ip && s.x == x <= width && s.colour == colour && |s.out| == k.row * width + x
      invariant RawPart(input, s, left, width) == RawPart(input, s0, n, width)
    {
      if ip >= |input| {
        return false, ip, x, colour, s;
      }
      colour, s := WriteRawByte(output, k, input, left, chan, width, height, ip, x, was, s);
      ip, x, left := ip + 1, x + 1, left - 1;
    }
  }

  lemma {:induction false} FirstLine(n: nat, row: nat, x: nat, width: nat)
    requires n == row * width + x && x < width
    ensures n < width <==> row == 0
  {
    if row > 0 {
      MulAtLeast(row, width);
    }
  }

  /** `while (indexw < width && replen > 0)`. */
  method WriteRun(output: array<byte>, k: Cursor, n: nat, chan: nat, width: nat, height: nat,
                  x0: nat, colour: int, ghost was: seq<byte>, ghost s0: Flow)
    returns (x: nat, ghost s: Flow)
    requires chan < 4 && 4 * (height * width) <= |was| && CursorOk(k, chan, width, height)
    requires Holds(output[..], was, s0.out, chan, width, height) && x0 <= width && |s0.out| == k.row * width + x0
    requires s0.x == x0 && s0.colour == colour
    modifies output
    ensures RunPart(s0, n, width) == s && Holds(output[..], was, s.out, chan, width, height)
    ensures s.ip == s0.ip && s.x == x <= width && s.colour == colour && |s.out| == k.row * width + x
  {
    x, s := x0, s0;
    var left := n;
    while x < width && left > 0
      invariant Holds(output[..], was, s.out, chan, width, height)
      invariant s.ip == s0.ip && s.x == x <= width && s.colour == colour && |s.out| == k.row * width + x
      invariant RunPart(s, left, width) == RunPart(s0, n, width)
    {
      WriteByte(output, k, x, colour, chan, width, height, was, s);
      s := Emit(s, colour, width);
      x, left := x + 1, left - 1;
    }
  }

  lemma LineNext(input: seq<byte>, s: Flow, width: nat)
    requires s.x < width
    ensures Line(input, s, width)
         == if s.ip >= |input| then None
            else
              var r := RawPart(input, s.(ip := s.ip + 1), Control(input[s.ip]).0, width);
              if r.None? then None else Line(input, RunPart(r.value, Control(input[s.ip]).1, width), width)
  {
    hide RawPart, RunPart, Control;
  }

  lemma LineFull(input: seq<byte>, s: Flow, width: nat)
    requires s.x >= width
    ensures Line(input, s, width) == Some(s)
  {
  }

  lemma ControlIs(code: byte)
    ensures var rev := code % 16 * 16 + code / 16;
            Control(code) == if 16 <= rev <= 47 then (0, rev) else (code / 16, code % 16)
  {
  }

  /** One line: control bytes until it is full. */
  method WriteLine(output: array<byte>, k: Cursor, input: seq<byte>, chan: nat, width: nat, height: nat,
                   ip0: nat, ghost was: seq<byte>, ghost out: seq<byte>)
    returns (ok: bool, ip: nat, ghost s: Flow)
    requires chan < 4 && 4 * (height * width) <= |was| && CursorOk(k, chan, width, height)
    requires Holds(output[..], was, out, chan, width, height) && |out| == k.row * width
    modifies output
    ensures ok == Line(input, Flow(ip0, out, 0, 0), width).Some?
    ensures ok ==> Line(input, Flow(ip0, out, 0, 0), width) == Some(s) && Holds(output[..], was, s.out, chan, width, height)
    ensures ok ==> s.ip == ip && |s.out| == k.row * width + width
    ensures SameElsewhere(was, output[..], chan, height * width)
  {
    hide Line, RawPart, RunPart, Holds, CursorOk, Control;
    var x, colour := 0, 0;
    ok, ip, s := true, ip0, Flow(ip0, out, 0, 0);
    while x < width
      invariant Holds(output[..], was, s.out, chan, width, height)
      invariant s.ip == ip && s.x == x <= width && s.colour == colour && |s.out| == k.row * width + x
      invariant Line(input, s, width) == Line(input, Flow(ip0, out, 0, 0), width)
      decreases |input| - ip
    {
      LineNext(input, s, width);
      HoldsSize(output[..], was, s.out, chan, width, height);
      if ip >= |input| {
        HoldsElsewhere(output[..], was, s.out, chan, width, height);
        return false, ip, s;
      }
      var code := input[ip];
      ControlIs(code);
      var replen, collen := code % 16, code / 16;
      var revcode := replen * 16 + collen;
      if revcode <= 47 && revcode >= 16 {
        replen, collen := revcode, 0;
      }
      s := s.(ip := ip + 1);
      ok, ip, x, colour, s := WriteRaw(output, k, input, collen, chan, width, height, ip + 1, x, colour, was, s);
      if !ok {
        return;
      }
      x, s := WriteRun(output, k, replen, chan, width, height, x, colour, was, s);
    }
    LineFull(input, s, width);
    HoldsElsewhere(output[..], was, s.out, chan, width, height);
  }

  /** One plane, from the bottom line up; `ip` is where the next plane starts. */
  method ProcessPlane(output: array<byte>, chan: nat, width: nat, height: nat, input: seq<byte>, ip0: nat)
    returns (ok: bool, ip: nat)
    requires chan < 4 && 4 * (height * width) <= output.Length
    modifies output
    ensures match Plane(input, ip0, [], height, width)
            case None => !ok
            case Some(r) => ok && ip == r.ip && Holds(output[..], old(output[..]), r.out, chan, width, height)
    ensures SameElsewhere(old(output[..]), output[..], chan, height * width)
  {
    ghost var was, out: seq<byte> := output[..], [];
    ok, ip := true, ip0;
    var indexh, lastLine := 0, NO_LINE;
    while indexh < height
      invariant indexh <= height && Holds(output[..], was, out, chan, width, height) && |out| == indexh * width
      invariant lastLine == if indexh == 0 then NO_LINE else 4 * ((height - indexh) * width) + chan
      invariant Plane(input, ip, out, height - indexh, width) == Plane(input, ip0, [], height, width)
    {
      var line := 4 * ((height - 1 - indexh) * width) + chan;
      ghost var s;
      ok, ip, s := WriteLine(output, Cursor(indexh, line, lastLine), input, chan, width, height, ip, was, out);
      if !ok {
        return;
      }
      out := s.out;
      Distribute(indexh, 1, width);
      indexh, lastLine := indexh + 1, line;
    }
  }
}
