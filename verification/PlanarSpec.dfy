/**
 One colour plane of the planar code ([MS-RDPEGDI] section 2.2.2.5.1), as the bytes it appends: raw
 values, then repeats; on every line but the first, values are differences to the line above.
 */
module PlanarSpec {
  import opened Options
  import opened Bits
  import opened RleSpec

  /** Sign in the low bit, magnitude above it. */
  function Delta(b: byte): (d: int)
    ensures -128 <= d <= 127
  {
    if b % 2 == 1 then -(b / 2 + 1) else b / 2
  }

  /** What a coded byte contributes: a value on the first line, a difference below it. */
  function ColourOf(b: byte, first: bool): (colour: int) {
    if first then b else Delta(b)
  }

  /** The byte written for a colour, modulo 256 as stored. */
  function Tinted(above: Option<byte>, colour: int): (v: byte) {
    match above
    case None => colour % 256
    case Some(a) => (a + colour) % 256
  }

  /** Input position, bytes written, column, and the colour that a run repeats. */
  datatype Flow = Flow(ip: nat, out: seq<byte>, x: nat, colour: int)

  function Emit(s: Flow, colour: int, width: nat): (r: Flow) {
    s.(out := s.out + [Tinted(AboveOf(s.out, width), colour)], x := s.x + 1, colour := colour)
  }

  function RawPart(input: seq<byte>, s: Flow, n: nat, width: nat): (r: Option<Flow>)
    ensures r.Some? ==> r.value.ip >= s.ip
    decreases n
  {
    if n == 0 || s.x >= width then Some(s)
    else if s.ip >= |input| then None
    else RawPart(input, Emit(s.(ip := s.ip + 1), ColourOf(input[s.ip], |s.out| < width), width), n - 1, width)
  }

  function RunPart(s: Flow, n: nat, width: nat): (r: Flow)
    ensures r.ip == s.ip
    decreases n
  {
    if n == 0 || s.x >= width then s else RunPart(Emit(s, s.colour, width), n - 1, width)
  }

  /** Raw count and run length of a control byte; swapped nibbles from 16 to 47 are a long run. */
  function Control(code: byte): (c: (nat, nat)) {
    var rev := code % 16 * 16 + code / 16;
    if 16 <= rev <= 47 then (0, rev) else (code / 16, code % 16)
  }

  /** Control bytes until the line is full. */
  function Line(input: seq<byte>, s: Flow, width: nat): (r: Option<Flow>)
    ensures r.Some? ==> r.value.ip >= s.ip
    decreases |input| - s.ip
  {
    if s.x >= width then Some(s)
    else if s.ip >= |input| then None
    else
      var (raw, run) := Control(input[s.ip]);
      match RawPart(input, s.(ip := s.ip + 1), raw, width)
      case None => None
      case Some(t) => Line(input, RunPart(t, run, width), width)
  }

  datatype PlaneRead = PlaneRead(ip: nat, out: seq<byte>)

  /** `lines` lines after `out`. */
  function Plane(input: seq<byte>, ip: nat, out: seq<byte>, lines: nat, width: nat): (r: Option<PlaneRead>)
    decreases lines
  {
    if lines == 0 then Some(PlaneRead(ip, out))
    else
      match Line(input, Flow(ip, out, 0, 0), width)
      case None => None
      case Some(s) => Plane(input, s.ip, s.out, lines - 1, width)
  }

  lemma {:induction false} RawGrows(input: seq<byte>, s: Flow, n: nat, width: nat)
    requires RawPart(input, s, n, width).Some? && s.x <= width
    ensures var r := RawPart(input, s, n, width).value; s.out <= r.out && |r.out| - |s.out| == r.x - s.x && r.x <= width
    decreases n
  {
    if n > 0 && s.x < width {
      RawGrows(input, Emit(s.(ip := s.ip + 1), ColourOf(input[s.ip], |s.out| < width), width), n - 1, width);
    }
  }

  lemma {:induction false} RunGrows(s: Flow, n: nat, width: nat)
    requires s.x <= width
    ensures var r := RunPart(s, n, width); s.out <= r.out && |r.out| - |s.out| == r.x - s.x && r.x <= width
    decreases n
  {
    if n > 0 && s.x < width {
      RunGrows(Emit(s, s.colour, width), n - 1, width);
    }
  }

  /** A line that is read is exactly full. */
  lemma {:induction false} LineFull(input: seq<byte>, s: Flow, width: nat)
    requires Line(input, s, width).Some? && s.x <= width
    ensures var r := Line(input, s, width).value; s.out <= r.out && |r.out| == |s.out| + width - s.x
    decreases |input| - s.ip
  {
    if s.x < width {
      var (raw, run) := Control(input[s.ip]);
      var s1 := s.(ip := s.ip + 1);
      RawGrows(input, s1, raw, width);
      var t := RawPart(input, s1, raw, width).value;
      RunGrows(t, run, width);
      LineFull(input, RunPart(t, run, width), width);
    }
  }
}
