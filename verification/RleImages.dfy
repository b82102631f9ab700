/** What the linear decoding produces: how many pixels, where they end up, and that every image has a code. */
module RleImages {
  import opened Arith
  import opened Options
  import opened Bits
  import opened RleSpec
  import opened RleRows

  // ---- How many pixels ----

  /** Pixels an order is to draw: a two-colour order draws its count twice. */
  function RunLength(op: int, count: nat): (n: nat) {
    if op == BICOLOUR then 2 * count else count
  }

  /** What drawing a pixel does to the count and the two-colour state. */
  lemma InkCounts(op: int, pen: Pen, above: Option<Pixel>, input: seq<byte>, bpp: nat)
    requires pen.count > 0
    ensures var r := Ink(op, pen, above, input, bpp);
            r.Some? ==> var p := r.value.pen;
                        && p.bicolour == (if op == BICOLOUR then !pen.bicolour else pen.bicolour)
                        && p.count == if op == BICOLOUR && !pen.bicolour then pen.count else pen.count - 1
  {
  }

  lemma {:induction false} RunDraws(op: int, pen: Pen, out: seq<Pixel>, input: seq<byte>, width: nat, total: nat, bpp: nat)
    requires |out| <= total
    ensures var d := DrawRun(op, pen, out, input, width, total, bpp);
            d.status == Good ==>
              && |d.out| == |out| + RunLength(op, pen.count) - (if op == BICOLOUR && pen.bicolour && pen.count > 0 then 1 else 0)
              && d.pen.bicolour == (pen.bicolour && !(op == BICOLOUR && pen.count > 0))
    decreases total - |out|
  {
    if pen.count > 0 && |out| < total && Draws(op) {
      InkCounts(op, pen, AboveOf(out, width), input, bpp);
      hide Ink, AboveOf;
      match Ink(op, pen, AboveOf(out, width), input, bpp) {
        case None =>
        case Some(inked) => RunDraws(op, inked.pen, out + [inked.pixel], input, width, total, bpp);
      }
    }
  }

  /** The sum of the run lengths of the orders that are carried out. */
  function Lengths(pen: Pen, out: seq<Pixel>, input: seq<byte>, width: nat, total: nat, bpp: nat): (n: nat)
    requires |out| <= total
    decreases |input| - pen.ip
  {
    if pen.ip >= |input| then 0
    else
      match ReadHeader(input, pen.ip)
      case None => 0
      case Some(h) =>
        match ReadOperands(input, pen, |out|, width, h, bpp)
        case None => 0
        case Some((op, p)) =>
          DrawRunReadsOn(op, p, out, input, width, total, bpp);
          var d := DrawRun(op, p, out, input, width, total, bpp);
          RunLength(op, h.count) + Lengths(d.pen, d.out, input, width, total, bpp)
  }

  lemma OperandsKeep(input: seq<byte>, pen: Pen, written: nat, width: nat, h: Header, bpp: nat)
    ensures var r := ReadOperands(input, pen, written, width, h, bpp);
            r.Some? ==> r.value.1.count == h.count && r.value.1.bicolour == pen.bicolour && r.value.1.ip >= h.next
  {
    hide ReadPixel;
  }

  /** Decoding carries out the next order and goes on, or fails. */
  lemma {:induction false} NextOrder(pen: Pen, out: seq<Pixel>, input: seq<byte>, width: nat, total: nat, bpp: nat)
    returns (good: bool, op: int, p: Pen, d: Drawn)
    requires |out| <= total && pen.ip < |input|
    ensures if good then
              && d == DrawRun(op, p, out, input, width, total, bpp) && d.status == Good
              && p.bicolour == pen.bicolour && d.pen.ip > pen.ip && |d.out| <= total
              && Decode(pen, out, input, width, total, bpp) == Decode(d.pen, d.out, input, width, total, bpp)
              && Lengths(pen, out, input, width, total, bpp)
              == RunLength(op, p.count) + Lengths(d.pen, d.out, input, width, total, bpp)
            else Decode(pen, out, input, width, total, bpp).status != Good
  {
    hide DrawRun, Ink, RunLength;
    good, op, p, d := false, 0, pen, Drawn(Refused, pen, out);
    match ReadHeader(input, pen.ip) {
      case None =>
      case Some(h) =>
        OperandsKeep(input, pen, |out|, width, h, bpp);
        hide ReadOperands, ReadHeader;
        match ReadOperands(input, pen, |out|, width, h, bpp) {
          case None =>
          case Some((o, q)) =>
            DrawRunReadsOn(o, q, out, input, width, total, bpp);
            op, p, d := o, q, DrawRun(o, q, out, input, width, total, bpp);
            good := d.status == Good;
        }
    }
  }

  /** An image that decodes has exactly as many pixels as its orders' run lengths add up to. */
  lemma {:induction false} DecodeDraws(pen: Pen, out: seq<Pixel>, input: seq<byte>, width: nat, total: nat, bpp: nat)
    requires |out| <= total && !pen.bicolour
    ensures var d := Decode(pen, out, input, width, total, bpp);
            d.status == Good ==> |d.out| == |out| + Lengths(pen, out, input, width, total, bpp)
    decreases |input| - pen.ip
  {
    if pen.ip < |input| {
      var good, op, p, d := NextOrder(pen, out, input, width, total, bpp);
      if good {
        RunDraws(op, p, out, input, width, total, bpp);
        hide *;
        DecodeDraws(d.pen, d.out, input, width, total, bpp);
      }
    }
  }

  /** Every position of the image is that of exactly one of its pixels. */
  lemma {:induction false} PositionsCovered(i: nat, width: nat, height: nat) returns (p: nat)
    requires width > 0 && i < height * width
    ensures p < height * width && PosOf(p, width, height) == i
    ensures forall q: nat :: PosOf(q, width, height) == i ==> q == p
  {
    var line, x := i / width, i % width;
    assert i == line * width + x by { MulComm(line, width); }
    if line >= height {
      Distribute(line - height, height, width);
      MulNonNegative(line - height, width);
    }
    var row := height - 1 - line;
    MulNonNegative(row, width);
    p := row * width + x;
    PosAt(row, x, width, height);
    Distribute(row, 1, width);
    Distribute(row + 1, line, width);
    MulNonNegative(line, width);
    forall q: nat | PosOf(q, width, height) == i ensures q == p {
      PosInjective(p, q, width, height);
    }
  }

  // ---- Order headers ----

  predicate Masked(op: int) {
    op == FILL_OR_MIX || op == SET_MIX_FILL_OR_MIX
  }

  /** The shortest header for order code `op` below 9 and run length `n`. */
  function HeaderCode(op: int, n: nat): (code: seq<byte>)
    requires 0 <= op < 9 && op != 5 && 1 <= n < 0x1_0000
  {
    var base: byte := if op < 5 then 32 * op else 16 * (op + 6);
    var most := if op < 5 then 32 else 16;
    if Masked(op) then
      if n % 8 == 0 && n / 8 < most then [base + n / 8]
      else if n <= 256 then [base, n - 1]
      else [0xf0 + op, n % 256, n / 256]
    else
      if n < most then [base + n]
      else if n - most < 256 then [base, n - most]
      else [0xf0 + op, n % 256, n / 256]
  }

  /** The header reader inverts the header code, wherever the header stands. */
  lemma {:induction false} HeaderRead(before: seq<byte>, op: int, n: nat, rest: seq<byte>)
    requires 0 <= op < 9 && op != 5 && 1 <= n < 0x1_0000
    ensures var code := HeaderCode(op, n);
            ReadHeader(before + code + rest, |before|) == Some(Header(op, n, |before| + |code|))
  {
    var code := HeaderCode(op, n);
    var input, ip := before + code + rest, |before|;
    assert input[ip] == code[0];
    if |code| == 1 {
      OneByteHeader(op, n, input, ip);
    } else if |code| == 2 {
      assert input[ip + 1] == code[1];
      TwoByteHeader(op, n, input, ip);
    } else {
      hide ReadHeader, HeaderCode;
      ThreeByteCode(op, n);
      assert input[ip + 1] == code[1] && input[ip + 2] == code[2];
      ThreeByteHeader(op, n, input, ip);
    }
  }

  lemma OneByteHeader(op: int, n: nat, input: seq<byte>, ip: nat)
    requires 0 <= op < 9 && op != 5 && 1 <= n < 0x1_0000 && |HeaderCode(op, n)| == 1
    requires ip < |input| && input[ip] == HeaderCode(op, n)[0]
    ensures ReadHeader(input, ip) == Some(Header(op, n, ip + 1))
  {
    hide ReadHeader;
    if op < 5 {
      RegularHeader(op, if Masked(op) then n / 8 else n, input, ip);
    } else {
      LiteHeader(op, if Masked(op) then n / 8 else n, input, ip);
    }
  }

  lemma RegularHeader(op: nat, k: nat, input: seq<byte>, ip: nat)
    requires op < 5 && 1 <= k < 32 && ip < |input| && input[ip] == 32 * op + k
    ensures ReadHeader(input, ip) == Some(Header(op, if Masked(op) then 8 * k else k, ip + 1))
  {
    assert input[ip] / 16 == 2 * op + k / 16 && input[ip] % 32 == k;
  }

  lemma LiteHeader(op: nat, k: nat, input: seq<byte>, ip: nat)
    requires 6 <= op < 9 && 1 <= k < 16 && ip < |input| && input[ip] == 16 * (op + 6) + k
    ensures ReadHeader(input, ip) == Some(Header(op, if Masked(op) then 8 * k else k, ip + 1))
  {
    assert input[ip] / 16 == op + 6 && input[ip] % 16 == k;
  }

  lemma TwoByteHeader(op: int, n: nat, input: seq<byte>, ip: nat)
    requires 0 <= op < 9 && op != 5 && 1 <= n < 0x1_0000 && |HeaderCode(op, n)| == 2
    requires ip + 1 < |input| && input[ip] == HeaderCode(op, n)[0] && input[ip + 1] == HeaderCode(op, n)[1]
    ensures ReadHeader(input, ip) == Some(Header(op, n, ip + 2))
  {
  }

  lemma ThreeByteCode(op: int, n: nat)
    requires 0 <= op < 9 && op != 5 && 1 <= n < 0x1_0000
    ensures 1 <= |HeaderCode(op, n)| <= 3
    ensures |HeaderCode(op, n)| == 3 ==> HeaderCode(op, n) == [0xf0 + op, n % 256, n / 256]
  {
  }

  lemma ThreeByteHeader(op: int, n: nat, input: seq<byte>, ip: nat)
    requires 0 <= op < 9 && op != 5 && 1 <= n < 0x1_0000 && ip + 2 < |input|
    requires input[ip] == 0xf0 + op && input[ip + 1] == n % 256 && input[ip + 2] == n / 256
    ensures ReadHeader(input, ip) == Some(Header(op, n, ip + 3))
  {
  }

  /**
   All codes of order `op` and run length `n`: a count in the first byte, one byte behind it, two bytes
   behind a byte of the highest form, or none for the orders of fixed length.
   */
  predicate IsHeaderCode(code: seq<byte>, op: int, n: nat) {
    var base, most := if op < 6 then 32 * op else 16 * (op + 6), if op < 6 then 32 else 16;
    if 0 <= op < 9 then
      || (|code| == 1 && base < code[0] < base + most && n == (code[0] - base) * if Masked(op) then 8 else 1)
      || (|code| == 2 && code[0] == base && n == code[1] as int + if Masked(op) then 1 else most)
      || (|code| == 3 && code[0] == 0xf0 + op && n == code[1] as int + 256 * (code[2] as int))
    else 9 <= op < 16 && code == [0xf0 + op] && n == if op < 11 then 8 else 1
  }

  lemma ReadIsCode(input: seq<byte>, ip: nat)
    requires ip < |input| && ReadHeader(input, ip).Some?
    ensures var h := ReadHeader(input, ip).value;
            ip < h.next <= |input| && IsHeaderCode(input[ip..h.next], h.op, h.count)
  {
    var b := input[ip];
    assert b == 16 * (b / 16) + b % 16 && b == 32 * (b / 32) + b % 32 && b / 16 / 2 == b / 32;
  }

  lemma CodeIsRead(input: seq<byte>, ip: nat, op: int, n: nat, size: nat)
    requires ip + size <= |input| && IsHeaderCode(input[ip..ip + size], op, n)
    ensures ip < |input| && ReadHeader(input, ip) == Some(Header(op, n, ip + size))
  {
    var b := input[ip];
    var code := input[ip..ip + size];
    assert code[0] == b && (size > 1 ==> code[1] == input[ip + 1]) && (size > 2 ==> code[2] == input[ip + 2]);
    if size == 3 || op >= 9 {
      assert b / 16 == 15 && b % 16 == op;
    } else if op < 6 {
      assert b == 32 * op + (b - 32 * op) && 0 <= b - 32 * op < 32;
      assert b / 16 / 2 == op && b / 16 < 12 && b % 32 == b - 32 * op;
    } else {
      assert b / 16 == op + 6 && b % 16 == b - 16 * (op + 6);
    }
  }

  /** What the reader reads is what the codes say, in every form. */
  lemma {:induction false} HeaderInverse(input: seq<byte>, ip: nat, op: int, n: nat, size: nat)
    requires ip < |input|
    ensures ReadHeader(input, ip) == Some(Header(op, n, ip + size))
       <==> ip + size <= |input| && IsHeaderCode(input[ip..ip + size], op, n)
  {
    hide ReadHeader, IsHeaderCode;
    if ReadHeader(input, ip).Some? {
      ReadIsCode(input, ip);
    }
    if ip + size <= |input| && IsHeaderCode(input[ip..ip + size], op, n) {
      CodeIsRead(input, ip, op, n, size);
    }
  }

  // ---- Every image has a code ----

  predicate WellSized(img: seq<Pixel>, bpp: nat) {
    forall i :: 0 <= i < |img| ==> |img[i]| == bpp
  }

  /** Length of the leading run of equal pixels, at most what a header can carry. */
  function LeadingRun(img: seq<Pixel>, most: nat): (n: nat)
    requires |img| > 0 && most >= 1
    ensures 1 <= n <= |img| && n <= most && forall i :: 0 <= i < n ==> img[i] == img[0]
  {
    if most == 1 || |img| == 1 || img[1] != img[0] then 1
    else 1 + LeadingRun(img[1..], most - 1)
  }

  function EncodeImage(img: seq<Pixel>): (code: seq<byte>) {
    if |img| == 0 then []
    else
      var n := LeadingRun(img, 0xffff);
      HeaderCode(COLOUR, n) + img[0] + EncodeImage(img[n..])
  }

  lemma {:induction false} ColourRun(pen: Pen, out: seq<Pixel>, img: seq<Pixel>, input: seq<byte>, width: nat, total: nat, bpp: nat)
    requires |out| + pen.count <= total && pen.count <= |img|
    requires forall i :: 0 <= i < pen.count ==> img[i] == pen.colour2
    ensures DrawRun(COLOUR, pen, out, input, width, total, bpp) == Drawn(Good, pen.(count := 0), out + img[..pen.count])
    decreases pen.count
  {
    if pen.count > 0 {
      ColourRun(pen.(count := pen.count - 1), out + [pen.colour2], img[1..], input, width, total, bpp);
      assert out + [pen.colour2] + img[1..][..pen.count - 1] == out + img[..pen.count];
    } else {
      assert out + img[..0] == out;
    }
  }

  /** A colour order is read and drawn, and decoding goes on behind it. */
  lemma {:induction false} ColourOrder(before: seq<byte>, pen: Pen, out: seq<Pixel>, run: seq<Pixel>, c: Pixel, tail: seq<byte>,
                                       width: nat, total: nat, bpp: nat) returns (p: Pen)
    requires pen.ip == |before| && 1 <= |run| < 0x1_0000 && |out| + |run| <= total && |c| == bpp
    requires forall i :: 0 <= i < |run| ==> run[i] == c
    ensures var head := HeaderCode(COLOUR, |run|);
            var input := before + head + (c + tail);
            && p.ip == |before| + |head| + bpp
            && Decode(pen, out, input, width, total, bpp) == Decode(p, out + run, input, width, total, bpp)
  {
    var n, head := |run|, HeaderCode(COLOUR, |run|);
    var input := before + head + (c + tail);
    HeaderRead(before, COLOUR, n, c + tail);
    var next := |before| + |head|;
    assert input[next..next + bpp] == c;
    var q := pen.(ip := next + bpp, count := n, fomMask := 0, mixMask := 0, colour2 := c, lastOp := COLOUR);
    assert ReadOperands(input, pen, |out|, width, Header(COLOUR, n, next), bpp) == Some((COLOUR, q));
    ColourRun(q, out, run, input, width, total, bpp);
    assert run[..n] == run;
    p := q.(count := 0);
  }

  /** An image with a pixel is a run and a shorter image. */
  lemma {:induction false} SplitImage(out: seq<Pixel>, img: seq<Pixel>, bpp: nat) returns (run: seq<Pixel>, img': seq<Pixel>)
    requires |img| > 0 && WellSized(img, bpp)
    ensures 1 <= |run| < 0x1_0000 && |run| <= |img| && |img'| < |img| && WellSized(img', bpp)
    ensures (forall i :: 0 <= i < |run| ==> run[i] == img[0])
    ensures EncodeImage(img) == HeaderCode(COLOUR, |run|) + img[0] + EncodeImage(img')
    ensures (out + run) + img' == out + img
  {
    var n := LeadingRun(img, 0xffff);
    run, img' := img[..n], img[n..];
  }

  /** The first run of an image's code is read and drawn: what is left is a smaller such problem. */
  lemma {:induction false} FirstRun(before: seq<byte>, pen: Pen, out: seq<Pixel>, img: seq<Pixel>, width: nat, total: nat, bpp: nat)
    returns (before': seq<byte>, p: Pen, out': seq<Pixel>, img': seq<Pixel>)
    requires pen.ip == |before| && |img| > 0 && |out| + |img| <= total && WellSized(img, bpp)
    ensures p.ip == |before'| && |img'| < |img| && out' + img' == out + img && WellSized(img', bpp)
    ensures Decode(p, out', before' + EncodeImage(img'), width, total, bpp)
            == Decode(pen, out, before + EncodeImage(img), width, total, bpp)
  {
    var run, c := [], img[0];
    run, img' := SplitImage(out, img, bpp);
    out' := out + run;
    var head, tail := HeaderCode(COLOUR, |run|), EncodeImage(img');
    p := ColourOrder(before, pen, out, run, c, tail, width, total, bpp);
    before' := before + head + c;
    Rebracket(before, head, c, tail);
  }

  lemma {:induction false} ImageDecodes(before: seq<byte>, pen: Pen, out: seq<Pixel>, img: seq<Pixel>, width: nat, total: nat, bpp: nat)
    returns (q: Pen)
    requires pen.ip == |before| && |out| + |img| <= total && WellSized(img, bpp)
    ensures Decode(pen, out, before + EncodeImage(img), width, total, bpp) == Drawn(Good, q, out + img)
    decreases |img|
  {
    if |img| == 0 {
      q := pen;
      assert out + img == out;
    } else {
      var before', p, out', img' := FirstRun(before, pen, out, img, width, total, bpp);
      q := ImageDecodes(before', p, out', img', width, total, bpp);
    }
  }

  lemma {:induction false} Rebracket(a: seq<byte>, b: seq<byte>, c: seq<byte>, d: seq<byte>)
    ensures a + (b + c + d) == a + b + c + d == a + b + (c + d)
  {
  }

  /** Every image has a code that decodes to it. */
  lemma {:induction false} EveryImageHasACode(img: seq<Pixel>, width: nat, height: nat, bpp: nat)
    requires |img| == height * width && WellSized(img, bpp)
    ensures var d := Decode(InitialPen(bpp), [], EncodeImage(img), width, height * width, bpp);
            d.status == Good && d.out == img
  {
    assert [] + EncodeImage(img) == EncodeImage(img);
    var q := ImageDecodes([], InitialPen(bpp), [], img, width, height * width, bpp);
  }
}
