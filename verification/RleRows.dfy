/**
 Where the pixels go: the decoder fills its buffer line by line from the bottom up, and the line
 above is the one written before.
 */
module RleRows {
  import opened Arith

  /** Buffer position of the `p`-th pixel written. */
  function PosOf(p: nat, width: nat, height: nat): (pos: int)
    requires width > 0
  {
    (height - 1 - p / width) * width + p % width
  }

  lemma {:induction false} PosAt(row: nat, x: nat, width: nat, height: nat)
    requires x < width && row < height
    ensures PosOf(row * width + x, width, height) == (height - 1 - row) * width + x
    ensures 0 <= (height - 1 - row) * width + x < height * width
  {
    Divided(row, x, width);
    MulNonNegative(height - 1 - row, width);
    Distribute(height - 1 - row, 1, width);
    Distribute(height - 1 - row + 1, row, width);
    MulNonNegative(row, width);
  }

  lemma {:induction false} PosBounds(p: nat, width: nat, height: nat)
    requires width > 0 && p < height * width
    ensures 0 <= PosOf(p, width, height) < height * width
  {
    var row, x := p / width, p % width;
    assert p == row * width + x by { MulComm(row, width); }
    if row >= height {
      Distribute(row - height, height, width);
      MulNonNegative(row - height, width);
    }
    PosAt(row, x, width, height);
  }

  lemma {:induction false} MulComm(x: int, y: int)
    ensures x * y == y * x
  {
  }

  lemma {:induction false} PosInjective(p: nat, q: nat, width: nat, height: nat)
    requires width > 0 && PosOf(p, width, height) == PosOf(q, width, height)
    ensures p == q
  {
    var a, b := height - 1 - p / width, height - 1 - q / width;
    QuotientUnique(PosOf(p, width, height), width, a, p % width, b, q % width);
    MulComm(p / width, width);
    MulComm(q / width, width);
  }

  /** The buffer after the pixels `out` have been written one after the other. */
  function Place<T>(buf: seq<T>, out: seq<T>, width: nat, height: nat): (r: seq<T>)
    requires |out| <= height * width <= |buf|
    ensures |r| == |buf|
    decreases |out|
  {
    if |out| == 0 then buf
    else
      var n := |out| - 1;
      PosBounds(n, width, height);
      Place(buf, out[..n], width, height)[PosOf(n, width, height) := out[n]]
  }

  lemma {:induction false} PlaceNext<T>(buf: seq<T>, out: seq<T>, c: T, width: nat, height: nat)
    requires width > 0 && |out| < height * width <= |buf|
    ensures 0 <= PosOf(|out|, width, height) < |buf|
    ensures Place(buf, out + [c], width, height) == Place(buf, out, width, height)[PosOf(|out|, width, height) := c]
  {
    PosBounds(|out|, width, height);
    assert (out + [c])[..|out|] == out;
  }

  /** Each pixel written is found at its position: later pixels do not overwrite it. */
  lemma {:induction false} PlacedAt<T>(buf: seq<T>, out: seq<T>, p: nat, width: nat, height: nat)
    requires p < |out| <= height * width <= |buf| && width > 0
    ensures 0 <= PosOf(p, width, height) < |buf|
    ensures Place(buf, out, width, height)[PosOf(p, width, height)] == out[p]
    decreases |out|
  {
    var n := |out| - 1;
    PosBounds(n, width, height);
    PosBounds(p, width, height);
    if p < n {
      if PosOf(p, width, height) == PosOf(n, width, height) {
        PosInjective(p, n, width, height);
      }
      PlacedAt(buf, out[..n], p, width, height);
    }
  }

  /** Positions that no pixel was written to are as they were. */
  lemma {:induction false} NotPlacedAt<T>(buf: seq<T>, out: seq<T>, i: nat, width: nat, height: nat)
    requires |out| <= height * width <= |buf| && width > 0 && i < |buf|
    requires forall p: nat :: p < |out| ==> PosOf(p, width, height) != i
    ensures Place(buf, out, width, height)[i] == buf[i]
    decreases |out|
  {
    if |out| > 0 {
      PosBounds(|out| - 1, width, height);
      assert PosOf(|out| - 1, width, height) != i;
      NotPlacedAt(buf, out[..|out| - 1], i, width, height);
    }
  }

  // ---- The row machine ----

  const NULL := -1

  /** Line bookkeeping: lines left, and the buffer index of the current and the previous line. */
  datatype Row = Row(x: nat, height: nat, line: int, prevLine: int)

  /** The bookkeeping after `n` pixels of an image of `lines` lines. */
  ghost predicate RowAt(row: Row, n: nat, width: nat, lines: nat) {
    && row.x <= width && row.height <= lines
    && var started := lines - row.height;
       && (started == 0 ==> n == 0 && row.x == width && row.line == NULL && row.prevLine == NULL)
       && (started >= 1 ==> n == (started - 1) * width + row.x && row.line == row.height * width)
       && (started == 1 ==> row.prevLine == NULL)
       && (started >= 2 ==> row.prevLine == (row.height + 1) * width)
  }

  /** Start the next line. */
  function NextRow(row: Row, width: nat): (r: Row)
    requires row.height > 0
  {
    Row(0, row.height - 1, (row.height - 1) * width, row.line)
  }

  lemma {:induction false} NextRowAt(row: Row, n: nat, width: nat, lines: nat)
    requires RowAt(row, n, width, lines) && row.x >= width && row.height > 0
    ensures RowAt(NextRow(row, width), n, width, lines)
  {
    if lines - row.height >= 1 {
      Distribute(lines - row.height - 1, 1, width);
    }
  }

  /** A full line with no lines left means the image is full, and conversely. */
  lemma {:induction false} FullAt(row: Row, n: nat, width: nat, lines: nat)
    requires RowAt(row, n, width, lines) && row.x >= width
    ensures width > 0 ==> (row.height == 0 <==> n == lines * width)
    ensures n <= lines * width
  {
    var started := lines - row.height;
    if started >= 1 {
      Distribute(started - 1, 1, width);
      Distribute(started, row.height, width);
      MulNonNegative(row.height, width);
      if row.height > 0 && width > 0 {
        MulAtLeast(row.height, width);
      }
    } else {
      MulNonNegative(lines, width);
      if lines > 0 && width > 0 {
        MulAtLeast(lines, width);
      }
    }
  }
}
