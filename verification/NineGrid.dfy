/** The nine-grid renderer of orders.c: borders copied, the centre stretched or tiled. */
module NineGrid {
  import opened Arith
  import opened Bits

  /** One dimension of the source rectangle: first and last coordinate, and the border widths stored with the bitmap. */
  datatype Axis = Axis(first: int, last: int, before: nat, after: nat)

  function Extent(a: Axis): (n: int) {
    a.last - a.first + 1
  }

  /** Borders that do not fit are replaced by the two halves. */
  function Before(a: Axis): (n: nat)
    requires Extent(a) > 0
    ensures n <= Extent(a)
  {
    if a.before + a.after > Extent(a) then Extent(a) / 2 else a.before
  }

  function After(a: Axis): (n: nat)
    requires Extent(a) > 0
    ensures Before(a) + n <= Extent(a)
  {
    if a.before + a.after > Extent(a) then Extent(a) - Extent(a) / 2 else a.after
  }

  function Centre(a: Axis): (n: nat)
    requires Extent(a) > 0
  {
    Extent(a) - Before(a) - After(a)
  }

  /** The part of the destination that shows the first border, and the last. */
  function DstBefore(a: Axis, size: nat): (n: nat)
    requires Extent(a) > 0
    ensures n <= size && n <= Before(a)
  {
    if Before(a) < size then Before(a) else size
  }

  function DstAfter(a: Axis, size: nat): (n: nat)
    requires Extent(a) > 0
    ensures DstBefore(a, size) + n <= size && n <= After(a)
  {
    if After(a) < size - DstBefore(a, size) then After(a) else size - DstBefore(a, size)
  }

  function DstCentre(a: Axis, size: nat): (n: nat)
    requires Extent(a) > 0
  {
    size - DstBefore(a, size) - DstAfter(a, size)
  }

  /** The source coordinate shown at `x`. */
  function Source(a: Axis, size: nat, tile: bool, x: nat): (s: int)
    requires Extent(a) > 0 && x < size
  {
    if x < DstBefore(a, size) then a.first + x
    else if x >= size - DstAfter(a, size) then a.last - (size - 1 - x)
    else if Centre(a) == 0 || DstCentre(a, size) == 0 then a.first + Before(a)
    else if tile then a.first + Before(a) + (x - DstBefore(a, size)) % Centre(a)
    else a.first + Before(a) + (x - DstBefore(a, size)) * Centre(a) / DstCentre(a, size)
  }

  /** The two clamps one after the other; a limit of 0 leaves -1. */
  function Clamped(v: int, limit: nat): (c: int)
    ensures if limit == 0 then c == -1 else 0 <= c < limit
  {
    var low := if v < 0 then 0 else v;
    if low >= limit then limit - 1 else low
  }

  /** `p * c / d` stays below `c` when `p` stays below `d`, and grows with `p`. */
  lemma ScaledBelow(p: nat, c: nat, d: nat)
    requires p < d && c > 0
    ensures 0 <= p * c / d < c
  {
    MulNonNegative(p, c);
    MulLess(p, d, c);
    QuotientBelow(p * c, d, c);
  }

  lemma QuotientBelow(x: nat, d: nat, c: nat)
    requires d > 0 && x < d * c
    ensures 0 <= x / d < c
  {
    var q, r := x / d, x % d;
    assert x == d * q + r;
    if q >= c {
      Distribute(q - c, c, d);
      MulNonNegative(q - c, d);
      assert false;
    }
  }

  lemma QuotientGrows(x: nat, y: nat, d: nat)
    requires d > 0 && x <= y
    ensures x / d <= y / d
  {
    var q, r := x / d, y / d;
    assert x == d * q + x % d && y == d * r + y % d;
    if q > r {
      Distribute(q - r, r, d);
      MulAtLeast(q - r, d);
      assert false;
    }
  }

  lemma ScaledGrows(p: nat, q: nat, c: nat, d: nat)
    requires p <= q && d > 0
    ensures p * c / d <= q * c / d
  {
    MulNonNegative(p, c);
    MulNonNegative(q, c);
    MulNonNegative(q - p, c);
    Distribute(q - p, p, c);
    QuotientGrows(p * c, q * c, d);
  }

  lemma ScaledSame(p: nat, c: nat)
    requires c > 0
    ensures p * c / c == p
  {
    Divided(p, 0, c);
  }

  /** Where in the source the centre of the destination samples. */
  lemma {:induction false} CentreSource(a: Axis, size: nat, tile: bool, x: nat)
    requires Extent(a) > 0 && x < size && DstBefore(a, size) <= x < size - DstAfter(a, size)
    ensures DstBefore(a, size) == Before(a) && DstAfter(a, size) == After(a) && DstCentre(a, size) > 0
    ensures Centre(a) == 0 ==> Source(a, size, tile, x) == a.first + Before(a)
    ensures Centre(a) > 0 ==> a.first + Before(a) <= Source(a, size, tile, x) < a.first + Before(a) + Centre(a)
  {
    if Centre(a) > 0 {
      ScaledBelow(x - DstBefore(a, size), Centre(a), DstCentre(a, size));
    }
  }

  /** All samples lie in the source rectangle exactly when centre or last border is non-empty or nothing is enlarged. */
  lemma {:induction false} InsideExactlyWhen(a: Axis, size: nat, tile: bool)
    requires Extent(a) > 0
    ensures (forall x: nat :: x < size ==> a.first <= Source(a, size, tile, x) <= a.last)
       <==> Centre(a) > 0 || After(a) > 0 || size <= Extent(a)
  {
    if Centre(a) > 0 || After(a) > 0 || size <= Extent(a) {
      forall x: nat | x < size
        ensures a.first <= Source(a, size, tile, x) <= a.last
      {
        if DstBefore(a, size) <= x < size - DstAfter(a, size) {
          CentreSource(a, size, tile, x);
        }
      }
    } else {
      var x := Before(a);
      assert DstBefore(a, size) <= x < size - DstAfter(a, size);
      CentreSource(a, size, tile, x);
    }
  }

  /** Stretching never goes backwards. */
  lemma {:induction false} StretchMonotone(a: Axis, size: nat, x: nat, y: nat)
    requires Extent(a) > 0 && x <= y < size
    ensures Source(a, size, false, x) <= Source(a, size, false, y)
  {
    var l, r := DstBefore(a, size), size - DstAfter(a, size);
    if l <= x < r {
      CentreSource(a, size, false, x);
    }
    if l <= y < r {
      CentreSource(a, size, false, y);
      if l <= x && Centre(a) > 0 {
        ScaledGrows(x - l, y - l, Centre(a), DstCentre(a, size));
      }
    }
  }

  /** Tiling repeats the centre, starting with its first column. */
  lemma {:induction false} TilePeriodic(a: Axis, size: nat, x: nat)
    requires Extent(a) > 0 && Centre(a) > 0
    requires DstBefore(a, size) <= x && x + Centre(a) < size - DstAfter(a, size)
    ensures Source(a, size, true, x + Centre(a)) == Source(a, size, true, x)
    ensures x - DstBefore(a, size) < Centre(a) ==> Source(a, size, true, x) == a.first + x
  {
    var p, c := x - DstBefore(a, size), Centre(a);
    CentreSource(a, size, true, x);
    assert p + c == c * (p / c) + p % c + c;
    Distribute(p / c, 1, c);
    Divided(p / c + 1, p % c, c);
    if p < c {
      Divided(0, p, c);
    }
  }

  /** At its own size, the picture is copied column by column, stretched or tiled. */
  lemma {:induction false} OwnSizeIsCopy(a: Axis, tile: bool, x: nat)
    requires Extent(a) > 0 && x < Extent(a)
    ensures Source(a, Extent(a), tile, x) == a.first + x
  {
    var size := Extent(a);
    var l := DstBefore(a, size);
    if l <= x < size - DstAfter(a, size) {
      CentreSource(a, size, tile, x);
      ScaledSame(x - l, Centre(a));
      Divided(0, x - l, Centre(a));
    }
  }

  /**
   The source coordinate for every size and place.  Borders, or halves where they do not fit, are copied
   from their own ends; what of the last border fits shows its end.  Between them a centre of `m`
   columns is spread over `d`: tiled, the column differs from the place by a multiple of `m`; stretched,
   it is the last whose `m`-th part of `d` is not beyond the place.
   */
  lemma {:induction false} SourceExactly(a: Axis, size: nat, tile: bool, x: nat)
    requires a.first <= a.last && x < size
    ensures var e := a.last - a.first + 1;
            var b := if a.before + a.after > e then e / 2 else a.before;
            var c := if a.before + a.after > e then e - e / 2 else a.after;
            var m, d, p, q := e - b - c, size - b - c, x - b, Source(a, size, tile, x) - a.first - b;
            if x < b then q == x - b
            else if x >= size - c then Source(a, size, tile, x) == a.last - (size - 1 - x)
            else if m == 0 then q == 0
            else if tile then 0 <= q < m && (p - q) % m == 0
            else 0 <= q && q * d <= p * m < q * d + d
  {
    var b, c := Before(a), After(a);
    if b <= x < size - c && Centre(a) > 0 {
      CentreSource(a, size, tile, x);
      var m, d, p := Centre(a), size - b - c, x - b;
      assert DstCentre(a, size) == d;
      MulNonNegative(p, m);
      if tile {
        TileColumn(p, m);
      } else {
        QuotientBounds(p * m, d);
      }
    }
  }

  lemma TileColumn(p: nat, m: nat)
    requires m > 0
    ensures 0 <= p % m < m && (p - p % m) % m == 0
  {
    assert p - p % m == m * (p / m);
    Divided(p / m, 0, m);
  }

  lemma QuotientBounds(x: nat, d: nat)
    requires d > 0
    ensures 0 <= x / d && x / d * d <= x < x / d * d + d
  {
    assert x == d * (x / d) + x % d;
  }

  /** Clamping gives the nearest coordinate inside the bitmap. */
  lemma {:induction false} ClampedIsNearest(v: int, limit: nat, w: int)
    requires 0 <= w < limit
    ensures var c := Clamped(v, limit);
            && 0 <= c < limit
            && (if c >= v then c - v else v - c) <= (if w >= v then w - v else v - w)
  {
  }

  /** Inside the bitmap, clamping changes nothing. */
  lemma {:induction false} ClampIdle(a: Axis, size: nat, tile: bool, x: nat, limit: nat)
    requires Extent(a) > 0 && x < size && 0 <= a.first && a.last < limit
    requires Centre(a) > 0 || After(a) > 0 || size <= Extent(a)
    ensures Clamped(Source(a, size, tile, x), limit) == Source(a, size, tile, x)
  {
    InsideExactlyWhen(a, size, tile);
  }

  datatype Rgb = Rgb(r: byte, g: byte, b: byte)

  /** A bitmap of the nine-grid cache, its pixels row by row. */
  datatype Entry = Entry(width: nat, height: nat, tile: bool, left: nat, right: nat, top: nat, bottom: nat, pixels: seq<Rgb>) {
    predicate Valid() {
      |pixels| == width * height
    }

    predicate Empty() {
      width == 0 || height == 0
    }
  }

  datatype Order = Order(left: int, top: int, right: int, bottom: int)

  function Columns(e: Entry, o: Order): (a: Axis) {
    Axis(o.left, o.right, e.left, e.right)
  }

  function Rows(e: Entry, o: Order): (a: Axis) {
    Axis(o.top, o.bottom, e.top, e.bottom)
  }

  lemma InPicture(x: nat, y: nat, width: nat, height: nat)
    requires x < width && y < height
    ensures 0 <= y * width + x < width * height
  {
    MulNonNegative(y, width);
    MulAtLeast(height - y, width);
    Distribute(height - y, y, width);
    assert height * width == width * height;
  }

  function PixelAt(e: Entry, x: nat, y: nat): (p: Rgb)
    requires e.Valid() && x < e.width && y < e.height
  {
    InPicture(x, y, e.width, e.height);
    e.pixels[y * e.width + x]
  }

  /** The pixel shown at column `x` and row `y`. */
  function Shown(e: Entry, o: Order, width: nat, height: nat, x: nat, y: nat): (p: Rgb)
    requires e.Valid() && !e.Empty() && o.left <= o.right && o.top <= o.bottom && x < width && y < height
  {
    PixelAt(e, Clamped(Source(Columns(e, o), width, e.tile, x), e.width), Clamped(Source(Rows(e, o), height, e.tile, y), e.height))
  }

  /**
   A rectangle inside the bitmap whose borders fit both it and what is painted: the four corners are
   copied to the four corners, columns by the left and right border and rows by the top and bottom one.
   */
  lemma {:induction false} CornersCopied(e: Entry, o: Order, width: nat, height: nat, x: nat, y: nat)
    requires e.Valid() && 0 <= o.left <= o.right < e.width && 0 <= o.top <= o.bottom < e.height && x < width && y < height
    requires e.left + e.right <= o.right - o.left + 1 && e.left + e.right <= width
    requires e.top + e.bottom <= o.bottom - o.top + 1 && e.top + e.bottom <= height
    requires (x < e.left || x >= width - e.right) && (y < e.top || y >= height - e.bottom)
    ensures var sx := if x < e.left then o.left + x else o.right - (width - 1 - x);
            var sy := if y < e.top then o.top + y else o.bottom - (height - 1 - y);
            0 <= sy * e.width + sx < |e.pixels| && Shown(e, o, width, height, x, y) == e.pixels[sy * e.width + sx]
  {
    SourceExactly(Columns(e, o), width, e.tile, x);
    SourceExactly(Rows(e, o), height, e.tile, y);
    hide Source;
    ShownPixel(e, o, width, height, x, y);
  }

  /** The sample position for `x`, with the ranges worked out beforehand as the code does. */
  method Sample(a: Axis, size: nat, tile: bool, x: nat, limit: nat) returns (s: int)
    requires Extent(a) > 0 && x < size
    ensures s == Clamped(Source(a, size, tile, x), limit)
  {
    var extent := a.last - a.first + 1;
    var before, after := a.before, a.after;
    if before + after > extent {
      before := extent / 2;
      after := extent - before;
    }
    var dstBefore := if before < size then before else size;
    var dstAfter := if after < size - dstBefore then after else size - dstBefore;
    var centre := extent - before - after;
    var dstCentre := size - dstBefore - dstAfter;
    var v: int;
    if x < dstBefore {
      v := a.first + x;
    } else if x >= size - dstAfter {
      v := a.last - (size - 1 - x);
    } else if centre <= 0 || dstCentre <= 0 {
      v := a.first + before;
    } else if tile {
      v := a.first + before + (x - dstBefore) % centre;
    } else {
      v := a.first + before + (x - dstBefore) * centre / dstCentre;
    }
    if v < 0 {
      v := 0;
    }
    if v >= limit {
      v := limit - 1;
    }
    s := v;
  }

  /** The first `n` pixels of `dst`, stored row by row, are what they should be. */
  predicate Shows(dst: seq<Rgb>, e: Entry, o: Order, width: nat, height: nat, n: nat)
    requires e.Valid() && !e.Empty() && o.left <= o.right && o.top <= o.bottom && width > 0
  {
    && |dst| == width * height
    && forall k :: 0 <= k < n && k < |dst| ==>
         k % width < width && k / width < height && dst[k] == Shown(e, o, width, height, k % width, k / width)
  }

  lemma ShownPixel(e: Entry, o: Order, width: nat, height: nat, x: nat, y: nat)
    requires e.Valid() && !e.Empty() && o.left <= o.right && o.top <= o.bottom && x < width && y < height
    ensures var sx := Clamped(Source(Columns(e, o), width, e.tile, x), e.width);
            var sy := Clamped(Source(Rows(e, o), height, e.tile, y), e.height);
            0 <= sy * e.width + sx < |e.pixels| && Shown(e, o, width, height, x, y) == e.pixels[sy * e.width + sx]
  {
    InPicture(Clamped(Source(Columns(e, o), width, e.tile, x), e.width),
              Clamped(Source(Rows(e, o), height, e.tile, y), e.height), e.width, e.height);
  }

  lemma NoPixels(dst: seq<Rgb>, e: Entry, o: Order, width: nat, height: nat)
    requires e.Valid() && !e.Empty() && o.left <= o.right && o.top <= o.bottom && width > 0 && |dst| == width * height
    ensures Shows(dst, e, o, width, height, 0)
  {
  }

  method WritePixel(e: Entry, o: Order, dst: array<Rgb>, width: nat, height: nat, x: nat, y: nat, sx: nat, sy: nat)
    requires e.Valid() && !e.Empty() && o.left <= o.right && o.top <= o.bottom && x < width && y < height
    requires Shows(dst[..], e, o, width, height, y * width + x)
    requires sx == Clamped(Source(Columns(e, o), width, e.tile, x), e.width)
    requires sy == Clamped(Source(Rows(e, o), height, e.tile, y), e.height)
    modifies dst
    ensures Shows(dst[..], e, o, width, height, y * width + x + 1)
  {
    hide Source, Clamped, Shown, PixelAt;
    InPicture(x, y, width, height);
    ShownPixel(e, o, width, height, x, y);
    Divided(y, x, width);
    dst[y * width + x] := e.pixels[sy * e.width + sx];
  }

  /** `OutOfBounds` is where the code would read in front of the bitmap. */
  datatype Rendering = Nothing | Picture(dst: array<Rgb>) | OutOfBounds

  /**
   ninegrid_render_rect for a present entry: every pixel of the rectangle is the one shown there; a
   bitmap without columns or rows has none to show.
   */
  method Render(e: Entry, o: Order, width: int, height: int, depth: nat) returns (r: Rendering)
    requires e.Valid()
    ensures r.Nothing? <==> width <= 0 || height <= 0 || o.right < o.left || o.bottom < o.top || depth <= 8
    ensures r.OutOfBounds? <==> !r.Nothing? && (e.width == 0 || e.height == 0)
    ensures r.Picture? ==> fresh(r.dst) && Shows(r.dst[..], e, o, width, height, height * width)
  {
    if width <= 0 || height <= 0 || o.right < o.left || o.bottom < o.top || depth <= 8 {
      return Nothing;
    }
    MulNonNegative(width, height);
    var dst := new Rgb[width * height](_ => Rgb(0, 0, 0));
    if !e.Empty() {
      NoPixels(dst[..], e, o, width, height);
    }
    hide Shown, Source, Shows;
    var y := 0;
    while y < height
      invariant 0 <= y <= height && (y > 0 ==> !e.Empty())
      invariant !e.Empty() ==> Shows(dst[..], e, o, width, height, y * width)
    {
      var sy := Sample(Rows(e, o), height, e.tile, y, e.height);
      var x := 0;
      MulNonNegative(y, width);
      while x < width
        invariant 0 <= x <= width && (x > 0 || y > 0 ==> !e.Empty())
        invariant !e.Empty() ==> Shows(dst[..], e, o, width, height, y * width + x)
      {
        var sx := Sample(Columns(e, o), width, e.tile, x, e.width);
        EmptyReadsBefore(e, sx, sy);
        if sy * e.width + sx < 0 {
          return OutOfBounds;
        }
        WritePixel(e, o, dst, width, height, x, y, sx, sy);
        x := x + 1;
      }
      Distribute(y, 1, width);
      y := y + 1;
    }
    r := Picture(dst);
  }

  /** The index read is negative exactly for a bitmap without columns or rows. */
  lemma {:induction false} EmptyReadsBefore(e: Entry, sx: int, sy: int)
    requires if e.width == 0 then sx == -1 else 0 <= sx < e.width
    requires if e.height == 0 then sy == -1 else 0 <= sy < e.height
    ensures sy * e.width + sx < 0 <==> e.Empty()
  {
    if sy >= 0 {
      MulNonNegative(sy, e.width);
    }
  }
}
