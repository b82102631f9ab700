/**
 The persistent bitmap cache file of pstcache.c as the bytes it holds: fixed-size cells of a
 16-byte header and room for 0x1000 pixels.  Integers are laid out little-endian.
 */
module CellFile {
  import opened Arith
  import opened Bits

  const MAX_CELL_SIZE := 0x1000
  const HEADER_SIZE := 16
  const STAMP_OFFSET := 12

  type HashKey = k: seq<byte> | |k| == 8 witness [0, 0, 0, 0, 0, 0, 0, 0]

  datatype CellHeader = CellHeader(key: HashKey, width: byte, height: byte, length: uint16, stamp: uint32)

  // ---- Bytes ----

  function Le16(v: uint16): (b: seq<byte>)
    ensures |b| == 2
  {
    [v % 256, v / 256]
  }

  function Le32(v: uint32): (b: seq<byte>)
    ensures |b| == 4
  {
    [v % 256, v / 256 % 256, v / 65536 % 256, v / 16777216]
  }

  function FromLe16(b: seq<byte>): (v: uint16)
    requires |b| == 2
  {
    b[0] as int + 256 * (b[1] as int)
  }

  function FromLe32(b: seq<byte>): (v: uint32)
    requires |b| == 4
  {
    b[0] as int + 256 * (b[1] as int) + 65536 * (b[2] as int) + 16777216 * (b[3] as int)
  }

  function EncodeHeader(h: CellHeader): (b: seq<byte>)
    ensures |b| == HEADER_SIZE
  {
    h.key + [h.width, h.height] + Le16(h.length) + Le32(h.stamp)
  }

  function DecodeHeader(b: seq<byte>): (h: CellHeader)
    requires |b| == HEADER_SIZE
  {
    CellHeader(b[..8], b[8], b[9], FromLe16(b[10..12]), FromLe32(b[12..16]))
  }

  lemma {:induction false} LittleEndianRoundTrip(v: uint16, w: uint32)
    ensures FromLe16(Le16(v)) == v && FromLe32(Le32(w)) == w
  {
    var a, b, c := w / 256, w / 65536, w / 16777216;
    assert a == 256 * b + a % 256 && b == 256 * c + b % 256;
  }

  lemma {:induction false} HeaderRoundTrip(h: CellHeader)
    ensures DecodeHeader(EncodeHeader(h)) == h
  {
    LittleEndianRoundTrip(h.length, h.stamp);
    var b := EncodeHeader(h);
    assert b[..8] == h.key;
    assert b[10..12] == Le16(h.length);
    assert b[12..16] == Le32(h.stamp);
  }

  /** Where the fields of a header stand in the file. */
  lemma {:induction false} HeaderLayout(h: CellHeader)
    ensures var b := EncodeHeader(h);
            && |b| == 16 && b[0..8] == h.key && b[8] == h.width && b[9] == h.height
            && b[10] as int + 0x100 * b[11] as int == h.length
            && b[12] as int + 0x100 * b[13] as int + 0x1_0000 * b[14] as int + 0x100_0000 * b[15] as int == h.stamp
  {
    LittleEndianRoundTrip(h.length, h.stamp);
    var b := EncodeHeader(h);
    assert b[10..12] == Le16(h.length) && b[12..16] == Le32(h.stamp);
  }

  // ---- Seek, read and write ----

  function ZeroBytes(n: nat): (z: seq<byte>)
    ensures |z| == n
  {
    seq(n, _ => 0)
  }

  /** `lseek` to `off` and write `d`: a gap past the old end reads as zeros. */
  function WriteAt(f: seq<byte>, off: nat, d: seq<byte>): (r: seq<byte>)
    ensures |d| > 0 ==> |r| == if |f| < off + |d| then off + |d| else |f|
    ensures |d| == 0 ==> r == f
  {
    if |d| == 0 then f
    else
      var g := if |f| < off then f + ZeroBytes(off - |f|) else f;
      g[..off] + d + (if off + |d| < |g| then g[off + |d|..] else [])
  }

  lemma {:induction false} ReadWritten(f: seq<byte>, off: nat, d: seq<byte>)
    requires |d| > 0
    ensures WriteAt(f, off, d)[off..off + |d|] == d
  {
  }

  lemma {:induction false} ReadElsewhere(f: seq<byte>, off: nat, d: seq<byte>, a: nat, b: nat)
    requires a <= b <= |f| && (b <= off || off + |d| <= a)
    ensures b <= |WriteAt(f, off, d)| && WriteAt(f, off, d)[a..b] == f[a..b]
  {
  }

  // ---- Cells ----

  function Stride(bpp: nat): (n: nat)
    ensures n >= HEADER_SIZE
  {
    bpp * MAX_CELL_SIZE + HEADER_SIZE
  }

  /** Where cell `idx` starts: after `idx` cells. */
  function CellOffset(idx: nat, bpp: nat): (off: nat) {
    if idx == 0 then 0 else CellOffset(idx - 1, bpp) + Stride(bpp)
  }

  /** The code's multiplication. */
  lemma {:induction false} CellOffsetIsProduct(idx: nat, bpp: nat)
    ensures CellOffset(idx, bpp) == idx * (bpp * 0x1000 + 16)
  {
    if idx > 0 {
      CellOffsetIsProduct(idx - 1, bpp);
      Distribute(idx - 1, 1, Stride(bpp));
    }
  }

  lemma {:induction false} CellsApart(i: nat, j: nat, bpp: nat)
    requires i < j
    ensures CellOffset(i, bpp) + Stride(bpp) <= CellOffset(j, bpp)
    decreases j
  {
    if i < j - 1 {
      CellsApart(i, j - 1, bpp);
    }
  }

  predicate HasHeader(f: seq<byte>, idx: nat, bpp: nat) {
    CellOffset(idx, bpp) + HEADER_SIZE <= |f|
  }

  function HeaderAt(f: seq<byte>, idx: nat, bpp: nat): (h: CellHeader)
    requires HasHeader(f, idx, bpp)
  {
    var off := CellOffset(idx, bpp);
    DecodeHeader(f[off..off + HEADER_SIZE])
  }

  predicate HasData(f: seq<byte>, idx: nat, bpp: nat) {
    HasHeader(f, idx, bpp) && CellOffset(idx, bpp) + HEADER_SIZE + HeaderAt(f, idx, bpp).length <= |f|
  }

  function DataAt(f: seq<byte>, idx: nat, bpp: nat): (d: seq<byte>)
    requires HasData(f, idx, bpp)
  {
    var off := CellOffset(idx, bpp) + HEADER_SIZE;
    f[off..off + HeaderAt(f, idx, bpp).length]
  }

  /** `pstcache_touch_bitmap`: overwrite the stamp of a cell. */
  function Touch(f: seq<byte>, idx: nat, stamp: uint32, bpp: nat): (r: seq<byte>) {
    WriteAt(f, CellOffset(idx, bpp) + STAMP_OFFSET, Le32(stamp))
  }

  /** `pstcache_save_bitmap`: header and data, one after the other. */
  function SaveCell(f: seq<byte>, idx: nat, h: CellHeader, data: seq<byte>, bpp: nat): (r: seq<byte>)
    requires |data| == h.length
  {
    WriteAt(WriteAt(f, CellOffset(idx, bpp), EncodeHeader(h)), CellOffset(idx, bpp) + HEADER_SIZE, data)
  }

  /** The data of a cell stays inside the cell. */
  predicate CellFits(h: CellHeader, bpp: nat) {
    h.length <= bpp * MAX_CELL_SIZE
  }

  /** Cell `idx` of `g` reads as cell `idx` of `f`, header and data. */
  predicate SameCell(f: seq<byte>, g: seq<byte>, idx: nat, bpp: nat) {
    && (HasHeader(f, idx, bpp) ==> HasHeader(g, idx, bpp) && HeaderAt(g, idx, bpp) == HeaderAt(f, idx, bpp))
    && (Whole(f, idx, bpp) ==> Whole(g, idx, bpp) && DataAt(g, idx, bpp) == DataAt(f, idx, bpp))
  }

  /** The cell is in the file, and its data inside the cell. */
  predicate Whole(f: seq<byte>, idx: nat, bpp: nat) {
    HasData(f, idx, bpp) && CellFits(HeaderAt(f, idx, bpp), bpp)
  }

  lemma {:induction false} TouchSelf(f: seq<byte>, idx: nat, stamp: uint32, bpp: nat)
    requires HasHeader(f, idx, bpp)
    ensures var g := Touch(f, idx, stamp, bpp);
            && HasHeader(g, idx, bpp) && |g| == |f|
            && HeaderAt(g, idx, bpp) == HeaderAt(f, idx, bpp).(stamp := stamp)
            && (HasData(f, idx, bpp) ==> HasData(g, idx, bpp) && DataAt(g, idx, bpp) == DataAt(f, idx, bpp))
  {
    var off := CellOffset(idx, bpp);
    var g := Touch(f, idx, stamp, bpp);
    var s := off + STAMP_OFFSET;
    ReadWritten(f, s, Le32(stamp));
    ReadElsewhere(f, s, Le32(stamp), off, s);
    StampOf(f[off..off + HEADER_SIZE], g[off..off + HEADER_SIZE], stamp);
    if HasData(f, idx, bpp) {
      ReadElsewhere(f, s, Le32(stamp), off + HEADER_SIZE, off + HEADER_SIZE + HeaderAt(f, idx, bpp).length);
    }
  }

  lemma {:induction false} StampOf(a: seq<byte>, b: seq<byte>, stamp: uint32)
    requires |a| == |b| == HEADER_SIZE && b[..12] == a[..12] && b[12..] == Le32(stamp)
    ensures DecodeHeader(b) == DecodeHeader(a).(stamp := stamp)
  {
    LittleEndianRoundTrip(0, stamp);
    assert b[12..16] == b[12..];
    SameField(a, b, 0, 8);
    SameField(a, b, 8, 9);
    SameField(a, b, 9, 10);
    SameField(a, b, 10, 12);
    assert a[8] == a[8..9][0] && b[8] == b[8..9][0] && a[9] == a[9..10][0] && b[9] == b[9..10][0];
  }

  lemma {:induction false} SameField(a: seq<byte>, b: seq<byte>, lo: nat, hi: nat)
    requires |a| == |b| == HEADER_SIZE && b[..12] == a[..12] && lo <= hi <= 12
    ensures a[lo..hi] == b[lo..hi]
  {
    forall k | lo <= k < hi ensures a[k] == b[k] {
      assert a[k] == a[..12][k] && b[k] == b[..12][k];
    }
  }

  /** A write that stays inside cell `idx` leaves every other cell alone. */
  lemma {:induction false} WriteKeepsOthers(f: seq<byte>, idx: nat, at: nat, d: seq<byte>, other: nat, bpp: nat)
    requires CellOffset(idx, bpp) <= at && at + |d| <= CellOffset(idx, bpp) + Stride(bpp)
    requires other != idx
    ensures SameCell(f, WriteAt(f, at, d), other, bpp)
  {
    if other < idx {
      CellsApart(other, idx, bpp);
    } else {
      CellsApart(idx, other, bpp);
    }
    var o := CellOffset(other, bpp);
    if HasHeader(f, other, bpp) {
      HeaderElsewhere(f, at, d, other, bpp);
      hide WriteAt, HeaderAt, CellOffset;
      if Whole(f, other, bpp) {
        ReadElsewhere(f, at, d, o + HEADER_SIZE, o + HEADER_SIZE + HeaderAt(f, other, bpp).length);
      }
    }
  }

  lemma {:induction false} HeaderElsewhere(f: seq<byte>, at: nat, d: seq<byte>, other: nat, bpp: nat)
    requires HasHeader(f, other, bpp)
    requires CellOffset(other, bpp) + HEADER_SIZE <= at || at + |d| <= CellOffset(other, bpp)
    ensures var g := WriteAt(f, at, d); HasHeader(g, other, bpp) && HeaderAt(g, other, bpp) == HeaderAt(f, other, bpp)
  {
    ReadElsewhere(f, at, d, CellOffset(other, bpp), CellOffset(other, bpp) + HEADER_SIZE);
    hide WriteAt, DecodeHeader, CellOffset;
  }

  lemma {:induction false} TouchKeepsOthers(f: seq<byte>, idx: nat, stamp: uint32, other: nat, bpp: nat)
    requires other != idx
    ensures SameCell(f, Touch(f, idx, stamp, bpp), other, bpp)
  {
    WriteKeepsOthers(f, idx, CellOffset(idx, bpp) + STAMP_OFFSET, Le32(stamp), other, bpp);
  }

  /** What was saved is what is read back. */
  lemma {:induction false} SaveSelf(f: seq<byte>, idx: nat, h: CellHeader, data: seq<byte>, bpp: nat)
    requires |data| == h.length
    ensures var g := SaveCell(f, idx, h, data, bpp);
            HasData(g, idx, bpp) && HeaderAt(g, idx, bpp) == h && DataAt(g, idx, bpp) == data
  {
    var off := CellOffset(idx, bpp);
    var f1 := WriteAt(f, off, EncodeHeader(h));
    var g := SaveCell(f, idx, h, data, bpp);
    ReadWritten(f, off, EncodeHeader(h));
    ReadElsewhere(f1, off + HEADER_SIZE, data, off, off + HEADER_SIZE);
    HeaderRoundTrip(h);
    if |data| > 0 {
      ReadWritten(f1, off + HEADER_SIZE, data);
    } else {
      assert g[off + HEADER_SIZE..off + HEADER_SIZE] == data;
    }
  }

  /** A save that fits its cell leaves every other cell as it was. */
  lemma {:induction false} SaveKeepsOthers(f: seq<byte>, idx: nat, h: CellHeader, data: seq<byte>, other: nat, bpp: nat)
    requires |data| == h.length && CellFits(h, bpp) && other != idx
    ensures SameCell(f, SaveCell(f, idx, h, data, bpp), other, bpp)
  {
    hide WriteAt, EncodeHeader, HeaderAt;
    var off := CellOffset(idx, bpp);
    var f1 := WriteAt(f, off, EncodeHeader(h));
    WriteKeepsOthers(f, idx, off, EncodeHeader(h), other, bpp);
    WriteKeepsOthers(f1, idx, off + HEADER_SIZE, data, other, bpp);
  }

  /**
   A save that does not fit runs into the header of the next cell: its key then starts with a byte
   of the saved picture.
   */
  lemma {:induction false} OverlongSaveClobbers(f: seq<byte>, idx: nat, h: CellHeader, data: seq<byte>, bpp: nat)
    requires |data| == h.length && !CellFits(h, bpp) && HasHeader(f, idx + 1, bpp)
    ensures var g := SaveCell(f, idx, h, data, bpp);
            HasHeader(g, idx + 1, bpp) && HeaderAt(g, idx + 1, bpp).key[0] == data[bpp * MAX_CELL_SIZE]
  {
    var off, cap := CellOffset(idx, bpp) + HEADER_SIZE, bpp * MAX_CELL_SIZE;
    assert CellOffset(idx + 1, bpp) == off + cap;
    var f1 := WriteAt(f, CellOffset(idx, bpp), EncodeHeader(h));
    var g := SaveCell(f, idx, h, data, bpp);
    ReadWritten(f1, off, data);
    assert g[off + cap] == g[off..off + |data|][cap];
  }

  /** Saving to cell `idx` leaves the next cell's header alone for every picture exactly if the length fits. */
  lemma {:induction false} SaveSafeExactlyWhenFits(f: seq<byte>, idx: nat, h: CellHeader, bpp: nat)
    requires HasHeader(f, idx + 1, bpp)
    ensures CellFits(h, bpp)
            <==> forall data: seq<byte> | |data| == h.length ::
                   var g := SaveCell(f, idx, h, data, bpp);
                   HasHeader(g, idx + 1, bpp) && HeaderAt(g, idx + 1, bpp) == HeaderAt(f, idx + 1, bpp)
  {
    if CellFits(h, bpp) {
      forall data: seq<byte> | |data| == h.length
        ensures SameCell(f, SaveCell(f, idx, h, data, bpp), idx + 1, bpp)
      {
        SaveKeepsOthers(f, idx, h, data, idx + 1, bpp);
      }
    } else {
      var data := ClobberingPicture(f, idx, h, bpp);
      hide CellFits, SaveCell, HeaderAt, HasHeader;
      var g := SaveCell(f, idx, h, data, bpp);
      assert HeaderAt(g, idx + 1, bpp) != HeaderAt(f, idx + 1, bpp);
    }
  }

  /** A picture of an overlong length that changes the next cell's key. */
  lemma ClobberingPicture(f: seq<byte>, idx: nat, h: CellHeader, bpp: nat) returns (data: seq<byte>)
    requires HasHeader(f, idx + 1, bpp) && !CellFits(h, bpp)
    ensures |data| == h.length
    ensures var g := SaveCell(f, idx, h, data, bpp);
            HasHeader(g, idx + 1, bpp) && HeaderAt(g, idx + 1, bpp) != HeaderAt(f, idx + 1, bpp)
  {
    var b: byte := if HeaderAt(f, idx + 1, bpp).key[0] == 0 then 1 else 0;
    data := seq(h.length, _ => b);
    OverlongSaveClobbers(f, idx, h, data, bpp);
    hide SaveCell, HeaderAt;
  }

  // ---- Cells without a stamp ----

  /** Whatever the file holds of the cell's stamp is zero, and stays so when the file grows. */
  predicate StampClear(f: seq<byte>, idx: nat, bpp: nat) {
    forall b :: CellOffset(idx, bpp) + STAMP_OFFSET <= b < CellOffset(idx, bpp) + HEADER_SIZE && b < |f| ==> f[b] == 0
  }

  function StampIn(f: seq<byte>, idx: nat, bpp: nat): (stamp: nat) {
    if HasHeader(f, idx, bpp) then HeaderAt(f, idx, bpp).stamp else 0
  }

  lemma {:induction false} ClearIsZero(f: seq<byte>, idx: nat, bpp: nat)
    requires StampClear(f, idx, bpp)
    ensures StampIn(f, idx, bpp) == 0
  {
    if HasHeader(f, idx, bpp) {
      var off := CellOffset(idx, bpp);
      var h := f[off..off + HEADER_SIZE];
      assert h[12..16] == [f[off + 12], f[off + 13], f[off + 14], f[off + 15]];
    }
  }

  lemma {:induction false} WriteKeepsClear(f: seq<byte>, at: nat, d: seq<byte>, idx: nat, bpp: nat)
    requires StampClear(f, idx, bpp)
    requires at + |d| <= CellOffset(idx, bpp) + STAMP_OFFSET || CellOffset(idx, bpp) + HEADER_SIZE <= at
    ensures StampClear(WriteAt(f, at, d), idx, bpp)
  {
  }

  lemma {:induction false} CellWriteKeepsClear(f: seq<byte>, other: nat, at: nat, d: seq<byte>, idx: nat, bpp: nat)
    requires StampClear(f, idx, bpp) && other != idx
    requires CellOffset(other, bpp) <= at && at + |d| <= CellOffset(other, bpp) + Stride(bpp)
    ensures StampClear(WriteAt(f, at, d), idx, bpp)
  {
    if other < idx {
      CellsApart(other, idx, bpp);
    } else {
      CellsApart(idx, other, bpp);
    }
    WriteKeepsClear(f, at, d, idx, bpp);
  }

  lemma {:induction false} TouchClears(f: seq<byte>, idx: nat, bpp: nat)
    ensures StampClear(Touch(f, idx, 0, bpp), idx, bpp)
  {
    var s := CellOffset(idx, bpp) + STAMP_OFFSET;
    ReadWritten(f, s, Le32(0));
    var g := Touch(f, idx, 0, bpp);
    assert forall b :: s <= b < s + 4 ==> g[b] == g[s..s + 4][b - s];
  }

  lemma {:induction false} SaveKeepsClear(f: seq<byte>, other: nat, h: CellHeader, data: seq<byte>, idx: nat, bpp: nat)
    requires StampClear(f, idx, bpp) && other != idx && |data| == h.length && CellFits(h, bpp)
    ensures StampClear(SaveCell(f, other, h, data, bpp), idx, bpp)
  {
    var off := CellOffset(other, bpp);
    CellWriteKeepsClear(f, other, off, EncodeHeader(h), idx, bpp);
    CellWriteKeepsClear(WriteAt(f, off, EncodeHeader(h)), other, off + HEADER_SIZE, data, idx, bpp);
  }
}
