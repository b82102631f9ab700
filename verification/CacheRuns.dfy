/** Whole runs of the persistent bitmap cache: contents, handles, and the order kept across sessions. */
module CacheRuns {
  import opened Options
  import opened Bits
  import opened CellFile
  import opened LruList
  import opened BitmapCache

  // ---- Runs ----

  /** A bitmap order from the server: a saved put, or a use of a cached bitmap. */
  datatype Op =
    | Store(i: SlotIndex, key: HashKey, picture: Picture)
    | Use(i: SlotIndex, garbage: Garbage)

  /** The picture fits a cell, and its length the 16-bit field. */
  predicate Storable(p: Picture, bpp: nat) {
    |p.data| <= bpp * MAX_CELL_SIZE && |p.data| < 0x1_0000
  }

  function HeaderFor(key: HashKey, p: Picture): (h: CellHeader)
    requires |p.data| < 0x1_0000
  {
    CellHeader(key, p.width, p.height, |p.data|, 0)
  }

  /** Create the bitmap, put it in its slot, save it to its cell. */
  function Stored(c: Cache, i: SlotIndex, key: HashKey, p: Picture, bpp: nat): (r: Cache)
    requires Consistent(c) && Storable(p, bpp)
    ensures Consistent(r)
  {
    PutConsistent(c.(created := c.created + 1), i, Bitmap(c.created, p), bpp);
    var d := Put(c.(created := c.created + 1), i, Bitmap(c.created, p), bpp);
    if i >= BMPCACHE2_NUM_PSTCELLS then d else d.(file := SaveCell(d.file, i, HeaderFor(key, p), p.data, bpp))
  }

  lemma {:induction false} GotConsistent(c: Cache, i: SlotIndex, g: Garbage, enabled: bool, bpp: nat)
    requires Consistent(c)
    ensures Consistent(CacheGot(c, i, g, enabled, bpp))
  {
    if c.slots[i].Some? {
      BumpPlaces(c.order, i, BUMP_COUNT);
    } else {
      LoadedConsistent(c, i, g, bpp);
    }
  }

  predicate Allowed(op: Op, bpp: nat) {
    op.Store? ==> Storable(op.picture, bpp)
  }

  function Step(c: Cache, op: Op, bpp: nat): (r: Cache)
    requires Consistent(c) && Allowed(op, bpp)
    ensures Consistent(r)
  {
    match op
    case Store(i, key, p) => Stored(c, i, key, p, bpp)
    case Use(i, g) =>
      GotConsistent(c, i, g, true, bpp);
      CacheGot(c, i, g, true, bpp)
  }

  predicate AllAllowed(ops: seq<Op>, bpp: nat) {
    forall k :: 0 <= k < |ops| ==> Allowed(ops[k], bpp)
  }

  function Run(c: Cache, ops: seq<Op>, bpp: nat): (r: Cache)
    requires Consistent(c) && AllAllowed(ops, bpp)
    ensures Consistent(r)
    decreases |ops|
  {
    if |ops| == 0 then c else Run(Step(c, ops[0], bpp), ops[1..], bpp)
  }

  // ---- Every handle is accounted for ----

  predicate Holds(c: Cache, i: SlotIndex, h: nat)
    requires |c.slots| == SLOTS
  {
    c.slots[i].Some? && c.slots[i].value.handle == h
  }

  predicate NoRepeats(s: seq<nat>) {
    forall a, b :: 0 <= a < b < |s| ==> s[a] != s[b]
  }

  /** Handle `h` is live in exactly one slot and not destroyed, or destroyed and in no slot. */
  ghost predicate HandleAccounted(c: Cache, h: nat)
    requires |c.slots| == SLOTS
  {
    && (h in c.destroyed ==> forall i: SlotIndex :: !Holds(c, i, h))
    && (h !in c.destroyed ==> exists i: SlotIndex :: Holds(c, i, h))
    && (forall i: SlotIndex, j: SlotIndex :: Holds(c, i, h) && Holds(c, j, h) ==> i == j)
  }

  /** Handles from 0 up to `created` are accounted for, and no other handle exists. */
  ghost predicate Accounted(c: Cache) {
    && Consistent(c) && NoRepeats(c.destroyed)
    && (forall h :: h in c.destroyed ==> h < c.created)
    && (forall i: SlotIndex :: c.slots[i].Some? ==> c.slots[i].value.handle < c.created)
    && (forall h: nat :: h < c.created ==> HandleAccounted(c, h))
  }

  lemma {:induction false} EvictAccounts(c: Cache, bpp: nat)
    requires Accounted(c) && |c.order| > 0
    ensures Accounted(Evicted(c, bpp))
  {
    EvictedConsistent(c, bpp);
    var d, i := Evicted(c, bpp), c.order[0];
    var gone := c.slots[i].value.handle;
    assert Holds(c, i, gone);
    assert HandleAccounted(c, gone);
    forall h: nat | h < d.created ensures HandleAccounted(d, h) {
      assert HandleAccounted(c, h);
      forall k: SlotIndex ensures Holds(d, k, h) <==> Holds(c, k, h) && h != gone {
        if Holds(c, k, gone) {
          assert k == i;
        }
      }
    }
  }

  /** Putting a handle that is in no slot and not destroyed accounts for it. */
  lemma {:induction false} PlaceAccounts(c: Cache, i: SlotIndex, p: Picture)
    requires Accounted(c)
    ensures Accounted(Placed(c.(created := c.created + 1), i, Bitmap(c.created, p)))
  {
    var b := Bitmap(c.created, p);
    PlacedConsistent(c.(created := c.created + 1), i, b);
    var d := Placed(c.(created := c.created + 1), i, b);
    if c.slots[i].Some? {
      assert Holds(c, i, c.slots[i].value.handle);
      assert HandleAccounted(c, c.slots[i].value.handle);
    }
    forall h: nat | h < d.created ensures HandleAccounted(d, h) {
      if h == c.created {
        assert Holds(d, i, h);
      } else {
        assert HandleAccounted(c, h);
        forall k: SlotIndex ensures Holds(d, k, h) <==> Holds(c, k, h) && k != i {
        }
      }
    }
  }

  /** The run invariant: handles accounted for, and never more bitmaps than the cache may hold. */
  ghost predicate InBounds(c: Cache) {
    Accounted(c) && |c.order| <= BMPCACHE2_C2_CELLS
  }

  lemma {:induction false} PutAccounts(c: Cache, i: SlotIndex, p: Picture, bpp: nat)
    requires InBounds(c)
    ensures InBounds(Put(c.(created := c.created + 1), i, Bitmap(c.created, p), bpp))
  {
    PlaceAccounts(c, i, p);
    ToTopPlaces(c.order, i);
    var d := Placed(c.(created := c.created + 1), i, Bitmap(c.created, p));
    if |d.order| > BMPCACHE2_C2_CELLS {
      EvictAccounts(d, bpp);
    }
  }

  lemma {:induction false} SameHandles(c: Cache, d: Cache)
    requires InBounds(c) && Consistent(d) && |d.order| == |c.order|
    requires d.slots == c.slots && d.destroyed == c.destroyed && d.created == c.created
    ensures InBounds(d)
  {
    forall h: nat | h < d.created ensures HandleAccounted(d, h) {
      assert HandleAccounted(c, h);
      assert forall k: SlotIndex :: Holds(d, k, h) <==> Holds(c, k, h);
    }
  }

  lemma {:induction false} StepAccounts(c: Cache, op: Op, bpp: nat)
    requires InBounds(c) && Allowed(op, bpp)
    ensures InBounds(Step(c, op, bpp))
  {
    match op
    case Store(i, key, p) =>
      PutAccounts(c, i, p, bpp);
      SameHandles(Put(c.(created := c.created + 1), i, Bitmap(c.created, p), bpp), Step(c, op, bpp));
    case Use(i, g) =>
      if c.slots[i].Some? {
        BumpPlaces(c.order, i, BUMP_COUNT);
        SameHandles(c, Step(c, op, bpp));
      } else {
        PutAccounts(c, i, PictureAt(c.file, i, g, bpp), bpp);
      }
  }

  /**
   Over every run, each handle ever created is live in exactly one slot or was destroyed exactly
   once, the list holds exactly the live slots, and it is never longer than 0x150.
   */
  lemma {:induction false} RunAccounts(c: Cache, ops: seq<Op>, bpp: nat)
    requires InBounds(c) && AllAllowed(ops, bpp)
    ensures InBounds(Run(c, ops, bpp))
    decreases |ops|
  {
    if |ops| > 0 {
      StepAccounts(c, ops[0], bpp);
      RunAccounts(Step(c, ops[0], bpp), ops[1..], bpp);
    }
  }

  // ---- A get returns what was last put ----

  /** The last picture put to each slot, by this session or an earlier one. */
  type Pictures = map<SlotIndex, Picture>

  /** Cell `i` of the file holds picture `p`. */
  predicate FileHolds(file: seq<byte>, i: nat, p: Picture, bpp: nat) {
    Whole(file, i, bpp) && PictureAt(file, i, Garbage(p), bpp) == p
  }

  /** Memory and file both hold the last picture put. */
  ghost predicate Current(c: Cache, last: Pictures, bpp: nat) {
    && Consistent(c)
    && (forall i: SlotIndex :: c.slots[i].Some? ==> i in last && c.slots[i].value.picture == last[i])
    && (forall i: SlotIndex :: i in last && i < BMPCACHE2_NUM_PSTCELLS ==> FileHolds(c.file, i, last[i], bpp))
  }

  function LastAfter(last: Pictures, op: Op): (r: Pictures) {
    if op.Store? then last[op.i := op.picture] else last
  }

  /** The server only uses slots that have been put. */
  predicate Sensible(last: Pictures, ops: seq<Op>)
    decreases |ops|
  {
    |ops| == 0 || ((ops[0].Use? ==> ops[0].i in last) && Sensible(LastAfter(last, ops[0]), ops[1..]))
  }

  function LastAfterAll(last: Pictures, ops: seq<Op>): (r: Pictures)
    decreases |ops|
  {
    if |ops| == 0 then last else LastAfterAll(LastAfter(last, ops[0]), ops[1..])
  }

  lemma {:induction false} StampKeepsPictures(file: seq<byte>, j: nat, stamp: uint32, i: nat, p: Picture, bpp: nat)
    requires FileHolds(file, i, p, bpp)
    ensures FileHolds(Stamped(file, j, stamp, bpp), i, p, bpp)
  {
    if j < BMPCACHE2_NUM_PSTCELLS {
      if i == j {
        TouchSelf(file, i, stamp, bpp);
      } else {
        TouchKeepsOthers(file, j, stamp, i, bpp);
      }
    }
  }

  /** A put keeps every picture but the one in its own slot, which the save then brings up to date. */
  ghost predicate CurrentBut(c: Cache, last: Pictures, i: SlotIndex, p: Picture, bpp: nat) {
    && Consistent(c)
    && (forall j: SlotIndex :: c.slots[j].Some? ==>
          if j == i then c.slots[j].value.picture == p else j in last && c.slots[j].value.picture == last[j])
    && (forall j: SlotIndex :: j in last && j < BMPCACHE2_NUM_PSTCELLS ==> FileHolds(c.file, j, last[j], bpp))
  }

  lemma {:induction false} PutCurrent(c: Cache, last: Pictures, i: SlotIndex, b: Bitmap, bpp: nat)
    requires Current(c, last, bpp)
    ensures CurrentBut(Put(c, i, b, bpp), last, i, b.picture, bpp)
    ensures Put(c, i, b, bpp).slots[i] == Some(b)
  {
    PutConsistent(c, i, b, bpp);
    PlacedConsistent(c, i, b);
    ToTopPlaces(c.order, i);
    var d := Placed(c, i, b);
    if |d.order| > BMPCACHE2_C2_CELLS {
      forall j: SlotIndex | j in last && j < BMPCACHE2_NUM_PSTCELLS
        ensures FileHolds(Evicted(d, bpp).file, j, last[j], bpp)
      {
        StampKeepsPictures(d.file, d.order[0], 0, j, last[j], bpp);
      }
    }
  }

  lemma {:induction false} PutLive(c: Cache, i: SlotIndex, b: Bitmap, bpp: nat)
    requires Consistent(c)
    ensures Put(c, i, b, bpp).slots[i] == Some(b)
  {
    PlacedConsistent(c, i, b);
    ToTopPlaces(c.order, i);
  }

  lemma {:induction false} SaveCurrent(d: Cache, last: Pictures, i: SlotIndex, key: HashKey, p: Picture, bpp: nat)
    requires CurrentBut(d, last, i, p, bpp) && Storable(p, bpp)
    requires i < BMPCACHE2_NUM_PSTCELLS
    ensures Current(d.(file := SaveCell(d.file, i, HeaderFor(key, p), p.data, bpp)), last[i := p], bpp)
  {
    var h, last' := HeaderFor(key, p), last[i := p];
    var f := SaveCell(d.file, i, h, p.data, bpp);
    SaveSelf(d.file, i, h, p.data, bpp);
    forall j: SlotIndex | j in last' && j < BMPCACHE2_NUM_PSTCELLS ensures FileHolds(f, j, last'[j], bpp) {
      if j != i {
        SaveKeepsPicture(d.file, i, h, p.data, j, last[j], bpp);
      }
    }
  }

  lemma {:induction false} StoreCurrent(c: Cache, last: Pictures, i: SlotIndex, key: HashKey, p: Picture, bpp: nat)
    requires Current(c, last, bpp) && Storable(p, bpp)
    ensures Current(Stored(c, i, key, p, bpp), last[i := p], bpp)
  {
    hide Current, CurrentBut, Put, Consistent, SaveCell;
    var c' := c.(created := c.created + 1);
    CreatedCurrent(c, last, c'.created, bpp);
    PutCurrent(c', last, i, Bitmap(c.created, p), bpp);
    var d := Put(c', i, Bitmap(c.created, p), bpp);
    if i < BMPCACHE2_NUM_PSTCELLS {
      SaveCurrent(d, last, i, key, p, bpp);
    } else {
      UnsavedCurrent(d, last, i, p, bpp);
    }
  }

  lemma CreatedCurrent(c: Cache, last: Pictures, n: nat, bpp: nat)
    requires Current(c, last, bpp)
    ensures Current(c.(created := n), last, bpp) && Consistent(c) && Consistent(c.(created := n))
  {
  }

  lemma UnsavedCurrent(d: Cache, last: Pictures, i: SlotIndex, p: Picture, bpp: nat)
    requires CurrentBut(d, last, i, p, bpp) && i >= BMPCACHE2_NUM_PSTCELLS
    ensures Current(d, last[i := p], bpp)
  {
  }

  lemma {:induction false} SaveKeepsPicture(file: seq<byte>, i: SlotIndex, h: CellHeader, data: seq<byte>, j: SlotIndex, p: Picture, bpp: nat)
    requires |data| == h.length && CellFits(h, bpp) && j != i && FileHolds(file, j, p, bpp)
    ensures i < BMPCACHE2_NUM_PSTCELLS ==> FileHolds(SaveCell(file, i, h, data, bpp), j, p, bpp)
  {
    SaveKeepsOthers(file, i, h, data, j, bpp);
  }

  lemma {:induction false} UseCurrent(c: Cache, last: Pictures, i: SlotIndex, g: Garbage, bpp: nat)
    requires Current(c, last, bpp) && i in last
    ensures var r := CacheGot(c, i, g, true, bpp);
            && Current(r, last, bpp)
            && (i < BMPCACHE2_NUM_PSTCELLS || c.slots[i].Some? ==>
                  r.slots[i].Some? && r.slots[i].value.picture == last[i])
  {
    GotConsistent(c, i, g, true, bpp);
    if c.slots[i].None? && i < BMPCACHE2_NUM_PSTCELLS {
      assert FileHolds(c.file, i, last[i], bpp);
      PutCurrent(c.(created := c.created + 1), last, i, Bitmap(c.created, PictureAt(c.file, i, g, bpp)), bpp);
    }
  }

  lemma {:induction false} RunCurrent(c: Cache, last: Pictures, ops: seq<Op>, bpp: nat)
    requires Current(c, last, bpp) && AllAllowed(ops, bpp) && Sensible(last, ops)
    ensures Current(Run(c, ops, bpp), LastAfterAll(last, ops), bpp)
    decreases |ops|
  {
    if |ops| > 0 {
      match ops[0] {
        case Store(i, key, p) => StoreCurrent(c, last, i, key, p, bpp);
        case Use(i, g) => UseCurrent(c, last, i, g, bpp);
      }
      RunCurrent(Step(c, ops[0], bpp), LastAfter(last, ops[0]), ops[1..], bpp);
    }
  }

  /**
   After any run of saved puts and uses, getting a slot that has a cell returns the picture last
   put to it, whatever was evicted and reloaded in between.
   */
  lemma {:induction false} GetReturnsLastPut(c: Cache, last: Pictures, ops: seq<Op>, i: SlotIndex, g: Garbage, bpp: nat)
    requires Current(c, last, bpp) && AllAllowed(ops, bpp) && Sensible(last, ops)
    requires i in LastAfterAll(last, ops) && i < BMPCACHE2_NUM_PSTCELLS
    ensures var b := CacheGot(Run(c, ops, bpp), i, g, true, bpp).slots[i];
            b.Some? && b.value.picture == LastAfterAll(last, ops)[i]
  {
    RunCurrent(c, last, ops, bpp);
    UseCurrent(Run(c, ops, bpp), LastAfterAll(last, ops), i, g, bpp);
  }
}
