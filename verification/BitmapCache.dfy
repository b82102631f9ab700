/**
 One persistent bitmap cache: the slot array and its LRU list (cache.c) over the cell file
 (pstcache.c).  `Cache` is the abstract state; the class below is proved to compute on it.
 */
module BitmapCache {
  import opened Options
  import opened Bits
  import opened CellFile
  import opened LruList
  import opened StampSort

  const BUMP_COUNT := 40
  const TO_TOP := -1
  const BMPCACHE2_C2_CELLS := 0x150
  const BMPCACHE2_NUM_PSTCELLS := 0x9f6

  datatype Picture = Picture(width: byte, height: byte, data: seq<byte>)

  /** A window-system bitmap: handles are numbered in the order of creation. */
  datatype Bitmap = Bitmap(handle: nat, picture: Picture)

  /** What uninitialised memory happens to hold when the file is shorter than a cell. */
  datatype Garbage = Garbage(picture: Picture)

  datatype Cache = Cache(
    order: seq<SlotIndex>,           // least recently used first
    slots: seq<Option<Bitmap>>,
    file: seq<byte>,
    destroyed: seq<nat>,             // handles given back to the window system, in order
    created: nat                     // number of handles handed out
  )

  predicate Consistent(c: Cache) {
    && |c.slots| == SLOTS && Distinct(c.order)
    && forall i: SlotIndex :: c.slots[i].Some? <==> i in c.order
  }

  // ---- The operations on the abstract state ----

  function Stamped(file: seq<byte>, i: nat, stamp: uint32, bpp: nat): (r: seq<byte>) {
    if i >= BMPCACHE2_NUM_PSTCELLS then file else Touch(file, i, stamp, bpp)
  }

  function Evicted(c: Cache, bpp: nat): (r: Cache)
    requires Consistent(c) && |c.order| > 0
  {
    var i := c.order[0];
    c.(order := c.order[1..],
       slots := c.slots[i := None],
       destroyed := c.destroyed + [c.slots[i].value.handle],
       file := Stamped(c.file, i, 0, bpp))
  }

  function Placed(c: Cache, i: SlotIndex, b: Bitmap): (r: Cache)
    requires Consistent(c)
  {
    c.(order := ToTop(c.order, i),
       slots := c.slots[i := Some(b)],
       destroyed := if c.slots[i].Some? then c.destroyed + [c.slots[i].value.handle] else c.destroyed)
  }

  lemma {:induction false} PlacedConsistent(c: Cache, i: SlotIndex, b: Bitmap)
    requires Consistent(c)
    ensures Consistent(Placed(c, i, b))
  {
    ToTopPlaces(c.order, i);
  }

  function Put(c: Cache, i: SlotIndex, b: Bitmap, bpp: nat): (r: Cache)
    requires Consistent(c)
  {
    PlacedConsistent(c, i, b);
    var p := Placed(c, i, b);
    if |p.order| > BMPCACHE2_C2_CELLS then Evicted(p, bpp) else p
  }

  function PictureAt(file: seq<byte>, i: nat, g: Garbage, bpp: nat): (p: Picture) {
    if HasData(file, i, bpp)
    then Picture(HeaderAt(file, i, bpp).width, HeaderAt(file, i, bpp).height, DataAt(file, i, bpp))
    else g.picture
  }

  function Loaded(c: Cache, i: SlotIndex, g: Garbage, bpp: nat): (r: Cache)
    requires Consistent(c)
  {
    Put(c.(created := c.created + 1), i, Bitmap(c.created, PictureAt(c.file, i, g, bpp)), bpp)
  }

  lemma LoadedIs(c: Cache, i: SlotIndex, g: Garbage, bpp: nat)
    requires Consistent(c)
    ensures var d := c.(created := c.created + 1);
            Consistent(d) && Loaded(c, i, g, bpp) == Put(d, i, Bitmap(c.created, PictureAt(c.file, i, g, bpp)), bpp)
  {
    hide Put, PictureAt;
  }

  predicate Loadable(i: SlotIndex, enabled: bool) {
    enabled && i < BMPCACHE2_NUM_PSTCELLS
  }

  /** The cache after a get; the bitmap returned is the one then in the slot. */
  function CacheGot(c: Cache, i: SlotIndex, g: Garbage, enabled: bool, bpp: nat): (r: Cache)
    requires Consistent(c)
  {
    if c.slots[i].Some? then c.(order := BumpUp(c.order, i, BUMP_COUNT))
    else if Loadable(i, enabled) then Loaded(c, i, g, bpp)
    else c
  }

  lemma {:induction false} BumpConsistent(c: Cache, i: SlotIndex, bump: nat)
    requires Consistent(c) && i in c.order
    ensures Consistent(c.(order := BumpUp(c.order, i, bump)))
  {
    BumpPlaces(c.order, i, bump);
  }

  /** The cache once the slot's bitmap is in memory. */
  function Resident(c: Cache, i: SlotIndex, g: Garbage, bpp: nat): (d: Cache)
    requires Consistent(c)
  {
    if c.slots[i].Some? then c else Loaded(c, i, g, bpp)
  }

  /** A get bumps whatever is then in the slot, a no-op if it has just been loaded. */
  lemma {:induction false} GetBumps(c: Cache, i: SlotIndex, g: Garbage, enabled: bool, bpp: nat)
    requires Consistent(c) && (c.slots[i].Some? || Loadable(i, enabled))
    ensures var d := Resident(c, i, g, bpp);
            i in d.order && CacheGot(c, i, g, enabled, bpp) == d.(order := BumpUp(d.order, i, BUMP_COUNT))
  {
    if c.slots[i].None? {
      ToTopPlaces(c.order, i);
      BumpTopmost(Loaded(c, i, g, bpp).order, i, BUMP_COUNT);
    }
  }

  /** Stamps `t + 1`, `t + 2`, ... written from the least recently used slot on. */
  function StampAll(file: seq<byte>, order: seq<SlotIndex>, t: nat, bpp: nat): (r: seq<byte>)
    requires t + |order| < 0x1_0000_0000
    decreases |order|
  {
    if |order| == 0 then file else StampAll(Stamped(file, order[0], t + 1, bpp), order[1..], t + 1, bpp)
  }

  lemma StampNext(file: seq<byte>, order: seq<SlotIndex>, k: nat, t: nat, bpp: nat)
    requires k < |order| && t + |order| < k + 0x1_0000_0000
    ensures StampAll(file, order[k..], t, bpp)
         == StampAll(Stamped(file, order[k], t + 1, bpp), order[k + 1..], t + 1, bpp)
  {
    assert order[k..][1..] == order[k + 1..];
  }

  lemma StampsEnd(file: seq<byte>, order: seq<SlotIndex>, k: nat, t: nat, bpp: nat)
    requires k == |order| && t < 0x1_0000_0000
    ensures StampAll(file, order[k..], t, bpp) == file
  {
  }

  // ---- Enumeration of the cell file ----

  const ZERO_KEY: HashKey := [0, 0, 0, 0, 0, 0, 0, 0]

  /** The scan of the file so far: the cache with what was loaded, and the cells sorted by stamp. */
  datatype Scan = Scan(cache: Cache, cells: seq<SlotIndex>, stamps: seq<uint32>, keys: seq<HashKey>)

  /** The scan goes on at cell `i`. */
  predicate Occupied(file: seq<byte>, i: nat, bpp: nat) {
    HasHeader(file, i, bpp) && HeaderAt(file, i, bpp).key != ZERO_KEY
  }

  /** Cell `i` is loaded as the scan passes it. */
  predicate Precached(file: seq<byte>, i: nat, precache: bool, enabled: bool, bpp: nat)
    requires HasHeader(file, i, bpp)
  {
    precache && enabled && HeaderAt(file, i, bpp).stamp != 0
  }

  function ScanCell(s: Scan, i: SlotIndex, precache: bool, enabled: bool, g: Garbage, bpp: nat): (r: Scan)
    requires Consistent(s.cache) && Occupied(s.cache.file, i, bpp) && |s.cells| == |s.stamps|
    requires i < BMPCACHE2_NUM_PSTCELLS
    ensures |r.cells| == |r.stamps| && Consistent(r.cache)
  {
    LoadedConsistent(s.cache, i, g, bpp);
    var h := HeaderAt(s.cache.file, i, bpp);
    var n := InsertPos(s.stamps, h.stamp);
    Scan(if Precached(s.cache.file, i, precache, enabled, bpp) then Loaded(s.cache, i, g, bpp) else s.cache,
         InsertAt(s.cells, n, i), InsertStamp(s.stamps, h.stamp), s.keys + [h.key])
  }

  function ScanFrom(s: Scan, i: nat, precache: bool, enabled: bool, g: Garbage, bpp: nat): (r: Scan)
    requires Consistent(s.cache) && |s.cells| == |s.stamps| && i <= BMPCACHE2_NUM_PSTCELLS
    ensures |r.cells| == |r.stamps| && Consistent(r.cache)
    decreases BMPCACHE2_NUM_PSTCELLS - i
  {
    if i >= BMPCACHE2_NUM_PSTCELLS || !Occupied(s.cache.file, i, bpp) then s
    else ScanFrom(ScanCell(s, i, precache, enabled, g, bpp), i + 1, precache, enabled, g, bpp)
  }

  lemma ScanEnds(s: Scan, i: nat, precache: bool, enabled: bool, g: Garbage, bpp: nat)
    requires Consistent(s.cache) && |s.cells| == |s.stamps| && i <= BMPCACHE2_NUM_PSTCELLS
    requires i == BMPCACHE2_NUM_PSTCELLS || !Occupied(s.cache.file, i, bpp)
    ensures ScanFrom(s, i, precache, enabled, g, bpp) == s
  {
  }

  lemma {:induction false} ScanStep(s: Scan, i: nat, precache: bool, enabled: bool, g: Garbage, bpp: nat)
    requires Consistent(s.cache) && |s.cells| == |s.stamps| && i < BMPCACHE2_NUM_PSTCELLS
    requires Occupied(s.cache.file, i, bpp)
    ensures var t := ScanCell(s, i, precache, enabled, g, bpp);
            && ScanFrom(s, i, precache, enabled, g, bpp) == ScanFrom(t, i + 1, precache, enabled, g, bpp)
            && (Below(s.cells, i) ==> Below(t.cells, i + 1))
  {
    if Below(s.cells, i) {
      InsertBelow(s.cells, InsertPos(s.stamps, HeaderAt(s.cache.file, i, bpp).stamp), i);
    }
  }

  lemma {:induction false} EvictedConsistent(c: Cache, bpp: nat)
    requires Consistent(c) && |c.order| > 0
    ensures Consistent(Evicted(c, bpp))
  {
    WithoutIsDistinct(c.order, 0);
    assert Without(c.order, 0) == c.order[1..];
  }

  lemma {:induction false} LoadedConsistent(c: Cache, i: SlotIndex, g: Garbage, bpp: nat)
    requires Consistent(c)
    ensures Consistent(Loaded(c, i, g, bpp))
  {
    PutConsistent(c.(created := c.created + 1), i, Bitmap(c.created, PictureAt(c.file, i, g, bpp)), bpp);
  }

  lemma {:induction false} PutConsistent(c: Cache, i: SlotIndex, b: Bitmap, bpp: nat)
    requires Consistent(c)
    ensures Consistent(Put(c, i, b, bpp))
  {
    PlacedConsistent(c, i, b);
    var p := Placed(c, i, b);
    if |p.order| > BMPCACHE2_C2_CELLS {
      EvictedConsistent(p, bpp);
    }
  }

  lemma NumberedConsistent(c: Cache, n: nat)
    requires Consistent(c)
    ensures Consistent(c.(created := n))
  {
  }

  /** The slots that hold a bitmap. */
  function Live(c: Cache): (s: set<int>)
    requires |c.slots| == SLOTS
    ensures forall i: SlotIndex :: i in s <==> c.slots[i].Some?
  {
    set i: SlotIndex | 0 <= i < SLOTS && c.slots[i].Some?
  }

  /** What enumeration leaves behind: the scanned cache with its list rebuilt in stamp order. */
  function Enumerated(c: Cache, precache: bool, enabled: bool, g: Garbage, bpp: nat): (r: (Cache, seq<HashKey>))
    requires Consistent(c)
  {
    var s := ScanFrom(Scan(c, [], [], []), 0, precache, enabled, g, bpp);
    (s.cache.(order := LiveOf(s.cells, Live(s.cache))), s.keys)
  }

  // ---- The imperative cache ----

  class PersistentCache {
    const bpp: nat
    const enabled: bool
    const bitmaps: array<Option<Bitmap>>
    const links: array<Links>
    var lru: int
    var mru: int
    var count: int
    var file: seq<byte>
    var destroyed: seq<nat>
    var created: nat
    var enumerated: bool
    ghost var order: seq<SlotIndex>

    /** The list part: links, ends and counter agree with `order`. */
    ghost predicate ListValid()
      reads this, links
    {
      && links.Length == SLOTS
      && Linked(links[..], order)
      && lru == At(order, 0) && mru == At(order, |order| - 1)
      && count == |order|
    }

    ghost predicate Valid()
      reads this, links, bitmaps
    {
      && ListValid()
      && bitmaps.Length == SLOTS
      && Consistent(View())
    }

    ghost function View(): (c: Cache)
      reads this, bitmaps
    {
      Cache(order, bitmaps[..], file, destroyed, created)
    }

    constructor (bpp: nat, enabled: bool, file: seq<byte>)
      ensures Valid() && fresh(bitmaps) && fresh(links)
      ensures View() == Cache([], seq(SLOTS, _ => None), file, [], 0)
      ensures this.bpp == bpp && this.enabled == enabled && !enumerated
    {
      this.bpp, this.enabled, this.file := bpp, enabled, file;
      bitmaps := new Option<Bitmap>[SLOTS](_ => None);
      links := new Links[SLOTS](_ => Links(0, 0));
      lru, mru, count := NOT_SET, NOT_SET, 0;
      destroyed, created, enumerated, order := [], 0, false, [];
      new;
      assert bitmaps[..] == seq(SLOTS, _ => None);
    }

    /** The removal half of a bump: take a slot that is not the most recently used off the list. */
    method Unhook(idx: SlotIndex) returns (p: int, n: int, ghost j: nat)
      requires ListValid() && idx in order && mru != idx
      modifies this`lru, this`count, this`order, links
      ensures ListValid() && mru == old(mru)
      ensures j == IndexOf(old(order), idx) && order == Without(old(order), j)
      ensures p == At(order, j - 1) && n == At(order, j)
    {
      n, p := links[idx].next, links[idx].previous;
      j := IndexOf(order, idx);
      assert LinkedAt(links[..], order, j);
      Unlink(links[..], order, j);
      ghost var target := SetPrevious(SetNext(links[..], p, n), n, p);
      count := count - 1;
      if p >= 0 {
        links[p] := links[p].(next := n);
      } else {
        lru := n;
      }
      links[n] := links[n].(previous := p);
      assert links[..] == target;
      order := Without(order, j);
    }

    /** The insertion half of a bump: put a slot that is off the list between `p` and `n`. */
    method Hook(idx: SlotIndex, p: int, n: int, ghost k: nat)
      requires ListValid() && idx !in order && k <= |order|
      requires p == At(order, k - 1) && n == At(order, k)
      modifies this`lru, this`mru, this`count, this`order, links
      ensures ListValid() && order == InsertAt(old(order), k, idx)
    {
      LinkIn(links[..], order, k, idx);
      ghost var target := SetPrevious(SetNext(links[..][idx := Links(p, n)], p, idx), n, idx);
      count := count + 1;
      links[idx] := Links(p, n);
      if p >= 0 {
        links[p] := links[p].(next := idx);
      } else {
        lru := idx;
      }
      if n >= 0 {
        links[n] := links[n].(previous := idx);
      } else {
        mru := idx;
      }
      assert links[..] == target;
      order := InsertAt(order, k, idx);
    }

    /** Move a slot within the list, or add it. */
    method Bump(idx: SlotIndex, bump: int)
      requires ListValid() && (idx in order || links[idx].next == NOT_SET)
      modifies this`lru, this`mru, this`count, this`order, links
      ensures ListValid() && order == Bumped(old(order), idx, bump)
    {
      if mru == idx {
        BumpTopmost(order, idx, bump);
        return;
      }
      Move(idx, bump);
    }

    /** Take the slot off, walk, and hook it in. */
    method Move(idx: SlotIndex, bump: int)
      requires ListValid() && mru != idx && (idx in order || links[idx].next == NOT_SET)
      modifies this`lru, this`mru, this`count, this`order, links
      ensures ListValid() && order == Bumped(old(order), idx, bump)
    {
      BumpedIsInsert(order, idx, bump);
      hide Linked, Bumped, InsertAt, Removed;
      var p, n;
      ghost var start, k;
      p, n, start := TakeOff(idx);
      if bump >= 0 {
        p, n, k := Walk(p, n, bump, start);
      } else {
        p, n, k := mru, NOT_SET, |order|;
      }
      Hook(idx, p, n, k);
    }

    /** Unhook the slot if it is on the list, and say where the walk starts. */
    method TakeOff(idx: SlotIndex) returns (p: int, n: int, ghost start: nat)
      requires ListValid() && mru != idx && (idx in order || links[idx].next == NOT_SET)
      modifies this`lru, this`count, this`order, links
      ensures ListValid() && mru == old(mru) && order == Removed(old(order), idx) && idx !in order
      ensures start == (if idx in old(order) then IndexOf(old(order), idx) else 0) && start <= |order|
      ensures p == At(order, start - 1) && n == At(order, start)
    {
      p, n, start := NOT_SET, lru, 0;
      ghost var listed := idx in order;
      if listed {
        assert LinkedAt(links[..], order, IndexOf(order, idx));
        WithoutIsDistinct(order, IndexOf(order, idx));
      }
      if links[idx].next >= 0 {
        p, n, start := Unhook(idx);
      }
    }

    /** Step `bump` places along the list, or to its end. */
    method Walk(p0: int, n0: int, bump: nat, ghost start: nat) returns (p: int, n: int, ghost k: nat)
      requires ListValid() && start <= |order|
      requires p0 == At(order, start - 1) && n0 == At(order, start)
      ensures k == Min(start + bump, |order|) && p == At(order, k - 1) && n == At(order, k)
    {
      p, n, k := p0, n0, start;
      var m := 0;
      while m < bump && n >= 0
        invariant 0 <= m <= bump && k == start + m <= |order|
        invariant p == At(order, k - 1) && n == At(order, k)
      {
        assert LinkedAt(links[..], order, k);
        p := n;
        n := links[p].next;
        m, k := m + 1, k + 1;
      }
    }

    /** Evict the least recently used bitmap; the caller has made sure that another remains. */
    method Evict()
      requires Valid() && |order| >= 2
      modifies this, links, bitmaps
      ensures Valid() && enumerated == old(enumerated)
      ensures View() == Evicted(old(View()), bpp)
    {
      var idx := lru;
      assert LinkedAt(links[..], order, 0);
      var n := links[idx].next;
      UnlinkFirst(links[..], order);
      ghost var target := SetPrevious(links[..], n, NOT_SET);
      destroyed := destroyed + [bitmaps[idx].value.handle];
      count := count - 1;
      bitmaps[idx] := None;
      lru := n;
      links[n] := links[n].(previous := NOT_SET);
      assert links[..] == target;
      order := order[1..];
      TouchBitmap(idx, 0);
    }

    method TouchBitmap(idx: SlotIndex, stamp: uint32)
      modifies this`file
      ensures file == Stamped(old(file), idx, stamp, bpp)
    {
      if idx >= BMPCACHE2_NUM_PSTCELLS {
        return;
      }
      file := Touch(file, idx, stamp, bpp);
    }

    /** Write a bitmap to its cell, with a zero stamp. */
    method SaveBitmap(idx: SlotIndex, key: HashKey, width: byte, height: byte, length: uint16, data: seq<byte>)
      returns (ok: bool)
      requires |data| >= length
      modifies this`file
      ensures ok == (idx < BMPCACHE2_NUM_PSTCELLS)
      ensures file == if ok then SaveCell(old(file), idx, CellHeader(key, width, height, length, 0), data[..length], bpp)
                      else old(file)
    {
      if idx >= BMPCACHE2_NUM_PSTCELLS {
        return false;
      }
      var off := CellOffset(idx, bpp);
      file := WriteAt(file, off, EncodeHeader(CellHeader(key, width, height, length, 0)));
      file := WriteAt(file, off + HEADER_SIZE, data[..length]);
      return true;
    }

    /** Store a bitmap in a slot, destroying what it held, and make it the most recently used. */
    method PlaceBitmap(idx: SlotIndex, b: Bitmap)
      requires Valid()
      modifies this, links, bitmaps
      ensures Valid() && enumerated == old(enumerated)
      ensures View() == Placed(old(View()), idx, b)
    {
      PlacedConsistent(View(), idx, b);
      var was := bitmaps[idx];
      if was.Some? {
        destroyed := destroyed + [was.value.handle];
      }
      bitmaps[idx] := Some(b);
      if was.None? {
        OffList(links[..], order, idx, Links(NOT_SET, NOT_SET));
        ghost var target := links[..][idx := Links(NOT_SET, NOT_SET)];
        links[idx] := Links(NOT_SET, NOT_SET);
        assert links[..] == target;
      }
      Bump(idx, TO_TOP);
      assert View() == Placed(old(View()), idx, b);
    }

    /** Store a bitmap in a slot, destroying what it held and evicting if the cache is now too full. */
    method PutBitmap(idx: SlotIndex, b: Bitmap)
      requires Valid()
      modifies this, links, bitmaps
      ensures Valid() && enumerated == old(enumerated)
      ensures View() == Put(old(View()), idx, b, bpp)
    {
      hide Linked, Consistent, Placed, Evicted;
      PlaceBitmap(idx, b);
      if count > BMPCACHE2_C2_CELLS {
        Evict();
      }
    }

    /** Bring a cell back from the file. */
    method LoadBitmap(idx: SlotIndex, g: Garbage) returns (ok: bool)
      requires Valid()
      modifies this, links, bitmaps
      ensures Valid() && enumerated == old(enumerated)
      ensures ok == Loadable(idx, enabled)
      ensures View() == if ok then Loaded(old(View()), idx, g, bpp) else old(View())
    {
      if !enabled {
        return false;
      }
      if idx >= BMPCACHE2_NUM_PSTCELLS {
        return false;
      }
      LoadedIs(View(), idx, g, bpp);
      hide Put, PictureAt, Consistent, ListValid, Loaded;
      var p := PictureAt(file, idx, g, bpp);
      var handle := Create();
      PutBitmap(idx, Bitmap(handle, p));
      return true;
    }

    /** The window system makes a bitmap. */
    method Create() returns (handle: nat)
      requires Valid()
      modifies this`created
      ensures Valid() && handle == old(created) && View() == old(View()).(created := old(created) + 1)
    {
      NumberedConsistent(View(), created + 1);
      hide Consistent, ListValid;
      handle := created;
      created := created + 1;
    }

    /** `bitmap || pstcache_load_bitmap(id, idx)`. */
    method MakeResident(idx: SlotIndex, g: Garbage) returns (ok: bool)
      requires Valid()
      modifies this, links, bitmaps
      ensures Valid() && enumerated == old(enumerated)
      ensures ok == (old(View()).slots[idx].Some? || Loadable(idx, enabled))
      ensures View() == if ok then Resident(old(View()), idx, g, bpp) else old(View())
    {
      ok := true;
      if bitmaps[idx].None? {
        ok := LoadBitmap(idx, g);
      }
    }

    /** Retrieve a bitmap, from memory or from the file, and bump it. */
    method GetBitmap(idx: SlotIndex, g: Garbage) returns (b: Option<Bitmap>)
      requires Valid()
      modifies this, links, bitmaps
      ensures Valid() && enumerated == old(enumerated)
      ensures View() == CacheGot(old(View()), idx, g, enabled, bpp)
      ensures b == View().slots[idx]
    {
      ghost var was := View();
      var ok := MakeResident(idx, g);
      if !ok {
        return None;
      }
      GetBumps(was, idx, g, enabled, bpp);
      BumpListed(idx, BUMP_COUNT);
      return bitmaps[idx];
    }

    method BumpListed(idx: SlotIndex, bump: nat)
      requires Valid() && idx in order
      modifies this`lru, this`mru, this`count, this`order, links
      ensures Valid() && View() == old(View()).(order := BumpUp(old(order), idx, bump))
    {
      BumpConsistent(View(), idx, bump);
      ghost var goal := View().(order := BumpUp(order, idx, bump));
      Bump(idx, bump);
      assert View() == goal;
    }

    /** Stamp one slot and go on to the next. */
    method StampOne(idx: SlotIndex, t: nat, ghost k: nat) returns (n: int)
      requires Valid() && k < |order| && idx == order[k] && t + |order| < k + 0x1_0000_0000
      modifies this`file
      ensures Valid() && n == At(order, k + 1)
      ensures StampAll(file, order[k + 1..], t + 1, bpp) == StampAll(old(file), order[k..], t, bpp)
    {
      StampNext(file, order, k, t, bpp);
      hide StampAll, Stamped;
      TouchBitmap(idx, t + 1);
      assert LinkedAt(links[..], order, k);
      n := links[idx].next;
    }

    /** Write the stamps that record the list order. */
    method SaveState(t0: nat) returns (t: nat)
      requires Valid() && t0 + SLOTS < 0x1_0000_0000
      modifies this`file
      ensures Valid() && t == t0 + |order|
      ensures |order| <= SLOTS && View() == old(View()).(file := StampAll(old(file), order, t0, bpp))
    {
      DistinctIsShort(order);
      t := t0;
      var idx := lru;
      ghost var k := 0;
      ghost var goal := StampAll(file, order, t0, bpp);
      assert idx == At(order, k);
      hide StampAll, ListValid, Consistent;
      assert order[0..] == order;
      while idx >= 0
        invariant Valid() && 0 <= k <= |order| && t == t0 + k && idx == At(order, k)
        invariant StampAll(file, order[k..], t, bpp) == goal
        decreases |order| - k
      {
        idx := StampOne(idx, t, k);
        t, k := t + 1, k + 1;
      }
      StampsEnd(file, order, k, t, bpp);
    }

    /**
     Relink the live slots among `idx` in the order given.  `ok` is false where the C code gives up
     because the list and the counter disagree.
     */
    method Rebuild(idx: seq<SlotIndex>) returns (ok: bool)
      requires Valid() && Distinct(idx)
      modifies this`lru, this`mru, this`order, links
      ensures order == LiveOf(idx, Live(old(View())))
      ensures ok == (order == [] || |order| == count)
      ensures |order| == count ==> ListValid()
    {
      ghost var live := Live(View());
      LiveOfDistinct(idx, live);
      ok := true;
      order := LiveOf(idx, live);
      assert LiveOf(idx[|idx|..], live) == [];
      hide LiveOf, Linked, LinkedButFirst, Consistent;
      var n := SkipEvicted(idx, |idx|, live);
      assert idx[0..] == idx;
      if n == 0 {
        lru, mru := NOT_SET, NOT_SET;
        return;
      }
      ok := LinkLive(idx, n - 1, live);
    }

    /** Link the live indices, of which `idx[n0]` is the last; do they agree with the counter? */
    method LinkLive(idx: seq<SlotIndex>, n0: nat, ghost live: set<int>) returns (ok: bool)
      requires bitmaps.Length == links.Length == SLOTS && Distinct(idx) && n0 < |idx| && idx[n0] in live
      requires forall i: SlotIndex :: i in live <==> bitmaps[i].Some?
      requires LiveOf(idx[n0 + 1..], live) == [] && order == LiveOf(idx, live)
      modifies this`lru, this`mru, links
      ensures Linked(links[..], order) && |order| > 0 && ok == (|order| == count)
      ensures lru == At(order, 0) && mru == At(order, |order| - 1)
    {
      LiveOfStep(idx, live, n0);
      hide LiveOf, Linked, LinkedButFirst;
      var n, c, next := n0, 1, idx[n0];
      mru := next;
      links[next] := links[next].(next := NOT_SET);
      ghost var linked;
      n, c, next, linked := LinkRest(idx, n, next, live);
      CloseList(next, linked);
      lru := next;
      ok := c == count;
    }

    method CloseList(next: SlotIndex, ghost linked: seq<SlotIndex>)
      requires links.Length == SLOTS && |linked| > 0 && linked[0] == next && LinkedButFirst(links[..], linked)
      modifies links
      ensures Linked(links[..], linked)
    {
      CloseFront(links[..], linked);
      ghost var target := SetPrevious(links[..], next, NOT_SET);
      links[next] := links[next].(previous := NOT_SET);
      assert links[..] == target;
    }

    /** The linking loop: from the last live index `idx[n0]` down to the first. */
    method LinkRest(idx: seq<SlotIndex>, n0: nat, top: SlotIndex, ghost live: set<int>)
      returns (n: nat, c: nat, next: SlotIndex, ghost linked: seq<SlotIndex>)
      requires bitmaps.Length == links.Length == SLOTS && n0 < |idx| && idx[n0] == top && Distinct(idx)
      requires forall i: SlotIndex :: i in live <==> bitmaps[i].Some?
      requires LiveOf(idx[n0..], live) == [top] && links[top].next == NOT_SET
      modifies links
      ensures linked == LiveOf(idx, live) && |linked| > 0 && next == linked[0] && c == |linked|
      ensures linked[|linked| - 1] == top && LinkedButFirst(links[..], linked)
    {
      n, c, next, linked := n0, 1, top, [top];
      assert LinkedButFirst(links[..], linked);
      hide LiveOf, LinkedButFirst, Distinct;
      while true
        invariant n < |idx| && linked == LiveOf(idx[n..], live) && LinkedButFirst(links[..], linked)
        invariant |linked| == c > 0 && linked[0] == next && linked[c - 1] == top
        decreases n
      {
        var m := SkipEvicted(idx, n, live);
        if m == 0 {
          assert idx[0..] == idx;
          break;
        }
        LinkNext(idx, m, next, live, linked);
        n, c, next, linked := m - 1, c + 1, idx[m - 1], [idx[m - 1]] + linked;
      }
    }

    method LinkNext(idx: seq<SlotIndex>, m: nat, next: SlotIndex, ghost live: set<int>, ghost linked: seq<SlotIndex>)
      requires links.Length == SLOTS && |linked| > 0 && linked[0] == next && LinkedButFirst(links[..], linked)
      requires Distinct(idx) && 0 < m <= |idx| && linked == LiveOf(idx[m..], live) && idx[m - 1] in live
      modifies links
      ensures LinkedButFirst(links[..], [idx[m - 1]] + linked) && LiveOf(idx[m - 1..], live) == [idx[m - 1]] + linked
    {
      ExtendFront(idx, m, live, linked);
      LinkBefore(idx[m - 1], next, linked);
    }

    method LinkBefore(i: SlotIndex, next: SlotIndex, ghost linked: seq<SlotIndex>)
      requires links.Length == SLOTS && |linked| > 0 && linked[0] == next && i !in linked
      requires LinkedButFirst(links[..], linked)
      modifies links
      ensures LinkedButFirst(links[..], [i] + linked)
    {
      LinkInFront(links[..], linked, i);
      ghost var target := SetNext(SetPrevious(links[..], next, i), i, next);
      links[next] := links[next].(previous := i);
      links[i] := links[i].(next := next);
      assert links[..] == target;
    }

    /** `while (--n >= 0 && bitmap == NULL)`: one past the last live index below `n0`, or zero. */
    method SkipEvicted(idx: seq<SlotIndex>, n0: nat, ghost live: set<int>) returns (n: nat)
      requires bitmaps.Length == SLOTS && n0 <= |idx|
      requires forall i: SlotIndex :: i in live <==> bitmaps[i].Some?
      ensures n <= n0 && LiveOf(idx[n..], live) == LiveOf(idx[n0..], live)
      ensures n > 0 ==> idx[n - 1] in live
    {
      n := n0;
      while n > 0 && bitmaps[idx[n - 1]].None?
        invariant n <= n0 && LiveOf(idx[n..], live) == LiveOf(idx[n0..], live)
      {
        LiveOfStep(idx, live, n - 1);
        n := n - 1;
      }
    }

    /** Load a cell that was live when the file was last closed. */
    method Precache(idx: SlotIndex, load: bool, g: Garbage)
      requires Valid() && idx < BMPCACHE2_NUM_PSTCELLS && Occupied(file, idx, bpp)
      modifies this, links, bitmaps
      ensures Valid() && enumerated == old(enumerated)
      ensures View() == if Precached(old(file), idx, load, enabled, bpp) then Loaded(old(View()), idx, g, bpp) else old(View())
    {
      if load && HeaderAt(file, idx, bpp).stamp != 0 {
        var loaded := LoadBitmap(idx, g);
      }
    }

    /** The arrays hold the scan so far. */
    ghost predicate InScan(s: Scan, idx: nat, mruIdx: array<SlotIndex>, mruStamp: array<uint32>)
      reads this, links, bitmaps, mruIdx, mruStamp
    {
      && Valid() && mruIdx.Length == mruStamp.Length == SLOTS && idx <= BMPCACHE2_NUM_PSTCELLS
      && s.cache == View() && s.cells == mruIdx[..idx] && s.stamps == mruStamp[..idx]
      && Below(s.cells, idx)
    }

    /** One round of the enumeration. */
    method ScanOne(idx: SlotIndex, load: bool, g: Garbage, mruIdx: array<SlotIndex>, mruStamp: array<uint32>,
                   ghost s: Scan) returns (ghost t: Scan)
      requires InScan(s, idx, mruIdx, mruStamp)
      requires idx < BMPCACHE2_NUM_PSTCELLS && Occupied(file, idx, bpp)
      modifies this, links, bitmaps, mruIdx, mruStamp
      ensures InScan(t, idx + 1, mruIdx, mruStamp) && enumerated == old(enumerated)
      ensures t.keys == s.keys + [HeaderAt(old(file), idx, bpp).key]
      ensures ScanFrom(t, idx + 1, load, enabled, g, bpp) == ScanFrom(s, idx, load, enabled, g, bpp)
    {
      var stamp := HeaderAt(file, idx, bpp).stamp;
      ScanStep(s, idx, load, enabled, g, bpp);
      t := ScanCell(s, idx, load, enabled, g, bpp);
      Precache(idx, load, g);
      assert mruIdx[..idx] == s.cells && mruStamp[..idx] == s.stamps;
      InsertSorted(mruIdx, mruStamp, idx, idx, stamp);
    }

    /** The enumeration loop. */
    method ScanFile(load: bool, g: Garbage, mruIdx: array<SlotIndex>, mruStamp: array<uint32>)
      returns (idx: nat, keys: seq<HashKey>, ghost s: Scan)
      requires Valid() && mruIdx.Length == mruStamp.Length == SLOTS
      modifies this, links, bitmaps, mruIdx, mruStamp
      ensures InScan(s, idx, mruIdx, mruStamp) && s.keys == keys && enumerated == old(enumerated)
      ensures s == ScanFrom(Scan(old(View()), [], [], []), 0, load, enabled, g, bpp)
    {
      idx, keys := 0, [];
      s := Scan(View(), [], [], []);
      ghost var goal := ScanFrom(s, 0, load, enabled, g, bpp);
      hide ScanFrom, Valid, ListValid;
      assert InScan(s, 0, mruIdx, mruStamp);
      hide InScan;
      while idx < BMPCACHE2_NUM_PSTCELLS
        invariant InScan(s, idx, mruIdx, mruStamp) && s.keys == keys && enumerated == old(enumerated)
        invariant ScanFrom(s, idx, load, enabled, g, bpp) == goal
      {
        var more;
        more, keys, s := ScanNext(idx, load, g, mruIdx, mruStamp, keys, s);
        if !more {
          return;
        }
        idx := idx + 1;
      }
      InScanFits(s, idx, mruIdx, mruStamp);
      ScanEnds(s, idx, load, enabled, g, bpp);
    }

    lemma InScanFits(s: Scan, idx: nat, mruIdx: array<SlotIndex>, mruStamp: array<uint32>)
      requires InScan(s, idx, mruIdx, mruStamp)
      ensures Consistent(s.cache) && |s.cells| == |s.stamps| && idx <= BMPCACHE2_NUM_PSTCELLS
    {
    }

    /** Read the next header; stop at the end of the file or at an unused cell. */
    method ScanNext(idx: SlotIndex, load: bool, g: Garbage, mruIdx: array<SlotIndex>, mruStamp: array<uint32>,
                    keys0: seq<HashKey>, ghost s: Scan) returns (more: bool, keys: seq<HashKey>, ghost t: Scan)
      requires InScan(s, idx, mruIdx, mruStamp) && idx < BMPCACHE2_NUM_PSTCELLS && s.keys == keys0
      modifies this, links, bitmaps, mruIdx, mruStamp
      ensures InScan(t, if more then idx + 1 else idx, mruIdx, mruStamp) && t.keys == keys && enumerated == old(enumerated)
      ensures ScanFrom(s, idx, load, enabled, g, bpp) == if more then ScanFrom(t, idx + 1, load, enabled, g, bpp) else t
    {
      hide ScanFrom, HeaderAt, HasHeader;
      more, keys, t := false, keys0, s;
      if !HasHeader(file, idx, bpp) || HeaderAt(file, idx, bpp).key == ZERO_KEY {
        ScanEnds(s, idx, load, enabled, g, bpp);
        return;
      }
      var key := HeaderAt(file, idx, bpp).key;
      t := ScanOne(idx, load, g, mruIdx, mruStamp, s);
      more, keys := true, keys + [key];
    }

    /**
     List the keys in the cell file, load the cells that were live when the file was last closed,
     and rebuild the list in stamp order.  Only the first call does anything.
     */
    method Enumerate(bitmapCache: bool, precache: bool, depth: nat, g: Garbage)
      returns (keys: seq<HashKey>, ok: bool)
      requires Valid()
      modifies this, links, bitmaps
      ensures !(bitmapCache && enabled) || old(enumerated) ==> View() == old(View()) && keys == [] && Valid()
      ensures bitmapCache && enabled && !old(enumerated) ==>
                && enumerated
                && (View(), keys) == Enumerated(old(View()), precache && depth > 8, enabled, g, bpp)
                && ok == (order == [] || |order| == count)
                && (|order| == count ==> ListValid())
                && count == |ScanFrom(Scan(old(View()), [], [], []), 0, precache && depth > 8, enabled, g, bpp).cache.order|
    {
      keys, ok := [], true;
      if !(bitmapCache && enabled) {
        return;
      }
      if enumerated {
        return;
      }
      keys, ok := EnumerateCells(precache && depth > 8, g);
      enumerated := true;
    }

    /** Scan the file and rebuild the list. */
    method EnumerateCells(load: bool, g: Garbage) returns (keys: seq<HashKey>, ok: bool)
      requires Valid()
      modifies this, links, bitmaps
      ensures (View(), keys) == Enumerated(old(View()), load, enabled, g, bpp)
      ensures ok == (order == [] || |order| == count)
      ensures |order| == count ==> ListValid()
      ensures count == |ScanFrom(Scan(old(View()), [], [], []), 0, load, enabled, g, bpp).cache.order|
    {
      var mruIdx, mruStamp := new SlotIndex[SLOTS](_ => 0), new uint32[SLOTS](_ => 0);
      var idx;
      ghost var s;
      idx, keys, s := ScanFile(load, g, mruIdx, mruStamp);
      ok := Rebuild(mruIdx[..idx]);
    }
  }
}
