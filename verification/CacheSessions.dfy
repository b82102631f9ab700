/** Closing a session and opening the next: the stamps carry the list order across. */
module CacheSessions {
  import opened Options
  import opened Bits
  import opened CellFile
  import opened LruList
  import opened StampSort
  import opened BitmapCache
  import opened CacheRuns

  // ---- Strictly ascending lists are determined by their members ----

  predicate AscendingBy(s: seq<SlotIndex>, rank: map<int, int>)
    requires forall i :: i in s ==> i in rank
  {
    forall a, b :: 0 <= a < b < |s| ==> rank[s[a]] < rank[s[b]]
  }

  lemma {:induction false} AscendingUnique(s: seq<SlotIndex>, t: seq<SlotIndex>, rank: map<int, int>)
    requires (forall i :: i in s ==> i in rank) && (forall i :: i in t ==> i in rank)
    requires AscendingBy(s, rank) && AscendingBy(t, rank)
    requires forall i :: i in s <==> i in t
    ensures s == t
    decreases |s|
  {
    if |s| == 0 {
      EmptyToo(s, t);
    } else if |t| == 0 {
      EmptyToo(t, s);
    } else {
      FirstIsLeast(s, rank, t[0]);
      FirstIsLeast(t, rank, s[0]);
      TailMembers(s, rank);
      TailMembers(t, rank);
      var k :| 0 <= k < |s| && s[k] == t[0];
      RankFirst(s, rank, k);
      AscendingUnique(s[1..], t[1..], rank);
    }
  }

  lemma FirstIn(s: seq<SlotIndex>)
    requires |s| > 0
    ensures s[0] in s
  {
  }

  lemma EmptyToo(s: seq<SlotIndex>, t: seq<SlotIndex>)
    requires |s| == 0 && forall i :: i in s <==> i in t
    ensures |t| == 0
  {
    if |t| > 0 {
      FirstIn(t);
      assert false;
    }
  }

  lemma RankFirst(s: seq<SlotIndex>, rank: map<int, int>, k: nat)
    requires (forall i :: i in s ==> i in rank) && AscendingBy(s, rank) && k < |s| && rank[s[k]] <= rank[s[0]]
    ensures k == 0
  {
  }

  lemma {:induction false} FirstIsLeast(s: seq<SlotIndex>, rank: map<int, int>, i: int)
    requires (forall i :: i in s ==> i in rank) && AscendingBy(s, rank) && i in s
    ensures rank[s[0]] <= rank[i]
  {
    var k :| 0 <= k < |s| && s[k] == i;
  }

  lemma {:induction false} TailMembers(s: seq<SlotIndex>, rank: map<int, int>)
    requires (forall i :: i in s ==> i in rank) && AscendingBy(s, rank) && |s| > 0
    ensures forall i :: i in s[1..] <==> i in s && i != s[0]
  {
    assert s == [s[0]] + s[1..];
    assert forall k :: 0 < k < |s| ==> rank[s[0]] < rank[s[k]];
  }

  lemma {:induction false} LiveOfAscends(s: seq<SlotIndex>, live: set<int>, rank: map<int, int>)
    requires forall i :: i in s ==> i in rank
    requires forall a, b :: 0 <= a < b < |s| && s[a] in live && s[b] in live ==> rank[s[a]] < rank[s[b]]
    ensures (forall i :: i in LiveOf(s, live) ==> i in rank) && AscendingBy(LiveOf(s, live), rank)
  {
    LiveOfMembers(s, live);
    if |s| > 0 {
      var t := s[1..];
      LiveOfMembers(t, live);
      LiveOfAscends(t, live, rank);
      var r := LiveOf(t, live);
      if s[0] in live {
        forall b | 0 <= b < |r| ensures rank[s[0]] < rank[r[b]] {
          assert r[b] in t;
          var k :| 0 <= k < |t| && t[k] == r[b];
          assert s[k + 1] == r[b];
        }
      }
    }
  }

  // ---- What closing a session writes ----

  /** The listed slots below `n`, in list order. */
  function Reached(order: seq<SlotIndex>, n: nat): (r: seq<SlotIndex>) {
    LiveOf(order, UpTo(n))
  }

  /** The slots with a cell in the file, in list order. */
  function Persisted(order: seq<SlotIndex>): (r: seq<SlotIndex>) {
    Reached(order, BMPCACHE2_NUM_PSTCELLS)
  }

  /** Position of `i` in the list plus `t` plus one, or zero off the list. */
  function StampAfter(order: seq<SlotIndex>, t: nat, i: SlotIndex): (stamp: nat) {
    if i in order then t + 1 + IndexOf(order, i) else 0
  }

  lemma {:induction false} StampedElsewhere(file: seq<byte>, j: nat, stamp: uint32, i: nat, bpp: nat)
    requires i != j && HasHeader(file, i, bpp)
    ensures var f := Stamped(file, j, stamp, bpp); HasHeader(f, i, bpp) && HeaderAt(f, i, bpp) == HeaderAt(file, i, bpp)
  {
    if j < BMPCACHE2_NUM_PSTCELLS {
      TouchKeepsOthers(file, j, stamp, i, bpp);
    }
  }

  /** Cells off the list keep their headers. */
  lemma {:induction false} StampAllElsewhere(file: seq<byte>, order: seq<SlotIndex>, t: nat, i: SlotIndex, bpp: nat)
    requires t + |order| < 0x1_0000_0000 && HasHeader(file, i, bpp) && i !in order
    ensures var f := StampAll(file, order, t, bpp); HasHeader(f, i, bpp) && HeaderAt(f, i, bpp) == HeaderAt(file, i, bpp)
    decreases |order|
  {
    if |order| > 0 {
      StampedElsewhere(file, order[0], t + 1, i, bpp);
      StampAllElsewhere(Stamped(file, order[0], t + 1, bpp), order[1..], t + 1, i, bpp);
    }
  }

  /** A listed cell gets its position for a stamp, and keeps the rest of its header. */
  lemma {:induction false} StampAllAt(file: seq<byte>, order: seq<SlotIndex>, t: nat, i: SlotIndex, bpp: nat)
    requires t + |order| < 0x1_0000_0000 && i < BMPCACHE2_NUM_PSTCELLS && HasHeader(file, i, bpp)
    requires i in order && Distinct(order)
    ensures var f := StampAll(file, order, t, bpp);
            HasHeader(f, i, bpp) && HeaderAt(f, i, bpp) == HeaderAt(file, i, bpp).(stamp := t + 1 + IndexOf(order, i))
    decreases |order|
  {
    var f1 := Stamped(file, order[0], t + 1, bpp);
    if order[0] == i {
      TouchSelf(file, i, t + 1, bpp);
      StampAllElsewhere(f1, order[1..], t + 1, i, bpp);
    } else {
      StampedElsewhere(file, order[0], t + 1, i, bpp);
      StampAllAt(f1, order[1..], t + 1, i, bpp);
    }
  }

  lemma {:induction false} StampAllKeepsPictures(file: seq<byte>, order: seq<SlotIndex>, t: nat, i: SlotIndex, p: Picture, bpp: nat)
    requires t + |order| < 0x1_0000_0000 && FileHolds(file, i, p, bpp)
    ensures FileHolds(StampAll(file, order, t, bpp), i, p, bpp)
    decreases |order|
  {
    hide FileHolds, Stamped;
    if |order| > 0 {
      StampKeepsPictures(file, order[0], t + 1, i, p, bpp);
      StampAllKeepsPictures(Stamped(file, order[0], t + 1, bpp), order[1..], t + 1, i, p, bpp);
    }
  }

  lemma {:induction false} StampAllSize(file: seq<byte>, order: seq<SlotIndex>, t: nat, bpp: nat)
    requires t + |order| < 0x1_0000_0000
    requires forall i :: i in order && i < BMPCACHE2_NUM_PSTCELLS ==> HasHeader(file, i, bpp)
    ensures |StampAll(file, order, t, bpp)| == |file|
    decreases |order|
  {
    if |order| > 0 {
      assert order[0] in order;
      assert forall i :: i in order[1..] ==> i in order;
      assert |Stamped(file, order[0], t + 1, bpp)| == |file|;
      StampAllSize(Stamped(file, order[0], t + 1, bpp), order[1..], t + 1, bpp);
    }
  }

  // ---- The scan of the next session ----

  /** Only live slots have a stamp. */
  ghost predicate StampsTell(c: Cache, bpp: nat) {
    |c.slots| == SLOTS
    && forall i: SlotIndex :: i < BMPCACHE2_NUM_PSTCELLS && c.slots[i].None? ==> StampClear(c.file, i, bpp)
  }

  lemma {:induction false} StampedKeepsClear(file: seq<byte>, j: nat, stamp: uint32, i: nat, bpp: nat)
    requires StampClear(file, i, bpp) && i != j
    ensures StampClear(Stamped(file, j, stamp, bpp), i, bpp)
  {
    if j < BMPCACHE2_NUM_PSTCELLS {
      CellWriteKeepsClear(file, j, CellOffset(j, bpp) + STAMP_OFFSET, Le32(stamp), i, bpp);
    }
  }

  lemma {:induction false} PutTells(c: Cache, i: SlotIndex, b: Bitmap, bpp: nat)
    requires Consistent(c) && StampsTell(c, bpp)
    ensures StampsTell(Put(c, i, b, bpp), bpp)
  {
    PlacedConsistent(c, i, b);
    var p := Placed(c, i, b);
    if |p.order| > BMPCACHE2_C2_CELLS {
      var e, x := Evicted(p, bpp), p.order[0];
      forall j: SlotIndex | j < BMPCACHE2_NUM_PSTCELLS && e.slots[j].None? ensures StampClear(e.file, j, bpp) {
        if j == x {
          TouchClears(p.file, x, bpp);
        } else {
          StampedKeepsClear(p.file, x, 0, j, bpp);
        }
      }
    }
  }

  lemma {:induction false} StepTells(c: Cache, op: Op, bpp: nat)
    requires Consistent(c) && StampsTell(c, bpp) && Allowed(op, bpp)
    ensures StampsTell(Step(c, op, bpp), bpp)
  {
    var c' := c.(created := c.created + 1);
    match op
    case Store(i, key, p) =>
      var b := Bitmap(c.created, p);
      PutTells(c', i, b, bpp);
      PutConsistent(c', i, b, bpp);
      PutLive(c', i, b, bpp);
      var d, r := Put(c', i, b, bpp), Step(c, op, bpp);
      forall j: SlotIndex | j < BMPCACHE2_NUM_PSTCELLS && r.slots[j].None? ensures StampClear(r.file, j, bpp) {
        if i < BMPCACHE2_NUM_PSTCELLS {
          SaveKeepsClear(d.file, i, HeaderFor(key, p), p.data, j, bpp);
        }
      }
    case Use(i, g) =>
      if c.slots[i].None? && i < BMPCACHE2_NUM_PSTCELLS {
        PutTells(c', i, Bitmap(c.created, PictureAt(c.file, i, g, bpp)), bpp);
      }
  }

  /** Over every run, a slot without a bitmap has no stamp in the file. */
  lemma {:induction false} RunTells(c: Cache, ops: seq<Op>, bpp: nat)
    requires Consistent(c) && StampsTell(c, bpp) && AllAllowed(ops, bpp)
    ensures StampsTell(Run(c, ops, bpp), bpp)
    decreases |ops|
  {
    if |ops| > 0 {
      StepTells(c, ops[0], bpp);
      RunTells(Step(c, ops[0], bpp), ops[1..], bpp);
    }
  }

  /** The first `n` cells are in use and cell `n` is not. */
  ghost predicate CellsUsed(file: seq<byte>, n: nat, bpp: nat) {
    && n <= BMPCACHE2_NUM_PSTCELLS
    && (forall i: nat :: i < n ==> Occupied(file, i, bpp))
    && (n < BMPCACHE2_NUM_PSTCELLS ==> !Occupied(file, n, bpp))
  }

  ghost predicate StampsMatch(s: Scan, file: seq<byte>, bpp: nat) {
    |s.cells| == |s.stamps| && forall k :: 0 <= k < |s.cells| ==> s.stamps[k] == StampIn(file, s.cells[k], bpp)
  }

  /** After `i` cells: nothing written, the stamped cells loaded, the cells sorted. */
  ghost predicate Scanned(s: Scan, file: seq<byte>, i: nat, load: bool, last: Pictures, bpp: nat) {
    && s.cache.file == file && Current(s.cache, last, bpp)
    && Below(s.cells, i) && StampsMatch(s, file, bpp) && Ascending(s.stamps)
    && forall j: SlotIndex :: s.cache.slots[j].Some? <==> load && j < i && StampIn(file, j, bpp) != 0
  }

  /** Every stamped cell is on the list, which fits the cache, and has a known picture. */
  ghost predicate StampsListed(file: seq<byte>, order: seq<SlotIndex>, last: Pictures, bpp: nat) {
    && Distinct(order) && |order| <= BMPCACHE2_C2_CELLS
    && forall j: SlotIndex :: j < BMPCACHE2_NUM_PSTCELLS && StampIn(file, j, bpp) != 0 ==> j in order && j in last
  }

  lemma {:induction false} FewerMembers(o: seq<SlotIndex>, order: seq<SlotIndex>)
    requires Distinct(o) && Distinct(order) && forall i :: i in o ==> i in order
    ensures |o| <= |order|
  {
    SizeOfDistinct(o);
    SizeOfDistinct(order);
    SubsetSize(Members(o), Members(order));
  }

  lemma {:induction false} LoadInScan(c: Cache, i: SlotIndex, order: seq<SlotIndex>, last: Pictures, g: Garbage, bpp: nat)
    requires Current(c, last, bpp) && c.slots[i].None?
    requires i < BMPCACHE2_NUM_PSTCELLS && i in last
    requires Distinct(order) && |order| <= BMPCACHE2_C2_CELLS && i in order && forall j :: j in c.order ==> j in order
    ensures var d := Loaded(c, i, g, bpp);
            && Current(d, last, bpp) && d.file == c.file
            && forall j: SlotIndex :: d.slots[j].Some? <==> c.slots[j].Some? || j == i
  {
    ToTopPlaces(c.order, i);
    FewerMembers(ToTop(c.order, i), order);
    UseCurrent(c, last, i, g, bpp);
  }

  lemma {:induction false} CellAccounts(s: Scan, i: SlotIndex, load: bool, g: Garbage, bpp: nat)
    requires InBounds(s.cache) && |s.cells| == |s.stamps| && i < BMPCACHE2_NUM_PSTCELLS && Occupied(s.cache.file, i, bpp)
    ensures InBounds(ScanCell(s, i, load, true, g, bpp).cache)
  {
    hide *;
    ConsistentInBounds(s.cache);
    var loaded, p := ScanCellCache(s, i, load, g, bpp);
    PutAccounts(s.cache, i, p, bpp);
  }

  lemma ScanCellCache(s: Scan, i: SlotIndex, load: bool, g: Garbage, bpp: nat) returns (loaded: bool, p: Picture)
    requires Consistent(s.cache) && |s.cells| == |s.stamps| && Occupied(s.cache.file, i, bpp)
    requires i < BMPCACHE2_NUM_PSTCELLS
    ensures var c := s.cache;
            && ScanCell(s, i, load, true, g, bpp).cache
            == if loaded then Put(c.(created := c.created + 1), i, Bitmap(c.created, p), bpp) else c
  {
    loaded, p := Precached(s.cache.file, i, load, true, bpp), PictureAt(s.cache.file, i, g, bpp);
    hide Put, Precached, InsertPos, InsertAt, PictureAt, HeaderAt;
  }

  lemma ConsistentInBounds(c: Cache)
    requires InBounds(c)
    ensures Consistent(c)
  {
  }

  lemma {:induction false} NextAccounts(s: Scan, i: SlotIndex, load: bool, g: Garbage, bpp: nat) returns (t: Scan)
    requires InBounds(s.cache) && |s.cells| == |s.stamps| && i < BMPCACHE2_NUM_PSTCELLS && Occupied(s.cache.file, i, bpp)
    ensures InBounds(t.cache) && |t.cells| == |t.stamps|
    ensures ScanFrom(s, i, load, true, g, bpp) == ScanFrom(t, i + 1, load, true, g, bpp)
  {
    CellAccounts(s, i, load, g, bpp);
    ScanStep(s, i, load, true, g, bpp);
    t := ScanCell(s, i, load, true, g, bpp);
  }

  /** Handles stay accounted for through a scan. */
  lemma {:induction false} ScanAccounts(s: Scan, i: nat, load: bool, g: Garbage, bpp: nat)
    requires InBounds(s.cache) && |s.cells| == |s.stamps| && i <= BMPCACHE2_NUM_PSTCELLS
    ensures InBounds(ScanFrom(s, i, load, true, g, bpp).cache)
    decreases BMPCACHE2_NUM_PSTCELLS - i
  {
    hide Occupied, ScanFrom, Accounted;
    if i < BMPCACHE2_NUM_PSTCELLS && Occupied(s.cache.file, i, bpp) {
      var t := NextAccounts(s, i, load, g, bpp);
      ScanAccounts(t, i + 1, load, g, bpp);
    } else {
      ConsistentInBounds(s.cache);
      ScanEnds(s, i, load, true, g, bpp);
    }
  }

  lemma {:induction false} InsertMatches(s: Scan, i: SlotIndex, stamp: uint32, file: seq<byte>, bpp: nat)
    requires StampsMatch(s, file, bpp) && stamp == StampIn(file, i, bpp)
    ensures StampsMatch(s.(cells := InsertAt(s.cells, InsertPos(s.stamps, stamp), i),
                           stamps := InsertStamp(s.stamps, stamp)), file, bpp)
  {
    var n, cells, stamps := InsertPos(s.stamps, stamp), s.cells, s.stamps;
    hide InsertPos, StampIn;
    forall k | 0 <= k < |cells| + 1
      ensures InsertStamp(stamps, stamp)[k] == StampIn(file, InsertAt(cells, n, i)[k], bpp)
    {
      if k > n {
        assert stamps[k - 1] == StampIn(file, cells[k - 1], bpp);
      }
    }
  }

  lemma {:induction false} ScanCellScanned(s: Scan, file: seq<byte>, i: SlotIndex, order: seq<SlotIndex>, load: bool,
                                           last: Pictures, g: Garbage, bpp: nat)
    requires Scanned(s, file, i, load, last, bpp) && i < BMPCACHE2_NUM_PSTCELLS && Occupied(file, i, bpp)
    requires StampsListed(file, order, last, bpp)
    ensures Scanned(ScanCell(s, i, load, true, g, bpp), file, i + 1, load, last, bpp)
  {
    var h := HeaderAt(file, i, bpp);
    InsertBelow(s.cells, InsertPos(s.stamps, h.stamp), i);
    InsertMatches(s, i, h.stamp, file, bpp);
    InsertAscends(s.stamps, h.stamp);
    if load && h.stamp != 0 {
      forall j | j in s.cache.order ensures j in order {
        assert s.cache.slots[j].Some?;
      }
      LoadInScan(s.cache, i, order, last, g, bpp);
    }
  }

  lemma {:induction false} ScanStops(s: Scan, n: nat, load: bool, g: Garbage, bpp: nat)
    requires Consistent(s.cache) && |s.cells| == |s.stamps| && n <= BMPCACHE2_NUM_PSTCELLS
    requires n < BMPCACHE2_NUM_PSTCELLS ==> !Occupied(s.cache.file, n, bpp)
    ensures ScanFrom(s, n, load, true, g, bpp) == s
  {
  }

  lemma {:induction false} NextScanned(s: Scan, file: seq<byte>, i: nat, n: nat, order: seq<SlotIndex>, load: bool,
                                       last: Pictures, g: Garbage, bpp: nat)
    returns (t: Scan)
    requires i < n && CellsUsed(file, n, bpp) && Scanned(s, file, i, load, last, bpp)
    requires StampsListed(file, order, last, bpp)
    ensures Scanned(t, file, i + 1, load, last, bpp)
    ensures Occupied(file, i, bpp) && t.keys == s.keys + [HeaderAt(file, i, bpp).key]
    ensures ScanFrom(s, i, load, true, g, bpp) == ScanFrom(t, i + 1, load, true, g, bpp)
  {
    assert Occupied(file, i, bpp);
    ScanCellScanned(s, file, i, order, load, last, g, bpp);
    ScanStep(s, i, load, true, g, bpp);
    t := ScanCell(s, i, load, true, g, bpp);
  }

  lemma {:induction false} ScanAll(s: Scan, file: seq<byte>, i: nat, n: nat, order: seq<SlotIndex>, load: bool,
                                   last: Pictures, g: Garbage, bpp: nat)
    requires i <= n && CellsUsed(file, n, bpp) && Scanned(s, file, i, load, last, bpp)
    requires StampsListed(file, order, last, bpp)
    ensures Scanned(ScanFrom(s, i, load, true, g, bpp), file, n, load, last, bpp)
    decreases n - i
  {
    if i < n {
      var t := NextScanned(s, file, i, n, order, load, last, g, bpp);
      ScanAll(t, file, i + 1, n, order, load, last, g, bpp);
    } else {
      ScanStops(s, n, load, g, bpp);
    }
  }

  /** The keys of the first `n` cells, in the order of the file. */
  ghost predicate KeysOf(keys: seq<HashKey>, file: seq<byte>, n: nat, bpp: nat) {
    |keys| == n && forall k: nat :: k < n ==> HasHeader(file, k, bpp) && keys[k] == HeaderAt(file, k, bpp).key
  }

  lemma KeyAppended(keys: seq<HashKey>, file: seq<byte>, i: nat, bpp: nat)
    requires KeysOf(keys, file, i, bpp) && HasHeader(file, i, bpp)
    ensures KeysOf(keys + [HeaderAt(file, i, bpp).key], file, i + 1, bpp)
  {
    hide HeaderAt, HasHeader;
  }

  /** A scan lists the keys of the used cells. */
  lemma {:induction false} ScanListsKeys(s: Scan, file: seq<byte>, i: nat, n: nat, order: seq<SlotIndex>, load: bool,
                                         last: Pictures, g: Garbage, bpp: nat)
    requires i <= n && CellsUsed(file, n, bpp) && Scanned(s, file, i, load, last, bpp)
    requires StampsListed(file, order, last, bpp) && KeysOf(s.keys, file, i, bpp)
    ensures KeysOf(ScanFrom(s, i, load, true, g, bpp).keys, file, n, bpp)
    decreases n - i
  {
    hide KeysOf;
    if i < n {
      var t := NextScanned(s, file, i, n, order, load, last, g, bpp);
      KeyAppended(s.keys, file, i, bpp);
      hide *;
      ScanListsKeys(t, file, i + 1, n, order, load, last, g, bpp);
    } else {
      ScanStops(s, n, load, g, bpp);
    }
  }

  /** One key is listed for every cell sorted. */
  lemma {:induction false} ScanKeys(s: Scan, i: nat, load: bool, g: Garbage, bpp: nat)
    requires Consistent(s.cache) && |s.cells| == |s.stamps| == |s.keys| && i <= BMPCACHE2_NUM_PSTCELLS
    ensures var r := ScanFrom(s, i, load, true, g, bpp); |r.keys| == |r.cells|
    decreases BMPCACHE2_NUM_PSTCELLS - i
  {
    hide Occupied, ScanFrom, Consistent;
    if i < BMPCACHE2_NUM_PSTCELLS && Occupied(s.cache.file, i, bpp) {
      var t := NextKeys(s, i, load, g, bpp);
      ScanKeys(t, i + 1, load, g, bpp);
    } else {
      ScanEnds(s, i, load, true, g, bpp);
    }
  }

  lemma NextKeys(s: Scan, i: SlotIndex, load: bool, g: Garbage, bpp: nat) returns (t: Scan)
    requires Consistent(s.cache) && |s.cells| == |s.stamps| == |s.keys|
    requires i < BMPCACHE2_NUM_PSTCELLS && Occupied(s.cache.file, i, bpp)
    ensures Consistent(t.cache) && |t.cells| == |t.stamps| == |t.keys|
    ensures ScanFrom(s, i, load, true, g, bpp) == ScanFrom(t, i + 1, load, true, g, bpp)
  {
    hide InsertPos, PictureAt, HeaderAt, Precached, Loaded, Below, Consistent, ScanFrom;
    ScanStep(s, i, load, true, g, bpp);
    t := ScanCell(s, i, load, true, g, bpp);
  }

  // ---- Across sessions ----

  /** The cache of a process that has just opened the file. */
  function Fresh(file: seq<byte>): (c: Cache) {
    Cache([], seq(SLOTS, _ => None), file, [], 0)
  }

  /** Close one session and open the next with precaching on or off. */
  function Reopened(c: Cache, t: nat, load: bool, g: Garbage, bpp: nat): (r: (Cache, seq<HashKey>))
    requires Consistent(c) && t + |c.order| < 0x1_0000_0000
  {
    Enumerated(Fresh(StampAll(c.file, c.order, t, bpp)), load, true, g, bpp)
  }

  /** What a session keeps: pictures, stamps, and a file whose first unused cell is cell `n`. */
  ghost predicate Standing(c: Cache, n: nat, last: Pictures, bpp: nat) {
    InBounds(c) && Current(c, last, bpp) && StampsTell(c, bpp) && CellsUsed(c.file, n, bpp)
  }

  /** No listed slot has its cell behind the first unused one. */
  predicate GapFree(order: seq<SlotIndex>, n: nat) {
    forall i :: i in order && i < BMPCACHE2_NUM_PSTCELLS ==> i < n
  }

  /** What a session can hand on in full. */
  ghost predicate Session(c: Cache, n: nat, last: Pictures, bpp: nat) {
    Standing(c, n, last, bpp) && GapFree(c.order, n)
  }

  /** The first unused cell. */
  function FirstUnused(file: seq<byte>, i: nat, bpp: nat): (n: nat)
    requires i <= BMPCACHE2_NUM_PSTCELLS && forall k: nat :: k < i ==> Occupied(file, k, bpp)
    ensures CellsUsed(file, n, bpp)
    decreases BMPCACHE2_NUM_PSTCELLS - i
  {
    if i < BMPCACHE2_NUM_PSTCELLS && Occupied(file, i, bpp) then FirstUnused(file, i + 1, bpp) else i
  }

  /** The pictures that survive: those with a cell. */
  function OnFile(last: Pictures): (r: Pictures) {
    map i | i in last && i < BMPCACHE2_NUM_PSTCELLS :: last[i]
  }

  /** Every listed slot with a cell has a header in the file. */
  lemma {:induction false} ListedHeaders(c: Cache, n: nat, last: Pictures, j: SlotIndex, bpp: nat)
    requires Standing(c, n, last, bpp) && j in c.order && j < BMPCACHE2_NUM_PSTCELLS
    ensures HasHeader(c.file, j, bpp)
  {
    assert c.slots[j].Some?;
    assert FileHolds(c.file, j, last[j], bpp);
  }

  /** After closing, the stamped cells are the listed ones, and the stamps say where on the list. */
  lemma {:induction false} ClosedStamps(c: Cache, n: nat, last: Pictures, t: nat, i: SlotIndex, bpp: nat)
    requires Standing(c, n, last, bpp) && t + |c.order| < 0x1_0000_0000 && i < BMPCACHE2_NUM_PSTCELLS
    ensures var f := StampAll(c.file, c.order, t, bpp);
            && StampIn(f, i, bpp) == StampAfter(c.order, t, i)
            && (i < n ==> Occupied(f, i, bpp)) && (i == n ==> !Occupied(f, i, bpp))
  {
    var f := StampAll(c.file, c.order, t, bpp);
    forall j | j in c.order && j < BMPCACHE2_NUM_PSTCELLS ensures HasHeader(c.file, j, bpp) {
      ListedHeaders(c, n, last, j, bpp);
    }
    StampAllSize(c.file, c.order, t, bpp);
    if HasHeader(c.file, i, bpp) {
      if i in c.order {
        StampAllAt(c.file, c.order, t, i, bpp);
      } else {
        StampAllElsewhere(c.file, c.order, t, i, bpp);
      }
    }
    assert i < n ==> Occupied(c.file, i, bpp);
    assert c.slots[i].Some? <==> i in c.order;
    if i !in c.order {
      ClearIsZero(c.file, i, bpp);
    }
  }

  lemma {:induction false} FreshScanned(file: seq<byte>, load: bool, last: Pictures, bpp: nat)
    requires forall i: SlotIndex :: i in last ==> i < BMPCACHE2_NUM_PSTCELLS && FileHolds(file, i, last[i], bpp)
    ensures Scanned(Scan(Fresh(file), [], [], []), file, 0, load, last, bpp)
  {
  }

  /** Cells off the list are still without a stamp after closing. */
  lemma {:induction false} StampAllKeepsClear(file: seq<byte>, order: seq<SlotIndex>, t: nat, i: SlotIndex, bpp: nat)
    requires t + |order| < 0x1_0000_0000 && StampClear(file, i, bpp) && i !in order
    ensures StampClear(StampAll(file, order, t, bpp), i, bpp)
    decreases |order|
  {
    if |order| > 0 {
      StampedKeepsClear(file, order[0], t + 1, i, bpp);
      StampAllKeepsClear(Stamped(file, order[0], t + 1, bpp), order[1..], t + 1, i, bpp);
    }
  }

  /** The file after closing: its used cells, the stamps of the listed cells, and their pictures. */
  lemma {:induction false} ClosedListed(c: Cache, n: nat, last: Pictures, t: nat, bpp: nat)
    requires Standing(c, n, last, bpp) && t + |c.order| < 0x1_0000_0000
    ensures var f := StampAll(c.file, c.order, t, bpp);
            && CellsUsed(f, n, bpp) && StampsListed(f, c.order, OnFile(last), bpp)
            && (forall i: SlotIndex :: i in OnFile(last) ==> FileHolds(f, i, OnFile(last)[i], bpp))
            && forall i: SlotIndex :: i < BMPCACHE2_NUM_PSTCELLS ==> StampIn(f, i, bpp) == StampAfter(c.order, t, i)
  {
    var f := StampAll(c.file, c.order, t, bpp);
    forall i: SlotIndex | i < BMPCACHE2_NUM_PSTCELLS
      ensures StampIn(f, i, bpp) == StampAfter(c.order, t, i)
      ensures (i < n ==> Occupied(f, i, bpp)) && (i == n ==> !Occupied(f, i, bpp))
      ensures StampIn(f, i, bpp) != 0 ==> i in c.order && i in OnFile(last)
    {
      ClosedStamps(c, n, last, t, i, bpp);
      assert c.slots[i].Some? <==> i in c.order;
    }
    forall i: SlotIndex | i in OnFile(last) ensures FileHolds(f, i, OnFile(last)[i], bpp) {
      StampAllKeepsPictures(c.file, c.order, t, i, last[i], bpp);
    }
  }

  /** The scan after closing: the cells sorted by stamp, with exactly the listed ones loaded. */
  lemma {:induction false} ScanAfterClose(c: Cache, n: nat, last: Pictures, t: nat, load: bool, g: Garbage, bpp: nat)
    requires Standing(c, n, last, bpp) && t + |c.order| < 0x1_0000_0000
    ensures var f := StampAll(c.file, c.order, t, bpp);
            var s := ScanFrom(Scan(Fresh(f), [], [], []), 0, load, true, g, bpp);
            && CellsUsed(f, n, bpp) && Scanned(s, f, n, load, OnFile(last), bpp) && |s.keys| == n
            && (forall i: SlotIndex :: i in Live(s.cache) <==> load && i < n && i in c.order)
  {
    var f := StampAll(c.file, c.order, t, bpp);
    ClosedListed(c, n, last, t, bpp);
    FreshScanned(f, load, OnFile(last), bpp);
    ScanKeys(Scan(Fresh(f), [], [], []), 0, load, g, bpp);
    ScanAll(Scan(Fresh(f), [], [], []), f, 0, n, c.order, load, OnFile(last), g, bpp);
  }

  /** Enumeration lists the keys that the used cells had at closing, cell by cell. */
  lemma {:induction false} ReopenedKeys(c: Cache, n: nat, last: Pictures, t: nat, load: bool, g: Garbage, bpp: nat, k: nat)
    requires Standing(c, n, last, bpp) && t + |c.order| < 0x1_0000_0000 && k < n
    ensures var keys := Reopened(c, t, load, g, bpp).1;
            |keys| == n && HasHeader(c.file, k, bpp) && keys[k] == HeaderAt(c.file, k, bpp).key
  {
    var f := StampAll(c.file, c.order, t, bpp);
    ClosedListed(c, n, last, t, bpp);
    FreshScanned(f, load, OnFile(last), bpp);
    ScanListsKeys(Scan(Fresh(f), [], [], []), f, 0, n, c.order, load, OnFile(last), g, bpp);
    KeyKept(c, n, last, t, k, bpp);
    hide ScanFrom, StampAll, Scanned, CellsUsed, StampsListed, HeaderAt, LiveOf, Standing;
  }

  /** Closing changes no key. */
  lemma {:induction false} KeyKept(c: Cache, n: nat, last: Pictures, t: nat, k: SlotIndex, bpp: nat)
    requires Standing(c, n, last, bpp) && t + |c.order| < 0x1_0000_0000 && k < n
    ensures var f := StampAll(c.file, c.order, t, bpp);
            HasHeader(c.file, k, bpp) && HasHeader(f, k, bpp) && HeaderAt(f, k, bpp).key == HeaderAt(c.file, k, bpp).key
  {
    assert Occupied(c.file, k, bpp);
    if k in c.order {
      StampAllAt(c.file, c.order, t, k, bpp);
    } else {
      StampAllElsewhere(c.file, c.order, t, k, bpp);
    }
  }

  /** The stamps rank the listed cells in list order. */
  function Rank(file: seq<byte>, bpp: nat): (rank: map<int, int>) {
    map i: int | i in UpTo(SLOTS) :: StampIn(file, i, bpp)
  }

  lemma {:induction false} SortedLiveAscends(s: Scan, file: seq<byte>, n: nat, load: bool, last: Pictures,
                                             order: seq<SlotIndex>, t: nat, bpp: nat)
    requires Scanned(s, file, n, load, last, bpp) && Distinct(order)
    requires forall i: SlotIndex :: i in Live(s.cache) ==> i in order && StampIn(file, i, bpp) == StampAfter(order, t, i)
    ensures var o := LiveOf(s.cells, Live(s.cache));
            && (forall i :: i in o <==> i in Live(s.cache))
            && AscendingBy(o, Rank(file, bpp))
  {
    var cells, live, rank := s.cells, Live(s.cache), Rank(file, bpp);
    LiveOfMembers(cells, live);
    BelowMembers(cells, n);
    forall a, b | 0 <= a < b < |cells| && cells[a] in live && cells[b] in live
      ensures rank[cells[a]] < rank[cells[b]]
    {
      assert s.stamps[a] <= s.stamps[b];
      StampsDiffer(order, t, cells[a], cells[b]);
    }
    LiveOfAscends(cells, live, rank);
  }

  lemma {:induction false} StampsDiffer(order: seq<SlotIndex>, t: nat, i: SlotIndex, j: SlotIndex)
    requires i in order && j in order && i != j
    ensures StampAfter(order, t, i) != StampAfter(order, t, j)
  {
  }

  lemma {:induction false} ReachedAscends(order: seq<SlotIndex>, n: nat, file: seq<byte>, t: nat, bpp: nat)
    requires Distinct(order) && n <= BMPCACHE2_NUM_PSTCELLS
    requires forall i: SlotIndex :: i in order && i < BMPCACHE2_NUM_PSTCELLS ==> StampIn(file, i, bpp) == StampAfter(order, t, i)
    ensures (forall i :: i in Reached(order, n) <==> i in order && i < n)
    ensures AscendingBy(Reached(order, n), Rank(file, bpp))
  {
    var rank, live := Rank(file, bpp), UpTo(n);
    LiveOfMembers(order, live);
    forall a, b | 0 <= a < b < |order| && order[a] in live && order[b] in live
      ensures rank[order[a]] < rank[order[b]]
    {
      IndexUnique(order, a);
      IndexUnique(order, b);
    }
    LiveOfAscends(order, live, rank);
  }

  lemma {:induction false} OrderAfterClose(c: Cache, n: nat, last: Pictures, t: nat, g: Garbage, bpp: nat)
    requires Standing(c, n, last, bpp) && t + |c.order| < 0x1_0000_0000
    ensures var s := ScanFrom(Scan(Fresh(StampAll(c.file, c.order, t, bpp)), [], [], []), 0, true, true, g, bpp);
            LiveOf(s.cells, Live(s.cache)) == Reached(c.order, n)
  {
    hide ScanFrom, StampAll, LiveOf, Reached, Scanned, Current, CellsUsed, StampsTell;
    var f := StampAll(c.file, c.order, t, bpp);
    var s := ScanFrom(Scan(Fresh(f), [], [], []), 0, true, true, g, bpp);
    ScanAfterClose(c, n, last, t, true, g, bpp);
    forall i: SlotIndex | i < BMPCACHE2_NUM_PSTCELLS ensures StampIn(f, i, bpp) == StampAfter(c.order, t, i) {
      ClosedStamps(c, n, last, t, i, bpp);
    }
    SortedLiveAscends(s, f, n, true, OnFile(last), c.order, t, bpp);
    UsedFits(c.file, n, bpp);
    ReachedAscends(c.order, n, f, t, bpp);
    AscendingUnique(LiveOf(s.cells, Live(s.cache)), Reached(c.order, n), Rank(f, bpp));
  }

  lemma UsedFits(file: seq<byte>, n: nat, bpp: nat)
    requires CellsUsed(file, n, bpp)
    ensures n <= BMPCACHE2_NUM_PSTCELLS
  {
  }

  /**
   Closing a session and opening the next with precaching rebuilds, with their pictures, exactly the
   listed slots whose cells stand before the first unused one, in their order from least to most
   recently used.  If that is all of them, the next session again satisfies everything a session must.
   */
  lemma {:induction false} ReopenRestoresOrder(c: Cache, n: nat, last: Pictures, t: nat, g: Garbage, bpp: nat)
    requires Standing(c, n, last, bpp) && t + |c.order| < 0x1_0000_0000
    ensures var (r, keys) := Reopened(c, t, true, g, bpp);
            && r.order == Reached(c.order, n) && |keys| == n && InBounds(r) && Current(r, OnFile(last), bpp)
            && (GapFree(c.order, n) ==> r.order == Persisted(c.order) && Session(r, n, OnFile(last), bpp))
            && |r.order| == |ScanFrom(Scan(Fresh(StampAll(c.file, c.order, t, bpp)), [], [], []), 0, true, true, g, bpp).cache.order|
  {
    var f := StampAll(c.file, c.order, t, bpp);
    var s := ScanFrom(Scan(Fresh(f), [], [], []), 0, true, true, g, bpp);
    OrderAfterClose(c, n, last, t, g, bpp);
    ScanFit(c, n, last, t, g, bpp);
    ReopenedIs(c, t, g, bpp);
    if GapFree(c.order, n) {
      GapFreeReaches(c.order, n);
    }
    hide *;
    RebuiltCache(s, f, n, OnFile(last), bpp);
  }

  lemma ReopenedIs(c: Cache, t: nat, g: Garbage, bpp: nat)
    requires Consistent(c) && t + |c.order| < 0x1_0000_0000
    ensures var s := ScanFrom(Scan(Fresh(StampAll(c.file, c.order, t, bpp)), [], [], []), 0, true, true, g, bpp);
            Reopened(c, t, true, g, bpp) == (s.cache.(order := LiveOf(s.cells, Live(s.cache))), s.keys)
  {
    hide ScanFrom, StampAll, LiveOf, Live;
  }

  /** The scan after closing leaves all that rebuilding the list asks for. */
  lemma {:induction false} ScanFit(c: Cache, n: nat, last: Pictures, t: nat, g: Garbage, bpp: nat)
    requires Standing(c, n, last, bpp) && t + |c.order| < 0x1_0000_0000
    ensures Consistent(c)
    ensures var f := StampAll(c.file, c.order, t, bpp);
            var s := ScanFrom(Scan(Fresh(f), [], [], []), 0, true, true, g, bpp);
            && Scanned(s, f, n, true, OnFile(last), bpp) && CellsUsed(f, n, bpp) && InBounds(s.cache)
            && |s.keys| == n && GapFree(s.cache.order, n)
            && (GapFree(c.order, n) ==> StampsTell(s.cache, bpp))
  {
    var f := StampAll(c.file, c.order, t, bpp);
    var s := ScanFrom(Scan(Fresh(f), [], [], []), 0, true, true, g, bpp);
    assert Consistent(c);
    hide *;
    ScanAfterClose(c, n, last, t, true, g, bpp);
    FreshInBounds(f);
    ScanAccounts(Scan(Fresh(f), [], [], []), 0, true, g, bpp);
    ScannedFile(s, f, n, OnFile(last), bpp);
    ConsistentInBounds(s.cache);
    if GapFree(c.order, n) {
      ScanTells(c, n, last, t, s.cache, bpp);
    }
    ScannedGapFree(s.cache, c.order, n);
  }

  lemma ScannedGapFree(d: Cache, order: seq<SlotIndex>, n: nat)
    requires Consistent(d) && forall i: SlotIndex :: i in Live(d) <==> i < n && i in order
    ensures GapFree(d.order, n)
  {
    forall i | i in d.order && i < BMPCACHE2_NUM_PSTCELLS ensures i < n {
      assert i in Live(d);
    }
  }

  /** Without a gap every slot that the scan leaves empty has a clear stamp. */
  lemma {:induction false} ScanTells(c: Cache, n: nat, last: Pictures, t: nat, d: Cache, bpp: nat)
    requires Standing(c, n, last, bpp) && GapFree(c.order, n) && t + |c.order| < 0x1_0000_0000
    requires Consistent(d) && d.file == StampAll(c.file, c.order, t, bpp)
    requires forall i: SlotIndex :: i in Live(d) <==> i < n && i in c.order
    ensures StampsTell(d, bpp)
  {
    ConsistentInBounds(c);
    hide StampAll, Current, CellsUsed, Accounted, StampClear;
    forall i: SlotIndex | i < BMPCACHE2_NUM_PSTCELLS && d.slots[i].None? ensures StampClear(d.file, i, bpp) {
      assert i !in Live(d);
      assert c.slots[i].None?;
      StampAllKeepsClear(c.file, c.order, t, i, bpp);
    }
  }

  lemma FreshInBounds(file: seq<byte>)
    ensures InBounds(Fresh(file))
  {
  }

  lemma ScannedFile(s: Scan, file: seq<byte>, n: nat, last: Pictures, bpp: nat)
    requires Scanned(s, file, n, true, last, bpp)
    ensures s.cache.file == file
  {
  }

  /** Rebuilding the list of a scanned cache keeps everything else and loses no slot. */
  lemma {:induction false} RebuiltCache(s: Scan, file: seq<byte>, n: nat, last: Pictures, bpp: nat)
    requires Scanned(s, file, n, true, last, bpp) && CellsUsed(file, n, bpp) && InBounds(s.cache) && GapFree(s.cache.order, n)
    ensures var r := s.cache.(order := LiveOf(s.cells, Live(s.cache)));
            && InBounds(r) && Current(r, last, bpp) && |r.order| == |s.cache.order|
            && (StampsTell(s.cache, bpp) ==> Session(r, n, last, bpp))
  {
    var c, o := s.cache, LiveOf(s.cells, Live(s.cache));
    LiveOfDistinct(s.cells, Live(c));
    LiveOfMembers(s.cells, Live(c));
    BelowMembers(s.cells, n);
    ReorderedBounds(c, o, last, bpp);
  }

  lemma {:induction false} ReorderedBounds(c: Cache, o: seq<SlotIndex>, last: Pictures, bpp: nat)
    requires InBounds(c) && Current(c, last, bpp) && Distinct(o)
    requires forall i: SlotIndex :: i in o <==> c.slots[i].Some?
    ensures InBounds(c.(order := o)) && Current(c.(order := o), last, bpp) && |o| == |c.order|
  {
    FewerMembers(o, c.order);
    FewerMembers(c.order, o);
    SameHandles(c, c.(order := o));
  }

  lemma {:induction false} NoneLive(cells: seq<SlotIndex>, live: set<int>)
    requires forall i: SlotIndex :: i !in live
    ensures LiveOf(cells, live) == []
  {
    LiveOfMembers(cells, live);
    if |LiveOf(cells, live)| > 0 {
      FirstIn(LiveOf(cells, live));
      assert false;
    }
  }

  lemma {:induction false} SameLive(order: seq<SlotIndex>, a: set<int>, b: set<int>)
    requires forall i :: i in order ==> (i in a <==> i in b)
    ensures LiveOf(order, a) == LiveOf(order, b)
  {
    if |order| > 0 {
      FirstIn(order);
      assert forall i :: i in order[1..] ==> i in order;
      SameLive(order[1..], a, b);
    }
  }

  /** A scan reaches every listed cell exactly when none stands behind a gap. */
  lemma {:induction false} GapFreeReaches(order: seq<SlotIndex>, n: nat)
    requires n <= BMPCACHE2_NUM_PSTCELLS
    ensures Reached(order, n) == Persisted(order) <==> GapFree(order, n)
  {
    var a, b := UpTo(n), UpTo(BMPCACHE2_NUM_PSTCELLS);
    LiveOfMembers(order, a);
    LiveOfMembers(order, b);
    if GapFree(order, n) {
      SameLive(order, a, b);
    } else {
      var i :| i in order && i < BMPCACHE2_NUM_PSTCELLS && i >= n;
      assert i in Persisted(order) && i !in Reached(order, n);
    }
  }

  /**
   The order survives closing and opening exactly when precaching is on and no listed cell stands
   behind a gap, or no listed slot has a cell.
   */
  lemma {:induction false} OrderSurvivesExactlyWhen(c: Cache, n: nat, last: Pictures, t: nat, load: bool, g: Garbage, bpp: nat)
    requires Standing(c, n, last, bpp) && t + |c.order| < 0x1_0000_0000
    ensures Reopened(c, t, load, g, bpp).0.order == Persisted(c.order)
       <==> (load && GapFree(c.order, n)) || Persisted(c.order) == []
  {
    GapFreeReaches(c.order, n);
    if load {
      ReopenRestoresOrder(c, n, last, t, g, bpp);
      if Persisted(c.order) == [] {
        NothingReached(c.order, n);
      }
    } else {
      ScanAfterClose(c, n, last, t, false, g, bpp);
      var s := ScanFrom(Scan(Fresh(StampAll(c.file, c.order, t, bpp)), [], [], []), 0, false, true, g, bpp);
      NoneLive(s.cells, Live(s.cache));
    }
  }

  lemma {:induction false} NothingReached(order: seq<SlotIndex>, n: nat)
    requires Persisted(order) == []
    ensures GapFree(order, n)
  {
    LiveOfMembers(order, UpTo(BMPCACHE2_NUM_PSTCELLS));
    if i :| i in order && n <= i < BMPCACHE2_NUM_PSTCELLS {
      assert false;
    }
  }

  /**
   A whole session: open with everything in order, run any saved puts and uses, close, open again.
   What comes back is the order of the listed cells before the first unused one.
   */
  lemma {:induction false} SessionsChain(c: Cache, last: Pictures, ops: seq<Op>, t: nat, g: Garbage, bpp: nat)
    requires InBounds(c) && Current(c, last, bpp) && StampsTell(c, bpp)
    requires AllAllowed(ops, bpp) && Sensible(last, ops) && t + SLOTS < 0x1_0000_0000
    ensures var d := Run(c, ops, bpp);
            var n := FirstUnused(d.file, 0, bpp);
            && |d.order| <= BMPCACHE2_C2_CELLS
            && var (r, keys) := Reopened(d, t, true, g, bpp);
               && r.order == Reached(d.order, n) && |keys| == n
               && InBounds(r) && Current(r, OnFile(LastAfterAll(last, ops)), bpp)
               && (GapFree(d.order, n) ==>
                     r.order == Persisted(d.order) && Session(r, n, OnFile(LastAfterAll(last, ops)), bpp))
  {
    RunAccounts(c, ops, bpp);
    RunCurrent(c, last, ops, bpp);
    RunTells(c, ops, bpp);
    var d := Run(c, ops, bpp);
    ReopenRestoresOrder(d, FirstUnused(d.file, 0, bpp), LastAfterAll(last, ops), t, g, bpp);
  }

  /**
   Opening the file that a session has closed: the program goes on, and is left with a valid cache
   whose list is the one held at closing, up to the first gap.
   */
  method Reopen(pc: PersistentCache, depth: nat, g: Garbage, ghost c: Cache, ghost n: nat, ghost last: Pictures, ghost t: nat)
    returns (keys: seq<HashKey>, ok: bool)
    requires pc.Valid() && pc.enabled && !pc.enumerated && depth > 8
    requires Standing(c, n, last, pc.bpp) && t + |c.order| < 0x1_0000_0000
    requires pc.View() == Fresh(StampAll(c.file, c.order, t, pc.bpp))
    modifies pc, pc.links, pc.bitmaps
    ensures ok && pc.Valid() && pc.enumerated && |keys| == n
    ensures pc.View() == Reopened(c, t, true, g, pc.bpp).0 && pc.View().order == Reached(c.order, n)
    ensures GapFree(c.order, n) ==> pc.View().order == Persisted(c.order) && Session(pc.View(), n, OnFile(last), pc.bpp)
  {
    ReopenRestoresOrder(c, n, last, t, g, pc.bpp);
    hide ScanFrom, StampAll, Session, Standing, Persisted, Reached, GapFree, OnFile, LiveOf;
    keys, ok := pc.Enumerate(true, true, depth, g);
  }

  /** The session that has stored one picture with a cell into a new file. */
  function OneStore(i: SlotIndex, key: HashKey, p: Picture, bpp: nat): (c: Cache)
    requires Storable(p, bpp)
  {
    Stored(Fresh([]), i, key, p, bpp)
  }

  lemma {:induction false} OneStoreStands(i: SlotIndex, key: HashKey, p: Picture, bpp: nat)
    requires i < BMPCACHE2_NUM_PSTCELLS && Storable(p, bpp) && key != ZERO_KEY
    ensures var c := OneStore(i, key, p, bpp);
            Standing(c, if i == 0 then 1 else 0, map[i := p], bpp) && c.order == [i] && Persisted([i]) == [i]
  {
    var c, d := Fresh([]), OneStore(i, key, p, bpp);
    var op := Store(i, key, p);
    FreshInBounds([]);
    StepAccounts(c, op, bpp);
    StoreCurrent(c, map[], i, key, p, bpp);
    StepTells(c, op, bpp);
    OneCell(i, HeaderFor(key, p), p.data, bpp);
    assert d.file == SaveCell([], i, HeaderFor(key, p), p.data, bpp);
    assert LiveOf([i][1..], UpTo(BMPCACHE2_NUM_PSTCELLS)) == [];
  }

  /** In a new file with one cell saved, the first unused cell is cell 1 or cell 0. */
  lemma {:induction false} OneCell(i: nat, h: CellHeader, data: seq<byte>, bpp: nat)
    requires |data| == h.length && CellFits(h, bpp) && h.key != ZERO_KEY
    ensures CellsUsed(SaveCell([], i, h, data, bpp), if i == 0 then 1 else 0, bpp)
  {
    SaveSelf([], i, h, data, bpp);
    if i > 0 {
      var f, off := SaveCell([], i, h, data, bpp), CellOffset(i, bpp);
      CellsApart(0, i, bpp);
      assert f[..8] == ZERO_KEY;
      assert f[0..HEADER_SIZE][..8] == f[..8];
    }
  }

  /** Without precaching, the order of a session with one picture is forgotten. */
  lemma {:induction false} ForgottenWithoutPrecaching(key: HashKey, p: Picture, t: nat, g: Garbage, bpp: nat)
    requires Storable(p, bpp) && key != ZERO_KEY && t + 1 < 0x1_0000_0000
    ensures var c := OneStore(0, key, p, bpp);
            Session(c, 1, map[0 := p], bpp) && Persisted(c.order) == [0] && Reopened(c, t, false, g, bpp).0.order == []
  {
    OneStoreStands(0, key, p, bpp);
    var c := OneStore(0, key, p, bpp);
    hide OneStore;
    ScanAfterClose(c, 1, map[0 := p], t, false, g, bpp);
    var s := ScanFrom(Scan(Fresh(StampAll(c.file, c.order, t, bpp)), [], [], []), 0, false, true, g, bpp);
    NoneLive(s.cells, Live(s.cache));
  }

  /** Nor does it survive, precaching or not, when the picture went to cell 1 and cell 0 is unused. */
  lemma {:induction false} ForgottenBehindGap(key: HashKey, p: Picture, t: nat, load: bool, g: Garbage, bpp: nat)
    requires Storable(p, bpp) && key != ZERO_KEY && t + 1 < 0x1_0000_0000
    ensures var c := OneStore(1, key, p, bpp);
            && Standing(c, 0, map[1 := p], bpp) && Persisted(c.order) == [1]
            && Reopened(c, t, load, g, bpp).0.order != [1]
  {
    OneStoreStands(1, key, p, bpp);
    var c := OneStore(1, key, p, bpp);
    assert 1 in c.order;
    hide OneStore;
    OrderSurvivesExactlyWhen(c, 0, map[1 := p], t, load, g, bpp);
  }
}
