/** Which bitmaps the cache holds, and in which order: those used most recently. */
module CacheOrder {
  import opened Options
  import opened CellFile
  import opened LruList
  import opened BitmapCache
  import opened CacheRuns

  // ---- One put, one get ----

  /**
   A put leaves the other slots in their order and the slot behind them; when that is more than 0x150,
   the first, the least recently used, is gone, its bitmap destroyed and its slot empty.
   */
  lemma {:induction false} PutOrder(c: Cache, i: SlotIndex, b: Bitmap, bpp: nat)
    requires Consistent(c)
    ensures var others, d := Others(c.order, i), Put(c, i, b, bpp);
            var replaced := if c.slots[i].Some? then [c.slots[i].value.handle] else [];
            if |others| + 1 <= 0x150 then
              && d.order == others + [i] && d.slots == c.slots[i := Some(b)]
              && d.destroyed == c.destroyed + replaced && d.file == c.file
            else
              var v := others[0];
              && d.order == others[1..] + [i] && v != i && c.slots[v].Some?
              && d.slots == c.slots[i := Some(b)][v := None]
              && d.destroyed == c.destroyed + replaced + [c.slots[v].value.handle]
  {
    ToTopMoves(c.order, i);
    PlacedConsistent(c, i, b);
    hide Others, Stamped, ToTop, Consistent;
    if |Placed(c, i, b).order| > 0x150 {
      FirstOther(c, i);
    }
  }

  lemma FirstOther(c: Cache, i: SlotIndex)
    requires Consistent(c) && |Others(c.order, i)| > 0
    ensures var v := Others(c.order, i)[0]; v != i && c.slots[v].Some?
  {
    OthersMembers(c.order, i);
    hide Others;
    assert Others(c.order, i)[0] in Others(c.order, i);
  }

  lemma {:induction false} OthersMembers(order: seq<SlotIndex>, i: SlotIndex)
    ensures forall x :: x in Others(order, i) <==> x in order && x != i
  {
    if |order| > 0 {
      OthersMembers(order[1..], i);
    }
  }

  /** The slot evicted by a put to another slot is the head of the list. */
  lemma {:induction false} HeadEvicted(c: Cache, i: SlotIndex, b: Bitmap, bpp: nat)
    requires Consistent(c) && i !in c.order && |c.order| >= 0x150
    ensures Put(c, i, b, bpp).order == c.order[1..] + [i] && Put(c, i, b, bpp).slots[c.order[0]] == None
  {
    OthersAre(c.order, i);
    PutOrder(c, i, b, bpp);
    hide Put;
  }

  /**
   A get of a bitmap in memory moves it 40 places towards the most recently used end, or to that end,
   and no other; one that has to be loaded goes to the end like a put, if the cache is enabled and the
   slot has a cell.
   */
  lemma {:induction false} GetOrder(c: Cache, i: SlotIndex, g: Garbage, enabled: bool, bpp: nat)
    requires Consistent(c)
    ensures var r := CacheGot(c, i, g, enabled, bpp);
            if c.slots[i].Some? then
              exists j :: 0 <= j < |c.order| && c.order[j] == i
                          && r == c.(order := r.order) && |r.order| == |c.order|
                          && r.order[if j + 40 < |c.order| then j + 40 else |c.order| - 1] == i
                          && Others(r.order, i) == Others(c.order, i)
            else if enabled && i < 0x9f6 then
              r.created == c.created + 1 && r.order == (if |c.order| < 0x150 then c.order else c.order[1..]) + [i]
            else r == c
  {
    if c.slots[i].Some? {
      var j := IndexOf(c.order, i);
      BumpMoves(c.order, i, BUMP_COUNT, j);
      hide BumpUp, Others;
    } else if enabled && i < 0x9f6 {
      var d := c.(created := c.created + 1);
      OthersAre(c.order, i);
      PutOrder(d, i, Bitmap(c.created, PictureAt(c.file, i, g, bpp)), bpp);
      hide Put;
    }
  }

  /** A store writes the key, the size and the picture to the slot's cell, with a stamp of 0. */
  lemma {:induction false} StoreWritesCell(c: Cache, i: SlotIndex, key: HashKey, p: Picture, bpp: nat)
    requires Consistent(c) && Storable(p, bpp) && i < 0x9f6
    ensures var f := Stored(c, i, key, p, bpp).file;
            && HasData(f, i, bpp) && DataAt(f, i, bpp) == p.data
            && HeaderAt(f, i, bpp) == CellHeader(key, p.width, p.height, |p.data|, 0)
  {
    var d := c.(created := c.created + 1);
    PutConsistent(d, i, Bitmap(c.created, p), bpp);
    SaveSelf(Put(d, i, Bitmap(c.created, p), bpp).file, i, HeaderFor(key, p), p.data, bpp);
    hide Put, SaveCell, HasData, DataAt, HeaderAt;
  }

  // ---- Runs of stores ----

  /** Where `x` stands last. */
  function LastAt(puts: seq<SlotIndex>, x: SlotIndex): (k: nat)
    requires x in puts
    ensures k < |puts| && puts[k] == x && x !in puts[k + 1..]
  {
    if puts[|puts| - 1] == x then |puts| - 1
    else
      var k := LastAt(puts[..|puts| - 1], x);
      assert puts[k + 1..] == puts[..|puts| - 1][k + 1..] + [puts[|puts| - 1]];
      k
  }

  /** Slots that have been stored to, in the order of their last store. */
  predicate Ascends(order: seq<SlotIndex>, puts: seq<SlotIndex>) {
    && (forall x :: x in order ==> x in puts)
    && forall a, b :: 0 <= a < b < |order| ==> LastAt(puts, order[a]) < LastAt(puts, order[b])
  }

  lemma AscendsAt(order: seq<SlotIndex>, puts: seq<SlotIndex>, a: nat, b: nat)
    requires Ascends(order, puts) && a < b < |order|
    ensures order[a] in puts && order[b] in puts && LastAt(puts, order[a]) < LastAt(puts, order[b])
  {
    hide LastAt;
  }

  /**
   `order` lists, once each and in the order of their last store, slots that have been stored to; any
   other such slot was last stored to before all of them, and then there are 0x150 of them.
   */
  predicate MostRecent(order: seq<SlotIndex>, puts: seq<SlotIndex>) {
    && |order| <= 0x150
    && Ascends(order, puts)
    && forall x :: x in puts && x !in order ==>
         |order| == 0x150 && forall a :: 0 <= a < |order| ==> LastAt(puts, x) < LastAt(puts, order[a])
  }

  lemma {:induction false} LastAtNext(puts: seq<SlotIndex>, i: SlotIndex, x: SlotIndex)
    requires x in puts + [i]
    ensures LastAt(puts + [i], x) == if x == i then |puts| else LastAt(puts, x)
  {
    assert (puts + [i])[..|puts|] == puts;
  }

  /** The list after a store to slot `i`. */
  function AfterStore(order: seq<SlotIndex>, i: SlotIndex): (r: seq<SlotIndex>) {
    var others := Others(order, i);
    if |others| + 1 <= 0x150 then others + [i] else others[1..] + [i]
  }

  lemma {:induction false} AfterStoreMembers(order: seq<SlotIndex>, puts: seq<SlotIndex>, i: SlotIndex)
    requires forall x :: x in order ==> x in puts
    ensures forall y :: y in AfterStore(order, i) ==> y in puts + [i] && (y == i || y in Others(order, i))
  {
    OthersMembers(order, i);
    hide Others;
  }

  lemma {:induction false} NextMostRecent(order: seq<SlotIndex>, puts: seq<SlotIndex>, i: SlotIndex)
    requires MostRecent(order, puts) && Distinct(order)
    ensures MostRecent(AfterStore(order, i), puts + [i])
  {
    var order', puts' := AfterStore(order, i), puts + [i];
    AfterStoreMembers(order, puts, i);
    NextOrdered(order, puts, i);
    LastIsStored(order, i);
    OthersSize(order, i);
    assert |order'| <= 0x150;
    hide AfterStore, LastAt, Others;
    forall x | x in puts' && x !in order'
      ensures |order'| == 0x150 && forall a :: 0 <= a < |order'| ==> LastAt(puts', x) < LastAt(puts', order'[a])
    {
      Left(order, puts, i, x);
    }
  }

  lemma LastIsStored(order: seq<SlotIndex>, i: SlotIndex)
    ensures i in AfterStore(order, i)
  {
    hide Others;
    assert AfterStore(order, i)[|AfterStore(order, i)| - 1] == i;
  }

  lemma {:induction false} AppendAscends(s: seq<SlotIndex>, puts: seq<SlotIndex>, i: SlotIndex)
    requires Ascends(s, puts) && i !in s
    ensures Ascends(s + [i], puts + [i])
  {
    var r := s + [i];
    LastAtNext(puts, i, i);
    hide LastAt;
    forall a, b | 0 <= a < b < |r| ensures LastAt(puts + [i], r[a]) < LastAt(puts + [i], r[b]) {
      if b < |s| {
        AscendsAt(s, puts, a, b);
        StaysBefore(puts, i, s[a], s[b]);
      } else {
        LastAtNext(puts, i, s[a]);
      }
    }
  }

  lemma {:induction false} TailAscends(s: seq<SlotIndex>, puts: seq<SlotIndex>)
    requires Ascends(s, puts) && |s| > 0
    ensures Ascends(s[1..], puts)
  {
    hide LastAt;
  }

  lemma NotInTail(s: seq<SlotIndex>, i: SlotIndex)
    requires |s| > 0 && i !in s
    ensures i !in s[1..]
  {
  }

  /** The list after a store is in order of the last stores. */
  lemma {:induction false} NextOrdered(order: seq<SlotIndex>, puts: seq<SlotIndex>, i: SlotIndex)
    requires Distinct(order) && Ascends(order, puts)
    ensures Ascends(AfterStore(order, i), puts + [i])
  {
    var others := Others(order, i);
    OthersMembers(order, i);
    OthersOrdered(order, puts, i);
    hide LastAt, Others, Ascends;
    if |others| + 1 <= 0x150 {
      AppendAscends(others, puts, i);
    } else {
      TailAscends(others, puts);
      NotInTail(others, i);
      AppendAscends(others[1..], puts, i);
    }
  }

  lemma StaysBefore(puts: seq<SlotIndex>, i: SlotIndex, x: SlotIndex, y: SlotIndex)
    requires x in puts && y in puts && x != i && y != i && LastAt(puts, x) < LastAt(puts, y)
    ensures x in puts + [i] && y in puts + [i] && LastAt(puts + [i], x) < LastAt(puts + [i], y)
  {
    hide LastAt;
    LastAtNext(puts, i, x);
    LastAtNext(puts, i, y);
  }

  lemma {:induction false} OthersSize(order: seq<SlotIndex>, i: SlotIndex)
    requires Distinct(order)
    ensures |Others(order, i)| == |order| - if i in order then 1 else 0
  {
    if i in order {
      OthersWithout(order, IndexOf(order, i));
    } else {
      OthersAre(order, i);
    }
  }

  lemma {:induction false} OthersOrdered(order: seq<SlotIndex>, puts: seq<SlotIndex>, i: SlotIndex)
    requires Ascends(order, puts) && Distinct(order)
    ensures Ascends(Others(order, i), puts)
  {
    hide LastAt, Ascends;
    if i in order {
      OthersWithout(order, IndexOf(order, i));
      WithoutAscends(order, puts, IndexOf(order, i));
    } else {
      OthersAre(order, i);
    }
  }

  lemma {:induction false} WithoutAscends(order: seq<SlotIndex>, puts: seq<SlotIndex>, j: nat)
    requires Ascends(order, puts) && j < |order|
    ensures Ascends(Without(order, j), puts)
  {
    hide LastAt;
    var r := Without(order, j);
    assert forall a :: 0 <= a < |r| ==> r[a] == order[if a < j then a else a + 1];
  }

  /** A slot that is not on the new list was stored to before all that are. */
  lemma {:induction false} Left(order: seq<SlotIndex>, puts: seq<SlotIndex>, i: SlotIndex, x: SlotIndex)
    requires MostRecent(order, puts) && Distinct(order) && x in puts + [i] && x !in AfterStore(order, i)
    ensures forall y :: y in AfterStore(order, i) ==> y in puts + [i]
    ensures |AfterStore(order, i)| == 0x150
    ensures forall y :: y in AfterStore(order, i) ==> LastAt(puts + [i], x) < LastAt(puts + [i], y)
  {
    var others := Others(order, i);
    LastIsStored(order, i);
    OthersMembers(order, i);
    OthersSize(order, i);
    OthersOrdered(order, puts, i);
    AfterStoreMembers(order, puts, i);
    hide Others, LastAt, AfterStore;
    AfterStoreSize(order, i);
    if x !in order {
      assert |order| == 0x150;
    } else {
      assert x in others;
      assert |others| + 1 > 0x150 && x == others[0];
    }
    forall y | y in AfterStore(order, i) ensures LastAt(puts + [i], x) < LastAt(puts + [i], y) {
      if y == i {
        LastAtNext(puts, i, x);
        LastAtNext(puts, i, i);
      } else {
        assert y in others && y in order;
        if x in order {
          var b := Behind(others, y);
          AscendsAt(others, puts, 0, b);
        } else {
          var b := Behind(order, y);
        }
        StaysBefore(puts, i, x, y);
      }
    }
  }

  lemma AfterStoreSize(order: seq<SlotIndex>, i: SlotIndex)
    ensures var others, r := Others(order, i), AfterStore(order, i);
            && |r| == (if |others| + 1 <= 0x150 then |others| + 1 else |others|)
            && (|others| + 1 <= 0x150 ==> forall x :: x in others ==> x in r)
            && (|others| + 1 > 0x150 ==> forall x :: x in others && x != others[0] ==> x in r)
  {
    hide Others;
  }

  lemma Behind(s: seq<SlotIndex>, y: SlotIndex) returns (b: nat)
    requires y in s
    ensures b < |s| && s[b] == y
  {
    b :| b < |s| && s[b] == y;
  }

  predicate AllStores(ops: seq<Op>) {
    forall k :: 0 <= k < |ops| ==> ops[k].Store?
  }

  function SlotsOf(ops: seq<Op>): (puts: seq<SlotIndex>)
    requires AllStores(ops)
    ensures |puts| == |ops|
  {
    seq(|ops|, k requires 0 <= k < |ops| => ops[k].i)
  }

  lemma {:induction false} RunSnoc(c: Cache, ops: seq<Op>, op: Op, bpp: nat)
    requires Consistent(c) && AllAllowed(ops + [op], bpp)
    ensures AllAllowed(ops, bpp) && Allowed(op, bpp)
    ensures Run(c, ops + [op], bpp) == Step(Run(c, ops, bpp), op, bpp)
    decreases |ops|
  {
    assert (ops + [op])[|ops|] == op && forall k :: 0 <= k < |ops| ==> (ops + [op])[k] == ops[k];
    hide Step;
    if |ops| > 0 {
      assert (ops + [op])[1..] == ops[1..] + [op];
      RunSnoc(Step(c, ops[0], bpp), ops[1..], op, bpp);
    } else {
      assert (ops + [op])[1..] == [] && Run(c, [], bpp) == c;
    }
  }

  lemma {:induction false} StoreOrder(c: Cache, op: Op, bpp: nat)
    requires Consistent(c) && Allowed(op, bpp) && op.Store?
    ensures Step(c, op, bpp).order == AfterStore(c.order, op.i)
  {
    PutOrder(c.(created := c.created + 1), op.i, Bitmap(c.created, op.picture), bpp);
    hide Put, Others;
  }

  /**
   After any run of stores into an empty cache, the list is exactly the most recently stored slots, at
   most 0x150, in the order of their last store, and exactly they hold a bitmap.
   */
  lemma {:induction false} MostRecentlyStored(c: Cache, ops: seq<Op>, bpp: nat)
    requires Consistent(c) && c.order == [] && AllAllowed(ops, bpp) && AllStores(ops)
    ensures var d := Run(c, ops, bpp);
            && MostRecent(d.order, SlotsOf(ops))
            && forall x: SlotIndex :: d.slots[x].Some? <==> x in d.order
  {
    hide Step, MostRecent, Others;
    if |ops| == 0 {
      NoStores();
    } else {
      var n := |ops| - 1;
      var before, op := ops[..n], ops[n];
      assert ops == before + [op];
      RunSnoc(c, before, op, bpp);
      MostRecentlyStored(c, before, bpp);
      var d := Run(c, before, bpp);
      StoreOrder(d, op, bpp);
      NextMostRecent(d.order, SlotsOf(before), op.i);
      assert SlotsOf(ops) == SlotsOf(before) + [op.i];
    }
  }

  lemma NoStores()
    ensures MostRecent([], [])
  {
  }
}
