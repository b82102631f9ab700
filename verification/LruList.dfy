/**
 The doubly linked list threaded through the slot array of cache.c, and the sequence it stands for:
 slot indices from least to most recently used.
 */
module LruList {

  const NOT_SET := -1
  const SLOTS := 0xa00

  type SlotIndex = i: int | 0 <= i < SLOTS

  datatype Links = Links(previous: int, next: int)

  predicate Distinct(order: seq<SlotIndex>) {
    forall a, b :: 0 <= a < b < |order| ==> order[a] != order[b]
  }

  /** The neighbour at position `k`, or `NOT_SET` off either end. */
  function At(order: seq<SlotIndex>, k: int): (i: int)
    ensures i == NOT_SET || 0 <= i < SLOTS
  {
    if 0 <= k < |order| then order[k] else NOT_SET
  }

  predicate LinkedAt(links: seq<Links>, order: seq<SlotIndex>, k: nat)
    requires |links| == SLOTS && k < |order|
  {
    links[order[k]] == Links(At(order, k - 1), At(order, k + 1))
  }

  /** Forward and backward links agree with the sequence. */
  ghost predicate Linked(links: seq<Links>, order: seq<SlotIndex>) {
    |links| == SLOTS && Distinct(order) && forall k :: 0 <= k < |order| ==> LinkedAt(links, order, k)
  }

  function Without(order: seq<SlotIndex>, j: nat): (r: seq<SlotIndex>)
    requires j < |order|
  {
    order[..j] + order[j + 1..]
  }

  function InsertAt(order: seq<SlotIndex>, k: nat, i: SlotIndex): (r: seq<SlotIndex>)
    requires k <= |order|
  {
    order[..k] + [i] + order[k..]
  }

  function SetNext(links: seq<Links>, i: int, next: int): (r: seq<Links>)
    requires |links| == SLOTS
    ensures |r| == SLOTS
  {
    if 0 <= i < SLOTS then links[i := links[i].(next := next)] else links
  }

  function SetPrevious(links: seq<Links>, i: int, previous: int): (r: seq<Links>)
    requires |links| == SLOTS
    ensures |r| == SLOTS
  {
    if 0 <= i < SLOTS then links[i := links[i].(previous := previous)] else links
  }

  /** Unlinking the slot at position `j` leaves the list without it; its own links no longer matter. */
  lemma {:induction false} Unlink(links: seq<Links>, order: seq<SlotIndex>, j: nat)
    requires Linked(links, order) && j < |order|
    ensures var p, n := At(order, j - 1), At(order, j + 1);
            Linked(SetPrevious(SetNext(links, p, n), n, p), Without(order, j))
  {
    var p, n := At(order, j - 1), At(order, j + 1);
    var links', order' := SetPrevious(SetNext(links, p, n), n, p), Without(order, j);
    forall k | 0 <= k < |order'| ensures LinkedAt(links', order', k) {
      var k' := if k < j then k else k + 1;
      assert order'[k] == order[k'];
      assert LinkedAt(links, order, k');
    }
  }

  /** Linking a slot that is not on the list in before position `k`. */
  lemma {:induction false} LinkIn(links: seq<Links>, order: seq<SlotIndex>, k: nat, i: SlotIndex)
    requires Linked(links, order) && k <= |order| && i !in order
    ensures var p, n := At(order, k - 1), At(order, k);
            Linked(SetPrevious(SetNext(links[i := Links(p, n)], p, i), n, i), InsertAt(order, k, i))
  {
    var p, n := At(order, k - 1), At(order, k);
    var links', order' := SetPrevious(SetNext(links[i := Links(p, n)], p, i), n, i), InsertAt(order, k, i);
    forall m | 0 <= m < |order'| ensures LinkedAt(links', order', m) {
      if m != k {
        var m' := if m < k then m else m - 1;
        assert order'[m] == order[m'];
        assert LinkedAt(links, order, m');
      }
    }
  }

  /** A slot off the list may have its links overwritten. */
  lemma {:induction false} OffList(links: seq<Links>, order: seq<SlotIndex>, i: SlotIndex, l: Links)
    requires Linked(links, order) && i !in order
    ensures Linked(links[i := l], order)
  {
    var links' := links[i := l];
    forall k | 0 <= k < |order| ensures LinkedAt(links', order, k) {
      assert LinkedAt(links, order, k);
    }
  }

  // ---- What the operations do to the sequence ----

  function IndexOf(order: seq<SlotIndex>, i: SlotIndex): (j: nat)
    requires i in order
    ensures j < |order| && order[j] == i
  {
    if order[0] == i then 0 else 1 + IndexOf(order[1..], i)
  }

  lemma {:induction false} IndexUnique(order: seq<SlotIndex>, j: nat)
    requires Distinct(order) && j < |order|
    ensures IndexOf(order, order[j]) == j
  {
    var k := IndexOf(order, order[j]);
  }

  function Removed(order: seq<SlotIndex>, i: SlotIndex): (r: seq<SlotIndex>) {
    if i in order then Without(order, IndexOf(order, i)) else order
  }

  function ToTop(order: seq<SlotIndex>, i: SlotIndex): (r: seq<SlotIndex>) {
    Removed(order, i) + [i]
  }

  function Min(a: int, b: int): int {
    if a < b then a else b
  }

  /** Move a listed slot `bump` places towards the most recently used end. */
  function BumpUp(order: seq<SlotIndex>, i: SlotIndex, bump: nat): (r: seq<SlotIndex>)
    requires i in order
  {
    var j := IndexOf(order, i);
    InsertAt(Without(order, j), Min(j + bump, |order| - 1), i)
  }

  lemma {:induction false} WithoutIsDistinct(order: seq<SlotIndex>, j: nat)
    requires Distinct(order) && j < |order|
    ensures Distinct(Without(order, j)) && order[j] !in Without(order, j)
    ensures forall x :: x in Without(order, j) <==> x in order && x != order[j]
  {
    var r := Without(order, j);
    assert order == order[..j] + [order[j]] + order[j + 1..];
    forall a | 0 <= a < |r| ensures r[a] in order && r[a] != order[j] {
      assert r[a] == if a < j then order[a] else order[a + 1];
    }
    forall x | x in order && x != order[j] ensures x in r {
      var k :| 0 <= k < |order| && order[k] == x;
      assert r[if k < j then k else k - 1] == x;
    }
  }

  lemma {:induction false} InsertMembers(order: seq<SlotIndex>, k: nat, i: SlotIndex)
    requires k <= |order|
    ensures forall x :: x in InsertAt(order, k, i) <==> x in order || x == i
    ensures Distinct(order) && i !in order ==> Distinct(InsertAt(order, k, i))
  {
    assert order == order[..k] + order[k..];
    var r := InsertAt(order, k, i);
    forall a, b | Distinct(order) && i !in order && 0 <= a < b < |r| ensures r[a] != r[b] {
      assert forall c :: 0 <= c < |r| ==> r[c] == if c < k then order[c] else if c == k then i else order[c - 1];
    }
  }

  /** Bumping permutes the list: same members, same length, and the slot is where it should be. */
  lemma {:induction false} BumpPlaces(order: seq<SlotIndex>, i: SlotIndex, bump: nat)
    requires Distinct(order) && i in order
    ensures var r := BumpUp(order, i, bump);
            && Distinct(r) && |r| == |order|
            && (forall x :: x in r <==> x in order)
            && IndexOf(r, i) == Min(IndexOf(order, i) + bump, |order| - 1)
  {
    var j := IndexOf(order, i);
    WithoutIsDistinct(order, j);
    var k := Min(j + bump, |order| - 1);
    InsertMembers(Without(order, j), k, i);
    IndexUnique(BumpUp(order, i, bump), k);
  }

  lemma {:induction false} ToTopPlaces(order: seq<SlotIndex>, i: SlotIndex)
    requires Distinct(order)
    ensures var r := ToTop(order, i);
            && Distinct(r) && |r| == (if i in order then |order| else |order| + 1)
            && (forall x :: x in r <==> x in order || x == i)
            && r[|r| - 1] == i
  {
    if i in order {
      WithoutIsDistinct(order, IndexOf(order, i));
    }
    InsertMembers(Removed(order, i), |Removed(order, i)|, i);
    assert ToTop(order, i) == InsertAt(Removed(order, i), |Removed(order, i)|, i);
  }

  /** All slots but one, in their order. */
  function Others(order: seq<SlotIndex>, i: SlotIndex): (r: seq<SlotIndex>) {
    if |order| == 0 then [] else (if order[0] == i then [] else [order[0]]) + Others(order[1..], i)
  }

  lemma {:induction false} OthersAre(order: seq<SlotIndex>, i: SlotIndex)
    requires i !in order
    ensures Others(order, i) == order
  {
    if |order| > 0 {
      assert order[0] in order && forall x :: x in order[1..] ==> x in order;
      OthersAre(order[1..], i);
    }
  }

  lemma {:induction false} OthersWithout(order: seq<SlotIndex>, j: nat)
    requires Distinct(order) && j < |order|
    ensures Others(order, order[j]) == Without(order, j)
  {
    var rest := order[1..];
    if j == 0 {
      assert order[0] !in rest;
      OthersAre(rest, order[0]);
    } else {
      assert rest[j - 1] == order[j];
      OthersWithout(rest, j - 1);
      assert Without(order, j) == [order[0]] + Without(rest, j - 1);
    }
  }

  /**
   A bump moves the slot and nothing else: it is found as many places further on as the bump says, or
   at the end, and the other slots keep their order.
   */
  lemma {:induction false} BumpMoves(order: seq<SlotIndex>, i: SlotIndex, bump: nat, j: nat)
    requires Distinct(order) && j < |order| && order[j] == i
    ensures var r, k := BumpUp(order, i, bump), if j + bump < |order| then j + bump else |order| - 1;
            |r| == |order| && r[k] == i && Others(r, i) == Others(order, i)
  {
    IndexUnique(order, j);
    var rest, k := Without(order, j), if j + bump < |order| then j + bump else |order| - 1;
    WithoutIsDistinct(order, j);
    OthersWithout(order, j);
    InsertedOthers(rest, k, i);
  }

  lemma {:induction false} InsertedOthers(rest: seq<SlotIndex>, k: nat, i: SlotIndex)
    requires k <= |rest| && i !in rest
    ensures Others(InsertAt(rest, k, i), i) == rest
  {
    var r := InsertAt(rest, k, i);
    if k == 0 {
      assert r[0] == i && r[1..] == rest;
      OthersAre(rest, i);
    } else {
      assert r[0] == rest[0] && rest[0] in rest && r[1..] == InsertAt(rest[1..], k - 1, i);
      InsertedOthers(rest[1..], k - 1, i);
    }
  }

  /** Moving to the top puts the slot last, behind the others in their order. */
  lemma {:induction false} ToTopMoves(order: seq<SlotIndex>, i: SlotIndex)
    requires Distinct(order)
    ensures ToTop(order, i) == Others(order, i) + [i]
  {
    if i in order {
      OthersWithout(order, IndexOf(order, i));
    } else {
      OthersAre(order, i);
    }
  }

  /** `cache_bump_bitmap` on the sequence: a negative bump is to the top. */
  function Bumped(order: seq<SlotIndex>, i: SlotIndex, bump: int): (r: seq<SlotIndex>) {
    if bump < 0 then ToTop(order, i)
    else if i in order then BumpUp(order, i, bump)
    else InsertAt(order, Min(bump, |order|), i)
  }

  lemma {:induction false} BumpTopmost(order: seq<SlotIndex>, i: SlotIndex, bump: int)
    requires Distinct(order) && |order| > 0 && order[|order| - 1] == i
    ensures Bumped(order, i, bump) == order
  {
    IndexUnique(order, |order| - 1);
  }

  /** Where a bump inserts, once the slot is off the list. */
  function BumpTarget(order: seq<SlotIndex>, i: SlotIndex, bump: int): (k: nat)
    ensures k <= |Removed(order, i)|
  {
    if bump < 0 then |Removed(order, i)|
    else Min((if i in order then IndexOf(order, i) else 0) + bump, |Removed(order, i)|)
  }

  lemma {:induction false} BumpedIsInsert(order: seq<SlotIndex>, i: SlotIndex, bump: int)
    ensures Bumped(order, i, bump) == InsertAt(Removed(order, i), BumpTarget(order, i, bump), i)
  {
  }

  lemma {:induction false} UnlinkFirst(links: seq<Links>, order: seq<SlotIndex>)
    requires Linked(links, order) && |order| >= 1
    ensures Linked(SetPrevious(links, At(order, 1), NOT_SET), order[1..])
    ensures order[0] !in order[1..] && forall x :: x in order[1..] <==> x in order && x != order[0]
  {
    Unlink(links, order, 0);
    WithoutIsDistinct(order, 0);
    assert Without(order, 0) == order[1..];
  }

  predicate Within(i: int, n: nat) {
    0 <= i < n
  }

  function UpTo(n: nat): (s: set<int>)
    ensures forall i :: i in s <==> 0 <= i < n
  {
    set i: int | 0 <= i < n && Within(i, n)
  }

  lemma {:induction false} UpToSize(n: nat)
    ensures |UpTo(n)| == n
  {
    if n > 0 {
      UpToSize(n - 1);
      assert UpTo(n) == UpTo(n - 1) + {n - 1};
    } else {
      assert UpTo(n) == {};
    }
  }

  lemma {:induction false} DistinctIsShort(order: seq<SlotIndex>)
    requires Distinct(order)
    ensures |order| <= SLOTS
  {
    SizeOfDistinct(order);
    UpToSize(SLOTS);
    SubsetSize(Members(order), UpTo(SLOTS));
  }

  function Members(order: seq<SlotIndex>): (s: set<int>)
    ensures forall i :: i in s <==> i in order
  {
    set i | i in order
  }

  lemma {:induction false} SizeOfDistinct(order: seq<SlotIndex>)
    requires Distinct(order)
    ensures |Members(order)| == |order|
  {
    if |order| > 0 {
      var tail := order[1..];
      SizeOfDistinct(tail);
      assert order == [order[0]] + tail;
      assert order[0] !in tail;
      assert Members(order) == {order[0]} + Members(tail);
    }
  }

  lemma {:induction false} SubsetSize(a: set<int>, b: set<int>)
    requires a <= b
    ensures |a| <= |b|
  {
    assert b == a + (b - a);
  }

  // ---- Rebuilding the list from an index array ----

  /** A list built from its end: everything agrees but the first slot's backward link. */
  ghost predicate LinkedButFirst(links: seq<Links>, order: seq<SlotIndex>) {
    && |links| == SLOTS && Distinct(order)
    && (forall k :: 0 <= k < |order| ==> NextAgrees(links, order, k))
    && (forall k :: 0 < k < |order| ==> LinkedAt(links, order, k))
  }

  predicate NextAgrees(links: seq<Links>, order: seq<SlotIndex>, k: nat)
    requires |links| == SLOTS && k < |order|
  {
    links[order[k]].next == At(order, k + 1)
  }

  lemma {:induction false} LinkInFront(links: seq<Links>, order: seq<SlotIndex>, i: SlotIndex)
    requires LinkedButFirst(links, order) && |order| > 0 && i !in order
    ensures LinkedButFirst(SetNext(SetPrevious(links, order[0], i), i, order[0]), [i] + order)
  {
    var links', order' := SetNext(SetPrevious(links, order[0], i), i, order[0]), [i] + order;
    forall k | 0 <= k < |order'| ensures NextAgrees(links', order', k) && (k > 0 ==> LinkedAt(links', order', k)) {
      if k > 0 {
        assert order'[k] == order[k - 1];
        assert NextAgrees(links, order, k - 1);
        assert k > 1 ==> LinkedAt(links, order, k - 1);
      }
    }
  }

  lemma {:induction false} CloseFront(links: seq<Links>, order: seq<SlotIndex>)
    requires LinkedButFirst(links, order) && |order| > 0
    ensures Linked(SetPrevious(links, order[0], NOT_SET), order)
  {
    var links' := SetPrevious(links, order[0], NOT_SET);
    forall k | 0 <= k < |order| ensures LinkedAt(links', order, k) {
      assert NextAgrees(links, order, k);
      assert k > 0 ==> LinkedAt(links, order, k);
    }
  }

  /** The indices whose slots are live, in the order given. */
  function LiveOf(idx: seq<SlotIndex>, live: set<int>): (r: seq<SlotIndex>) {
    if |idx| == 0 then [] else (if idx[0] in live then [idx[0]] else []) + LiveOf(idx[1..], live)
  }

  lemma {:induction false} LiveOfMembers(idx: seq<SlotIndex>, live: set<int>)
    ensures forall i :: i in LiveOf(idx, live) <==> i in idx && i in live
  {
    if |idx| > 0 {
      LiveOfMembers(idx[1..], live);
      assert idx == [idx[0]] + idx[1..];
    }
  }

  lemma {:induction false} LiveOfStep(idx: seq<SlotIndex>, live: set<int>, n: nat)
    requires n < |idx|
    ensures LiveOf(idx[n..], live) == (if idx[n] in live then [idx[n]] else []) + LiveOf(idx[n + 1..], live)
  {
    assert idx[n..][1..] == idx[n + 1..];
  }

  lemma {:induction false} LiveOfDistinct(idx: seq<SlotIndex>, live: set<int>)
    requires Distinct(idx)
    ensures Distinct(LiveOf(idx, live))
  {
    if |idx| > 0 {
      LiveOfDistinct(idx[1..], live);
      LiveOfMembers(idx[1..], live);
    }
  }

  lemma {:induction false} ExtendFront(idx: seq<SlotIndex>, m: nat, live: set<int>, linked: seq<SlotIndex>)
    requires Distinct(idx) && 0 < m <= |idx| && linked == LiveOf(idx[m..], live) && idx[m - 1] in live
    ensures idx[m - 1] !in linked && LiveOf(idx[m - 1..], live) == [idx[m - 1]] + linked
  {
    LiveOfMembers(idx[m..], live);
    LiveOfStep(idx, live, m - 1);
  }

  /** A rearrangement of the indices below `n`. */
  ghost predicate Below(order: seq<SlotIndex>, n: nat) {
    |order| == n && Distinct(order) && forall k :: 0 <= k < n ==> order[k] < n
  }

  lemma {:induction false} BelowMembers(order: seq<SlotIndex>, n: nat)
    requires Below(order, n)
    ensures forall i :: i in order <==> 0 <= i < n
  {
    SizeOfDistinct(order);
    UpToSize(n);
    assert Members(order) <= UpTo(n);
    FullSubset(Members(order), UpTo(n));
  }

  lemma {:induction false} FullSubset(a: set<int>, b: set<int>)
    requires a <= b && |a| == |b|
    ensures a == b
  {
    assert b == a + (b - a);
  }

  lemma {:induction false} InsertBelow(order: seq<SlotIndex>, k: nat, n: nat)
    requires Below(order, n) && k <= n < SLOTS
    ensures Below(InsertAt(order, k, n), n + 1)
  {
    InsertMembers(order, k, n);
  }
}
