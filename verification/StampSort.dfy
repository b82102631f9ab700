/** The insertion sort by stamp in pstcache_enumerate. */
module StampSort {
  import opened Bits
  import opened LruList

  predicate Ascending(stamps: seq<uint32>) {
    forall a, b :: 0 <= a < b < |stamps| ==> stamps[a] <= stamps[b]
  }

  /** Where the shifting loop stops: just after the last stamp that is not greater. */
  function InsertPos(stamps: seq<uint32>, stamp: uint32): (n: nat)
    ensures n <= |stamps|
    ensures n > 0 ==> stamps[n - 1] <= stamp
    ensures forall k :: n <= k < |stamps| ==> stamp < stamps[k]
  {
    if |stamps| == 0 || stamp >= stamps[|stamps| - 1] then |stamps|
    else InsertPos(stamps[..|stamps| - 1], stamp)
  }

  function InsertStamp(stamps: seq<uint32>, stamp: uint32): (r: seq<uint32>) {
    var n := InsertPos(stamps, stamp);
    stamps[..n] + [stamp] + stamps[n..]
  }

  lemma {:induction false} InsertAscends(stamps: seq<uint32>, stamp: uint32)
    requires Ascending(stamps)
    ensures Ascending(InsertStamp(stamps, stamp))
  {
  }

  lemma {:induction false} InsertPosDrops(stamps: seq<uint32>, n: nat, stamp: uint32)
    requires 0 < n <= |stamps| && stamp < stamps[n - 1]
    ensures InsertPos(stamps[..n], stamp) == InsertPos(stamps[..n - 1], stamp)
  {
    assert stamps[..n][..n - 1] == stamps[..n - 1];
  }

  lemma InsertPosHere(stamps: seq<uint32>, stamp: uint32)
    requires |stamps| > 0 ==> stamps[|stamps| - 1] <= stamp
    ensures InsertPos(stamps, stamp) == |stamps|
  {
  }

  /** The entries from `n` to `count` have moved up by one place. */
  ghost predicate MovedUp<T>(now: seq<T>, was: seq<T>, n: nat, count: nat)
    requires n <= count < |was| == |now|
  {
    && (forall k :: 0 <= k < n ==> now[k] == was[k])
    && (forall k :: n < k <= count ==> now[k] == was[k - 1])
  }

  lemma MoveOne<T>(now: seq<T>, was: seq<T>, n: nat, count: nat)
    requires 0 < n <= count < |was| == |now| && MovedUp(now, was, n, count)
    ensures now[n - 1] == was[n - 1]
    ensures MovedUp(now[n := now[n - 1]], was, n - 1, count)
  {
  }

  lemma NoneMoved<T>(s: seq<T>, count: nat)
    requires count < |s|
    ensures MovedUp(s, s, count, count)
  {
  }

  lemma BelowMoved<T>(now: seq<T>, was: seq<T>, n: nat, count: nat)
    requires 0 < n <= count < |was| == |now| && MovedUp(now, was, n, count)
    ensures now[n - 1] == was[n - 1]
  {
  }

  /** Shift the entries with larger stamps up by one place, leaving a gap at `n`. */
  method ShiftLarger(mruIdx: array<SlotIndex>, mruStamp: array<uint32>, count: nat, stamp: uint32) returns (n: nat)
    requires mruIdx.Length == mruStamp.Length == SLOTS && count < SLOTS
    modifies mruIdx, mruStamp
    ensures n == InsertPos(old(mruStamp[..count]), stamp)
    ensures MovedUp(mruIdx[..], old(mruIdx[..]), n, count)
    ensures MovedUp(mruStamp[..], old(mruStamp[..]), n, count)
  {
    ghost var ii, ss := mruIdx[..], mruStamp[..];
    hide InsertPos, MovedUp;
    n := count;
    assert ss[..count][..n] == ss[..count] == mruStamp[..count];
    NoneMoved(ii, count);
    NoneMoved(ss, count);
    while n > 0 && stamp < mruStamp[n - 1]
      invariant n <= count && MovedUp(mruIdx[..], ii, n, count) && MovedUp(mruStamp[..], ss, n, count)
      invariant InsertPos(ss[..count][..n], stamp) == InsertPos(ss[..count], stamp)
    {
      BelowMoved(mruStamp[..], ss, n, count);
      InsertPosDrops(ss[..count], n, stamp);
      MoveOne(mruIdx[..], ii, n, count);
      MoveOne(mruStamp[..], ss, n, count);
      ghost var i', s' := mruIdx[..][n := mruIdx[n - 1]], mruStamp[..][n := mruStamp[n - 1]];
      mruIdx[n] := mruIdx[n - 1];
      mruStamp[n] := mruStamp[n - 1];
      assert mruIdx[..] == i' && mruStamp[..] == s';
      n := n - 1;
    }
    if n > 0 {
      BelowMoved(mruStamp[..], ss, n, count);
    }
    InsertPosHere(ss[..count][..n], stamp);
  }

  /** One round of the sort. */
  method InsertSorted(mruIdx: array<SlotIndex>, mruStamp: array<uint32>, count: nat, idx: SlotIndex, stamp: uint32)
    requires mruIdx.Length == mruStamp.Length == SLOTS && count < SLOTS
    modifies mruIdx, mruStamp
    ensures var n := InsertPos(old(mruStamp[..count]), stamp);
            && mruIdx[..count + 1] == InsertAt(old(mruIdx[..count]), n, idx)
            && mruStamp[..count + 1] == InsertStamp(old(mruStamp[..count]), stamp)
  {
    hide InsertPos, MovedUp;
    ghost var ii, ss := mruIdx[..], mruStamp[..];
    var n := ShiftLarger(mruIdx, mruStamp, count, stamp);
    Shifted(ii, mruIdx[..], n, count, idx);
    Shifted(ss, mruStamp[..], n, count, stamp);
    ghost var i', s' := mruIdx[..][n := idx], mruStamp[..][n := stamp];
    mruIdx[n] := idx;
    mruStamp[n] := stamp;
    assert mruIdx[..] == i' && mruStamp[..] == s';
    assert mruIdx[..count + 1] == i'[..count + 1] && mruStamp[..count + 1] == s'[..count + 1];
  }

  lemma {:induction false} Shifted<T>(was: seq<T>, now: seq<T>, n: nat, count: nat, x: T)
    requires n <= count < |was| == |now| && MovedUp(now, was, n, count)
    ensures now[n := x][..count + 1] == was[..count][..n] + [x] + was[..count][n..]
  {
  }
}
