/** How many of the ready requests one polling pass offers to their drivers. */
module IoPasses {
  import opened IoSpec

  function ReadyCount(rs: seq<Request>, rfds: set<nat>, wfds: set<nat>): (n: nat) {
    if |rs| == 0 then 0 else (if Ready(rs[0], rfds, wfds) then 1 else 0) + ReadyCount(rs[1..], rfds, wfds)
  }

  /** The driver's answer ends the ready request. */
  predicate Ends(r: Request, t: nat, io: Drivers) {
    && Placed(r)
    && var a := io(t, CallFor(r));
       Within(CallFor(r), a) && Finished(Served(r, a), a.result)
  }

  /** What the end of the request at `i` takes out of the pass: for the head all others, else the one behind. */
  function Skipped(rs: seq<Request>, i: nat, rfds: set<nat>, wfds: set<nat>): (n: nat)
    requires i < |rs|
  {
    if i == 0 then ReadyCount(rs[1..], rfds, wfds) else ReadyCount(rs[i + 1..if i + 1 < |rs| then i + 2 else i + 1], rfds, wfds)
  }

  /** No visited ready request that ends takes a ready one out of the pass. */
  predicate NoneSkipped(rs: seq<Request>, i: nat, t: nat, rfds: set<nat>, wfds: set<nat>, io: Drivers)
    decreases |rs| - i
  {
    i < |rs| ==>
      && (Ready(rs[i], rfds, wfds) && Ends(rs[i], t, io) ==> Skipped(rs, i, rfds, wfds) == 0)
      && var v := PollAt(rs, i, t, rfds, wfds, io);
         NoneSkipped(v.pending, v.i, v.t, rfds, wfds, io)
  }

  lemma {:induction false} CountSplit(a: seq<Request>, b: seq<Request>, rfds: set<nat>, wfds: set<nat>)
    ensures ReadyCount(a + b, rfds, wfds) == ReadyCount(a, rfds, wfds) + ReadyCount(b, rfds, wfds)
  {
    hide Ready;
    if |a| == 0 {
      assert a + b == b;
    } else {
      CountSplit(a[1..], b, rfds, wfds);
      assert (a + b)[1..] == a[1..] + b && (a + b)[0] == a[0];
    }
  }

  function From(rs: seq<Request>, i: nat): (r: seq<Request>) {
    if i <= |rs| then rs[i..] else []
  }

  /** One visit: what was ready from here on is this request, what the visit skips, and what is ready from the next position on. */
  lemma {:induction false} VisitCounts(rs: seq<Request>, i: nat, t: nat, rfds: set<nat>, wfds: set<nat>, io: Drivers)
    requires i < |rs| && PollAt(rs, i, t, rfds, wfds, io).ok
    ensures var v := PollAt(rs, i, t, rfds, wfds, io);
            && v.t == t + (if Ready(rs[i], rfds, wfds) then 1 else 0)
            && ReadyCount(rs[i..], rfds, wfds)
            == v.t - t + ReadyCount(From(v.pending, v.i), rfds, wfds)
             + if Ready(rs[i], rfds, wfds) && Ends(rs[i], t, io) then Skipped(rs, i, rfds, wfds) else 0
  {
    hide Ready, Served, Finished, CallFor, Within;
    var v := PollAt(rs, i, t, rfds, wfds, io);
    assert rs[i..][1..] == rs[i + 1..];
    if Ready(rs[i], rfds, wfds) && Ends(rs[i], t, io) {
      if i == 0 {
        assert From(v.pending, v.i) == [];
      } else {
        var m := if i + 1 < |rs| then i + 2 else i + 1;
        assert rs[i + 1..] == rs[i + 1..m] + rs[m..];
        CountSplit(rs[i + 1..m], rs[m..], rfds, wfds);
        assert From(v.pending, v.i) == rs[m..];
      }
    } else {
      assert From(v.pending, v.i) == rs[i + 1..];
    }
  }

  lemma {:induction false} AtMostReady(rs: seq<Request>, i: nat, t: nat, rfds: set<nat>, wfds: set<nat>, io: Drivers)
    requires PollFrom(rs, i, t, rfds, wfds, io).ok
    ensures PollCalls(rs, i, t, rfds, wfds, io) <= t + ReadyCount(From(rs, i), rfds, wfds)
    decreases |rs| - i
  {
    hide PollAt, Ready, ReadyCount, Ends, Skipped;
    if i < |rs| {
      VisitCounts(rs, i, t, rfds, wfds, io);
      var v := PollAt(rs, i, t, rfds, wfds, io);
      AtMostReady(v.pending, v.i, v.t, rfds, wfds, io);
    }
  }

  /**
   A pass that stays in bounds offers every ready request to its driver if and only if no visited ready request that ends
   has a ready one directly behind it, or, for the head, anywhere behind it.
   */
  lemma {:induction false} OfferedExactlyWhen(rs: seq<Request>, i: nat, t: nat, rfds: set<nat>, wfds: set<nat>, io: Drivers)
    requires PollFrom(rs, i, t, rfds, wfds, io).ok
    ensures PollCalls(rs, i, t, rfds, wfds, io) == t + ReadyCount(From(rs, i), rfds, wfds)
       <==> NoneSkipped(rs, i, t, rfds, wfds, io)
    decreases |rs| - i
  {
    hide PollAt, Ready, Ends, Skipped;
    if i < |rs| {
      VisitCounts(rs, i, t, rfds, wfds, io);
      var v := PollAt(rs, i, t, rfds, wfds, io);
      hide ReadyCount;
      AtMostReady(v.pending, v.i, v.t, rfds, wfds, io);
      OfferedExactlyWhen(v.pending, v.i, v.t, rfds, wfds, io);
    }
  }

  lemma {:induction false} HonestPass(rs: seq<Request>, i: nat, t: nat, rfds: set<nat>, wfds: set<nat>, io: Drivers)
    requires AllSound(rs) && Honest(io)
    ensures PollFrom(rs, i, t, rfds, wfds, io).ok
    decreases |rs| - i
  {
    hide PollAt, AllSound, Honest;
    if i < |rs| {
      HonestVisit(rs, i, t, rfds, wfds, io);
      var v := PollAt(rs, i, t, rfds, wfds, io);
      HonestPass(v.pending, v.i, v.t, rfds, wfds, io);
    }
  }

  /** No two ready requests in a row. */
  predicate Apart(rs: seq<Request>, rfds: set<nat>, wfds: set<nat>) {
    forall k :: 0 <= k && k + 1 < |rs| ==> !(Ready(rs[k], rfds, wfds) && Ready(rs[k + 1], rfds, wfds))
  }

  /** Behind a ready head nothing is ready, and behind the head no two ready requests stand in a row. */
  predicate Spaced(rs: seq<Request>, rfds: set<nat>, wfds: set<nat>) {
    |rs| > 0 ==> (Ready(rs[0], rfds, wfds) ==> ReadyCount(rs[1..], rfds, wfds) == 0) && Apart(rs[1..], rfds, wfds)
  }

  /** Drivers that move nothing: every request they are offered ends. */
  const SILENT: Drivers := (t, c) => Answer(0, [], 0)

  lemma SilentEnds(r: Request, t: nat)
    requires Sound(r)
    ensures Honest(SILENT) && Ends(r, t, SILENT) && SILENT(t, CallFor(r)).result == 0
  {
  }

  /** What is left to visit after a visit. */
  lemma VisitLeaves(rs: seq<Request>, i: nat, t: nat, rfds: set<nat>, wfds: set<nat>, io: Drivers)
    requires i < |rs| && PollAt(rs, i, t, rfds, wfds, io).ok
    ensures From(PollAt(rs, i, t, rfds, wfds, io).pending, PollAt(rs, i, t, rfds, wfds, io).i)
         == if Ready(rs[i], rfds, wfds) && Ends(rs[i], t, io) then (if i == 0 then [] else From(rs, i + 2)) else rs[i + 1..]
  {
    hide Ready, Served, Finished, CallFor, Within;
  }

  lemma {:induction false} NoneReady(rs: seq<Request>, k: nat, rfds: set<nat>, wfds: set<nat>)
    requires ReadyCount(rs, rfds, wfds) == 0 && k < |rs|
    ensures !Ready(rs[k], rfds, wfds)
  {
    hide Ready;
    if k > 0 {
      NoneReady(rs[1..], k - 1, rfds, wfds);
    }
  }

  lemma NeighbourCount(rs: seq<Request>, i: nat, rfds: set<nat>, wfds: set<nat>)
    requires 0 < i < |rs|
    ensures Skipped(rs, i, rfds, wfds) == 0 <==> i + 1 >= |rs| || !Ready(rs[i + 1], rfds, wfds)
  {
    hide Ready;
    if i + 1 < |rs| {
      assert rs[i + 1..i + 2] == [rs[i + 1]];
      assert ReadyCount([rs[i + 1]][1..], rfds, wfds) == 0;
    }
  }

  lemma ApartDrop(rs: seq<Request>, i: nat, j: nat, rfds: set<nat>, wfds: set<nat>)
    requires i <= j && Apart(From(rs, i), rfds, wfds)
    ensures Apart(From(rs, j), rfds, wfds)
  {
    hide Ready;
    if j <= |rs| {
      var s, left, d := From(rs, i), From(rs, j), j - i;
      forall k | 0 <= k && k + 1 < |left|
        ensures !(Ready(left[k], rfds, wfds) && Ready(left[k + 1], rfds, wfds))
      {
        assert s[k + d] == left[k] && s[k + d + 1] == left[k + 1];
      }
    }
  }

  lemma {:induction false} ApartOffered(rs: seq<Request>, i: nat, t: nat, rfds: set<nat>, wfds: set<nat>, io: Drivers)
    requires PollFrom(rs, i, t, rfds, wfds, io).ok && i > 0 && Apart(From(rs, i), rfds, wfds)
    ensures NoneSkipped(rs, i, t, rfds, wfds, io)
    decreases |rs| - i
  {
    hide PollAt, Ready, Ends, Skipped;
    if i < |rs| {
      NeighbourCount(rs, i, rfds, wfds);
      VisitLeaves(rs, i, t, rfds, wfds, io);
      assert i + 1 < |rs| ==> rs[i..][0] == rs[i] && rs[i..][1] == rs[i + 1];
      ApartDrop(rs, i, i + 1, rfds, wfds);
      ApartDrop(rs, i, i + 2, rfds, wfds);
      var v := PollAt(rs, i, t, rfds, wfds, io);
      ApartOffered(v.pending, v.i, v.t, rfds, wfds, io);
    }
  }

  lemma {:induction false} SilentApart(rs: seq<Request>, i: nat, t: nat, rfds: set<nat>, wfds: set<nat>)
    requires AllSound(rs) && i > 0 && NoneSkipped(rs, i, t, rfds, wfds, SILENT)
    ensures Apart(From(rs, i), rfds, wfds)
    decreases |rs| - i
  {
    hide PollAt, Ready, Ends, Skipped, SILENT, Honest, Sound;
    if i < |rs| {
      SilentEnds(rs[i], t);
      HonestVisit(rs, i, t, rfds, wfds, SILENT);
      NeighbourCount(rs, i, rfds, wfds);
      VisitLeaves(rs, i, t, rfds, wfds, SILENT);
      var v := PollAt(rs, i, t, rfds, wfds, SILENT);
      SilentApart(v.pending, v.i, v.t, rfds, wfds);
      var s, left := From(rs, i), From(v.pending, v.i);
      forall k | 0 <= k && k + 1 < |s|
        ensures !(Ready(s[k], rfds, wfds) && Ready(s[k + 1], rfds, wfds))
      {
        var d := |s| - |left|;
        if k >= d {
          assert s[k] == left[k - d] && s[k + 1] == left[k - d + 1];
        }
      }
    }
  }

  /** Whatever honest drivers answer, a pass offers every ready request if and only if the ready ones are spaced. */
  lemma {:induction false} OfferedWhateverDrivers(rs: seq<Request>, rfds: set<nat>, wfds: set<nat>)
    requires AllSound(rs)
    ensures (forall io: Drivers :: Honest(io) ==> PollCalls(rs, 0, 0, rfds, wfds, io) == ReadyCount(rs, rfds, wfds))
       <==> Spaced(rs, rfds, wfds)
  {
    hide PollAt, Ready, Ends, PollCalls, ReadyCount, SILENT, Honest;
    assert From(rs, 0) == rs;
    if Spaced(rs, rfds, wfds) {
      forall io: Drivers | Honest(io)
        ensures PollCalls(rs, 0, 0, rfds, wfds, io) == ReadyCount(rs, rfds, wfds)
      {
        HonestPass(rs, 0, 0, rfds, wfds, io);
        OfferedExactlyWhen(rs, 0, 0, rfds, wfds, io);
        if |rs| > 0 {
          var v := PollAt(rs, 0, 0, rfds, wfds, io);
          VisitLeaves(rs, 0, 0, rfds, wfds, io);
          ApartOffered(v.pending, v.i, v.t, rfds, wfds, io);
        }
      }
    }
    if |rs| > 0 && forall io: Drivers :: Honest(io) ==> PollCalls(rs, 0, 0, rfds, wfds, io) == ReadyCount(rs, rfds, wfds) {
      SilentEnds(rs[0], 0);
      HonestPass(rs, 0, 0, rfds, wfds, SILENT);
      HonestVisit(rs, 0, 0, rfds, wfds, SILENT);
      OfferedExactlyWhen(rs, 0, 0, rfds, wfds, SILENT);
      var v := PollAt(rs, 0, 0, rfds, wfds, SILENT);
      VisitLeaves(rs, 0, 0, rfds, wfds, SILENT);
      SilentApart(v.pending, v.i, v.t, rfds, wfds);
      if Ready(rs[0], rfds, wfds) {
        forall k | 0 <= k < |rs[1..]|
          ensures !Ready(rs[1..][k], rfds, wfds)
        {
          NoneReady(rs[1..], k, rfds, wfds);
        }
      }
    }
  }

  /**
   Two ready reads of which the first gets no bytes: it is completed, which ends the pass, and the
   other is not offered to its driver and stays as it was.
   */
  lemma {:induction false} HeadEndsPass(r: Request, q: Request, rfds: set<nat>, wfds: set<nat>, io: Drivers)
    requires Placed(r) && Ready(r, rfds, wfds) && Ready(q, rfds, wfds)
    requires Within(CallFor(r), io(0, CallFor(r))) && io(0, CallFor(r)).result == 0
    ensures var p := PollFrom([r, q], 0, 0, rfds, wfds, io);
            p.pending == [q] && |p.completed| == 1 && p.completed[0].request.serial == r.serial
    ensures PollCalls([r, q], 0, 0, rfds, wfds, io) == 1 && ReadyCount([r, q], rfds, wfds) == 2
  {
    assert Finished(Served(r, io(0, CallFor(r))), 0);
    hide Ready, CallFor, Within;
    assert [r, q][1..] == [q] && [q][1..] == [];
    assert ReadyCount([q], rfds, wfds) == 1;
    assert Without([r, q], 0) == [q];
  }

  /** Such reads exist: one byte each, on handles 5 and 6, with drivers that have nothing. */
  lemma {:induction false} TwoSilentReads() returns (r: Request, q: Request)
    ensures r == NewRequest(5, IRP_MJ_READ, 1, 1, 0, [0], 0) && q == NewRequest(6, IRP_MJ_READ, 1, 2, 0, [0], 1)
    ensures Sound(r) && Sound(q) && Ready(r, {5, 6}, {}) && Ready(q, {5, 6}, {})
    ensures Honest(SILENT) && SILENT(0, CallFor(r)).result == 0
  {
    hide Joined, Contiguous, Sound, CallFor, Honest, Ends, SILENT;
    r := NewRead(5, 1, 0);
    q := NewRead(6, 2, 1);
    SilentEnds(r, 0);
  }

  lemma NewRead(fd: nat, id: nat, serial: nat) returns (r: Request)
    ensures r == NewRequest(fd, IRP_MJ_READ, 1, id, 0, [0], serial) && Sound(r)
  {
    r := NewRequest(fd, IRP_MJ_READ, 1, id, 0, [0], serial);
    assert r.buffer[..0] == [];
  }
}
