/** When a polling pass with drivers that may fail keeps every request inside its buffer. */
module IoBounds {
  import opened Bits
  import opened IoSpec

  /** Drivers write no further than they were asked to, whatever result they store. */
  ghost predicate Careful(io: Drivers) {
    forall t, c :: Within(c, io(t, c))
  }

  /** The result is at most what is left, or takes back at most what was there. */
  predicate Survives(r: Request, result: uint32)
    requires Placed(r)
  {
    result <= r.length - r.partialLen || UINT32_LIMIT - result <= r.partialLen
  }

  /** Every visited ready request survives its driver's result. */
  predicate AllSurvive(rs: seq<Request>, i: nat, t: nat, rfds: set<nat>, wfds: set<nat>, io: Drivers)
    decreases |rs| - i
  {
    i < |rs| ==>
      && (Ready(rs[i], rfds, wfds) && Placed(rs[i]) ==> Survives(rs[i], io(t, CallFor(rs[i])).result))
      && var v := PollAt(rs, i, t, rfds, wfds, io);
         AllSurvive(v.pending, v.i, v.t, rfds, wfds, io)
  }

  function Front(rs: seq<Request>, i: nat): (r: seq<Request>) {
    if i <= |rs| then rs[..i] else rs
  }

  function Back(rs: seq<Request>, i: nat): (r: seq<Request>) {
    if i <= |rs| then rs[i..] else []
  }

  lemma ServedPlaced(r: Request, a: Answer)
    requires Placed(r) && Within(CallFor(r), a)
    ensures Placed(Served(r, a)) <==> Survives(r, a.result)
    ensures Finished(Served(r, a), a.result) ==> Survives(r, a.result)
  {
    LengthSurvivesExactlyWhen(r.length, r.partialLen, a.result);
  }

  /** A visit keeps what is in front of it inside exactly when the visited request survives. */
  lemma {:induction false} VisitPlaced(rs: seq<Request>, i: nat, t: nat, rfds: set<nat>, wfds: set<nat>, io: Drivers)
    requires i < |rs| && Careful(io) && AllPlaced(Back(rs, i))
    ensures var v := PollAt(rs, i, t, rfds, wfds, io);
            && v.ok && AllPlaced(Back(v.pending, v.i))
            && (AllPlaced(Front(v.pending, v.i)) <==>
                  AllPlaced(Front(rs, i)) && (Ready(rs[i], rfds, wfds) ==> Survives(rs[i], io(t, CallFor(rs[i])).result)))
  {
    hide Ready, Served, CallFor, Within, Finished, Survives;
    assert forall k :: i <= k < |rs| ==> rs[k] == Back(rs, i)[k - i];
    var v, r := PollAt(rs, i, t, rfds, wfds, io), rs[i];
    if Ready(r, rfds, wfds) {
      var a := io(t, CallFor(r));
      assert Within(CallFor(r), a);
      ServedPlaced(r, a);
      if Finished(Served(r, a), a.result) {
        WithoutPlaced(rs, i);
      } else {
        assert Front(v.pending, v.i) == Front(rs, i) + [Served(r, a)];
        PlacedSnoc(Front(rs, i), Served(r, a));
        assert Back(v.pending, v.i) == rs[i + 1..];
      }
    } else {
      assert Front(v.pending, v.i) == Front(rs, i) + [r];
      PlacedSnoc(Front(rs, i), r);
    }
  }

  lemma PlacedSnoc(rs: seq<Request>, r: Request)
    ensures AllPlaced(rs + [r]) <==> AllPlaced(rs) && Placed(r)
  {
    hide Placed;
    assert (rs + [r])[|rs|] == r;
    assert forall k :: 0 <= k < |rs| ==> (rs + [r])[k] == rs[k];
  }

  lemma WithoutPlaced(rs: seq<Request>, i: nat)
    requires i < |rs| && forall k :: i <= k < |rs| ==> Placed(rs[k])
    ensures var left, j := Without(rs, i), if i == 0 then |rs| else i + 1;
            AllPlaced(Back(left, j)) && (AllPlaced(Front(left, j)) <==> AllPlaced(Front(rs, i)))
  {
    hide Placed;
    var left := Without(rs, i);
    assert forall k :: 0 <= k < i ==> left[k] == rs[k];
    assert forall k :: i <= k < |left| ==> left[k] == rs[k + 1];
    var front := Front(left, if i == 0 then |rs| else i + 1);
    if AllPlaced(front) {
      forall k | 0 <= k < i ensures Placed(rs[k]) {
        assert front[k] == rs[k];
      }
    }
  }

  lemma {:induction false} PassPlaced(rs: seq<Request>, i: nat, t: nat, rfds: set<nat>, wfds: set<nat>, io: Drivers)
    requires Careful(io) && AllPlaced(Back(rs, i))
    ensures var p := PollFrom(rs, i, t, rfds, wfds, io);
            p.ok && (AllPlaced(p.pending) <==> AllPlaced(Front(rs, i)) && AllSurvive(rs, i, t, rfds, wfds, io))
    decreases |rs| - i
  {
    hide PollAt, AllPlaced, Careful, Ready, Survives, CallFor;
    if i < |rs| {
      VisitPlaced(rs, i, t, rfds, wfds, io);
      BackHead(rs, i);
      var v := PollAt(rs, i, t, rfds, wfds, io);
      PassPlaced(v.pending, v.i, v.t, rfds, wfds, io);
    } else {
      assert Front(rs, i) == rs;
    }
  }

  lemma BackHead(rs: seq<Request>, i: nat)
    requires i < |rs| && AllPlaced(Back(rs, i))
    ensures Placed(rs[i])
  {
    assert Back(rs, i)[0] == rs[i];
  }

  /**
   A pass over requests that are inside their buffers stays in bounds itself, and leaves all of them
   inside exactly when every visited ready request survives the result its driver stores.
   */
  lemma {:induction false} PassSafeExactlyWhen(rs: seq<Request>, rfds: set<nat>, wfds: set<nat>, io: Drivers)
    requires Careful(io) && AllPlaced(rs)
    ensures var p := PollFrom(rs, 0, 0, rfds, wfds, io);
            p.ok && (AllPlaced(p.pending) <==> AllSurvive(rs, 0, 0, rfds, wfds, io))
  {
    assert Back(rs, 0) == rs;
    PassPlaced(rs, 0, 0, rfds, wfds, io);
  }

  /**
   A request that has moved nothing and whose driver fails stays pending with a partial length of
   -1: whatever the drivers of a later pass that serves it, that pass goes outside the buffer.
   */
  lemma {:induction false} FirstFailureGoesOutside(r: Request, rfds: set<nat>, wfds: set<nat>, io: Drivers, later: Drivers)
    requires Placed(r) && r.partialLen == 0 && r.length < FAILED && Ready(r, rfds, wfds)
    requires Within(CallFor(r), io(0, CallFor(r))) && io(0, CallFor(r)).result == FAILED
    ensures var p := PollFrom([r], 0, 0, rfds, wfds, io);
            && p.ok && |p.pending| == 1 && p.pending[0].partialLen == FAILED && p.completed == []
            && !PollFrom(p.pending, 0, 0, rfds, wfds, later).ok
  {
    hide CallFor, Within;
    var a, r' := io(0, CallFor(r)), Served(r, io(0, CallFor(r)));
    assert [r][0 := r'] == [r'];
    assert PollAt([r], 0, 0, rfds, wfds, io) == Visit(true, [r'], [], 1, 1);
    assert PollFrom([r'], 1, 1, rfds, wfds, io) == Polled(true, [r'], []);
    assert !PollAt([r'], 0, 0, rfds, wfds, later).ok;
  }

  /** A failure after some bytes takes the last one back, and puts the next call 2^32 bytes too far on. */
  lemma {:induction false} LaterFailureMisplaces(r: Request, a: Answer)
    requires Sound(r) && 0 < r.partialLen && Within(CallFor(r), a) && a.result == FAILED
    ensures var r' := Served(r, a);
            && Placed(r') && !Sound(r') && r'.partialLen == r.partialLen - 1
            && CallFor(r').offset == r.start + r'.partialLen + UINT32_LIMIT
  {
    ServedPlaced(r, a);
    SoundExactlyWhenFair(r, a);
  }
}
