/** Runs of the request list: arrivals, polls and aborts in any order. */
module IoRuns {
  import opened Bits
  import opened IoSpec

  datatype Event =
    | Arrive(fd: nat, major: nat, device: nat, id: nat, offset: nat, buffer: seq<byte>)
    | Poll(rfds: set<nat>, wfds: set<nat>, drivers: Drivers)
    | Cancel(fd: nat, major: nat, status: nat)

  /**
   `accepted` holds every request as it arrived; a request's serial is its position there.  A run is
   over when it is no longer `ok`.
   */
  datatype State = State(ok: bool, pending: seq<Request>, completed: seq<Completion>, accepted: seq<Request>)

  /** The program never opens a device with handle 0, and lengths have 32 bits. */
  predicate Proper(e: Event) {
    e.Arrive? ==> e.fd != 0 && |e.buffer| < UINT32_LIMIT
  }

  predicate AllProper(es: seq<Event>) {
    forall i :: 0 <= i < |es| ==> Proper(es[i])
  }

  ghost predicate AllHonest(es: seq<Event>) {
    forall i :: 0 <= i < |es| && es[i].Poll? ==> Honest(es[i].drivers)
  }

  function After(s: State, p: Polled): (r: State) {
    State(p.ok, p.pending, s.completed + p.completed, s.accepted)
  }

  function Step(s: State, e: Event): (r: State) {
    if !s.ok then s
    else
      match e
      case Arrive(fd, major, device, id, offset, buffer) =>
        var r := NewRequest(fd, major, device, id, offset, buffer, |s.accepted|);
        State(true, Add(s.pending, r), s.completed, s.accepted + [r])
      case Poll(rfds, wfds, drivers) => After(s, PollFrom(s.pending, 0, 0, rfds, wfds, drivers))
      case Cancel(fd, major, status) => After(s, Abort(s.pending, fd, major, status))
  }

  function Run(es: seq<Event>): (s: State) {
    if |es| == 0 then State(true, [], [], []) else Step(Run(es[..|es| - 1]), es[|es| - 1])
  }

  function Serials(rs: seq<Request>): (ks: seq<nat>)
    ensures |ks| == |rs|
  {
    seq(|rs|, i requires 0 <= i < |rs| => rs[i].serial)
  }

  function Requests(cs: seq<Completion>): (rs: seq<Request>)
    ensures |rs| == |cs|
  {
    seq(|cs|, i requires 0 <= i < |cs| => cs[i].request)
  }

  function UpTo(n: nat): (ks: seq<nat>)
    ensures |ks| == n && forall i :: 0 <= i < n ==> ks[i] == i
  {
    seq(n, i => i)
  }

  /** `r` is the request accepted under its serial, as far as it has got. */
  predicate Stems(r: Request, accepted: seq<Request>) {
    && r.fd != 0
    && r.serial < |accepted|
    && var a := accepted[r.serial];
       && r.(partialLen := a.partialLen, offset := a.offset, buffer := a.buffer, moved := a.moved) == a
       && r.start == a.offset && r.length == |a.buffer| == |r.buffer|
       && (r.major != IRP_MJ_READ ==> r.buffer == a.buffer)
  }

  /** A reply tells how far its request got; an aborted one tells nothing. */
  predicate Tells(c: Completion) {
    && Sound(c.request)
    && c == if c.aborted then Aborted(c.request, c.reply.status) else Done(c.request, c.reply.status)
  }

  predicate Ascending(ks: seq<nat>) {
    forall i, j :: 0 <= i < j < |ks| ==> ks[i] < ks[j]
  }

  /** Pending requests are in order of arrival; every accepted request is pending or completed, once. */
  predicate Kept(rs: seq<Request>, cs: seq<Completion>, accepted: seq<Request>) {
    && Ascending(Serials(rs))
    && (forall i :: 0 <= i < |rs| ==> Stems(rs[i], accepted))
    && (forall i :: 0 <= i < |cs| ==> Stems(cs[i].request, accepted))
    && multiset(Serials(rs)) + multiset(Serials(Requests(cs))) == multiset(UpTo(|accepted|))
  }

  predicate AllTell(cs: seq<Completion>) {
    forall i :: 0 <= i < |cs| ==> Tells(cs[i])
  }

  lemma MultisetWithout<T>(s: seq<T>, i: nat)
    requires i < |s|
    ensures multiset(Without(s, i)) + multiset{s[i]} == multiset(s)
  {
    assert s == s[..i] + [s[i]] + s[i + 1..];
  }

  lemma WithoutAscends(ks: seq<nat>, i: nat)
    requires Ascending(ks) && i < |ks|
    ensures Ascending(Without(ks, i))
  {
    var r := Without(ks, i);
    assert forall k :: 0 <= k < |r| ==> r[k] == ks[if k < i then k else k + 1];
  }

  lemma SerialMoves(rs: seq<Request>, cs: seq<Completion>, i: nat, c: Completion)
    requires i < |rs| && c.request.serial == rs[i].serial
    ensures multiset(Serials(Without(rs, i))) + multiset(Serials(Requests(cs + [c])))
         == multiset(Serials(rs)) + multiset(Serials(Requests(cs)))
    ensures Serials(Without(rs, i)) == Without(Serials(rs), i)
  {
    assert Serials(Without(rs, i)) == Without(Serials(rs), i);
    MultisetWithout(Serials(rs), i);
    assert Serials(Requests(cs + [c])) == Serials(Requests(cs)) + [rs[i].serial];
  }

  /** Completing a pending request moves its serial over. */
  lemma {:induction false} CompletedKept(rs: seq<Request>, cs: seq<Completion>, accepted: seq<Request>, i: nat, c: Completion)
    requires Kept(rs, cs, accepted) && i < |rs| && c.request.serial == rs[i].serial && Stems(c.request, accepted)
    ensures Kept(Without(rs, i), cs + [c], accepted)
  {
    hide Stems;
    var rs' := Without(rs, i);
    SerialMoves(rs, cs, i, c);
    assert forall k :: 0 <= k < |rs'| ==> rs'[k] == rs[if k < i then k else k + 1];
    WithoutAscends(Serials(rs), i);
    hide Requests, UpTo, Serials, Ascending;
  }

  lemma {:induction false} UpdatedKept(rs: seq<Request>, cs: seq<Completion>, accepted: seq<Request>, i: nat, r: Request)
    requires Kept(rs, cs, accepted) && i < |rs| && r.serial == rs[i].serial && Stems(r, accepted)
    ensures Kept(rs[i := r], cs, accepted)
  {
    hide Stems;
    assert Serials(rs[i := r]) == Serials(rs);
  }

  lemma {:induction false} PollAtKept(
    rs: seq<Request>, cs: seq<Completion>, accepted: seq<Request>, i: nat, t: nat, rfds: set<nat>, wfds: set<nat>, io: Drivers
  )
    requires Kept(rs, cs, accepted) && i < |rs|
    ensures var v := PollAt(rs, i, t, rfds, wfds, io); Kept(v.pending, cs + v.completed, accepted)
  {
    hide Served, CallFor, Within, Stems, Serials, Requests;
    var v := PollAt(rs, i, t, rfds, wfds, io);
    if v.t == t || !v.ok {
      assert cs + v.completed == cs;
    } else {
      var a := io(t, CallFor(rs[i]));
      var r := ServedStems(rs[i], a, accepted);
      if Finished(r, a.result) {
        FinishedPlaced(rs[i], a);
        CompletedKept(rs, cs, accepted, i, Done(r, a.status));
      } else {
        UpdatedKept(rs, cs, accepted, i, r);
        assert cs + v.completed == cs;
      }
    }
  }

  lemma FinishedPlaced(r: Request, a: Answer)
    requires Placed(r) && Within(CallFor(r), a) && Finished(Served(r, a), a.result)
    ensures Served(r, a).partialLen <= |Served(r, a).buffer|
  {
  }

  lemma ReadFits(r: Request, a: Answer)
    requires Placed(r) && Within(CallFor(r), a) && r.major == IRP_MJ_READ
    ensures |Served(r, a).buffer| == |r.buffer|
  {
  }

  lemma ServedStems(r: Request, a: Answer, accepted: seq<Request>) returns (r': Request)
    requires Placed(r) && Within(CallFor(r), a) && Stems(r, accepted)
    ensures r' == Served(r, a) && Stems(r', accepted) && r'.serial == r.serial
  {
    hide RequestSize, Advance;
    r' := Served(r, a);
    if r.major == IRP_MJ_READ {
      ReadFits(r, a);
    }
  }

  lemma {:induction false} PollKept(
    rs: seq<Request>, cs: seq<Completion>, accepted: seq<Request>, i: nat, t: nat, rfds: set<nat>, wfds: set<nat>, io: Drivers
  )
    requires Kept(rs, cs, accepted)
    ensures var p := PollFrom(rs, i, t, rfds, wfds, io); Kept(p.pending, cs + p.completed, accepted)
    decreases |rs| - i
  {
    hide PollAt, Kept;
    if i >= |rs| {
      assert cs + [] == cs;
    } else {
      var v := PollAt(rs, i, t, rfds, wfds, io);
      PollAtKept(rs, cs, accepted, i, t, rfds, wfds, io);
      if v.ok {
        PollKept(v.pending, cs + v.completed, accepted, v.i, v.t, rfds, wfds, io);
        var p := PollFrom(v.pending, v.i, v.t, rfds, wfds, io);
        assert cs + v.completed + p.completed == cs + (v.completed + p.completed);
      }
    }
  }

  /** With honest drivers a visit completes what it completes with the truth. */
  lemma {:induction false} PollAtTells(rs: seq<Request>, i: nat, t: nat, rfds: set<nat>, wfds: set<nat>, io: Drivers)
    requires AllSound(rs) && Honest(io) && i < |rs|
    ensures var v := PollAt(rs, i, t, rfds, wfds, io); v.ok && AllSound(v.pending) && AllTell(v.completed)
  {
    HonestVisit(rs, i, t, rfds, wfds, io);
    var a := io(t, CallFor(rs[i]));
    assert Fair(CallFor(rs[i]), a);
    SoundExactlyWhenFair(rs[i], a);
    hide Sound, Served, AllSound, Honest, CallFor;
  }

  lemma {:induction false} PollTells(
    rs: seq<Request>, cs: seq<Completion>, i: nat, t: nat, rfds: set<nat>, wfds: set<nat>, io: Drivers
  )
    requires AllSound(rs) && AllTell(cs) && Honest(io)
    ensures var p := PollFrom(rs, i, t, rfds, wfds, io); p.ok && AllSound(p.pending) && AllTell(cs + p.completed)
    decreases |rs| - i
  {
    hide PollAt, AllSound, Honest, Tells;
    if i >= |rs| {
      assert cs + [] == cs;
    } else {
      var v := PollAt(rs, i, t, rfds, wfds, io);
      PollAtTells(rs, i, t, rfds, wfds, io);
      PollTells(v.pending, cs + v.completed, v.i, v.t, rfds, wfds, io);
      var p := PollFrom(v.pending, v.i, v.t, rfds, wfds, io);
      assert cs + v.completed + p.completed == cs + (v.completed + p.completed);
    }
  }

  lemma {:induction false} AddAppends(rs: seq<Request>, r: Request)
    requires forall i :: 0 <= i < |rs| ==> rs[i].fd != 0
    ensures Add(rs, r) == rs + [r]
  {
    if |rs| > 0 {
      AddAppends(rs[1..], r);
    }
  }

  lemma {:induction false} AddLength(rs: seq<Request>, r: Request)
    requires exists i :: 0 <= i < |rs| && rs[i].fd == 0
    ensures |Add(rs, r)| == |rs|
  {
    if rs[0].fd != 0 {
      var i :| 0 <= i < |rs| && rs[i].fd == 0;
      assert rs[1..][i - 1].fd == 0;
      AddLength(rs[1..], r);
    }
  }

  /** A new request joins the pending ones exactly when none of them has handle 0; else one is overwritten. */
  lemma {:induction false} AddKeepsExactlyWhen(rs: seq<Request>, r: Request)
    ensures multiset(Add(rs, r)) == multiset(rs) + multiset{r} <==> forall i :: 0 <= i < |rs| ==> rs[i].fd != 0
  {
    if forall i :: 0 <= i < |rs| ==> rs[i].fd != 0 {
      AddAppends(rs, r);
    } else {
      AddLength(rs, r);
      assert |multiset(Add(rs, r))| == |Add(rs, r)| && |multiset(rs)| == |rs|;
    }
  }

  lemma {:induction false} ArriveKept(rs: seq<Request>, cs: seq<Completion>, accepted: seq<Request>, r: Request)
    requires Kept(rs, cs, accepted) && r.fd != 0
    requires r == NewRequest(r.fd, r.major, r.device, r.id, r.offset, r.buffer, |accepted|)
    ensures Kept(Add(rs, r), cs, accepted + [r]) && Add(rs, r) == rs + [r]
  {
    AddAppends(rs, r);
    AppendedSerials(rs, cs, accepted, r);
    hide UpTo, Serials, Requests;
  }

  lemma AppendedSerials(rs: seq<Request>, cs: seq<Completion>, accepted: seq<Request>, r: Request)
    requires Kept(rs, cs, accepted) && r.serial == |accepted|
    ensures Ascending(Serials(rs + [r]))
    ensures multiset(Serials(rs + [r])) + multiset(Serials(Requests(cs))) == multiset(UpTo(|accepted + [r]|))
  {
    assert Serials(rs + [r]) == Serials(rs) + [|accepted|];
    assert UpTo(|accepted| + 1) == UpTo(|accepted|) + [|accepted|];
  }

  lemma {:induction false} CancelKept(rs: seq<Request>, cs: seq<Completion>, accepted: seq<Request>, fd: nat, major: nat, status: nat)
    requires Kept(rs, cs, accepted)
    ensures var p := Abort(rs, fd, major, status); Kept(p.pending, cs + p.completed, accepted)
  {
    var i := FirstMatch(rs, fd, major);
    if i < |rs| {
      CompletedKept(rs, cs, accepted, i, Aborted(rs[i], status));
    } else {
      assert cs + [] == cs;
    }
  }

  lemma CancelTells(rs: seq<Request>, cs: seq<Completion>, fd: nat, major: nat, status: nat)
    requires AllSound(rs) && AllTell(cs)
    ensures var p := Abort(rs, fd, major, status); AllSound(p.pending) && AllTell(cs + p.completed)
  {
    hide Sound;
  }

  lemma NewSound(fd: nat, major: nat, device: nat, id: nat, offset: nat, buffer: seq<byte>, serial: nat)
    requires |buffer| < UINT32_LIMIT
    ensures Sound(NewRequest(fd, major, device, id, offset, buffer, serial))
  {
    assert buffer[..0] == [];
  }

  /** Whatever the drivers answer, over every run the books of what is pending and what completed stay balanced. */
  lemma {:induction false} RunKeeps(es: seq<Event>)
    requires AllProper(es)
    ensures var s := Run(es); Kept(s.pending, s.completed, s.accepted)
  {
    hide Kept;
    if |es| == 0 {
      EmptyKept();
    } else {
      RunKeeps(es[..|es| - 1]);
      var s := Run(es[..|es| - 1]);
      match es[|es| - 1]
      case Arrive(fd, major, device, id, offset, buffer) =>
        ArriveKept(s.pending, s.completed, s.accepted, NewRequest(fd, major, device, id, offset, buffer, |s.accepted|));
      case Poll(rfds, wfds, drivers) =>
        PollKept(s.pending, s.completed, s.accepted, 0, 0, rfds, wfds, drivers);
      case Cancel(fd, major, status) =>
        CancelKept(s.pending, s.completed, s.accepted, fd, major, status);
    }
  }

  lemma EmptyKept()
    ensures Kept([], [], [])
  {
  }

  /** With honest drivers every run stays in bounds, pending requests are sound, and replies tell what was moved. */
  lemma {:induction false} RunSound(es: seq<Event>)
    requires AllProper(es) && AllHonest(es)
    ensures var s := Run(es); s.ok && AllSound(s.pending) && AllTell(s.completed)
  {
    hide Honest, Tells;
    if |es| > 0 {
      RunSound(es[..|es| - 1]);
      RunKeeps(es[..|es| - 1]);
      var s := Run(es[..|es| - 1]);
      hide Run;
      match es[|es| - 1]
      case Arrive(fd, major, device, id, offset, buffer) =>
        var r := NewRequest(fd, major, device, id, offset, buffer, |s.accepted|);
        NewSound(fd, major, device, id, offset, buffer, |s.accepted|);
        ArriveKept(s.pending, s.completed, s.accepted, r);
        hide Sound, Kept;
      case Poll(rfds, wfds, drivers) =>
        PollTells(s.pending, s.completed, 0, 0, rfds, wfds, drivers);
      case Cancel(fd, major, status) =>
        CancelTells(s.pending, s.completed, fd, major, status);
    }
  }

  /** Every accepted request is pending or completed, never both, never twice, whatever the drivers answer. */
  lemma {:induction false} OnceEach(es: seq<Event>, k: nat)
    requires AllProper(es) && k < |Run(es).accepted|
    ensures var s := Run(es);
            multiset(Serials(s.pending))[k] + multiset(Serials(Requests(s.completed)))[k] == 1
  {
    hide Run, Stems, Tells, Sound;
    RunKeeps(es);
    UpToOnce(|Run(es).accepted|, k);
  }

  /** The requests that arrive in a run. */
  function Arrivals(es: seq<Event>): (r: seq<Event>)
    ensures forall k :: 0 <= k < |r| ==> r[k].Arrive?
  {
    if |es| == 0 then [] else Arrivals(es[..|es| - 1]) + if es[|es| - 1].Arrive? then [es[|es| - 1]] else []
  }

  /** As it was accepted, a request is what the server asked for, with nothing moved yet. */
  predicate AsAsked(r: Request, e: Event, k: nat)
    requires e.Arrive?
  {
    && r.fd == e.fd && r.major == e.major && r.device == e.device && r.id == e.id && r.offset == r.start == e.offset
    && r.buffer == e.buffer && r.length == |e.buffer| && r.partialLen == 0 && r.moved == [] && r.serial == k
  }

  lemma {:induction false} AcceptedAsAsked(es: seq<Event>)
    ensures var s, arrivals := Run(es), Arrivals(es);
            && |s.accepted| <= |arrivals| && (s.ok ==> |s.accepted| == |arrivals|)
            && forall k :: 0 <= k < |s.accepted| ==> AsAsked(s.accepted[k], arrivals[k], k)
  {
    if |es| > 0 {
      AcceptedAsAsked(es[..|es| - 1]);
    }
  }

  lemma {:induction false} UpToOnce(n: nat, k: nat)
    requires k < n
    ensures multiset(UpTo(n))[k] == 1
  {
    assert UpTo(n) == UpTo(n - 1) + [n - 1];
    if k < n - 1 {
      UpToOnce(n - 1, k);
    } else {
      assert k !in UpTo(n - 1);
    }
  }

  /**
   A completed read carries the bytes its driver gave, in order, read from contiguous offsets; of a
   completed write the driver was given the first bytes of the original buffer, as many as reported.
   With the status that says the server's buffer is too small, nothing of that is reported.
   */
  lemma {:induction false} CompletionTells(es: seq<Event>, j: nat)
    requires AllProper(es) && AllHonest(es) && j < |Run(es).completed| && !Run(es).completed[j].aborted
    ensures var c := Run(es).completed[j];
            && c.request.serial < |Run(es).accepted|
            && var a := Run(es).accepted[c.request.serial];
               && c.reply.device == a.device && c.reply.id == a.id
               && var moved := Joined(c.request.moved);
               && |moved| <= a.length == |a.buffer|
               && Contiguous(c.request.moved, a.offset)
               && (a.major != IRP_MJ_READ ==> moved == a.buffer[..|moved|])
               && if c.reply.status == RD_STATUS_BUFFER_TOO_SMALL then c.reply.result == 0 && c.reply.data == []
                  else c.reply.result == |moved| && (a.major == IRP_MJ_READ ==> c.reply.data == moved)
  {
    hide Run, Joined, Contiguous, Serials, Requests, UpTo;
    RunKeeps(es);
    RunSound(es);
    var c := Run(es).completed[j];
    assert Stems(c.request, Run(es).accepted) && Tells(c);
  }

  lemma PollAtFront(rs: seq<Request>, i: nat, t: nat, rfds: set<nat>, wfds: set<nat>, io: Drivers)
    requires 0 < i < |rs|
    ensures var v := PollAt(rs, i, t, rfds, wfds, io); v.i == i + 1 && |v.pending| >= i && v.pending[..i] == rs[..i]
  {
  }

  lemma {:induction false} FrontStays(
    rs: seq<Request>, i: nat, t: nat, rfds: set<nat>, wfds: set<nat>, io: Drivers
  )
    requires 0 < i <= |rs|
    ensures var p := PollFrom(rs, i, t, rfds, wfds, io); |p.pending| >= i && p.pending[..i] == rs[..i]
    decreases |rs| - i
  {
    hide PollAt;
    if i < |rs| {
      PollAtFront(rs, i, t, rfds, wfds, io);
      var v := PollAt(rs, i, t, rfds, wfds, io);
      if v.ok && i + 1 <= |v.pending| {
        FrontStays(v.pending, i + 1, v.t, rfds, wfds, io);
        var p := PollFrom(v.pending, i + 1, v.t, rfds, wfds, io);
        assert p.pending[..i] == p.pending[..i + 1][..i] && v.pending[..i] == v.pending[..i + 1][..i];
      }
    }
  }

  lemma ServedMore(r: Request, a: Answer)
    requires Sound(r) && Fair(CallFor(r), a)
    ensures Placed(r) && Within(CallFor(r), a)
    ensures Served(r, a).serial == r.serial && Served(r, a).partialLen == r.partialLen + a.result
  {
  }

  /** A pass moves a ready oldest request on, or completes it and leaves all others alone. */
  lemma {:induction false} OldestProgresses(rs: seq<Request>, rfds: set<nat>, wfds: set<nat>, io: Drivers)
    requires AllSound(rs) && Honest(io) && |rs| > 0 && Ready(rs[0], rfds, wfds)
    ensures var p := PollFrom(rs, 0, 0, rfds, wfds, io);
            || (p.pending == rs[1..] && |p.completed| == 1 && p.completed[0].request.serial == rs[0].serial)
            || (|p.pending| > 0 && p.pending[0].serial == rs[0].serial && p.pending[0].partialLen > rs[0].partialLen)
  {
    var a := io(0, CallFor(rs[0]));
    assert Fair(CallFor(rs[0]), a);
    ServedMore(rs[0], a);
    hide Sound, Served, CallFor, Within, Fair, Honest;
    var v := PollAt(rs, 0, 0, rfds, wfds, io);
    if v.i == 1 && |v.pending| >= 1 {
      FrontStays(v.pending, 1, 1, rfds, wfds, io);
      var p := PollFrom(v.pending, 1, 1, rfds, wfds, io);
      assert p.pending[0] == p.pending[..1][0];
    }
  }
}
