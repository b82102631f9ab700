/** Runs of the audio queue: arrivals, plays, polls and clears in any order and at any clock readings. */
module AudioRuns {
  import opened AudioSpec

  datatype Event =
    | Arrive(packet: Packet)
    | Play(us: nat, clock: Timeval, now: Timeval)
    | Poll(now: Timeval)
    | Clear

  /** `accepted` and `confirmed` count from the last clear, which left `wire[..since]` behind. */
  datatype State = State(queue: Queue, wire: seq<Confirm>, accepted: seq<Packet>, confirmed: seq<Played>, since: nat)

  function Polled(s: State, now: Timeval): (r: State) {
    var due := s.queue.played[..DueCount(s.queue.played, now)];
    s.(queue := Complete(s.queue, now), wire := s.wire + Confirms(due, now), confirmed := s.confirmed + due)
  }

  /** A play with nothing waiting is stopped by an assertion of the program; the model stays where it is. */
  function Step(s: State, e: Event): (r: State) {
    match e
    case Arrive(p) =>
      s.(queue := Write(s.queue, p), accepted := if Held(s.queue) == MAX_QUEUE - 1 then s.accepted else s.accepted + [p])
    case Play(us, clock, now) =>
      if |s.queue.waiting| == 0 then s else Polled(s.(queue := Start(s.queue, us, clock)), now)
    case Poll(now) => Polled(s, now)
    case Clear => State(Queue([], []), s.wire, [], [], |s.wire|)
  }

  function Run(es: seq<Event>): (s: State) {
    if |es| == 0 then State(Queue([], []), [], [], [], 0) else Step(Run(es[..|es| - 1]), es[|es| - 1])
  }

  function Packets(ps: seq<Played>): (r: seq<Packet>)
    ensures |r| == |ps|
  {
    seq(|ps|, i requires 0 <= i < |ps| => ps[i].packet)
  }

  lemma PacketsConcat(a: seq<Played>, b: seq<Played>)
    ensures Packets(a + b) == Packets(a) + Packets(b)
  {
  }

  /** Confirmations in order of acceptance, none before its packet was due. */
  predicate Confirmed(s: State) {
    && s.since + |s.confirmed| == |s.wire|
    && forall i :: 0 <= i < |s.confirmed| ==>
         var c := s.wire[s.since + i];
         c == ConfirmOf(s.confirmed[i], c.at) && Due(s.confirmed[i], c.at)
  }

  predicate InOrder(s: State) {
    s.accepted == Packets(s.confirmed) + Packets(s.queue.played) + s.queue.waiting
  }

  predicate AllNormal(ps: seq<Played>) {
    forall i :: 0 <= i < |ps| ==> ps[i].completion.Normal()
  }

  predicate Good(s: State) {
    InOrder(s) && Confirmed(s) && Held(s.queue) < MAX_QUEUE && AllNormal(s.queue.played)
  }

  lemma PolledInOrder(s: State, now: Timeval)
    requires InOrder(s)
    ensures InOrder(Polled(s, now))
  {
    hide Packets, Confirms;
    var n := DueCount(s.queue.played, now);
    var due := s.queue.played[..n];
    assert s.queue.played == due + s.queue.played[n..];
    PacketsConcat(due, s.queue.played[n..]);
    PacketsConcat(s.confirmed, due);
  }

  lemma PolledConfirmed(s: State, now: Timeval)
    requires Confirmed(s)
    ensures Confirmed(Polled(s, now))
  {
    hide ConfirmTick;
    var r := Polled(s, now);
    var due := s.queue.played[..DueCount(s.queue.played, now)];
    forall i | 0 <= i < |r.confirmed|
      ensures var c := r.wire[s.since + i]; c == ConfirmOf(r.confirmed[i], c.at) && Due(r.confirmed[i], c.at)
    {
      if i >= |s.confirmed| {
        assert r.wire[s.since + i] == Confirms(due, now)[i - |s.confirmed|];
      } else {
        assert r.wire[s.since + i] == s.wire[s.since + i];
      }
    }
  }

  lemma {:induction false} PolledGood(s: State, now: Timeval)
    requires Good(s)
    ensures Good(Polled(s, now))
    ensures NextCompletion(Polled(s, now).queue, now) != 0 || !now.Normal()
  {
    hide InOrder, Confirmed;
    PolledInOrder(s, now);
    PolledConfirmed(s, now);
    var r := Polled(s, now);
    if |r.queue.played| > 0 && now.Normal() {
      assert r.queue.played[0] == s.queue.played[DueCount(s.queue.played, now)];
      TimeoutExact(r.queue, now);
    }
  }

  lemma {:induction false} StartGood(s: State, us: nat, clock: Timeval)
    requires Good(s) && |s.queue.waiting| > 0
    ensures Good(s.(queue := Start(s.queue, us, clock)))
  {
    var p := Played(s.queue.waiting[0], Later(clock, us));
    PacketsConcat(s.queue.played, [p]);
    assert s.queue.waiting == [s.queue.waiting[0]] + s.queue.waiting[1..];
  }

  lemma ArriveGood(s: State, p: Packet)
    requires Good(s)
    ensures Good(Step(s, Arrive(p)))
  {
    hide Packets, ConfirmOf, Due;
    assert Packets(s.confirmed) + Packets(s.queue.played) + s.queue.waiting + [p]
        == Packets(s.confirmed) + Packets(s.queue.played) + (s.queue.waiting + [p]);
  }

  /**
   Over every run: what was accepted since the last clear is what was confirmed, then what is played
   but not yet due, then what waits, in order of acceptance; at most 49 are held.
   */
  lemma {:induction false} RunInOrder(es: seq<Event>)
    ensures Good(Run(es))
  {
    if |es| > 0 {
      RunInOrder(es[..|es| - 1]);
      var s := Run(es[..|es| - 1]);
      if es[|es| - 1].Clear? {
        return;
      }
      hide Good, Polled;
      match es[|es| - 1]
      case Arrive(p) =>
        ArriveGood(s, p);
      case Play(us, clock, now) =>
        if |s.queue.waiting| > 0 {
          StartGood(s, us, clock);
          PolledGood(s.(queue := Start(s.queue, us, clock)), now);
        }
      case Poll(now) =>
        PolledGood(s, now);
    }
  }

  /** A packet is refused exactly when 49 are held, whether they are still to be played or to be confirmed. */
  lemma {:induction false} RefusedExactlyWhenFull(es: seq<Event>, p: Packet)
    ensures var s, r := Run(es), Run(es + [Arrive(p)]);
            && (r.accepted == s.accepted <==> Held(s.queue) == 49)
            && (Held(s.queue) < 49 ==> r.accepted == s.accepted + [p] && Held(r.queue) == Held(s.queue) + 1)
  {
    RunInOrder(es);
    assert (es + [Arrive(p)])[..|es|] == es;
  }

  /** The k-th confirmation since the last clear is for the k-th packet accepted, and not early. */
  lemma {:induction false} ConfirmationsFollow(es: seq<Event>, k: nat)
    requires k < |Run(es).confirmed|
    ensures var s := Run(es);
            && s.since + k < |s.wire| && k < |s.accepted|
            && var c, p := s.wire[s.since + k], s.confirmed[k];
               && p.packet == s.accepted[k]
               && c.index == p.packet.index
               && c.tick == (p.packet.tick + Truncated(p.completion.Micros() - p.packet.arrive.Micros(), 1000)) % 65536
               && Due(p, c.at)
  {
    hide Run;
    RunInOrder(es);
    var s := Run(es);
    assert Packets(s.confirmed)[k] == s.confirmed[k].packet;
  }

  /** After a poll at a time, the time reported until the next completion is not 0: the caller does not spin. */
  lemma {:induction false} PollLeavesNothingDue(es: seq<Event>, now: Timeval)
    requires now.Normal()
    ensures NextCompletion(Run(es + [Poll(now)]).queue, now) != 0
  {
    RunInOrder(es);
    PolledGood(Run(es), now);
    assert (es + [Poll(now)])[..|es|] == es;
  }

  predicate NoneDue(played: seq<Played>, now: Timeval) {
    forall i :: 0 <= i < |played| ==> !Due(played[i], now)
  }

  /** No due packet stands behind one that is not. */
  predicate DueFirst(played: seq<Played>, now: Timeval) {
    forall i, j :: 0 <= i < j < |played| && Due(played[j], now) ==> Due(played[i], now)
  }

  predicate Ascending(played: seq<Played>) {
    forall i, j :: 0 <= i < j < |played| ==> played[i].completion.Micros() <= played[j].completion.Micros()
  }

  /** A poll leaves no due packet unconfirmed exactly when no due packet stands behind one that is not. */
  lemma {:induction false} NoneDueExactlyWhen(q: Queue, now: Timeval)
    ensures NoneDue(Complete(q, now).played, now) <==> DueFirst(q.played, now)
  {
    hide Due;
    var n, left := DueCount(q.played, now), Complete(q, now).played;
    if NoneDue(left, now) {
      forall j | n <= j < |q.played| ensures !Due(q.played[j], now) {
        assert left[j - n] == q.played[j];
      }
    }
  }

  /** It leaves none whatever the time exactly when the completion times ascend. */
  lemma {:induction false} PromptExactlyWhenAscending(q: Queue)
    requires AllNormal(q.played)
    ensures (forall now: Timeval :: now.Normal() ==> NoneDue(Complete(q, now).played, now)) <==> Ascending(q.played)
  {
    hide Due, Complete;
    if Ascending(q.played) {
      forall now: Timeval | now.Normal() ensures NoneDue(Complete(q, now).played, now) {
        forall i, j | 0 <= i < j < |q.played| && Due(q.played[j], now) ensures Due(q.played[i], now) {
          DueIsReached(q.played[i], now);
          DueIsReached(q.played[j], now);
        }
        NoneDueExactlyWhen(q, now);
      }
    }
    if forall now: Timeval :: now.Normal() ==> NoneDue(Complete(q, now).played, now) {
      forall i, j | 0 <= i < j < |q.played|
        ensures q.played[i].completion.Micros() <= q.played[j].completion.Micros()
      {
        var now := q.played[j].completion;
        NoneDueExactlyWhen(q, now);
        DueIsReached(q.played[i], now);
        DueIsReached(q.played[j], now);
      }
    }
  }

  /** When a play is predicted to have been heard. */
  function HeardAt(e: Event): (us: nat) {
    if e.Play? then e.clock.Micros() + e.us else 0
  }

  predicate PlaysAscend(es: seq<Event>) {
    forall i, j :: 0 <= i < j < |es| && es[i].Play? && es[j].Play? ==> HeardAt(es[i]) <= HeardAt(es[j])
  }

  predicate PlayedBy(played: seq<Played>, t: nat) {
    Ascending(played) && forall i :: 0 <= i < |played| ==> played[i].completion.Micros() <= t
  }

  lemma CompleteAscends(q: Queue, now: Timeval, t: nat)
    requires PlayedBy(q.played, t)
    ensures PlayedBy(Complete(q, now).played, t)
  {
  }

  lemma StartAscends(q: Queue, us: nat, clock: Timeval)
    requires |q.waiting| > 0 && PlayedBy(q.played, clock.Micros() + us)
    ensures PlayedBy(Start(q, us, clock).played, clock.Micros() + us)
  {
  }

  lemma {:induction false} RunAscends(es: seq<Event>, t: nat)
    requires PlaysAscend(es) && forall i :: 0 <= i < |es| && es[i].Play? ==> HeardAt(es[i]) <= t
    ensures PlayedBy(Run(es).queue.played, t)
  {
    if |es| > 0 {
      var es', e := es[..|es| - 1], es[|es| - 1];
      RunAscends(es', if e.Play? then HeardAt(e) else t);
      var q := Run(es').queue;
      hide Complete, Start, DueCount, Confirms;
      match e
      case Arrive(p) =>
      case Play(us, clock, now) =>
        if |q.waiting| > 0 {
          StartAscends(q, us, clock);
          CompleteAscends(Start(q, us, clock), now, clock.Micros() + us);
        }
      case Poll(now) => CompleteAscends(q, now, t);
      case Clear =>
    }
  }

  function LastHeard(es: seq<Event>): (t: nat)
    ensures forall i :: 0 <= i < |es| && es[i].Play? ==> HeardAt(es[i]) <= t
  {
    if |es| == 0 then 0
    else
      var t, u := LastHeard(es[..|es| - 1]), HeardAt(es[|es| - 1]);
      if t < u then u else t
  }

  /** Over every run whose plays are heard in the order they were started, a poll leaves nothing due behind. */
  lemma {:induction false} InOrderPlaysArePrompt(es: seq<Event>, now: Timeval)
    requires PlaysAscend(es) && now.Normal()
    ensures NoneDue(Run(es + [Poll(now)]).queue.played, now)
  {
    assert (es + [Poll(now)])[..|es|] == es;
    RunInOrder(es);
    RunAscends(es, LastHeard(es));
    PromptExactlyWhenAscending(Run(es).queue);
    hide Complete, Due, Confirms;
  }

  /** A second play with a shorter delay is due at 5 s and still unconfirmed behind the first, due at 10 s. */
  lemma {:induction false} ShortPlayWaits(a: Packet, b: Packet) returns (es: seq<Event>)
    ensures var zero, now := Timeval(0, 0), Timeval(5, 0);
            && es == [Arrive(a), Arrive(b), Play(10 * MILLION, zero, zero), Play(MILLION, zero, zero), Poll(now)]
            && var played := Run(es).queue.played;
               |played| == 2 && played[1].packet == b && !Due(played[0], now) && Due(played[1], now)
  {
    var zero, now := Timeval(0, 0), Timeval(5, 0);
    var e3, e4 := Play(10 * MILLION, zero, zero), Play(MILLION, zero, zero);
    FourSteps(Arrive(a), Arrive(b), e3, e4);
    TwoArrivals(a, b);
    TwoPlays(Step(Step(Run([]), Arrive(a)), Arrive(b)), a, b);
    es := [Arrive(a), Arrive(b), e3, e4];
    hide Run, Step;
    QuietPoll(Run(es), now);
    RunSnoc(es, Poll(now));
    es := es + [Poll(now)];
  }

  lemma TwoPlays(s: State, a: Packet, b: Packet)
    requires s.queue == Queue([], [a, b])
    ensures var zero := Timeval(0, 0);
            Step(Step(s, Play(10 * MILLION, zero, zero)), Play(MILLION, zero, zero)).queue
            == Queue([Played(a, Timeval(10, 0)), Played(b, Timeval(1, 0))], [])
  {
    var zero, first, second := Timeval(0, 0), Played(a, Timeval(10, 0)), Played(b, Timeval(1, 0));
    StartIs([], [a, b], 10 * MILLION, zero, first);
    StartIs([first], [b], MILLION, zero, second);
    hide Step, Start;
    QuietPlay(s, 10 * MILLION, zero, zero);
    var s' := Step(s, Play(10 * MILLION, zero, zero));
    assert s'.queue == Queue([first], [b]);
    QuietPlay(s', MILLION, zero, zero);
  }

  lemma TwoArrivals(a: Packet, b: Packet)
    ensures Step(Step(Run([]), Arrive(a)), Arrive(b)).queue == Queue([], [a, b])
  {
  }

  lemma StartIs(played: seq<Played>, waiting: seq<Packet>, us: nat, clock: Timeval, p: Played)
    requires |waiting| > 0 && p == Played(waiting[0], Later(clock, us))
    ensures Start(Queue(played, waiting), us, clock) == Queue(played + [p], waiting[1..])
  {
  }

  lemma QuietPlay(s: State, us: nat, clock: Timeval, now: Timeval)
    requires |s.queue.waiting| > 0 && !Due(Start(s.queue, us, clock).played[0], now)
    ensures Step(s, Play(us, clock, now)).queue == Start(s.queue, us, clock)
  {
    hide Due, Start;
  }

  lemma QuietPoll(s: State, now: Timeval)
    requires |s.queue.played| > 0 && !Due(s.queue.played[0], now)
    ensures Step(s, Poll(now)).queue == s.queue
  {
    hide Due;
  }

  lemma RunSnoc(es: seq<Event>, e: Event)
    ensures Run(es + [e]) == Step(Run(es), e)
  {
    hide Step;
    assert (es + [e])[..|es|] == es;
  }

  lemma FourSteps(e1: Event, e2: Event, e3: Event, e4: Event)
    ensures Run([e1, e2, e3, e4]) == Step(Step(Step(Step(Run([]), e1), e2), e3), e4)
    ensures Run([]) == State(Queue([], []), [], [], [], 0)
  {
    hide Step;
    RunSnoc([], e1);
    RunSnoc([e1], e2);
    RunSnoc([e1, e2], e3);
    RunSnoc([e1, e2, e3], e4);
    assert [] + [e1] == [e1] && [e1] + [e2] == [e1, e2] && [e1, e2] + [e3] == [e1, e2, e3];
    assert [e1, e2, e3] + [e4] == [e1, e2, e3, e4];
  }
}
