/** The ring of rdpsnd.c: `pending` .. `lo` are played, `lo` .. `hi` wait, in one array of MAX_QUEUE slots. */
module AudioQueue {
  import opened Bits
  import opened AudioSpec

  /** The slot `i` places behind slot `p`, around the end of the array. */
  function SlotOf(p: nat, i: nat): (k: nat)
    requires p < MAX_QUEUE && i < MAX_QUEUE
    ensures k < MAX_QUEUE
  {
    if p + i < MAX_QUEUE then p + i else p + i - MAX_QUEUE
  }

  lemma SlotNext(p: nat, i: nat)
    requires p < MAX_QUEUE && i + 1 < MAX_QUEUE
    ensures SlotOf((p + 1) % MAX_QUEUE, i) == SlotOf(p, i + 1)
  {
  }

  class Ring {
    const slots: array<Played>
    var hi: nat
    var lo: nat
    var pending: nat
    var wire: seq<Confirm>
    ghost var queue: Queue

    ghost predicate Valid()
      reads this, slots
    {
      && slots.Length == MAX_QUEUE
      && pending < MAX_QUEUE
      && Held(queue) < MAX_QUEUE
      && lo == SlotOf(pending, |queue.played|)
      && hi == SlotOf(pending, Held(queue))
      && (forall i :: 0 <= i < |queue.played| ==> slots[SlotOf(pending, i)] == queue.played[i])
      && (forall i :: 0 <= i < |queue.waiting| ==>
            slots[SlotOf(pending, |queue.played| + i)].packet == queue.waiting[i])
    }

    constructor ()
      ensures Valid() && queue == Queue([], []) && wire == []
    {
      slots := new Played[MAX_QUEUE](_ => Played(Packet([], 0, 0, Timeval(0, 0)), Timeval(0, 0)));
      hi, lo, pending := 0, 0, 0;
      wire := [];
      queue := Queue([], []);
    }

    /** rdpsnd_queue_write: refused when one slot is left. */
    method QueueWrite(data: seq<byte>, tick: nat, index: byte, now: Timeval)
      requires Valid()
      modifies this`hi, this`queue, slots
      ensures Valid() && queue == Write(old(queue), Packet(data, tick, index, now))
    {
      var at := hi;
      var nextHi := (hi + 1) % MAX_QUEUE;
      if nextHi == pending {
        return;
      }
      hi := nextHi;
      slots[at] := slots[at].(packet := Packet(data, tick, index, now));
      queue := Write(queue, Packet(data, tick, index, now));
    }

    /** rdpsnd_queue_current_packet. */
    method Current() returns (p: Packet)
      requires Valid()
      ensures |queue.waiting| > 0 ==> p == queue.waiting[0]
    {
      p := slots[lo].packet;
      assert |queue.waiting| > 0 ==> slots[SlotOf(pending, |queue.played|)].packet == queue.waiting[0];
    }

    /** rdpsnd_queue_empty. */
    method Empty() returns (b: bool)
      requires Valid()
      ensures b <==> |queue.waiting| == 0
    {
      b := lo == hi;
    }

    /** rdpsnd_queue_clear: forgets everything, unconfirmed packets included. */
    method Clear()
      requires Valid()
      modifies this`hi, this`lo, this`pending, this`queue
      ensures Valid() && queue == Queue([], [])
    {
      ghost var left: int := Held(queue);
      while pending != hi
        invariant pending < MAX_QUEUE && 0 <= left < MAX_QUEUE && hi == SlotOf(pending, left)
        decreases left
      {
        pending := (pending + 1) % MAX_QUEUE;
        left := left - 1;
      }
      pending, lo, hi := 0, 0, 0;
      queue := Queue([], []);
    }

    /** rdpsnd_queue_complete_pending. */
    method CompletePending(now: Timeval)
      requires Valid()
      modifies this`pending, this`wire, this`queue
      ensures Valid() && queue == Complete(old(queue), now)
      ensures wire == old(wire) + Confirms(old(queue).played[..DueCount(old(queue).played, now)], now)
    {
      ghost var n := 0;
      ghost var played := queue.played;
      hide Confirms, ConfirmOf, DueCount;
      NoConfirms(played, now);
      while pending != lo
        invariant Valid() && n <= DueCount(played, now) && queue == old(queue).(played := played[n..])
        invariant wire == old(wire) + Confirms(played[..n], now)
        decreases |queue.played|
      {
        var p := slots[pending];
        assert p == queue.played[0] by {
          assert slots[SlotOf(pending, 0)] == queue.played[0];
        }
        if now.sec < p.completion.sec {
          break;
        }
        if now.sec == p.completion.sec && now.usec < p.completion.usec {
          break;
        }
        DueNext(played, n, now);
        ConfirmOne(p, now);
        n := n + 1;
      }
      DueEnd(played, n, now);
    }

    method ConfirmOne(p: Played, now: Timeval)
      requires Valid() && |queue.played| > 0 && p == queue.played[0]
      modifies this`pending, this`wire, this`queue
      ensures Valid() && queue == old(queue).(played := old(queue).played[1..])
      ensures wire == old(wire) + [ConfirmOf(p, now)]
    {
      var elapsed := (p.completion.sec - p.packet.arrive.sec) * MILLION + (p.completion.usec - p.packet.arrive.usec);
      elapsed := if elapsed >= 0 then elapsed / 1000 else -(-elapsed / 1000);
      wire := wire + [Confirm((p.packet.tick + elapsed) % 65536, p.packet.index, now)];
      Release();
    }

    method Release()
      requires Valid() && |queue.played| > 0
      modifies this`pending, this`queue
      ensures Valid() && queue == old(queue).(played := old(queue).played[1..])
    {
      hide SlotOf;
      ghost var was := pending;
      pending := (pending + 1) % MAX_QUEUE;
      queue := queue.(played := queue.played[1..]);
      forall i | 0 <= i < |queue.played|
        ensures slots[SlotOf(pending, i)] == queue.played[i]
      {
        SlotNext(was, i);
      }
      forall i | 0 <= i < |queue.waiting|
        ensures slots[SlotOf(pending, |queue.played| + i)].packet == queue.waiting[i]
      {
        SlotNext(was, |queue.played| + i);
      }
      SlotNext(was, |queue.played|);
      SlotNext(was, Held(queue));
    }

    /** rdpsnd_queue_next: the current packet is played; `clock` and `now` are the two readings of the clock. */
    method QueueNext(us: nat, clock: Timeval, now: Timeval)
      requires Valid() && |queue.waiting| > 0
      modifies this, slots
      ensures Valid()
      ensures var q := Start(old(queue), us, clock);
              && queue == Complete(q, now)
              && wire == old(wire) + Confirms(q.played[..DueCount(q.played, now)], now)
    {
      StartOne(us, clock);
      CompletePending(now);
    }

    method StartOne(us: nat, clock: Timeval)
      requires Valid() && |queue.waiting| > 0
      modifies this`lo, this`queue, slots
      ensures Valid() && queue == Start(old(queue), us, clock)
    {
      assert slots[SlotOf(pending, |queue.played|)].packet == queue.waiting[0];
      var usec := clock.usec + us;
      slots[lo] := slots[lo].(completion := Timeval(clock.sec + usec / MILLION, usec % MILLION));
      lo := (lo + 1) % MAX_QUEUE;
      queue := Start(queue, us, clock);
    }

    /**
     rdpsnd_queue_next_tick: the tick of the packet behind the current one, or one less than the
     current one's; with nothing waiting, whatever the slot behind the current one was last given.
     */
    method NextTick() returns (tick: nat)
      requires Valid()
      ensures |queue.waiting| > 1 ==> tick == queue.waiting[1].tick
      ensures |queue.waiting| == 1 ==> tick == (queue.waiting[0].tick + 65535) % 65536
      ensures |queue.waiting| == 0 ==> tick == slots[(lo + 1) % MAX_QUEUE].packet.tick
    {
      assert forall i :: 0 <= i < |queue.waiting| ==> slots[SlotOf(pending, |queue.played| + i)].packet == queue.waiting[i];
      assert |queue.waiting| > 0 ==> slots[SlotOf(pending, |queue.played|)].packet == queue.waiting[0];
      assert |queue.waiting| > 1 ==> slots[SlotOf(pending, |queue.played| + 1)].packet == queue.waiting[1];
      if (lo + 1) % MAX_QUEUE != hi {
        tick := slots[(lo + 1) % MAX_QUEUE].packet.tick;
      } else {
        tick := (slots[lo].packet.tick + 65535) % 65536;
      }
    }

    /** rdpsnd_queue_next_completion. */
    method NextCompletion(now: Timeval) returns (us: int)
      requires Valid()
      ensures us == AudioSpec.NextCompletion(queue, now)
    {
      if pending == lo {
        return -1;
      }
      assert slots[SlotOf(pending, 0)] == queue.played[0];
      var t := slots[pending].completion;
      var remaining := (t.sec - now.sec) * MILLION + (t.usec - now.usec);
      if remaining < 0 {
        return 0;
      }
      return remaining;
    }
  }

  lemma NoConfirms(played: seq<Played>, now: Timeval)
    ensures Confirms(played[..0], now) == []
  {
  }

  lemma DueNext(played: seq<Played>, n: nat, now: Timeval)
    requires n < |played| && n <= DueCount(played, now) && Due(played[n], now)
    ensures n + 1 <= DueCount(played, now)
    ensures Confirms(played[..n + 1], now) == Confirms(played[..n], now) + [ConfirmOf(played[n], now)]
  {
    hide ConfirmOf;
  }

  lemma DueEnd(played: seq<Played>, n: nat, now: Timeval)
    requires n <= DueCount(played, now) && (n < |played| ==> !Due(played[n], now))
    ensures n == DueCount(played, now)
  {
  }
}
