/** The audio queue of rdpsnd.c as two sequences: packets handed to the device, and packets waiting for it. */
module AudioSpec {
  import opened Arith
  import opened Bits

  const MAX_QUEUE := 50
  const MILLION := 1000000

  datatype Timeval = Timeval(sec: nat, usec: nat) {
    /** As the system clock gives it. */
    predicate Normal() {
      usec < MILLION
    }

    function Micros(): (us: nat) {
      sec * MILLION + usec
    }
  }

  datatype Packet = Packet(data: seq<byte>, tick: nat, index: byte, arrive: Timeval)

  /** A packet with the time it was predicted to have been heard. */
  datatype Played = Played(packet: Packet, completion: Timeval)

  /** A confirmation and the clock reading it was sent at. */
  datatype Confirm = Confirm(tick: nat, index: byte, at: Timeval)

  datatype Queue = Queue(played: seq<Played>, waiting: seq<Packet>)

  /** The clock plus the playing time, carried over into seconds. */
  function Later(now: Timeval, us: nat): (t: Timeval)
    ensures t.Normal()
    ensures t.Micros() == now.Micros() + us
  {
    Timeval(now.sec + (now.usec + us) / MILLION, (now.usec + us) % MILLION)
  }

  /** The order the polling loop tests: seconds first. */
  predicate Due(p: Played, now: Timeval) {
    !(now.sec < p.completion.sec) && !(now.sec == p.completion.sec && now.usec < p.completion.usec)
  }

  /** Division of C: towards zero. */
  function Truncated(a: int, b: nat): (q: int)
    requires b > 0
  {
    if a >= 0 then a / b else -(-a / b)
  }

  /** The quotient of C leaves a remainder smaller than the divisor, of the sign of the dividend. */
  lemma {:induction false} TruncatedExactly(a: int, b: nat, q: int)
    requires b > 0
    ensures q == Truncated(a, b) <==> if a >= 0 then 0 <= a - b * q < b else 0 <= b * q - a < b
  {
    if a >= 0 {
      QuotientExactly(a, b, q);
    } else {
      QuotientExactly(-a, b, -q);
      assert b * -q == -(b * q);
    }
  }

  lemma QuotientExactly(a: nat, b: nat, q: int)
    requires b > 0
    ensures q == a / b <==> 0 <= a - b * q < b
  {
    assert a == b * (a / b) + a % b;
    if 0 <= a - b * q < b {
      QuotientUnique(a, b, a / b, a % b, q, a - b * q);
    }
  }

  /** Tick on arrival plus the milliseconds until heard, as 16 bits. */
  function ConfirmTick(p: Played): (t: nat) {
    (p.packet.tick + Truncated(p.completion.Micros() - p.packet.arrive.Micros(), 1000)) % 65536
  }

  function ConfirmOf(p: Played, now: Timeval): (c: Confirm) {
    Confirm(ConfirmTick(p), p.packet.index, now)
  }

  /** How many packets at the front are due. */
  function DueCount(played: seq<Played>, now: Timeval): (n: nat)
    ensures n <= |played|
    ensures forall i :: 0 <= i < n ==> Due(played[i], now)
    ensures n < |played| ==> !Due(played[n], now)
  {
    if |played| == 0 || !Due(played[0], now) then 0 else 1 + DueCount(played[1..], now)
  }

  function Confirms(played: seq<Played>, now: Timeval): (cs: seq<Confirm>)
    ensures |cs| == |played|
  {
    seq(|played|, i requires 0 <= i < |played| => ConfirmOf(played[i], now))
  }

  function Held(q: Queue): (n: nat) {
    |q.played| + |q.waiting|
  }

  function Write(q: Queue, p: Packet): (r: Queue) {
    if Held(q) == MAX_QUEUE - 1 then q else q.(waiting := q.waiting + [p])
  }

  function Complete(q: Queue, now: Timeval): (r: Queue) {
    q.(played := q.played[DueCount(q.played, now)..])
  }

  function Start(q: Queue, us: nat, clock: Timeval): (r: Queue)
    requires |q.waiting| > 0
  {
    Queue(q.played + [Played(q.waiting[0], Later(clock, us))], q.waiting[1..])
  }

  /** Microseconds until the oldest played packet is due; -1 if there is none. */
  function NextCompletion(q: Queue, now: Timeval): (us: int) {
    if |q.played| == 0 then -1
    else
      var remaining := (q.played[0].completion.sec - now.sec) * MILLION + (q.played[0].completion.usec - now.usec);
      if remaining < 0 then 0 else remaining
  }

  lemma DueIsReached(p: Played, now: Timeval)
    requires p.completion.Normal() && now.Normal()
    ensures Due(p, now) <==> p.completion.Micros() <= now.Micros()
  {
  }

  /** The reported wait is 0 exactly when the head is due, and otherwise ends exactly when it becomes due. */
  lemma TimeoutExact(q: Queue, now: Timeval)
    requires now.Normal() && |q.played| > 0 && q.played[0].completion.Normal()
    ensures NextCompletion(q, now) == 0 <==> Due(q.played[0], now)
    ensures forall d: nat :: Due(q.played[0], Later(now, d)) <==> d >= NextCompletion(q, now)
  {
    DueIsReached(q.played[0], now);
    forall d: nat
      ensures Due(q.played[0], Later(now, d)) <==> d >= NextCompletion(q, now)
    {
      DueIsReached(q.played[0], Later(now, d));
    }
  }
}
