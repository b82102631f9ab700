/** Chunks of many channels, interleaved in any way. */
module ChannelRuns {
  import opened Arith
  import opened Bits
  import opened Options
  import opened ChannelSpec
  import opened Channels

  function Received(ids: seq<nat>, t: Table, wire: seq<Chunk>): (r: Table)
    requires |t.buffers| == |ids|
    ensures |r.buffers| == |ids|
    decreases |wire|
  {
    if |wire| == 0 then t else Received(ids, Processed(ids, t, wire[0]), wire[1..])
  }

  /** The chunks of one channel, in order. */
  function Of(wire: seq<Chunk>, id: nat): (cs: seq<Chunk>) {
    if |wire| == 0 then [] else (if wire[0].id == id then [wire[0]] else []) + Of(wire[1..], id)
  }

  /** The messages one handler was called with, in order. */
  function For(ds: seq<Delivery>, id: nat): (ms: seq<seq<byte>>) {
    if |ds| == 0 then [] else For(ds[..|ds| - 1], id) + if ds[|ds| - 1].id == id then [ds[|ds| - 1].message] else []
  }

  /** One channel alone: its stream and the messages delivered. */
  datatype Lane = Lane(buffer: Buffer, messages: seq<seq<byte>>, stopped: bool)

  function LaneStep(l: Lane, c: Chunk): (r: Lane) {
    if l.stopped then l
    else
      match Take(l.buffer, c)
      case Stopped => l.(stopped := true)
      case Taken(b, m) => Lane(b, if m.None? then l.messages else l.messages + [m.value], false)
  }

  function LaneRun(l: Lane, cs: seq<Chunk>): (r: Lane)
    decreases |cs|
  {
    if |cs| == 0 then l else LaneRun(LaneStep(l, cs[0]), cs[1..])
  }

  predicate Distinct(ids: seq<nat>) {
    forall i, j :: 0 <= i < j < |ids| ==> ids[i] != ids[j]
  }

  function LaneOf(ids: seq<nat>, t: Table, i: nat): (l: Lane)
    requires |t.buffers| == |ids| && i < |ids|
  {
    Lane(t.buffers[i], For(t.delivered, ids[i]), t.stopped)
  }

  lemma ForNext(ds: seq<Delivery>, d: Delivery, id: nat)
    ensures For(ds + [d], id) == For(ds, id) + if d.id == id then [d.message] else []
  {
    assert (ds + [d])[..|ds|] == ds;
  }

  /** A chunk moves its own lane and no other, as long as nothing stops. */
  lemma {:induction false} ProcessedLane(ids: seq<nat>, t: Table, c: Chunk, i: nat)
    requires |t.buffers| == |ids| && i < |ids| && Distinct(ids) && !t.stopped
    requires !Processed(ids, t, c).stopped
    ensures LaneOf(ids, Processed(ids, t, c), i) == if c.id == ids[i] then LaneStep(LaneOf(ids, t, i), c) else LaneOf(ids, t, i)
  {
    hide Take, For;
    var j := IndexOf(ids, c.id);
    if j < |ids| {
      assert j == i <==> c.id == ids[i];
      match Take(t.buffers[j], c)
      case Stopped =>
      case Taken(b, m) =>
        if m.Some? {
          ForNext(t.delivered, Delivery(c.id, m.value), ids[i]);
        }
    } else {
      assert c.id != ids[i];
    }
  }

  lemma {:induction false} LaneStops(l: Lane, cs: seq<Chunk>)
    requires l.stopped
    ensures LaneRun(l, cs).stopped
  {
    if |cs| > 0 {
      LaneStops(l, cs[1..]);
    }
  }

  /** When no lane would stop on its own chunks, none stops in the interleaving, and each runs as if alone. */
  lemma {:induction false} LanesIndependent(ids: seq<nat>, t: Table, wire: seq<Chunk>)
    requires |t.buffers| == |ids| && Distinct(ids) && !t.stopped
    requires forall i :: 0 <= i < |ids| ==> !LaneRun(LaneOf(ids, t, i), Of(wire, ids[i])).stopped
    ensures !Received(ids, t, wire).stopped
    ensures forall i :: 0 <= i < |ids| ==>
              LaneOf(ids, Received(ids, t, wire), i) == LaneRun(LaneOf(ids, t, i), Of(wire, ids[i]))
    decreases |wire|
  {
    hide Take, For, LaneOf, LaneStep, Processed;
    if |wire| > 0 {
      var c, rest := wire[0], wire[1..];
      var r := Processed(ids, t, c);
      StepGoesOn(ids, t, c, rest);
      forall i | 0 <= i < |ids|
        ensures LaneRun(LaneOf(ids, r, i), Of(rest, ids[i])) == LaneRun(LaneOf(ids, t, i), Of(wire, ids[i]))
      {
        ProcessedLane(ids, t, c, i);
        OfNext(wire, ids[i]);
      }
      LanesIndependent(ids, r, rest);
    }
  }

  lemma OfNext(wire: seq<Chunk>, id: nat)
    requires |wire| > 0
    ensures Of(wire, id) == if wire[0].id == id then [wire[0]] + Of(wire[1..], id) else Of(wire[1..], id)
  {
  }

  lemma StepGoesOn(ids: seq<nat>, t: Table, c: Chunk, rest: seq<Chunk>)
    requires |t.buffers| == |ids| && !t.stopped
    requires forall i :: 0 <= i < |ids| ==> !LaneRun(LaneOf(ids, t, i), Of([c] + rest, ids[i])).stopped
    ensures !Processed(ids, t, c).stopped
  {
    hide Take, For, Of, LaneRun;
    var j := IndexOf(ids, c.id);
    if j < |ids| && Take(t.buffers[j], c).Stopped? {
      var l := LaneOf(ids, t, j);
      OfNext([c] + rest, ids[j]);
      assert ([c] + rest)[1..] == rest;
      LaneNext(l, c, Of(rest, ids[j]));
      LaneStops(LaneStep(l, c), Of(rest, ids[j]));
      assert false;
    }
  }

  lemma LaneNext(l: Lane, c: Chunk, cs: seq<Chunk>)
    ensures LaneRun(l, [c] + cs) == LaneRun(LaneStep(l, c), cs)
  {
  }

  lemma {:induction false} LaneConcat(l: Lane, a: seq<Chunk>, b: seq<Chunk>)
    ensures LaneRun(l, a + b) == LaneRun(LaneRun(l, a), b)
    decreases |a|
  {
    if |a| == 0 {
      assert a + b == b;
    } else {
      LaneConcat(LaneStep(l, a[0]), a[1..], b);
      assert (a + b)[1..] == a[1..] + b && (a + b)[0] == a[0];
    }
  }

  lemma FlagsRead(first: bool, last: bool, show: bool)
    ensures var f := (if first then FLAG_FIRST else 0) + (if last then FLAG_LAST else 0) + (if show then FLAG_SHOW_PROTOCOL else 0);
            (IsFirst(f) <==> first) && (IsLast(f) <==> last)
  {
  }

  /** The chunks behind the first complete the message. */
  lemma {:induction false} RestCompletes(l: Lane, id: nat, show: bool, message: seq<byte>, p: nat, size: nat)
    requires size > 0 && 0 < p < |message| && !l.stopped
    requires l.buffer.size >= |message| && l.buffer.bytes == Some(message[..p])
    ensures LaneRun(l, ChunksFrom(id, show, |message|, message[p..], size))
         == Lane(l.buffer.(bytes := None), l.messages + [message], false)
    decreases |message| - p
  {
    hide IsFirst, IsLast;
    var left := message[p..];
    var c := NextChunk(id, show, |message|, left, size);
    var n := |c.data|;
    FlagsRead(false, |left| == n, show);
    assert message[..p] + c.data == message[..p + n];
    assert left[n..] == message[p + n..];
    var r := LaneStep(l, c);
    var rest := ChunksFrom(id, show, |message|, message[p + n..], size);
    LaneNext(l, c, rest);
    if p + n < |message| {
      RestCompletes(r, id, show, message, p + n, size);
    } else {
      assert message[..p + n] == message;
    }
  }

  /** A message sent alone arrives once and whole; an empty one is not sent at all. */
  lemma {:induction false} MessageArrives(l: Lane, id: nat, show: bool, message: seq<byte>, size: nat)
    requires (size > 0 || |message| == 0) && !l.stopped
    ensures var r := LaneRun(l, Chunks(id, show, message, size));
            !r.stopped && r.messages == l.messages + if |message| > 0 then [message] else []
  {
    hide IsFirst, IsLast;
    if |message| > 0 {
      var c := NextChunk(id, show, |message|, message, size);
      var n := |c.data|;
      FlagsRead(true, |message| == n, show);
      LaneNext(l, c, ChunksFrom(id, show, |message|, message[n..], size));
      if n < |message| {
        assert [] + c.data == message[..n];
        RestCompletes(LaneStep(l, c), id, show, message, n, size);
      } else {
        assert message[..n] == message;
      }
    }
  }

  function AllChunks(id: nat, show: bool, messages: seq<seq<byte>>, size: nat): (cs: seq<Chunk>)
    requires size > 0
  {
    if |messages| == 0 then [] else Chunks(id, show, messages[0], size) + AllChunks(id, show, messages[1..], size)
  }

  function NonEmpty(messages: seq<seq<byte>>): (r: seq<seq<byte>>) {
    if |messages| == 0 then [] else (if |messages[0]| > 0 then [messages[0]] else []) + NonEmpty(messages[1..])
  }

  lemma {:induction false} MessagesArrive(l: Lane, id: nat, show: bool, messages: seq<seq<byte>>, size: nat)
    requires size > 0 && !l.stopped
    ensures var r := LaneRun(l, AllChunks(id, show, messages, size));
            !r.stopped && r.messages == l.messages + NonEmpty(messages)
    decreases |messages|
  {
    hide Chunks, LaneRun;
    if |messages| == 0 {
      assert LaneRun(l, []) == l by {
        LaneEmpty(l);
      }
    } else {
      var cs, rest := Chunks(id, show, messages[0], size), AllChunks(id, show, messages[1..], size);
      MessageArrives(l, id, show, messages[0], size);
      LaneConcat(l, cs, rest);
      MessagesArrive(LaneRun(l, cs), id, show, messages[1..], size);
    }
  }

  lemma LaneEmpty(l: Lane)
    ensures LaneRun(l, []) == l
  {
  }

  /** What each channel was given to send: its flag for the protocol, its messages, its chunk size. */
  datatype Traffic = Traffic(show: bool, messages: seq<seq<byte>>, size: nat)

  /** Chunks of other channels, and of channels that are not registered, may come at any point. */
  ghost predicate Interleaves(ids: seq<nat>, traffic: seq<Traffic>, wire: seq<Chunk>) {
    && |traffic| == |ids|
    && forall i :: 0 <= i < |ids| ==>
         && traffic[i].size > 0
         && Of(wire, ids[i]) == AllChunks(ids[i], traffic[i].show, traffic[i].messages, traffic[i].size)
  }

  /** Every handler is called exactly once with each non-empty message of its channel, in order. */
  lemma {:induction false} EveryMessageArrives(ids: seq<nat>, traffic: seq<Traffic>, wire: seq<Chunk>, start: Table)
    requires |start.buffers| == |ids| && !start.stopped && start.delivered == []
    requires Distinct(ids) && Interleaves(ids, traffic, wire)
    ensures var r := Received(ids, start, wire);
            && !r.stopped
            && forall i :: 0 <= i < |ids| ==> For(r.delivered, ids[i]) == NonEmpty(traffic[i].messages)
  {
    hide LaneRun, Received, AllChunks, NonEmpty, Of;
    forall i | 0 <= i < |ids|
      ensures var r := LaneRun(LaneOf(ids, start, i), Of(wire, ids[i]));
              !r.stopped && r.messages == NonEmpty(traffic[i].messages)
    {
      MessagesArrive(LaneOf(ids, start, i), ids[i], traffic[i].show, traffic[i].messages, traffic[i].size);
    }
    LanesIndependent(ids, start, wire);
    var r := Received(ids, start, wire);
    forall i | 0 <= i < |ids|
      ensures For(r.delivered, ids[i]) == NonEmpty(traffic[i].messages)
    {
      assert LaneOf(ids, r, i) == LaneRun(LaneOf(ids, start, i), Of(wire, ids[i]));
    }
  }

  // ---- The chunks one by one ----

  /** The chunk of a message that starts at `at`. */
  function ChunkOf(id: nat, show: bool, message: seq<byte>, at: nat, size: nat): (c: Chunk)
    requires at < |message|
  {
    var n := |message|;
    var last := n - at <= size;
    Chunk(id, n, (if at == 0 then 1 else 0) + (if last then 2 else 0) + (if show then 16 else 0),
          message[at..if last then n else at + size])
  }

  lemma FirstChunkIs(id: nat, show: bool, message: seq<byte>, p: nat, size: nat)
    requires size > 0 && p < |message|
    ensures var cs, next := ChunksFrom(id, show, |message|, message[p..], size), if |message| - p < size then |message| else p + size;
            cs == [ChunkOf(id, show, message, p, size)] + ChunksFrom(id, show, |message|, message[next..], size)
  {
    var left := message[p..];
    var n := |NextChunk(id, show, |message|, left, size).data|;
    assert left[n..] == message[p + n..] && left[..n] == message[p..p + n];
  }

  lemma {:induction false} ChunkFromAt(id: nat, show: bool, message: seq<byte>, p: nat, size: nat, k: nat)
    requires size > 0 && p <= |message|
    ensures var cs, at := ChunksFrom(id, show, |message|, message[p..], size), p + k * size;
            && (k < |cs| <==> at < |message|)
            && (k < |cs| ==> 0 <= at && cs[k] == ChunkOf(id, show, message, at, size))
    decreases k
  {
    MulNonNegative(k, size);
    hide ChunkOf;
    if p < |message| {
      FirstChunkIs(id, show, message, p, size);
      if k > 0 {
        Distribute(k - 1, 1, size);
        MulNonNegative(k - 1, size);
        var next := if |message| - p < size then |message| else p + size;
        hide ChunksFrom;
        ChunkFromAt(id, show, message, next, size, k - 1);
      }
    }
  }

  /**
   Chunk `k` of a message carries the bytes from `k * size` on, at most `size` of them, with the length
   of the whole message; the first flag is on chunk 0 alone, the last flag on the one that ends it.
   */
  lemma {:induction false} ChunkAt(id: nat, show: bool, message: seq<byte>, size: nat, k: nat)
    requires size > 0
    ensures var cs, n := Chunks(id, show, message, size), |message|;
            && (k < |cs| <==> k * size < n)
            && (k < |cs| ==>
                  0 <= k * size &&
                  var last := n - k * size <= size;
                  cs[k] == Chunk(id, n, (if k == 0 then 1 else 0) + (if last then 2 else 0) + (if show then 16 else 0),
                                 message[k * size..if last then n else k * size + size]))
  {
    assert message[0..] == message;
    ChunkFromAt(id, show, message, 0, size, k);
    if k > 0 {
      MulAtLeast(k, size);
    }
    hide ChunksFrom;
  }

  /**
   What taking a chunk does.  One that is first and last is delivered as it is.  Any other goes behind
   what is there, room being the largest length seen announced; it stops the program exactly when no
   message is under way or the room is not enough.
   */
  lemma {:induction false} TakeExactly(b: Buffer, c: Chunk)
    ensures var first, last := c.flags % 2 == 1, c.flags / 2 % 2 == 1;
            var room := if first && c.length > b.size then c.length else b.size;
            var sofar := if first then Some([]) else b.bytes;
            if first && last then Take(b, c) == Taken(b, Some(c.data))
            else if sofar.None? || |sofar.value| + |c.data| > room then Take(b, c) == Stopped
            else if last then Take(b, c) == Taken(Buffer(room, None), Some(sofar.value + c.data))
            else Take(b, c) == Taken(Buffer(room, Some(sofar.value + c.data)), None)
  {
  }
}
