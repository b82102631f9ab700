/** Sending and receiving on virtual channels, chunk by chunk. */
module Channels {
  import opened Bits
  import opened Options
  import opened ChannelSpec

  /**
   channel_send with channel_send_chunk; `size` is the chunk size agreed with the server.  `ends` is
   false where the loop of the program would go round for ever without taking anything.
   */
  method Send(id: nat, show: bool, message: seq<byte>, size: nat) returns (wire: seq<Chunk>, ends: bool)
    ensures ends <==> size > 0 || |message| == 0
    ensures ends ==> wire == Chunks(id, show, message, size)
  {
    hide ChunksFrom, NextChunk;
    wire, ends := [], true;
    var p := 0;
    assert message[0..] == message;
    while p < |message|
      invariant p <= |message| && (p > 0 ==> size > 0)
      invariant size > 0 || |message| == 0 ==> wire + ChunksFrom(id, show, |message|, message[p..], size) == Chunks(id, show, message, size)
      decreases |message| - p
    {
      var remaining := |message| - p;
      var n := if remaining < size then remaining else size;
      if n == 0 {
        return wire, false;
      }
      var flags := 0;
      if |message| == remaining {
        flags := flags + FLAG_FIRST;
      }
      if remaining == n {
        flags := flags + FLAG_LAST;
      }
      if show {
        flags := flags + FLAG_SHOW_PROTOCOL;
      }
      var c := Chunk(id, |message|, flags, message[p..p + n]);
      ChunksNext(id, show, message, p, size);
      wire := wire + [c];
      p := p + n;
    }
    ChunksEnd(id, show, |message|, message[p..], size);
    assert wire + [] == wire;
  }

  lemma ChunksNext(id: nat, show: bool, message: seq<byte>, p: nat, size: nat)
    requires size > 0 && p < |message|
    ensures var left, c := message[p..], NextChunk(id, show, |message|, message[p..], size);
            && c == Chunk(id, |message|, (if |message| == |left| then FLAG_FIRST else 0) + (if |left| <= size then FLAG_LAST else 0)
                                         + (if show then FLAG_SHOW_PROTOCOL else 0),
                          message[p..p + if |left| < size then |left| else size])
            && ChunksFrom(id, show, |message|, left, size)
            == [c] + ChunksFrom(id, show, |message|, message[p + |c.data|..], size)
  {
    var n := |NextChunk(id, show, |message|, message[p..], size).data|;
    assert message[p..][n..] == message[p + n..];
  }

  lemma ChunksEnd(id: nat, show: bool, length: nat, left: seq<byte>, size: nat)
    requires |left| == 0
    ensures ChunksFrom(id, show, length, left, size) == []
  {
  }

  /** What a handler was called with. */
  datatype Delivery = Delivery(id: nat, message: seq<byte>)

  function IndexOf(ids: seq<nat>, id: nat): (i: nat)
    ensures i <= |ids|
    ensures i < |ids| ==> ids[i] == id
    ensures forall k :: 0 <= k < i ==> ids[k] != id
  {
    if |ids| == 0 || ids[0] == id then 0 else 1 + IndexOf(ids[1..], id)
  }

  /** The reassembly streams of all channels, and the calls of their handlers. */
  datatype Table = Table(buffers: seq<Buffer>, delivered: seq<Delivery>, stopped: bool)

  function Processed(ids: seq<nat>, t: Table, c: Chunk): (r: Table)
    requires |t.buffers| == |ids|
    ensures |r.buffers| == |ids|
  {
    var i := IndexOf(ids, c.id);
    if i == |ids| || t.stopped then t
    else
      match Take(t.buffers[i], c)
      case Stopped => t.(stopped := true)
      case Taken(b, m) =>
        Table(t.buffers[i := b], if m.None? then t.delivered else t.delivered + [Delivery(c.id, m.value)], false)
  }

  class Receiver {
    const ids: seq<nat>
    const buffers: array<Buffer>
    var delivered: seq<Delivery>
    var stopped: bool

    ghost predicate Valid() {
      buffers.Length == |ids|
    }

    ghost function State(): (t: Table)
      reads this, buffers
    {
      Table(buffers[..], delivered, stopped)
    }

    constructor (ids: seq<nat>)
      ensures Valid() && this.ids == ids
      ensures State() == Table(seq(|ids|, _ => Buffer(0, None)), [], false)
    {
      this.ids := ids;
      buffers := new Buffer[|ids|](_ => Buffer(0, None));
      delivered, stopped := [], false;
      new;
      assert buffers[..] == seq(|ids|, _ => Buffer(0, None));
    }

    /** channel_process. */
    method Process(c: Chunk)
      requires Valid()
      modifies this, buffers
      ensures State() == Processed(ids, old(State()), c)
    {
      if stopped {
        return;
      }
      var i := 0;
      while i < |ids| && ids[i] != c.id
        invariant i <= |ids| && forall k :: 0 <= k < i ==> ids[k] != c.id
      {
        i := i + 1;
      }
      assert i == IndexOf(ids, c.id);
      if i == |ids| {
        return;
      }
      if IsFirst(c.flags) && IsLast(c.flags) {
        delivered := delivered + [Delivery(c.id, c.data)];
        assert buffers[..] == old(buffers[..])[i := old(buffers[i])];
        return;
      }
      var b := buffers[i];
      if IsFirst(c.flags) {
        b := Buffer(if b.size >= c.length then b.size else c.length, Some([]));
      }
      if b.bytes.None? || |b.bytes.value| + |c.data| > b.size {
        stopped := true;
        return;
      }
      b := b.(bytes := Some(b.bytes.value + c.data));
      if IsLast(c.flags) {
        delivered := delivered + [Delivery(c.id, b.bytes.value)];
        b := b.(bytes := None);
      }
      buffers[i] := b;
    }
  }
}
