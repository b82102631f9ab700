/** Virtual channel messages of channels.c cut into chunks and put together again. */
module ChannelSpec {
  import opened Bits
  import opened Options

  const FLAG_FIRST := 0x01
  const FLAG_LAST := 0x02
  const FLAG_SHOW_PROTOCOL := 0x10

  /** A chunk on the wire: channel, length of the whole message, flags, and its part of the message. */
  datatype Chunk = Chunk(id: nat, length: nat, flags: nat, data: seq<byte>)

  predicate IsFirst(flags: nat) {
    flags % 2 == 1
  }

  predicate IsLast(flags: nat) {
    flags / 2 % 2 == 1
  }

  /** The chunk cut from the front of what is left of a message of `length` bytes. */
  function NextChunk(id: nat, show: bool, length: nat, left: seq<byte>, size: nat): (c: Chunk)
    ensures c.data == left[..if |left| < size then |left| else size]
  {
    var n := if |left| < size then |left| else size;
    Chunk(id, length, (if length == |left| then FLAG_FIRST else 0) + (if |left| == n then FLAG_LAST else 0)
                      + (if show then FLAG_SHOW_PROTOCOL else 0), left[..n])
  }

  /** The sending loop moves on exactly when something is left and the chunk size is not 0. */
  lemma {:induction false} ProgressExactlyWhen(id: nat, show: bool, length: nat, left: seq<byte>, size: nat)
    ensures left[|NextChunk(id, show, length, left, size).data|..] == left <==> |left| == 0 || size == 0
  {
    var c := NextChunk(id, show, length, left, size);
    assert |left[|c.data|..]| == |left| - |c.data|;
  }

  function ChunksFrom(id: nat, show: bool, length: nat, left: seq<byte>, size: nat): (cs: seq<Chunk>)
    requires size > 0 || |left| == 0
    decreases |left|
  {
    if |left| == 0 then []
    else
      var c := NextChunk(id, show, length, left, size);
      [c] + ChunksFrom(id, show, length, left[|c.data|..], size)
  }

  function Chunks(id: nat, show: bool, message: seq<byte>, size: nat): (cs: seq<Chunk>)
    requires size > 0 || |message| == 0
  {
    ChunksFrom(id, show, |message|, message, size)
  }

  /** The reassembly stream: room for `size` bytes, the bytes of the message so far, none if no message is under way. */
  datatype Buffer = Buffer(size: nat, bytes: Option<seq<byte>>)

  /** Stopped: the program ends on writing past the stream, or the message never started. */
  datatype Taken = Taken(buffer: Buffer, delivered: Option<seq<byte>>) | Stopped

  function Appended(b: Buffer, data: seq<byte>, last: bool): (t: Taken) {
    if b.bytes.None? || |b.bytes.value| + |data| > b.size then Stopped
    else
      var bytes := b.bytes.value + data;
      if last then Taken(b.(bytes := None), Some(bytes)) else Taken(b.(bytes := Some(bytes)), None)
  }

  function Opened(b: Buffer, length: nat): (r: Buffer) {
    Buffer(if b.size >= length then b.size else length, Some([]))
  }

  function Take(b: Buffer, c: Chunk): (t: Taken) {
    if IsFirst(c.flags) && IsLast(c.flags) then Taken(b, Some(c.data))
    else Appended(if IsFirst(c.flags) then Opened(b, c.length) else b, c.data, IsLast(c.flags))
  }
}
