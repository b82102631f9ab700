/** The pending I/O requests of rdpdr.c as a sequence, and what adding, polling and aborting do to it. */
module IoSpec {
  import opened Bits

  const IRP_MJ_READ := 3
  const IRP_MJ_WRITE := 4
  const MOST_AT_ONCE := 8192
  const RD_STATUS_BUFFER_TOO_SMALL := 0xc0000023

  /** A call to a device driver: how much to read, or the bytes to write, and where. */
  datatype Call = ReadCall(fd: nat, size: nat, offset: nat) | WriteCall(fd: nat, bytes: seq<byte>, offset: nat)

  /** What a driver answers: the bytes it put into the buffer of a read, and the result it stored. */
  datatype Answer = Answer(status: nat, data: seq<byte>, result: uint32)

  /** The result a driver is left with when it stores -1 for an error. */
  const FAILED: uint32 := 0xffff_ffff

  /** The drivers during one pass; the first argument numbers their calls. */
  type Drivers = (nat, Call) -> Answer

  /** Bytes moved between request and driver, and the offset the driver was given. */
  datatype Exchange = Exchange(offset: nat, bytes: seq<byte>)

  /**
   A request.  `serial` (its place in the order of arrival), `start` (its first offset) and `moved`
   (what passed between it and the driver) are bookkeeping of the model.
   */
  datatype Request = Request(
    fd: nat, major: nat, device: nat, id: nat, length: nat, partialLen: nat, offset: nat, buffer: seq<byte>,
    serial: nat, start: nat, moved: seq<Exchange>
  )

  /** A free element: handle 0. */
  const BLANK := Request(0, 0, 0, 0, 0, 0, 0, [], 0, 0, [])

  function NewRequest(fd: nat, major: nat, device: nat, id: nat, offset: nat, buffer: seq<byte>, serial: nat): (r: Request)
  {
    Request(fd, major, device, id, |buffer|, 0, offset, buffer, serial, offset, [])
  }

  /** A completion as sent to the server. */
  datatype Reply = Reply(device: nat, id: nat, status: nat, result: nat, data: seq<byte>)

  datatype Completion = Completion(request: Request, reply: Reply, aborted: bool)

  function Joined(es: seq<Exchange>): (bytes: seq<byte>) {
    if |es| == 0 then [] else Joined(es[..|es| - 1]) + es[|es| - 1].bytes
  }

  /** Every exchange starts where the one before ended. */
  predicate Contiguous(es: seq<Exchange>, start: nat) {
    |es| > 0 ==>
      && Contiguous(es[..|es| - 1], start)
      && es[|es| - 1].offset == start + |Joined(es[..|es| - 1])|
  }

  const UINT32_LIMIT := 0x1_0000_0000

  /** The next byte to move is inside the buffer, or at its end. */
  predicate Placed(r: Request) {
    r.partialLen <= r.length == |r.buffer| < UINT32_LIMIT
  }

  predicate AllPlaced(rs: seq<Request>) {
    forall i :: 0 <= i < |rs| ==> Placed(rs[i])
  }

  /** The books of a pending request are right. */
  predicate Sound(r: Request) {
    && Placed(r)
    && r.offset == r.start + r.partialLen
    && Joined(r.moved) == r.buffer[..r.partialLen]
    && Contiguous(r.moved, r.start)
  }

  predicate AllSound(rs: seq<Request>) {
    forall i :: 0 <= i < |rs| ==> Sound(rs[i])
  }

  function RequestSize(r: Request): (n: nat)
    requires r.partialLen <= r.length
    ensures r.partialLen + n <= r.length
  {
    if r.length - r.partialLen > MOST_AT_ONCE then MOST_AT_ONCE else r.length - r.partialLen
  }

  function CallFor(r: Request): (c: Call)
    requires r.partialLen <= r.length == |r.buffer|
  {
    if r.major == IRP_MJ_READ then ReadCall(r.fd, RequestSize(r), r.offset)
    else WriteCall(r.fd, r.buffer[r.partialLen..r.partialLen + RequestSize(r)], r.offset)
  }

  function Asked(c: Call): (n: nat) {
    if c.ReadCall? then c.size else |c.bytes|
  }

  /** The driver writes no further than the room it was given. */
  predicate Within(c: Call, a: Answer) {
    c.ReadCall? ==> |a.data| <= c.size
  }

  /** The result is the number of bytes moved, which is at most what was asked. */
  predicate Fair(c: Call, a: Answer) {
    a.result <= Asked(c) && (c.ReadCall? ==> |a.data| == a.result)
  }

  ghost predicate Honest(io: Drivers) {
    forall t, c :: Fair(c, io(t, c))
  }

  predicate Ready(r: Request, rfds: set<nat>, wfds: set<nat>) {
    r.fd != 0 && ((r.major == IRP_MJ_READ && r.fd in rfds) || (r.major == IRP_MJ_WRITE && r.fd in wfds))
  }

  /** The partial length after an answer, as the code adds it: in 32 bits. */
  function Advance(partialLen: nat, result: uint32): (p: nat) {
    (partialLen + result) % UINT32_LIMIT
  }

  /**
   The partial length stays within the length exactly when the answer is at most what is left, or is
   the two's complement of taking back at most what was there: a driver that stores -1 for an error
   takes one byte back, and breaks the bound when none was there.
   */
  lemma {:induction false} LengthSurvivesExactlyWhen(length: nat, partialLen: nat, result: uint32)
    requires partialLen <= length < UINT32_LIMIT
    ensures Advance(partialLen, result) <= length
       <==> result <= length - partialLen || UINT32_LIMIT - result <= partialLen
    ensures length < UINT32_LIMIT - 1 ==>
              (Advance(partialLen, FAILED) <= length <==> partialLen > 0)
  {
    if partialLen + result >= UINT32_LIMIT {
      assert Advance(partialLen, result) == partialLen + result - UINT32_LIMIT;
    }
  }

  /** What a call moves: the bytes the driver returned, or the first of those it was handed, as many as it took. */
  function Passed(c: Call, a: Answer): (bytes: seq<byte>)
    ensures c.WriteCall? ==> bytes <= c.bytes
  {
    match c
    case ReadCall(_, _, _) => a.data
    case WriteCall(_, bytes, _) => if a.result < |bytes| then bytes[..a.result] else bytes
  }

  /**
   The request after one exchange with its driver, whatever result that stored.  What is booked is what
   the call carried and where it was aimed; only a read changes the buffer.
   */
  function Served(r: Request, a: Answer): (r': Request)
    requires Placed(r) && Within(CallFor(r), a)
  {
    var p, c := r.partialLen, CallFor(r);
    var bytes := Passed(c, a);
    r.(buffer := if r.major == IRP_MJ_READ then r.buffer[..p] + bytes + r.buffer[p + |bytes|..] else r.buffer,
       partialLen := Advance(p, a.result), offset := r.offset + a.result, moved := r.moved + [Exchange(c.offset, bytes)])
  }

  lemma {:induction false} Booked(es: seq<Exchange>, start: nat, buffer: seq<byte>, p: nat, bytes: seq<byte>)
    requires p + |bytes| <= |buffer| && Joined(es) == buffer[..p] && Contiguous(es, start)
    ensures var m := es + [Exchange(start + p, bytes)];
            Joined(m) == buffer[..p] + bytes && Contiguous(m, start)
    ensures (buffer[..p] + bytes + buffer[p + |bytes|..])[..p + |bytes|] == buffer[..p] + bytes
  {
    var m := es + [Exchange(start + p, bytes)];
    assert m[..|m| - 1] == es;
  }

  /** What the call of a sound request carries: where the books end, at most 8192 bytes, and for a write the next bytes. */
  lemma {:induction false} CallContinues(r: Request)
    requires Sound(r)
    ensures var c, p := CallFor(r), |Joined(r.moved)|;
            && c.fd == r.fd && c.offset == r.start + p
            && Asked(c) == (if r.length - p > 8192 then 8192 else r.length - p)
            && (c.ReadCall? <==> r.major == IRP_MJ_READ)
            && (c.WriteCall? ==> Joined(r.moved) + c.bytes == r.buffer[..p + |c.bytes|])
  {
    hide Contiguous, Joined;
  }

  lemma {:induction false} ServedBytes(r: Request, a: Answer)
    requires Sound(r) && Within(CallFor(r), a)
    ensures var r', p, bytes := Served(r, a), r.partialLen, Passed(CallFor(r), a);
            && p + |bytes| <= r.length && |r'.buffer| == |r.buffer| && r'.buffer[..p + |bytes|] == r.buffer[..p] + bytes
            && CallFor(r).offset == r.start + p
            && (Fair(CallFor(r), a) <==> a.result == |bytes|)
  {
    hide Joined, Contiguous;
  }

  /** The books of a request stay right exactly when its driver's answer is fair. */
  lemma {:induction false} SoundExactlyWhenFair(r: Request, a: Answer)
    requires Sound(r) && Within(CallFor(r), a)
    ensures Sound(Served(r, a)) <==> Fair(CallFor(r), a)
  {
    hide CallFor, Passed, Fair, Within;
    ServedBytes(r, a);
    var r', bytes := Served(r, a), Passed(CallFor(r), a);
    Booked(r.moved, r.start, r.buffer, r.partialLen, bytes);
    hide Joined, Contiguous;
    if Sound(r') {
      assert |Joined(r'.moved)| == r'.partialLen;
    }
  }

  /** All transferred, or nothing more to be had. */
  predicate Finished(r: Request, n: nat) {
    r.partialLen == r.length || n == 0
  }

  /** What goes out for a completion: one status drops the result and the data. */
  function Sent(device: nat, id: nat, status: nat, result: nat, data: seq<byte>): (reply: Reply) {
    if status == RD_STATUS_BUFFER_TOO_SMALL then Reply(device, id, status, 0, []) else Reply(device, id, status, result, data)
  }

  function Done(r: Request, status: nat): (c: Completion)
    requires r.partialLen <= |r.buffer|
  {
    Completion(r, Sent(r.device, r.id, status, r.partialLen,
                       if r.major == IRP_MJ_READ then r.buffer[..r.partialLen] else [0]), false)
  }

  function Without<T>(s: seq<T>, i: nat): (r: seq<T>)
    requires i < |s|
    ensures |r| == |s| - 1
  {
    s[..i] + s[i + 1..]
  }

  /** Not `ok`: the code has handed out memory outside a buffer, and what happens then is not its own doing. */
  datatype Polled = Polled(ok: bool, pending: seq<Request>, completed: seq<Completion>)

  /** Where a polling pass stands: the next position and the number of driver calls so far. */
  datatype Visit = Visit(ok: bool, pending: seq<Request>, completed: seq<Completion>, i: nat, t: nat)

  /** One call to the driver of the request at `i`, which is dropped if that finished it. */
  function ServeAt(rs: seq<Request>, i: nat, t: nat, io: Drivers): (v: Visit)
    requires i < |rs|
    ensures v.i > i && |v.pending| + i < |rs| + v.i
  {
    if !Placed(rs[i]) || !Within(CallFor(rs[i]), io(t, CallFor(rs[i]))) then Visit(false, rs, [], i + 1, t)
    else
      var a := io(t, CallFor(rs[i]));
      var r := Served(rs[i], a);
      if !Finished(r, a.result) then Visit(true, rs[i := r], [], i + 1, t + 1)
      else Visit(true, Without(rs, i), [Done(r, a.status)], if i == 0 then |rs| else i + 1, t + 1)
  }

  /**
   The polling loop at position `i`.  Removing the first request ends the pass; removing another one
   skips the request behind it.
   */
  function PollAt(rs: seq<Request>, i: nat, t: nat, rfds: set<nat>, wfds: set<nat>, io: Drivers): (v: Visit)
    requires i < |rs|
    ensures v.i > i && |v.pending| + i < |rs| + v.i
  {
    if Ready(rs[i], rfds, wfds) then ServeAt(rs, i, t, io) else Visit(true, rs, [], i + 1, t)
  }

  /** With honest drivers a visit stays in bounds and leaves the books right. */
  lemma {:induction false} HonestVisit(rs: seq<Request>, i: nat, t: nat, rfds: set<nat>, wfds: set<nat>, io: Drivers)
    requires AllSound(rs) && Honest(io) && i < |rs|
    ensures var v := PollAt(rs, i, t, rfds, wfds, io); v.ok && AllSound(v.pending)
  {
    var a := io(t, CallFor(rs[i]));
    assert Fair(CallFor(rs[i]), a);
    SoundExactlyWhenFair(rs[i], a);
    hide Sound, Served;
  }

  function Behind(sent: seq<Completion>, p: Polled): (r: Polled) {
    p.(completed := sent + p.completed)
  }

  /** The polling loop from position `i` on, `t` driver calls into the pass. */
  function PollFrom(rs: seq<Request>, i: nat, t: nat, rfds: set<nat>, wfds: set<nat>, io: Drivers): (p: Polled)
    decreases |rs| - i
  {
    if i >= |rs| then Polled(true, rs, [])
    else
      var v := PollAt(rs, i, t, rfds, wfds, io);
      if !v.ok then Polled(false, v.pending, v.completed)
      else Behind(v.completed, PollFrom(v.pending, v.i, v.t, rfds, wfds, io))
  }

  /** The number of driver calls when the pass that stands at position `i`, after `t` calls, is over. */
  function PollCalls(rs: seq<Request>, i: nat, t: nat, rfds: set<nat>, wfds: set<nat>, io: Drivers): (n: nat)
    decreases |rs| - i
  {
    if i >= |rs| then t
    else
      var v := PollAt(rs, i, t, rfds, wfds, io);
      if !v.ok then v.t else PollCalls(v.pending, v.i, v.t, rfds, wfds, io)
  }

  /** The first request of the handle, of the given kind unless `major` is 0. */
  function FirstMatch(rs: seq<Request>, fd: nat, major: nat): (i: nat)
    ensures i <= |rs|
    ensures i < |rs| ==> rs[i].fd == fd && (major == 0 || rs[i].major == major)
    ensures forall k :: 0 <= k < i ==> !(rs[k].fd == fd && (major == 0 || rs[k].major == major))
  {
    if |rs| == 0 || (rs[0].fd == fd && (major == 0 || rs[0].major == major)) then 0
    else 1 + FirstMatch(rs[1..], fd, major)
  }

  function Aborted(r: Request, status: nat): (c: Completion) {
    Completion(r, Sent(r.device, r.id, status, 0, [0]), true)
  }

  function Abort(rs: seq<Request>, fd: nat, major: nat, status: nat): (p: Polled) {
    var i := FirstMatch(rs, fd, major);
    if i == |rs| then Polled(true, rs, []) else Polled(true, Without(rs, i), [Aborted(rs[i], status)])
  }

  /** A new request takes the first element whose handle is 0, and the end of the list if there is none. */
  function Add(rs: seq<Request>, r: Request): (rs': seq<Request>) {
    if |rs| == 0 || rs[0].fd == 0 then [r] + (if |rs| == 0 then [] else rs[1..])
    else [rs[0]] + Add(rs[1..], r)
  }

  /**
   A request is offered exactly when its handle is open and readable, or writable, as its kind wants;
   it is then completed exactly when the driver moved nothing or the last of it.
   */
  lemma {:induction false} VisitExactlyWhen(rs: seq<Request>, i: nat, t: nat, rfds: set<nat>, wfds: set<nat>, io: Drivers)
    requires AllSound(rs) && Honest(io) && i < |rs|
    ensures var v, r, n := PollAt(rs, i, t, rfds, wfds, io), rs[i], io(t, CallFor(rs[i])).result;
            var offered := r.fd != 0 && ((r.major == 3 && r.fd in rfds) || (r.major == 4 && r.fd in wfds));
            && v.t == (if offered then t + 1 else t)
            && |v.completed| == (if offered && (n == 0 || |Joined(r.moved)| + n == r.length) then 1 else 0)
            && |v.pending| == |rs| - |v.completed|
  {
    var r, a := rs[i], io(t, CallFor(rs[i]));
    assert Fair(CallFor(r), a);
    ServedBytes(r, a);
    assert |Joined(r.moved)| == r.partialLen;
    hide Joined, Contiguous, CallFor, Within, Passed, Fair, Honest, Done;
  }

  /** A new request replaces the first element with handle 0, and follows all others when there is none. */
  lemma {:induction false} AddPlaces(rs: seq<Request>, r: Request, i: nat)
    requires i <= |rs| && (i < |rs| ==> rs[i].fd == 0) && forall k :: 0 <= k < i ==> rs[k].fd != 0
    ensures Add(rs, r) == if i < |rs| then rs[i := r] else rs + [r]
  {
    if i > 0 {
      AddPlaces(rs[1..], r, i - 1);
    }
  }

  /**
   An abort takes out the first request of the handle, and of the kind if one is given, and answers it
   with result 0 and one zero byte, or without data where the status is the one that has none.
   */
  lemma {:induction false} AbortTakesFirst(rs: seq<Request>, fd: nat, major: nat, status: nat, i: nat)
    requires i < |rs| && rs[i].fd == fd && (major == 0 || rs[i].major == major)
    requires forall k :: 0 <= k < i ==> !(rs[k].fd == fd && (major == 0 || rs[k].major == major))
    ensures var p := Abort(rs, fd, major, status);
            && p.pending == rs[..i] + rs[i + 1..] && |p.completed| == 1 && p.completed[0].request == rs[i]
            && p.completed[0].reply == Reply(rs[i].device, rs[i].id, status, 0, if status == 0xc0000023 then [] else [0])
  {
    var j := FirstMatch(rs, fd, major);
    assert j == i;
  }
}
