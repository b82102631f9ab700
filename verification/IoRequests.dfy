/** The linked list of pending I/O requests of rdpdr.c, relinked in place. */
module IoRequests {
  import opened Bits
  import opened IoSpec

  class Node {
    var io: Request
    var next: Node?

    /** A fresh element: handle 0, no successor. */
    constructor ()
      ensures io == BLANK && next == null
    {
      io := BLANK;
      next := null;
    }

    /**
     One call to the driver, for at most 8K.  `ok` is false, and nothing is changed, where the code
     would hand out a place outside the buffer or the driver would write past the room it was given.
     */
    method Serve(drivers: Drivers, t: nat) returns (ok: bool, status: nat, n: uint32)
      requires io.major == IRP_MJ_READ || io.major == IRP_MJ_WRITE
      modifies this`io
      ensures ok == (Placed(old(io)) && Within(CallFor(old(io)), drivers(t, CallFor(old(io)))))
      ensures !ok ==> io == old(io)
      ensures ok ==> var a := drivers(t, CallFor(old(io)));
                     status == a.status && n == a.result && io == Served(old(io), a)
    {
      var p := io.partialLen;
      ok, status, n := Placed(io), 0, 0;
      if !ok {
        return;
      }
      hide RequestSize;
      var bytes: seq<byte>;
      if io.major == IRP_MJ_READ {
        ok, status, bytes, n := Read(drivers, t);
        if !ok {
          return;
        }
        io := io.(buffer := io.buffer[..p] + bytes + io.buffer[p + |bytes|..]);
      } else {
        status, bytes, n := Write(drivers, t);
      }
      io := io.(partialLen := (p + n) % UINT32_LIMIT, offset := io.offset + n, moved := io.moved + [Exchange(io.offset, bytes)]);
    }

    method Read(drivers: Drivers, t: nat) returns (ok: bool, status: nat, data: seq<byte>, n: uint32)
      requires Placed(io) && io.major == IRP_MJ_READ
      ensures var a := drivers(t, CallFor(io));
              ok == Within(CallFor(io), a) && status == a.status && data == a.data && n == a.result
    {
      var size := if io.length - io.partialLen > MOST_AT_ONCE then MOST_AT_ONCE else io.length - io.partialLen;
      var a := drivers(t, ReadCall(io.fd, size, io.offset));
      ok, status, data, n := |a.data| <= size, a.status, a.data, a.result;
    }

    method Write(drivers: Drivers, t: nat) returns (status: nat, taken: seq<byte>, n: uint32)
      requires Placed(io) && io.major != IRP_MJ_READ
      ensures var a := drivers(t, CallFor(io));
              Within(CallFor(io), a) && status == a.status && n == a.result && taken == Passed(CallFor(io), a)
    {
      var p := io.partialLen;
      var size := if io.length - p > MOST_AT_ONCE then MOST_AT_ONCE else io.length - p;
      var a := drivers(t, WriteCall(io.fd, io.buffer[p..p + size], io.offset));
      status, n := a.status, a.result;
      taken := io.buffer[p..p + if n < size then n else size];
    }
  }

  /** The successor links, followed from `head`, visit `nodes`. */
  ghost predicate Chain(head: Node?, nodes: seq<Node>)
    reads nodes
  {
    && head == At(nodes, 0)
    && (forall i, j :: 0 <= i < j < |nodes| ==> nodes[i] != nodes[j])
    && (forall i :: 0 <= i < |nodes| ==> nodes[i].next == At(nodes, i + 1))
  }

  ghost function At(nodes: seq<Node>, i: nat): (n: Node?) {
    if i < |nodes| then nodes[i] else null
  }

  class RequestList {
    var head: Node?
    var wire: seq<Reply>
    ghost var nodes: seq<Node>
    ghost var repr: set<Node>
    ghost var pending: seq<Request>
    ghost var completed: seq<Completion>

    ghost predicate Valid()
      reads this, repr
    {
      && (forall i :: 0 <= i < |nodes| ==> nodes[i] in repr)
      && Chain(head, nodes)
      && |pending| == |nodes|
      && (forall i :: 0 <= i < |nodes| ==> nodes[i].io == pending[i])
      && |wire| == |completed|
      && (forall i :: 0 <= i < |wire| ==> wire[i] == completed[i].reply)
    }

    constructor ()
      ensures Valid() && repr == {} && pending == [] && completed == []
    {
      head, wire := null, [];
      nodes, repr, pending, completed := [], {}, [], [];
    }

    method Bypass(prev: Node, iorq: Node, ghost i: nat)
      requires Valid() && 0 < i < |nodes| && iorq == nodes[i] && prev == nodes[i - 1]
      modifies this`nodes, this`pending, prev`next
      ensures Valid() && nodes == Without(old(nodes), i) && pending == Without(old(pending), i)
    {
      hide Chain, Without;
      ghost var was, reqs := nodes, pending;
      Unchain(prev, iorq, i);
      pending := Without(pending, i);
      forall k | 0 <= k < |nodes|
        ensures nodes[k] in repr && nodes[k].io == pending[k]
      {
        WithoutIs(was, i, k);
        WithoutIs(reqs, i, k);
      }
    }

    /** The links go past element `i`. */
    method Unchain(prev: Node, iorq: Node, ghost i: nat)
      requires Valid() && 0 < i < |nodes| && iorq == nodes[i] && prev == nodes[i - 1]
      modifies this`nodes, prev`next
      ensures Chain(head, nodes) && nodes == Without(old(nodes), i)
    {
      hide Without;
      ghost var was := nodes;
      WithoutAt(nodes, i);
      prev.next := iorq.next;
      nodes := Without(nodes, i);
      forall k | 0 <= k < |nodes|
        ensures nodes[k].next == At(nodes, k + 1)
      {
        var j := if k < i then k else k + 1;
        assert nodes[k] == was[j] && (j != i - 1 ==> was[j] != prev);
      }
    }

    method DropHead(iorq: Node)
      requires Valid() && |nodes| > 0 && iorq == nodes[0]
      modifies this`head, this`nodes, this`pending
      ensures Valid() && nodes == Without(old(nodes), 0) && pending == Without(old(pending), 0)
    {
      head := iorq.next;
      assert nodes[1..] == Without(nodes, 0) && pending[1..] == Without(pending, 0);
      nodes, pending := nodes[1..], pending[1..];
    }

    /** rdpdr_remove_iorequest: unlink element `i`; the result is where the caller goes on. */
    method Remove(prev: Node?, iorq: Node, ghost i: nat) returns (after: Node?)
      requires Valid() && i < |nodes| && iorq == nodes[i]
      requires if i == 0 then prev == null else prev == nodes[i - 1]
      modifies this`head, this`nodes, this`pending, repr`next
      ensures Valid() && nodes == Without(old(nodes), i) && pending == Without(old(pending), i)
      ensures after == if i == 0 then null else At(nodes, i)
    {
      if prev != null {
        Bypass(prev, iorq, i);
        assert nodes[i - 1] == prev;
        after := prev.next;
      } else {
        DropHead(iorq);
        after := null;
      }
    }

    /** rdpdr_send_completion. */
    method Send(device: nat, id: nat, status: nat, result: nat, data: seq<byte>, ghost r: Request, ghost aborted: bool)
      requires Valid()
      modifies this`wire, this`completed
      ensures Valid() && completed == old(completed) + [Completion(r, Sent(device, id, status, result, data), aborted)]
    {
      var reply := Reply(device, id, status, result, data);
      if status == RD_STATUS_BUFFER_TOO_SMALL {
        reply := reply.(result := 0, data := []);
      }
      wire := wire + [reply];
      completed := completed + [Completion(r, reply, aborted)];
    }

    /** Link a fresh element behind the last one. */
    method Grow(last: Node?)
      requires Valid() && last == if |nodes| == 0 then null else nodes[|nodes| - 1]
      modifies this`head, this`nodes, this`pending, this`repr, repr`next
      ensures Valid() && |nodes| == |old(nodes)| + 1 && nodes[..|old(nodes)|] == old(nodes)
      ensures fresh(nodes[|old(nodes)|]) && repr == old(repr) + {nodes[|old(nodes)|]}
      ensures pending == old(pending) + [BLANK]
    {
      hide Chain;
      var n := new Node();
      Append(last, n);
      pending := pending + [BLANK];
    }

    method Append(last: Node?, n: Node)
      requires Valid() && last == if |nodes| == 0 then null else nodes[|nodes| - 1]
      requires n !in repr && n.next == null && n.io == BLANK
      modifies this`head, this`nodes, this`repr, repr`next
      ensures Chain(head, nodes) && nodes == old(nodes) + [n] && repr == old(repr) + {n}
      ensures forall i :: 0 <= i < |nodes| ==> nodes[i] in repr
    {
      if last == null {
        head := n;
      } else {
        last.next := n;
      }
      nodes, repr := nodes + [n], repr + {n};
    }

    /** The element behind `iorq`, made when there is none. */
    method Advance(iorq: Node, ghost i: nat) returns (after: Node)
      requires Valid() && i < |nodes| && iorq == nodes[i]
      modifies this`head, this`nodes, this`pending, this`repr, repr`next
      ensures Valid() && old(nodes) <= nodes && i + 1 < |nodes| && after == nodes[i + 1]
      ensures fresh(repr - old(repr))
      ensures if i + 1 < |old(nodes)| then nodes == old(nodes) && pending == old(pending)
              else |nodes| == i + 2 && fresh(after) && pending == old(pending) + [BLANK]
    {
      if iorq.next == null {
        Grow(iorq);
      }
      after := iorq.next;
    }

    /** The first element whose handle is 0, made at the end when there is none. */
    method FreeElement() returns (iorq: Node, ghost i: nat)
      requires Valid()
      modifies this`head, this`nodes, this`pending, this`repr, repr`next
      ensures Valid() && i < |nodes| && nodes[i] == iorq && i <= |old(nodes)|
      ensures fresh(repr - old(repr)) && (i == |old(nodes)| ==> fresh(iorq))
      ensures pending == if i < |old(nodes)| then old(pending) else old(pending) + [BLANK]
      ensures pending[i].fd == 0 && forall k :: 0 <= k < i ==> pending[k].fd != 0
    {
      hide Chain;
      ChainHead(head, nodes);
      if head == null {
        Grow(null);
      }
      ChainHead(head, nodes);
      iorq := head;
      i := 0;
      while iorq.io.fd != 0
        invariant Valid() && i < |nodes| && nodes[i] == iorq && i <= |old(nodes)|
        invariant old(nodes) <= nodes && fresh(repr - old(repr)) && (i == |old(nodes)| ==> fresh(iorq))
        invariant pending == if i < |old(nodes)| then old(pending) else old(pending) + [BLANK]
        invariant forall k :: 0 <= k < i ==> pending[k].fd != 0
        decreases |old(nodes)| + 1 - i
      {
        iorq := Advance(iorq, i);
        i := i + 1;
      }
    }

    method Set(iorq: Node, ghost i: nat, r: Request)
      requires Valid() && i < |nodes| && iorq == nodes[i]
      modifies this`pending, iorq`io
      ensures Valid() && pending == old(pending)[i := r]
    {
      iorq.io := r;
      pending := pending[i := r];
    }

    /** add_async_iorequest. */
    method AddRequest(r: Request)
      requires Valid()
      modifies this`head, this`nodes, this`pending, this`repr, repr
      ensures Valid() && fresh(repr - old(repr)) && pending == Add(old(pending), r)
    {
      var iorq;
      ghost var i;
      iorq, i := FreeElement();
      ghost var found := pending;
      Set(iorq, i, r);
      AddAt(old(pending), r, i, pending, found);
    }

    method Exchange(iorq: Node, ghost i: nat, t: nat, drivers: Drivers) returns (ok: bool, status: nat, n: uint32)
      requires Valid() && i < |nodes| && iorq == nodes[i]
      requires iorq.io.major == IRP_MJ_READ || iorq.io.major == IRP_MJ_WRITE
      modifies this`pending, iorq`io
      ensures Valid()
      ensures var r := old(pending)[i];
              && ok == (Placed(r) && Within(CallFor(r), drivers(t, CallFor(r))))
              && (!ok ==> pending == old(pending))
              && (ok ==> var a := drivers(t, CallFor(r));
                         status == a.status && n == a.result && pending == old(pending)[i := Served(r, a)])
    {
      ok, status, n := iorq.Serve(drivers, t);
      pending := pending[i := iorq.io];
    }

    /** Send the completion of an element and drop it. */
    method Finish(prev: Node?, iorq: Node, ghost i: nat, status: nat) returns (after: Node?)
      requires Valid() && i < |nodes| && iorq == nodes[i] && iorq.io.partialLen <= |iorq.io.buffer|
      requires if i == 0 then prev == null else prev == nodes[i - 1]
      modifies this, repr
      ensures Valid() && repr == old(repr)
      ensures pending == Without(old(pending), i) && nodes == Without(old(nodes), i)
      ensures completed == old(completed) + [Done(old(pending)[i], status)]
      ensures after == if i == 0 then null else At(nodes, i)
    {
      hide Without;
      var r := iorq.io;
      Send(r.device, r.id, status, r.partialLen, if r.major == IRP_MJ_READ then r.buffer[..r.partialLen] else [0], r, false);
      after := Remove(prev, iorq, i);
    }

    /** Serve a ready element; drop it if that finished it. */
    method ServeOne(prev: Node?, iorq: Node, ghost i: nat, t: nat, drivers: Drivers) returns (ok: bool, after: Node?)
      requires Valid() && i < |nodes| && iorq == nodes[i]
      requires if i == 0 then prev == null else prev == nodes[i - 1]
      requires iorq.io.major == IRP_MJ_READ || iorq.io.major == IRP_MJ_WRITE
      modifies this, repr
      ensures Valid() && repr == old(repr)
      ensures var v := ServeAt(old(pending), i, t, drivers);
              && ok == v.ok && pending == v.pending && completed == old(completed) + v.completed
              && (ok ==> v.t == t + 1 && after == if v.i <= |nodes| then nodes[v.i - 1] else null)
    {
      ghost var rs := pending;
      var status, n;
      ok, status, n := Exchange(iorq, i, t, drivers);
      after := iorq;
      hide Served, CallFor, Within, Placed, Chain, Done, Without, ServeAt;
      if !ok {
        ServeOutside(rs, i, t, drivers);
      } else {
        ServeInside(rs, i, t, drivers);
        if iorq.io.partialLen == iorq.io.length || n == 0 {
          after := Finish(prev, iorq, i, status);
          ReplacedWithout(rs, i, Served(rs[i], drivers(t, CallFor(rs[i]))));
        }
      }
    }

    /** One element of the polling loop: serve it if its handle is ready, drop it if that finished it. */
    method CheckOne(prev: Node?, iorq: Node, ghost i: nat, t: nat, rfds: set<nat>, wfds: set<nat>, drivers: Drivers)
      returns (ok: bool, after: Node?, t': nat, ghost v: Visit)
      requires Valid() && i < |nodes| && iorq == nodes[i]
      requires if i == 0 then prev == null else prev == nodes[i - 1]
      modifies this, repr
      ensures Valid() && repr == old(repr)
      ensures v == PollAt(old(pending), i, t, rfds, wfds, drivers) && v.i > 0
      ensures ok == v.ok && pending == v.pending && completed == old(completed) + v.completed && t' == v.t
      ensures ok ==> after == if v.i <= |nodes| then nodes[v.i - 1] else null
    {
      var r := iorq.io;
      assert r == pending[i];
      hide Valid, PollAt, ServeAt;
      PollAtIs(pending, i, t, rfds, wfds, drivers);
      v := PollAt(pending, i, t, rfds, wfds, drivers);
      assert completed + [] == completed;
      ok, after, t' := true, iorq, t;
      if r.fd != 0 && ((r.major == IRP_MJ_READ && r.fd in rfds) || (r.major == IRP_MJ_WRITE && r.fd in wfds)) {
        ok, after := ServeOne(prev, iorq, i, t, drivers);
        if ok {
          t' := t + 1;
        }
      }
    }

    /**
     _rdpdr_check_fds; `calls` counts the calls to drivers, and `ok` is false where the code goes
     outside a buffer.
     */
    method CheckFds(rfds: set<nat>, wfds: set<nat>, drivers: Drivers) returns (ok: bool, calls: nat)
      requires Valid()
      modifies this, repr
      ensures Valid() && repr == old(repr)
      ensures Polled(ok, pending, completed) == Behind(old(completed), PollFrom(old(pending), 0, 0, rfds, wfds, drivers))
      ensures calls == PollCalls(old(pending), 0, 0, rfds, wfds, drivers)
    {
      hide PollFrom, PollCalls, PollAt, Without;
      var iorq, prev: Node? := head, null;
      ok, calls := true, 0;
      ghost var i, whole, total := 0, PollFrom(pending, 0, 0, rfds, wfds, drivers), PollCalls(pending, 0, 0, rfds, wfds, drivers);
      while iorq != null
        invariant Valid() && repr == old(repr) && ok
        invariant iorq == At(nodes, i) && (iorq != null ==> prev == if i == 0 then null else nodes[i - 1])
        invariant Behind(completed, PollFrom(pending, i, calls, rfds, wfds, drivers)) == Behind(old(completed), whole)
        invariant PollCalls(pending, i, calls, rfds, wfds, drivers) == total
        decreases |nodes| - i
      {
        PollNext(completed, pending, i, calls, rfds, wfds, drivers);
        ghost var v;
        ok, iorq, calls, v := CheckOne(prev, iorq, i, calls, rfds, wfds, drivers);
        if !ok {
          return;
        }
        i := v.i;
        prev := iorq;
        if iorq != null {
          iorq := iorq.next;
        }
      }
      PollEnd(pending, i, calls, rfds, wfds, drivers);
    }

    method Cancel(prev: Node?, iorq: Node, ghost i: nat, status: nat)
      requires Valid() && i < |nodes| && iorq == nodes[i]
      requires if i == 0 then prev == null else prev == nodes[i - 1]
      modifies this, repr
      ensures Valid() && repr == old(repr)
      ensures pending == Without(old(pending), i)
      ensures completed == old(completed) + [Aborted(old(pending)[i], status)]
    {
      Send(iorq.io.device, iorq.io.id, status, 0, [0], iorq.io, true);
      var _ := Remove(prev, iorq, i);
    }

    /** rdpdr_abort_io. */
    method AbortIo(fd: nat, major: nat, status: nat) returns (found: bool)
      requires Valid()
      modifies this, repr
      ensures Valid() && repr == old(repr)
      ensures var p := Abort(old(pending), fd, major, status);
              && pending == p.pending && completed == old(completed) + p.completed
              && (found <==> p.completed != [])
    {
      hide Without;
      var iorq, prev := head, null;
      ghost var i := 0;
      while iorq != null
        invariant Valid() && nodes == old(nodes) && pending == old(pending) && completed == old(completed)
        invariant i <= |nodes| && iorq == At(nodes, i) && (iorq != null ==> prev == if i == 0 then null else nodes[i - 1])
        invariant FirstMatch(pending, fd, major) == i + FirstMatch(pending[i..], fd, major)
        decreases |nodes| - i
      {
        assert pending[i..][0] == pending[i] && pending[i..][1..] == pending[i + 1..];
        if iorq.io.fd == fd && (major == 0 || iorq.io.major == major) {
          Cancel(prev, iorq, i, status);
          return true;
        }
        prev := iorq;
        iorq := iorq.next;
        i := i + 1;
      }
      return false;
    }
  }

  lemma ChainHead(head: Node?, nodes: seq<Node>)
    requires Chain(head, nodes)
    ensures head == if |nodes| == 0 then null else nodes[0]
  {
  }

  lemma WithoutIs<T>(s: seq<T>, i: nat, k: nat)
    requires i < |s| && k < |s| - 1
    ensures Without(s, i)[k] == s[if k < i then k else k + 1]
  {
  }

  lemma WithoutAt<T>(s: seq<T>, i: nat)
    requires i < |s|
    ensures forall k :: 0 <= k < |s| - 1 ==> Without(s, i)[k] == s[if k < i then k else k + 1]
  {
  }

  lemma PollAtIs(rs: seq<Request>, i: nat, t: nat, rfds: set<nat>, wfds: set<nat>, io: Drivers)
    requires i < |rs|
    ensures var r := rs[i];
            PollAt(rs, i, t, rfds, wfds, io)
            == if r.fd != 0 && ((r.major == IRP_MJ_READ && r.fd in rfds) || (r.major == IRP_MJ_WRITE && r.fd in wfds))
               then ServeAt(rs, i, t, io) else Visit(true, rs, [], i + 1, t)
    ensures var v := ServeAt(rs, i, t, io); !v.ok ==> v.t == t
  {
    hide Served, CallFor, Within, Placed;
  }

  lemma ServeOutside(rs: seq<Request>, i: nat, t: nat, io: Drivers)
    requires i < |rs| && (!Placed(rs[i]) || !Within(CallFor(rs[i]), io(t, CallFor(rs[i]))))
    ensures ServeAt(rs, i, t, io) == Visit(false, rs, [], i + 1, t)
  {
    hide CallFor, Within;
  }

  /** A finished request reports no more than its buffer holds. */
  lemma ServeInside(rs: seq<Request>, i: nat, t: nat, io: Drivers)
    requires i < |rs| && Placed(rs[i]) && Within(CallFor(rs[i]), io(t, CallFor(rs[i])))
    ensures var a := io(t, CallFor(rs[i]));
            var r := Served(rs[i], a);
            var over := r.partialLen == r.length || a.result == 0;
            && (over ==> r.partialLen <= |r.buffer|)
            && ServeAt(rs, i, t, io)
            == if over then Visit(true, Without(rs, i), [Done(r, a.status)], if i == 0 then |rs| else i + 1, t + 1)
               else Visit(true, rs[i := r], [], i + 1, t + 1)
  {
    hide CallFor, Within, Done, Without;
  }

  lemma ReplacedWithout<T>(s: seq<T>, i: nat, x: T)
    requires i < |s|
    ensures Without(s[i := x], i) == Without(s, i)
  {
  }

  lemma PollNext(sent: seq<Completion>, rs: seq<Request>, i: nat, t: nat, rfds: set<nat>, wfds: set<nat>, io: Drivers)
    requires i < |rs|
    ensures var v := PollAt(rs, i, t, rfds, wfds, io);
            && Behind(sent, PollFrom(rs, i, t, rfds, wfds, io))
            == (if v.ok then Behind(sent + v.completed, PollFrom(v.pending, v.i, v.t, rfds, wfds, io))
                else Polled(false, v.pending, sent + v.completed))
            && PollCalls(rs, i, t, rfds, wfds, io) == if v.ok then PollCalls(v.pending, v.i, v.t, rfds, wfds, io) else v.t
  {
    hide PollAt;
    var v := PollAt(rs, i, t, rfds, wfds, io);
    var p := PollFrom(v.pending, v.i, v.t, rfds, wfds, io);
    assert sent + (v.completed + p.completed) == sent + v.completed + p.completed;
  }

  lemma PollEnd(rs: seq<Request>, i: nat, t: nat, rfds: set<nat>, wfds: set<nat>, io: Drivers)
    requires i >= |rs|
    ensures PollFrom(rs, i, t, rfds, wfds, io) == Polled(true, rs, []) && PollCalls(rs, i, t, rfds, wfds, io) == t
  {
  }

  lemma {:induction false} AddAt(rs: seq<Request>, r: Request, i: nat, rs': seq<Request>, found: seq<Request>)
    requires i <= |rs| && found == (if i < |rs| then rs else rs + [BLANK]) && rs' == found[i := r]
    requires found[i].fd == 0 && forall k :: 0 <= k < i ==> found[k].fd != 0
    ensures rs' == Add(rs, r)
  {
    if i > 0 {
      var found' := if i < |rs| then rs[1..] else rs[1..] + [BLANK];
      assert found' == found[1..];
      assert rs'[1..] == found'[i - 1 := r];
      AddAt(rs[1..], r, i - 1, rs'[1..], found');
      assert rs' == [rs[0]] + rs'[1..];
    }
  }
}
