/** What the wrappings look like byte by byte, and what the search finds in any tree of elements. */
module SpnegoTrees {
  import opened Bits
  import opened SpnegoSpec
  import opened SpnegoRoundTrip
  import Words

  // ---- Bytes ----

  /** Lengths below 0x80 take one byte; longer ones announce how many bytes follow, highest first. */
  lemma {:induction false} HeaderBytes(tag: byte, len: nat)
    requires len < 0x100_0000
    ensures var b := Header(tag, len);
            && b[0] == tag
            && (if len < 0x80 then b[1..] == [len]
                else if len <= 0xff then b[1..] == [0x81, len]
                else if len <= 0xffff then |b| == 4 && b[1] == 0x82 && b[2] as int * 0x100 + b[3] as int == len
                else |b| == 5 && b[1] == 0x83 && b[2] as int * 0x1_0000 + b[3] as int * 0x100 + b[4] as int == len)
  {
    if len > 0xffff {
      var high, low := len / 0x100, len % 0x100;
      assert len == 0x100 * high + low && high == 0x100 * (high / 0x100) + high % 0x100;
      assert len / 65536 == high / 0x100;
    }
  }

  lemma ShortTlv(tag: byte, content: seq<byte>)
    requires |content| < 0x80
    ensures Tlv(tag, content) == [tag, |content|] + content
  {
  }

  /** NegTokenResp of a short token: response, sequence, field 2, octet string. */
  lemma {:induction false} RespBytes(token: seq<byte>)
    requires |token| + 6 < 0x80
    ensures var n := |token|; NegTokenResp(token) == [0xa1, n + 6, 0x30, n + 4, 0xa2, n + 2, 0x04, n] + token
  {
    hide Tlv;
    ShortTlv(0x04, token);
    ShortTlv(0xa2, Tlv(0x04, token));
    ShortTlv(0x30, TokenField(token));
    ShortTlv(0xa1, Tlv(0x30, TokenField(token)));
  }

  lemma MechBytes()
    ensures MechTypes() == [0xa0, 14, 0x30, 12, 0x06, 10, 0x2b, 0x06, 0x01, 0x04, 0x01, 0x82, 0x37, 0x02, 0x02, 0x0a]
  {
    hide Tlv;
    ShortTlv(0x06, NTLMSSP_OID);
    ShortTlv(0x30, Tlv(0x06, NTLMSSP_OID));
    ShortTlv(0xa0, Tlv(0x30, Tlv(0x06, NTLMSSP_OID)));
  }

  /**
   NegTokenInit of a short token: application 0 with the mechanism of SPNEGO, then the initial token with
   NTLMSSP as its one mechanism in field 0 and the token in field 2.
   */
  lemma {:induction false} InitBytes(token: seq<byte>)
    requires |token| + 32 < 0x80
    ensures var n := |token|;
            NegTokenInit(token)
            == [0x60, n + 32, 0x06, 6, 0x2b, 0x06, 0x01, 0x05, 0x05, 0x02, 0xa0, n + 22, 0x30, n + 20]
             + [0xa0, 14, 0x30, 12, 0x06, 10, 0x2b, 0x06, 0x01, 0x04, 0x01, 0x82, 0x37, 0x02, 0x02, 0x0a]
             + [0xa2, n + 2, 0x04, n] + token
  {
    hide Tlv;
    MechBytes();
    ShortTlv(0x04, token);
    ShortTlv(0xa2, Tlv(0x04, token));
    var list := MechTypes() + TokenField(token);
    ShortTlv(0x30, list);
    ShortTlv(0xa0, Tlv(0x30, list));
    ShortTlv(0x06, SPNEGO_OID);
    ShortTlv(0x60, Tlv(0x06, SPNEGO_OID) + Tlv(0xa0, Tlv(0x30, list)));
    hide MechTypes;
  }

  /**
   Headers as the reader takes them, whether or not they use the shortest form: it stops at the end of
   the data, refuses more than two length bytes, and reads the others highest first.
   */
  lemma {:induction false} HeaderForms(s: seq<byte>)
    requires |s| >= 2
    ensures ReadHeader(s).Overrun? <==> (s[1] == 0x81 && |s| < 3) || (s[1] == 0x82 && |s| < 4)
    ensures ReadHeader(s).BadForm? <==> s[1] == 0x80 || s[1] > 0x82
    ensures var h := ReadHeader(s);
            h.HeaderRead? ==>
              && h.tag == s[0] && h.size == (if s[1] > 0x80 then s[1] - 0x80 + 2 else 2)
              && h.length == if h.size == 2 then s[1] else if h.size == 3 then s[2] else 0x100 * s[2] as int + s[3] as int
  {
  }

  /** A header that overruns the data aborts the search; one of a bad form, or too long for the data, ends it. */
  lemma {:induction false} MalformedEnds(s: seq<byte>)
    requires |s| >= 2
    ensures ReadHeader(s).Overrun? ==> Extract(s) == Aborted
    ensures ReadHeader(s).BadForm? || (ReadHeader(s).HeaderRead? && ReadHeader(s).size + ReadHeader(s).length > |s|) ==>
              Extract(s) == ScanRaw(s, 0)
  {
    hide ReadHeader, ScanRaw;
    assert Find(s, 0) == Scan(s, 0);
  }

  /** What parsing finds is taken, also when it aborts; only when it finds nothing the raw scan decides. */
  lemma {:induction false} ParsingFirst(s: seq<byte>)
    ensures Find(s, 0) != NotFound ==> Extract(s) == Find(s, 0)
    ensures Find(s, 0) == NotFound ==> Extract(s) == ScanRaw(s, 0)
  {
    hide Find, ScanRaw;
  }

  // ---- Trees ----

  datatype Element = Leaf(tag: byte, bytes: seq<byte>) | Node(tag: byte, kids: seq<Element>)

  function Code(e: Element): (b: seq<byte>) {
    match e
    case Leaf(tag, bytes) => Tlv(tag, bytes)
    case Node(tag, kids) => Tlv(tag, CodeAll(kids))
  }

  function CodeAll(es: seq<Element>): (b: seq<byte>) {
    if |es| == 0 then [] else Code(es[0]) + CodeAll(es[1..])
  }

  /** Nodes have bit 5 or bit 7 of their tag set, leaves neither; lengths have two bytes at most. */
  predicate WellFormed(e: Element) {
    match e
    case Leaf(tag, bytes) => !Words.Bit(tag, 5) && !Words.Bit(tag, 7) && |bytes| <= 0xffff
    case Node(tag, kids) => (Words.Bit(tag, 5) || Words.Bit(tag, 7)) && |CodeAll(kids)| <= 0xffff && AllWellFormed(kids)
  }

  predicate AllWellFormed(es: seq<Element>) {
    forall e :: e in es ==> WellFormed(e)
  }

  /** The first octet string with the signature among the leaves, in their order, down to level 16. */
  function FirstToken(es: seq<Element>, depth: nat): (r: Result) {
    if |es| == 0 then NotFound
    else
      var here := match es[0]
                  case Leaf(tag, bytes) => if tag == 4 && |bytes| >= 8 && bytes[..8] == SIGNATURE then Found(bytes) else NotFound
                  case Node(_, kids) => if depth < 16 then FirstToken(kids, depth + 1) else NotFound;
      if here.NotFound? then FirstToken(es[1..], depth) else here
  }

  lemma DescendsByBits(tag: byte)
    ensures Descends(tag) <==> Words.Bit(tag, 5) || Words.Bit(tag, 7)
  {
    var h := tag / 0x20;
    assert h == tag / 2 / 2 / 2 / 2 / 2 && h / 2 / 2 == tag / 0x80;
    assert Words.Bit(tag, 5) == Words.Bit(tag / 2, 4) == Words.Bit(tag / 2 / 2, 3) == Words.Bit(tag / 2 / 2 / 2, 2);
    assert Words.Bit(tag / 2 / 2 / 2, 2) == Words.Bit(tag / 2 / 2 / 2 / 2, 1) == Words.Bit(h, 0);
    assert Words.Bit(tag, 7) == Words.Bit(tag / 2, 6) == Words.Bit(tag / 2 / 2, 5) == Words.Bit(tag / 2 / 2 / 2, 4);
    assert Words.Bit(tag / 2 / 2 / 2, 4) == Words.Bit(tag / 2 / 2 / 2 / 2, 3) == Words.Bit(h, 2) == Words.Bit(h / 2 / 2, 0);
  }

  /** The search finds in the code of any elements what is first among their leaves. */
  lemma {:induction false} SearchesTree(es: seq<Element>, depth: nat)
    requires AllWellFormed(es) && depth <= 16
    ensures Find(CodeAll(es), depth) == FirstToken(es, depth)
  {
    hide Descends, Tlv, Words.Bit;
    if |es| > 0 {
      var e, rest := es[0], CodeAll(es[1..]);
      assert WellFormed(e);
      SearchesTree(es[1..], depth);
      DescendsByBits(e.tag);
      match e
      case Leaf(tag, bytes) =>
        ScanTlv(tag, bytes, rest, depth);
      case Node(tag, kids) =>
        ScanTlv(tag, CodeAll(kids), rest, depth);
        OctetStringIsLeaf();
        if depth < 16 {
          SearchesTree(kids, depth + 1);
        }
    }
  }

  lemma OctetStringIsLeaf()
    ensures !Words.Bit(4, 5) && !Words.Bit(4, 7)
  {
  }

  predicate SignatureAt(s: seq<byte>, k: nat) {
    k + 8 <= |s| && s[k..k + 8] == [0x4e, 0x54, 0x4c, 0x4d, 0x53, 0x53, 0x50, 0x00]
  }

  /** The raw scan finds the rest of the input from the first place at which the signature stands. */
  lemma {:induction false} RawExactly(s: seq<byte>, from: nat, i: nat)
    requires from <= i && i + 8 <= |s|
    ensures ScanRaw(s, from) == Found(s[i..])
       <==> SignatureAt(s, i) && forall k :: from <= k < i ==> !SignatureAt(s, k)
    decreases i - from
  {
    if from < i {
      RawExactly(s, from + 1, i);
      assert SignatureAt(s, from) <==> s[from..from + 8] == SIGNATURE;
      if s[from..from + 8] == SIGNATURE {
        assert |s[from..]| != |s[i..]|;
      }
    } else if s[i..i + 8] != SIGNATURE {
      RawLater(s, i + 1);
    }
  }

  lemma {:induction false} RawLater(s: seq<byte>, from: nat)
    ensures ScanRaw(s, from).Found? ==> |ScanRaw(s, from).token| <= |s| - from
    decreases |s| - from
  {
    if from + 8 <= |s| && s[from..from + 8] != SIGNATURE {
      RawLater(s, from + 1);
    }
  }
}
