/** Extracting from a wrapping gives the token back, by parsing or by the raw scan. */
module SpnegoRoundTrip {
  import opened Bits
  import opened SpnegoSpec
  import Spnego

  /** The reader reads what the printer wrote, up to 0xffff; beyond that it gives up. */
  lemma {:induction false} HeaderReads(tag: byte, len: nat, rest: seq<byte>)
    requires |Header(tag, len) + rest| >= 2
    ensures ReadHeader(Header(tag, len) + rest)
         == if len <= 0xffff then HeaderRead(|Header(tag, len)|, tag, len) else BadForm
  {
    var s := Header(tag, len) + rest;
    assert s[0] == tag && s[1] == LenBytes(len)[0];
    if 0x80 <= len <= 0xff {
      assert s[2] == len;
    } else if 0xff < len <= 0xffff {
      assert s[2] == len / 256 && s[3] == len % 256;
    }
  }

  /** One step of the scan over an element the printer wrote. */
  lemma {:induction false} ScanTlv(tag: byte, content: seq<byte>, rest: seq<byte>, depth: nat)
    ensures Scan(Tlv(tag, content) + rest, depth)
         == if |content| > 0xffff then NotFound
            else if tag == BER_TAG_OCTET_STRING && HasSignature(content) then Found(content)
            else
              var inner := if Descends(tag) then Find(content, depth + 1) else NotFound;
              if inner.NotFound? then Scan(rest, depth) else inner
  {
    hide HasSignature, Descends, Find, ReadHeader, Header;
    var s := Tlv(tag, content) + rest;
    assert s == Header(tag, |content|) + (content + rest);
    HeaderReads(tag, |content|, content + rest);
    var size := |Header(tag, |content|)|;
    assert s[size..size + |content|] == content;
    assert s[size + |content|..] == rest;
  }

  lemma ScanOne(tag: byte, content: seq<byte>, depth: nat)
    requires depth <= DEEPEST && |content| <= 0xffff && (tag == BER_TAG_OCTET_STRING ==> !HasSignature(content))
    ensures Find(Tlv(tag, content), depth) == if Descends(tag) then Find(content, depth + 1) else NotFound
  {
    hide HasSignature, Descends, ReadHeader, Tlv;
    ScanTlv(tag, content, [], depth);
    assert Tlv(tag, content) + [] == Tlv(tag, content);
    assert Scan([], depth) == NotFound;
  }

  lemma DescendTags()
    ensures Descends(0x60) && Descends(0xa0) && Descends(0xa1) && Descends(0xa2) && Descends(0x30)
    ensures !Descends(0x06) && !Descends(0x04)
  {
  }

  lemma {:induction false} FieldFound(token: seq<byte>, depth: nat)
    requires HasSignature(token) && |TokenField(token)| <= 0xffff && depth < DEEPEST
    ensures Find(TokenField(token), depth) == Found(token)
  {
    hide HasSignature, ReadHeader, Header, LenSize;
    DescendTags();
    ScanOne(0xa2, Tlv(0x04, token), depth);
    ScanTlv(0x04, token, [], depth + 1);
    assert Tlv(0x04, token) + [] == Tlv(0x04, token);
  }

  lemma MechTypesSkipped(depth: nat)
    requires depth + 2 <= DEEPEST
    ensures Find(MechTypes(), depth) == NotFound && |MechTypes()| <= 0xff
  {
    hide Find, Scan;
    DescendTags();
    ScanOne(0xa0, Tlv(0x30, Tlv(0x06, NTLMSSP_OID)), depth);
    ScanOne(0x30, Tlv(0x06, NTLMSSP_OID), depth + 1);
    ScanOne(0x06, NTLMSSP_OID, depth + 2);
  }

  /** Scanning past an element in which nothing is found. */
  lemma ScanPast(tag: byte, content: seq<byte>, rest: seq<byte>, depth: nat)
    requires depth <= DEEPEST && |content| <= 0xffff && tag != BER_TAG_OCTET_STRING
    requires Find(Tlv(tag, content), depth) == NotFound
    ensures Find(Tlv(tag, content) + rest, depth) == Find(rest, depth)
  {
    hide HasSignature, Descends, ReadHeader, Tlv, Scan;
    ScanTlv(tag, content, rest, depth);
    ScanOne(tag, content, depth);
  }

  lemma {:induction false} RespParses(token: seq<byte>)
    requires HasSignature(token)
    ensures Find(NegTokenResp(token), 0) == if |Tlv(0x30, TokenField(token))| > 0xffff then NotFound else Found(token)
  {
    hide Find, Scan, HasSignature;
    DescendTags();
    var list := Tlv(0x30, TokenField(token));
    if |list| <= 0xffff {
      ScanOne(0xa1, list, 0);
      ScanOne(0x30, TokenField(token), 1);
      FieldFound(token, 2);
    } else {
      TooLong(0xa1, list);
    }
  }

  lemma TooLong(tag: byte, content: seq<byte>)
    requires |content| > 0xffff
    ensures Find(Tlv(tag, content), 0) == NotFound
  {
    hide HasSignature, Descends, ReadHeader, Tlv;
    ScanTlv(tag, content, [], 0);
    assert Tlv(tag, content) + [] == Tlv(tag, content);
  }

  function InitContent(token: seq<byte>): (b: seq<byte>) {
    Tlv(0x06, SPNEGO_OID) + Tlv(0xa0, Tlv(0x30, MechTypes() + TokenField(token)))
  }

  lemma {:induction false} InitParses(token: seq<byte>)
    requires HasSignature(token)
    ensures Find(NegTokenInit(token), 0) == if |InitContent(token)| > 0xffff then NotFound else Found(token)
  {
    hide Find, Scan, HasSignature, MechTypes, TokenField, LenSize;
    DescendTags();
    var list := MechTypes() + TokenField(token);
    if |InitContent(token)| <= 0xffff {
      ScanOne(0x60, InitContent(token), 0);
      ScanOne(0x06, SPNEGO_OID, 1);
      ScanPast(0x06, SPNEGO_OID, Tlv(0xa0, Tlv(0x30, list)), 1);
      ScanOne(0xa0, Tlv(0x30, list), 1);
      ScanOne(0x30, list, 2);
      MechTypesSkipped(3);
      MechTypesPast(TokenField(token), 3);
      FieldFound(token, 3);
    } else {
      TooLong(0x60, InitContent(token));
    }
  }

  lemma MechTypesPast(rest: seq<byte>, depth: nat)
    requires depth + 2 <= DEEPEST
    ensures Find(MechTypes() + rest, depth) == Find(rest, depth)
  {
    hide Find, Scan;
    MechTypesSkipped(depth);
    ScanPast(0xa0, Tlv(0x30, Tlv(0x06, NTLMSSP_OID)), rest, depth);
  }

  function Joined(chunks: seq<seq<byte>>): (b: seq<byte>) {
    if |chunks| == 0 then [] else chunks[0] + Joined(chunks[1..])
  }

  /** At most five bytes, the first of which is not a byte of the signature. */
  predicate Breaks(c: seq<byte>) {
    1 <= |c| <= 5 && c[0] !in SIGNATURE
  }

  /** The signature cannot start before the end of such chunks, also not when a token follows. */
  lemma {:induction false} NoEarlySignature(chunks: seq<seq<byte>>, token: seq<byte>, i: nat)
    requires forall k :: 0 <= k < |chunks| ==> Breaks(chunks[k])
    requires HasSignature(token) && i < |Joined(chunks)|
    ensures var s := Joined(chunks) + token; i + 8 <= |s| ==> s[i..i + 8] != SIGNATURE
  {
    var c, tail := chunks[0], chunks[1..];
    var s, rest := Joined(chunks) + token, Joined(tail) + token;
    assert s == c + rest;
    if i >= |c| {
      NoEarlySignature(tail, token, i - |c|);
      assert i + 8 <= |s| ==> s[i..i + 8] == rest[i - |c|..i - |c| + 8];
    } else if i == 0 {
      assert s[0] == c[0] && SIGNATURE[0] in SIGNATURE;
      assert i + 8 <= |s| ==> s[i..i + 8][0] == s[0];
    } else if i + 8 <= |s| {
      var d := |c| - i;
      assert s[i..i + 8][d] == rest[0];
      assert rest[0] == if |tail| > 0 then tail[0][0] else token[0];
      assert token[0] == token[..8][0] == SIGNATURE[0];
      assert SIGNATURE[d] in SIGNATURE;
      assert SIGNATURE[d] != SIGNATURE[0];
    }
  }

  lemma {:induction false} RawFinds(chunks: seq<seq<byte>>, token: seq<byte>, i: nat)
    requires forall k :: 0 <= k < |chunks| ==> Breaks(chunks[k])
    requires HasSignature(token) && i <= |Joined(chunks)|
    ensures ScanRaw(Joined(chunks) + token, i) == Found(token)
    decreases |Joined(chunks)| - i
  {
    var s, n := Joined(chunks) + token, |Joined(chunks)|;
    if i < n {
      NoEarlySignature(chunks, token, i);
      RawFinds(chunks, token, i + 1);
    } else {
      assert s[n..n + 8] == token[..8] && s[n..] == token;
    }
  }

  function Singles(s: seq<byte>): (r: seq<seq<byte>>)
    ensures |r| == |s|
  {
    seq(|s|, i requires 0 <= i < |s| => [s[i]])
  }

  lemma {:induction false} JoinedSingles(s: seq<byte>)
    ensures Joined(Singles(s)) == s
  {
    if |s| > 0 {
      JoinedSingles(s[1..]);
      assert Singles(s)[1..] == Singles(s[1..]);
    }
  }

  lemma {:induction false} JoinedConcat(a: seq<seq<byte>>, b: seq<seq<byte>>)
    ensures Joined(a + b) == Joined(a) + Joined(b)
  {
    if |a| == 0 {
      assert a + b == b;
    } else {
      JoinedConcat(a[1..], b);
      assert (a + b)[1..] == a[1..] + b && (a + b)[0] == a[0];
    }
  }

  predicate AllBreak(chunks: seq<seq<byte>>) {
    forall k :: 0 <= k < |chunks| ==> Breaks(chunks[k])
  }

  lemma HeaderBreaks(tag: byte, len: nat)
    requires tag !in SIGNATURE
    ensures Breaks(Header(tag, len))
  {
  }

  lemma OidsBreak()
    ensures AllBreak(Singles(SPNEGO_OID)) && AllBreak(Singles(NTLMSSP_OID))
  {
  }

  lemma {:induction false} RespRaw(token: seq<byte>)
    requires HasSignature(token)
    ensures ScanRaw(NegTokenResp(token), 0) == Found(token)
  {
    hide Header, TlvSize, HasSignature, ScanRaw, Breaks;
    var n := |token|;
    var content := TlvSize(TlvSize(n));
    var chunks := [Header(0xa1, TlvSize(content)), Header(0x30, content), Header(0xa2, TlvSize(n)), Header(0x04, n)];
    HeaderBreaks(0xa1, TlvSize(content));
    HeaderBreaks(0x30, content);
    HeaderBreaks(0xa2, TlvSize(n));
    HeaderBreaks(0x04, n);
    JoinedFour(chunks[0], chunks[1], chunks[2], chunks[3]);
    Spnego.RespFlat(token);
    RawFinds(chunks, token, 0);
  }

  lemma JoinedFour(a: seq<byte>, b: seq<byte>, c: seq<byte>, d: seq<byte>)
    ensures Joined([a, b, c, d]) == a + b + c + d
  {
    assert [a, b, c, d] == [a, b] + [c, d];
    JoinedConcat([a, b], [c, d]);
    JoinedTwo(a, b);
    JoinedTwo(c, d);
  }

  function MechChunks(): (cs: seq<seq<byte>>) {
    var list := TlvSize(|NTLMSSP_OID|);
    [Header(0xa0, TlvSize(list)), Header(0x30, list)] + [Header(0x06, |NTLMSSP_OID|)] + Singles(NTLMSSP_OID)
  }

  lemma MechChunksJoin()
    ensures AllBreak(MechChunks()) && Joined(MechChunks()) == MechTypes()
  {
    hide Breaks, Header, TlvSize, Singles;
    var list := TlvSize(|NTLMSSP_OID|);
    var h4, h5, h6, o := Header(0xa0, TlvSize(list)), Header(0x30, list), Header(0x06, |NTLMSSP_OID|), Singles(NTLMSSP_OID);
    HeaderBreaks(0xa0, TlvSize(list));
    HeaderBreaks(0x30, list);
    HeaderBreaks(0x06, |NTLMSSP_OID|);
    OidsBreak();
    JoinedTwo(h4, h5);
    assert Joined([h6]) == h6;
    JoinedSingles(NTLMSSP_OID);
    JoinedConcat([h4, h5], [h6]);
    JoinedConcat([h4, h5] + [h6], o);
  }

  /** The chunks of NegTokenInit before the token. */
  function InitChunks(n: nat): (cs: seq<seq<byte>>) {
    var content := |MechTypes()| + TlvSize(TlvSize(n));
    [Header(0x60, TlvSize(|SPNEGO_OID|) + TlvSize(TlvSize(content))), Header(0x06, |SPNEGO_OID|)] + Singles(SPNEGO_OID)
    + [Header(0xa0, TlvSize(content)), Header(0x30, content)] + MechChunks() + [Header(0xa2, TlvSize(n)), Header(0x04, n)]
  }

  lemma InitChunksBreak(n: nat)
    ensures AllBreak(InitChunks(n))
  {
    hide Breaks, Header, TlvSize, Singles, MechTypes, MechChunks;
    var content := |MechTypes()| + TlvSize(TlvSize(n));
    HeaderBreaks(0x60, TlvSize(|SPNEGO_OID|) + TlvSize(TlvSize(content)));
    HeaderBreaks(0x06, |SPNEGO_OID|);
    HeaderBreaks(0xa0, TlvSize(content));
    HeaderBreaks(0x30, content);
    HeaderBreaks(0xa2, TlvSize(n));
    HeaderBreaks(0x04, n);
    OidsBreak();
    MechChunksJoin();
  }

  lemma InitChunksJoin(n: nat)
    ensures Joined(InitChunks(n)) == Spnego.InitPrefix(n)
  {
    hide Breaks, Header, TlvSize, Singles, MechTypes, MechChunks;
    var content := |MechTypes()| + TlvSize(TlvSize(n));
    var h0, h1 := Header(0x60, TlvSize(|SPNEGO_OID|) + TlvSize(TlvSize(content))), Header(0x06, |SPNEGO_OID|);
    var h2, h3 := Header(0xa0, TlvSize(content)), Header(0x30, content);
    var h7, h8, o, ms := Header(0xa2, TlvSize(n)), Header(0x04, n), Singles(SPNEGO_OID), MechChunks();
    MechChunksJoin();
    JoinedSingles(SPNEGO_OID);
    JoinedTwo(h0, h1);
    JoinedTwo(h2, h3);
    JoinedTwo(h7, h8);
    JoinedConcat([h0, h1], o);
    JoinedConcat([h0, h1] + o, [h2, h3]);
    JoinedConcat([h0, h1] + o + [h2, h3], ms);
    JoinedConcat([h0, h1] + o + [h2, h3] + ms, [h7, h8]);
  }

  lemma JoinedTwo(a: seq<byte>, b: seq<byte>)
    ensures Joined([a, b]) == a + b
  {
    assert [a, b][1..] == [b];
    assert Joined([b]) == b;
  }

  lemma {:induction false} InitRaw(token: seq<byte>)
    requires HasSignature(token)
    ensures ScanRaw(NegTokenInit(token), 0) == Found(token)
  {
    hide Spnego.InitPrefix, InitChunks, HasSignature, ScanRaw, NegTokenInit;
    InitChunksBreak(|token|);
    InitChunksJoin(|token|);
    Spnego.InitFlat(token);
    RawFinds(InitChunks(|token|), token, 0);
  }

  lemma {:induction false} ScanHasSignature(s: seq<byte>, depth: nat)
    ensures Scan(s, depth).Found? ==> HasSignature(Scan(s, depth).token)
    decreases |s|
  {
    hide Descends, HasSignature;
    if |s| >= 2 && ReadHeader(s).HeaderRead? && ReadHeader(s).length <= |s| - ReadHeader(s).size {
      var h := ReadHeader(s);
      ScanHasSignature(s[h.size..h.size + h.length], depth + 1);
      ScanHasSignature(s[h.size + h.length..], depth);
    }
  }

  lemma {:induction false} RawHasSignature(s: seq<byte>, i: nat)
    ensures ScanRaw(s, i).Found? ==> HasSignature(ScanRaw(s, i).token)
    decreases |s| - i
  {
    if i + 8 <= |s| {
      if s[i..i + 8] == SIGNATURE {
        assert s[i..][..8] == s[i..i + 8];
      } else {
        RawHasSignature(s, i + 1);
      }
    }
  }

  /** Whatever is extracted starts with the signature. */
  lemma {:induction false} ExtractedHasSignature(s: seq<byte>)
    ensures Extract(s).Found? ==> HasSignature(Extract(s).token)
  {
    hide Scan, ScanRaw, HasSignature;
    ScanHasSignature(s, 0);
    RawHasSignature(s, 0);
  }

  /**
   For tokens of every size: the token comes back from the NegTokenInit wrapping exactly when it starts
   with the signature, by parsing as long as the contents have at most 0xffff bytes and by the scan beyond.
   */
  lemma {:induction false} InitRoundTrip(token: seq<byte>)
    ensures Extract(NegTokenInit(token)) == Found(token) <==> HasSignature(token)
    ensures HasSignature(token) ==> (Find(NegTokenInit(token), 0) == Found(token) <==> |InitContent(token)| <= 0xffff)
  {
    hide Find, ScanRaw, NegTokenInit, HasSignature, InitContent;
    ExtractedHasSignature(NegTokenInit(token));
    if HasSignature(token) {
      InitParses(token);
      InitRaw(token);
    }
  }

  /** The same for the NegTokenResp wrapping. */
  lemma {:induction false} RespRoundTrip(token: seq<byte>)
    ensures Extract(NegTokenResp(token)) == Found(token) <==> HasSignature(token)
    ensures HasSignature(token) ==>
              (Find(NegTokenResp(token), 0) == Found(token) <==> |Tlv(0x30, TokenField(token))| <= 0xffff)
  {
    hide Find, ScanRaw, NegTokenResp, HasSignature, Tlv;
    ExtractedHasSignature(NegTokenResp(token));
    if HasSignature(token) {
      RespParses(token);
      RespRaw(token);
    }
  }
}
