/** The printers and the extractor of spnego.c and the header reader of asn.c. */
module Spnego {
  import opened Bits
  import opened SpnegoSpec

  /** An output stream of fixed size; writing past the end stops the program, so it must never happen. */
  class Stream {
    const size: nat
    var bytes: seq<byte>

    constructor (size: nat)
      ensures this.size == size && bytes == []
    {
      this.size := size;
      bytes := [];
    }

    method Out(b: seq<byte>)
      requires |bytes| + |b| <= size
      modifies this
      ensures bytes == old(bytes) + b
    {
      bytes := bytes + b;
    }

    /** spnego_out_tlv_header with spnego_out_len. */
    method OutTlvHeader(tag: byte, len: nat)
      requires |bytes| + |Header(tag, len)| <= size
      modifies this
      ensures bytes == old(bytes) + Header(tag, len)
    {
      Out([tag]);
      if len < 0x80 {
        Out([len]);
      } else if len <= 0xff {
        Out([0x81]);
        Out([len]);
      } else if len <= 0xffff {
        Out([0x82]);
        Out([len / 256, len % 256]);
      } else {
        Out([0x83]);
        Out([len / 65536 % 256]);
        Out([len / 256 % 256, len % 256]);
      }
    }

    /** The list of mechanisms, which names NTLMSSP only. */
    method OutMechTypes(mechTypeListTlv: nat, ntlmOidTlv: nat)
      requires ntlmOidTlv == TlvSize(|NTLMSSP_OID|) && mechTypeListTlv == TlvSize(ntlmOidTlv)
      requires |bytes| + TlvSize(mechTypeListTlv) <= size
      modifies this
      ensures bytes == old(bytes) + MechTypes()
    {
      hide TlvSize, Header, LenSize, LenBytes;
      OutTlvHeader(0xa0, mechTypeListTlv);
      OutTlvHeader(0x30, ntlmOidTlv);
      OutTlvHeader(0x06, |NTLMSSP_OID|);
      Out(NTLMSSP_OID);
    }

    /** The field that holds the token. */
    method OutMechToken(mechTokenOctetTlv: nat, token: seq<byte>)
      requires mechTokenOctetTlv == TlvSize(|token|) && |bytes| + TlvSize(mechTokenOctetTlv) <= size
      modifies this
      ensures bytes == old(bytes) + Header(0xa2, mechTokenOctetTlv) + Header(0x04, |token|) + token
    {
      hide TlvSize, Header, LenSize, LenBytes;
      OutTlvHeader(0xa2, mechTokenOctetTlv);
      OutTlvHeader(0x04, |token|);
      Out(token);
    }
  }

  /** spnego_wrap_neg_token_init: the sizes computed beforehand are the bytes written. */
  method WrapNegTokenInit(token: seq<byte>) returns (out: Stream)
    ensures fresh(out) && out.bytes == NegTokenInit(token) && |out.bytes| == out.size
  {
    MechTypesSize();
    hide TlvSize, Header, LenSize, LenBytes, NegTokenInit, MechTypes;
    var spnegoOidTlv := TlvSize(|SPNEGO_OID|);
    var ntlmOidTlv := TlvSize(|NTLMSSP_OID|);
    var mechTypeListTlv := TlvSize(ntlmOidTlv);
    var mechTypesFieldTlv := TlvSize(mechTypeListTlv);
    var mechTokenOctetTlv := TlvSize(|token|);
    var mechTokenFieldTlv := TlvSize(mechTokenOctetTlv);
    var negInitContent := mechTypesFieldTlv + mechTokenFieldTlv;
    var negInitSeqTlv := TlvSize(negInitContent);
    var negInitChoiceTlv := TlvSize(negInitSeqTlv);
    var initialContent := spnegoOidTlv + negInitChoiceTlv;

    out := new Stream(TlvSize(initialContent));
    out.OutTlvHeader(0x60, initialContent);
    assert out.bytes == Header(0x60, initialContent);
    out.OutTlvHeader(0x06, |SPNEGO_OID|);
    out.Out(SPNEGO_OID);
    assert |out.bytes| + negInitChoiceTlv == out.size;
    out.OutTlvHeader(0xa0, negInitSeqTlv);
    out.OutTlvHeader(0x30, negInitContent);
    assert |out.bytes| + negInitContent == out.size;
    out.OutMechTypes(mechTypeListTlv, ntlmOidTlv);
    out.OutMechToken(mechTokenOctetTlv, token);
    assert out.bytes == InitPrefix(|token|) + token;
    InitFlat(token);
  }

  /** spnego_wrap_neg_token_resp. */
  method WrapNegTokenResp(token: seq<byte>) returns (out: Stream)
    ensures fresh(out) && out.bytes == NegTokenResp(token) && |out.bytes| == out.size
  {
    hide TlvSize, Header, LenSize, LenBytes, NegTokenResp;
    var tokenOctetTlv := TlvSize(|token|);
    var responseFieldTlv := TlvSize(tokenOctetTlv);
    var responseSeqTlv := TlvSize(responseFieldTlv);

    out := new Stream(TlvSize(responseSeqTlv));
    out.OutTlvHeader(0xa1, responseSeqTlv);
    out.OutTlvHeader(0x30, responseFieldTlv);
    out.OutTlvHeader(0xa2, tokenOctetTlv);
    out.OutTlvHeader(0x04, |token|);
    out.Out(token);
    RespFlat(token);
  }

  /** NegTokenInit up to the token, in the order written. */
  function InitPrefix(n: nat): (b: seq<byte>) {
    var content := |MechTypes()| + TlvSize(TlvSize(n));
    Header(0x60, TlvSize(|SPNEGO_OID|) + TlvSize(TlvSize(content))) + Header(0x06, |SPNEGO_OID|) + SPNEGO_OID
    + Header(0xa0, TlvSize(content)) + Header(0x30, content) + MechTypes() + Header(0xa2, TlvSize(n)) + Header(0x04, n)
  }

  function RespPrefix(n: nat): (b: seq<byte>) {
    var content := TlvSize(TlvSize(n));
    Header(0xa1, TlvSize(content)) + Header(0x30, content) + Header(0xa2, TlvSize(n)) + Header(0x04, n)
  }

  lemma MechTypesSize()
    ensures |MechTypes()| == TlvSize(TlvSize(TlvSize(|NTLMSSP_OID|)))
  {
    hide TlvSize, Header;
  }

  lemma InitFlat(token: seq<byte>)
    ensures NegTokenInit(token) == InitPrefix(|token|) + token
  {
    hide Header, TlvSize;
  }

  lemma RespFlat(token: seq<byte>)
    ensures NegTokenResp(token) == RespPrefix(|token|) + token
  {
    hide Header, TlvSize;
  }

  /** ber_in_header on `data[p..]`, at least two bytes long; `size` is what it consumed. */
  method BerInHeader(data: seq<byte>, p: nat) returns (h: HeaderRead)
    requires p + 2 <= |data|
    ensures h == ReadHeader(data[p..])
  {
    var tag, len := data[p], data[p + 1];
    if len < 0x80 {
      return HeaderRead(2, tag, len);
    } else if len == 0x81 {
      if p + 3 > |data| {
        return Overrun;
      }
      return HeaderRead(3, tag, data[p + 2]);
    } else if len == 0x82 {
      if p + 4 > |data| {
        return Overrun;
      }
      return HeaderRead(4, tag, data[p + 2] as int * 256 + data[p + 3]);
    }
    return BadForm;
  }

  lemma SlicesOf(s: seq<byte>, p: nat, a: nat, b: nat)
    requires a <= b && p + b <= |s|
    ensures s[p..][a..b] == s[p + a..p + b] && s[p..][b..] == s[p + b..]
  {
  }

  /** A field that is whole is taken, searched, or passed over. */
  lemma ScanField(s: seq<byte>, p: nat, depth: nat, size: nat, tag: byte, length: nat)
    requires p + 2 <= |s| && ReadHeader(s[p..]) == HeaderRead(size, tag, length) && p + size + length <= |s|
    ensures var field := s[p + size..p + size + length];
            Scan(s[p..], depth)
            == if tag == BER_TAG_OCTET_STRING && HasSignature(field) then Found(field)
               else if Descends(tag) && !Find(field, depth + 1).NotFound? then Find(field, depth + 1)
               else Scan(s[p + size + length..], depth)
  {
    hide HasSignature, Descends, ReadHeader, Find;
    SlicesOf(s, p, size, size + length);
  }

  lemma ScanStops(s: seq<byte>, depth: nat)
    ensures |s| < 2 ==> Scan(s, depth) == NotFound
    ensures |s| >= 2 && ReadHeader(s).Overrun? ==> Scan(s, depth) == Aborted
    ensures |s| >= 2 && ReadHeader(s).BadForm? ==> Scan(s, depth) == NotFound
    ensures |s| >= 2 && ReadHeader(s).HeaderRead? && ReadHeader(s).length > |s| - ReadHeader(s).size ==> Scan(s, depth) == NotFound
  {
    hide ReadHeader;
  }

  /** spnego_find_ntlm_token on a field. */
  method FindNtlmToken(s: seq<byte>, depth: nat) returns (r: Result)
    ensures r == Find(s, depth)
    decreases |s|
  {
    if depth > DEEPEST {
      return NotFound;
    }
    hide HasSignature, Descends, ReadHeader, Scan;
    var p := 0;
    assert s[0..] == s;
    while p + 2 <= |s|
      invariant p <= |s|
      invariant Find(s, depth) == Scan(s[p..], depth)
    {
      var h := BerInHeader(s, p);
      ScanStops(s[p..], depth);
      match h {
        case Overrun => return Aborted;
        case BadForm => return NotFound;
        case HeaderRead(size, tag, length) =>
          if length > |s| - (p + size) {
            return NotFound;
          }
          var field := s[p + size..p + size + length];
          ScanField(s, p, depth, size, tag, length);
          p := p + size + length;
          if tag == BER_TAG_OCTET_STRING && HasSignature(field) {
            return Found(field);
          }
          if Descends(tag) {
            var inner := FindNtlmToken(field, depth + 1);
            if !inner.NotFound? {
              return inner;
            }
          }
      }
    }
    ScanStops(s[p..], depth);
    return NotFound;
  }

  /** spnego_extract_ntlm_token. */
  method ExtractNtlmToken(token: seq<byte>) returns (r: Result)
    ensures r == Extract(token)
  {
    r := FindNtlmToken(token, 0);
    if !r.NotFound? {
      return;
    }
    var i := 0;
    while i + 8 <= |token|
      invariant ScanRaw(token, 0) == ScanRaw(token, i)
    {
      if token[i..i + 8] == SIGNATURE {
        return Found(token[i..]);
      }
      i := i + 1;
    }
    return NotFound;
  }
}
