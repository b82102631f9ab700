/** The SPNEGO wrappings of spnego.c (RFC 4178, sections 4.2.1 and 4.2.2) and the search for the token in them. */
module SpnegoSpec {
  import opened Bits

  const SPNEGO_OID: seq<byte> := [0x2b, 0x06, 0x01, 0x05, 0x05, 0x02]
  const NTLMSSP_OID: seq<byte> := [0x2b, 0x06, 0x01, 0x04, 0x01, 0x82, 0x37, 0x02, 0x02, 0x0a]
  /** "NTLMSSP" and a zero byte. */
  const SIGNATURE: seq<byte> := [0x4e, 0x54, 0x4c, 0x4d, 0x53, 0x53, 0x50, 0x00]
  const BER_TAG_OCTET_STRING := 4
  const DEEPEST := 16

  function LenSize(len: nat): (n: nat) {
    if len < 0x80 then 1 else if len <= 0xff then 2 else if len <= 0xffff then 3 else 4
  }

  function LenBytes(len: nat): (b: seq<byte>)
    ensures |b| == LenSize(len)
  {
    if len < 0x80 then [len]
    else if len <= 0xff then [0x81, len]
    else if len <= 0xffff then [0x82, len / 256, len % 256]
    else [0x83, len / 65536 % 256, len / 256 % 256, len % 256]
  }

  function TlvSize(len: nat): (n: nat) {
    1 + LenSize(len) + len
  }

  function Header(tag: byte, len: nat): (b: seq<byte>)
    ensures |b| + len == TlvSize(len)
  {
    [tag] + LenBytes(len)
  }

  /** Tag, length, contents. */
  function Tlv(tag: byte, content: seq<byte>): (b: seq<byte>)
    ensures |b| == TlvSize(|content|)
  {
    Header(tag, |content|) + content
  }

  function MechTypes(): (b: seq<byte>) {
    Tlv(0xa0, Tlv(0x30, Tlv(0x06, NTLMSSP_OID)))
  }

  function TokenField(token: seq<byte>): (b: seq<byte>) {
    Tlv(0xa2, Tlv(0x04, token))
  }

  function NegTokenInit(token: seq<byte>): (b: seq<byte>) {
    Tlv(0x60, Tlv(0x06, SPNEGO_OID) + Tlv(0xa0, Tlv(0x30, MechTypes() + TokenField(token))))
  }

  function NegTokenResp(token: seq<byte>): (b: seq<byte>) {
    Tlv(0xa1, Tlv(0x30, TokenField(token)))
  }

  /** Aborted: the reader ran into the end of the data, a protocol error for the program. */
  datatype Result = Found(token: seq<byte>) | NotFound | Aborted

  /** A header as read: size of the header itself, tag, length; or a length form it does not read. */
  datatype HeaderRead = HeaderRead(size: nat, tag: byte, length: nat) | BadForm | Overrun

  function ReadHeader(s: seq<byte>): (h: HeaderRead)
    requires |s| >= 2
    ensures h.HeaderRead? ==> 2 <= h.size <= |s|
  {
    if s[1] < 0x80 then HeaderRead(2, s[0], s[1])
    else if s[1] == 0x81 then
      if |s| < 3 then Overrun else HeaderRead(3, s[0], s[2])
    else if s[1] == 0x82 then
      if |s| < 4 then Overrun else HeaderRead(4, s[0], s[2] as int * 256 + s[3])
    else BadForm
  }

  predicate HasSignature(s: seq<byte>) {
    |s| >= 8 && s[..8] == SIGNATURE
  }

  /** A tag with the constructed bit (0x20) or the context-specific bit (0x80). */
  predicate Descends(tag: byte) {
    tag / 0x20 % 2 == 1 || tag / 0x80 % 2 == 1
  }

  /** The first octet string with the signature, depth first, at most 16 levels down. */
  function Find(s: seq<byte>, depth: nat): (r: Result)
    decreases |s|, 1
  {
    if depth > DEEPEST then NotFound else Scan(s, depth)
  }

  function Scan(s: seq<byte>, depth: nat): (r: Result)
    decreases |s|, 0
  {
    if |s| < 2 then NotFound
    else
      match ReadHeader(s)
      case Overrun => Aborted
      case BadForm => NotFound
      case HeaderRead(size, tag, length) =>
        if length > |s| - size then NotFound
        else
          var field, rest := s[size..size + length], s[size + length..];
          if tag == BER_TAG_OCTET_STRING && HasSignature(field) then Found(field)
          else
            var inner := if Descends(tag) then Find(field, depth + 1) else NotFound;
            if inner.NotFound? then Scan(rest, depth) else inner
  }

  /** From the first signature at or after `i` to the end. */
  function ScanRaw(s: seq<byte>, i: nat): (r: Result)
    decreases |s| - i
  {
    if i + 8 > |s| then NotFound
    else if s[i..i + 8] == SIGNATURE then Found(s[i..])
    else ScanRaw(s, i + 1)
  }

  /** Parsing first; the raw scan when that finds nothing. */
  function Extract(s: seq<byte>): (r: Result) {
    var found := Find(s, 0);
    if found.NotFound? then ScanRaw(s, 0) else found
  }
}
