/** The sealed session of ntlmssp.c: RC4 is an arbitrary key stream with a position, HMAC-MD5 an arbitrary function. */
module NtlmSession {
  import opened Bits
  import opened Options
  import opened Words

  const SIGNATURE_SIZE := 16
  const WORD := 0x1_0000_0000

  /** `bytes` under the key stream from position `pos` on. */
  function Crypt(stream: nat -> byte, pos: nat, bytes: seq<byte>): (r: seq<byte>)
    ensures |r| == |bytes|
  {
    seq(|bytes|, i requires 0 <= i < |bytes| => Xor(bytes[i], stream(pos + i)))
  }

  lemma CryptTwice(stream: nat -> byte, pos: nat, bytes: seq<byte>)
    ensures Crypt(stream, pos, Crypt(stream, pos, bytes)) == bytes
  {
    forall i | 0 <= i < |bytes|
      ensures Crypt(stream, pos, Crypt(stream, pos, bytes))[i] == bytes[i]
    {
      XorTwice(bytes[i], stream(pos + i));
    }
  }

  /** Encryption flips exactly the bits that are set in the key stream. */
  lemma {:induction false} CryptFlips(stream: nat -> byte, pos: nat, bytes: seq<byte>, i: nat, k: nat)
    requires i < |bytes| && k < 8
    ensures Bit(Crypt(stream, pos, bytes)[i], k) != Bit(bytes[i], k) <==> Bit(stream(pos + i), k)
  {
    XorBit(bytes[i], stream(pos + i), k);
  }

  /** Encrypting zeros gives the key stream. */
  lemma {:induction false} ZerosGiveStream(stream: nat -> byte, pos: nat, n: nat)
    ensures Crypt(stream, pos, seq(n, _ => 0)) == seq(n, i requires 0 <= i < n => stream(pos + i))
  {
    var x, y := Crypt(stream, pos, seq(n, _ => 0)), seq(n, i requires 0 <= i < n => stream(pos + i));
    forall i | 0 <= i < n ensures x[i] == y[i] {
      XorZero(y[i]);
    }
  }

  function Le32(v: nat): (b: seq<byte>)
    ensures |b| == 4
  {
    Le(v, 4)
  }

  lemma LimitFour()
    ensures Limit(4) == WORD
  {
    assert Limit(2) == 65536;
  }

  type Digest = s: seq<byte> | |s| == 16 witness seq(16, _ => 0)

  /** A keyed digest of a message. */
  type Mac = (seq<byte>, seq<byte>) -> Digest

  /** One direction of a session: signing key, key stream with its position, next sequence number. */
  datatype Half = Half(mac: Mac, key: seq<byte>, stream: nat -> byte, pos: nat, next: nat)

  function Checksum(h: Half, plain: seq<byte>): (c: seq<byte>)
    ensures |c| == 8
  {
    h.mac(h.key, Le32(h.next) + plain)[..8]
  }

  /** Version 1, the checksum under the key stream behind the payload, the sequence number; then the payload. */
  function Sealed(h: Half, plain: seq<byte>): (w: seq<byte>)
    ensures |w| == SIGNATURE_SIZE + |plain|
  {
    Le32(1) + Crypt(h.stream, h.pos + |plain|, Checksum(h, plain)) + Le32(h.next) + Crypt(h.stream, h.pos, plain)
  }

  /** The half after `n` payload bytes; the sequence number has 32 bits. */
  function Advanced(h: Half, n: nat): (r: Half) {
    h.(pos := h.pos + n + 8, next := (h.next + 1) % WORD)
  }

  /** A header that is looked at no further: too short, another version, or out of sequence. */
  predicate HeaderRefused(h: Half, w: seq<byte>) {
    |w| < SIGNATURE_SIZE || w[..4] != Le32(1) || FromLe(w[12..16]) != h.next
  }

  datatype Opened = Opened(half: Half, plain: Option<seq<byte>>)

  function Open(h: Half, w: seq<byte>): (o: Opened) {
    if HeaderRefused(h, w) then Opened(h, None)
    else
      var plain := Crypt(h.stream, h.pos, w[16..]);
      var moved := h.(pos := h.pos + |plain| + 8);
      if Crypt(h.stream, h.pos + |plain|, w[4..12]) != Checksum(h, plain) then Opened(moved, None)
      else Opened(Advanced(h, |plain|), Some(plain))
  }

  /** Exactly the message that sealing a text makes opens, and it opens to that text. */
  lemma {:induction false} OpensExactlyWhatWasSealed(h: Half, w: seq<byte>, plain: seq<byte>)
    requires h.next < WORD
    ensures Open(h, w).plain == Some(plain) <==> w == Sealed(h, plain)
    ensures w == Sealed(h, plain) ==> Open(h, w).half == Advanced(h, |plain|)
  {
    hide Checksum, Crypt, Le;
    LimitFour();
    LeInverse(h.next, 4);
    if w == Sealed(h, plain) {
      assert w[..4] == Le32(1) && w[12..16] == Le32(h.next);
      assert w[4..12] == Crypt(h.stream, h.pos + |plain|, Checksum(h, plain));
      assert w[16..] == Crypt(h.stream, h.pos, plain);
      CryptTwice(h.stream, h.pos, plain);
      CryptTwice(h.stream, h.pos + |plain|, Checksum(h, plain));
    }
    if Open(h, w).plain == Some(plain) {
      CryptTwice(h.stream, h.pos, w[16..]);
      CryptTwice(h.stream, h.pos + |plain|, w[4..12]);
      FromLeInverse(w[12..16]);
      assert w == w[..4] + w[4..12] + w[12..16] + w[16..];
    }
  }

  lemma VersionOne(w: seq<byte>)
    requires |w| >= 4
    ensures w[0] == 1 && w[1] == 0 && w[2] == 0 && w[3] == 0 <==> w[..4] == Le32(1)
  {
    assert Le(0, 3) == [0, 0, 0];
    assert Le32(1) == [1, 0, 0, 0];
    assert w[..4] == [w[0], w[1], w[2], w[3]];
  }

  /**
   A refused message leaves the receiver as it was exactly when it was too short, of another version,
   or out of sequence: one with the right header and a wrong checksum has already used up key stream.
   */
  lemma RefusalKeepsStateExactlyWhen(h: Half, w: seq<byte>)
    requires Open(h, w).plain == None
    ensures Open(h, w).half == h
       <==> |w| < 16 || w[0] != 1 || w[1] != 0 || w[2] != 0 || w[3] != 0
            || w[12] as int + 0x100 * w[13] as int + 0x1_0000 * w[14] as int + 0x100_0000 * w[15] as int != h.next
    ensures Open(h, w).half == h || Open(h, w).half == h.(pos := h.pos + |w| - 8)
  {
    hide Crypt, Checksum;
    if |w| >= 16 {
      VersionOne(w);
      LittleEndian(w[12..16]);
    }
  }

  lemma LittleEndian(b: seq<byte>)
    requires |b| == 4
    ensures FromLe(b) == b[0] as int + 0x100 * b[1] as int + 0x1_0000 * b[2] as int + 0x100_0000 * b[3] as int
  {
    assert b[1..][1..] == b[2..] && b[2..][1..] == b[3..] && b[3..][1..] == [];
    assert FromLe([]) == 0;
    assert FromLe(b[3..]) == b[3];
    assert FromLe(b[2..]) == b[2] as int + 0x100 * FromLe(b[3..]);
    assert FromLe(b[1..]) == b[1] as int + 0x100 * FromLe(b[2..]);
  }

  lemma LittleEndianBytes(v: nat)
    requires v < WORD
    ensures Le32(v) == Bytes32(v)
  {
    assert Le(v / 0x100_0000, 1) == [v / 0x100_0000];
    assert Le(v / 0x1_0000, 2) == [v / 0x1_0000 % 0x100] + Le(v / 0x100_0000, 1);
    assert Le(v / 0x100, 3) == [v / 0x100 % 0x100] + Le(v / 0x1_0000, 2);
  }

  /** The four bytes of a 32-bit number, lowest first. */
  function Bytes32(v: nat): (b: seq<byte>)
    requires v < WORD
  {
    [v % 0x100, v / 0x100 % 0x100, v / 0x1_0000 % 0x100, v / 0x100_0000]
  }

  /** `w` is `text` with exactly the bits flipped that are set in the key stream from `pos` on. */
  ghost predicate Under(w: seq<byte>, text: seq<byte>, stream: nat -> byte, pos: nat) {
    && |w| == |text|
    && forall i, k: nat :: 0 <= i < |w| && k < 8 ==> (Bit(w[i], k) <==> Bit(text[i], k) != Bit(stream(pos + i), k))
  }

  lemma CryptUnder(stream: nat -> byte, pos: nat, text: seq<byte>)
    ensures Under(Crypt(stream, pos, text), text, stream, pos)
  {
    hide Bit, Xor, Crypt;
    var w := Crypt(stream, pos, text);
    forall i, k: nat | 0 <= i < |w| && k < 8 ensures Bit(w[i], k) <==> Bit(text[i], k) != Bit(stream(pos + i), k) {
      CryptFlips(stream, pos, text, i, k);
    }
  }

  /**
   The bytes of a sealed message: version 1 and the sequence number in clear, the payload under the key
   stream, and under the stream behind the payload's the first half of the digest of number and text.
   */
  lemma {:induction false} SealedUnder(h: Half, plain: seq<byte>)
    requires h.next < WORD
    ensures var w, number := Sealed(h, plain), Bytes32(h.next);
            && |w| == 16 + |plain| && w[0..4] == [1, 0, 0, 0] && w[12..16] == number
            && Under(w[16..], plain, h.stream, h.pos)
            && Under(w[4..12], h.mac(h.key, number + plain)[..8], h.stream, h.pos + |plain|)
  {
    SealedParts(h, plain);
    LittleEndianBytes(h.next);
    hide Le, Crypt, Sealed, Under;
    CryptUnder(h.stream, h.pos, plain);
    CryptUnder(h.stream, h.pos + |plain|, Checksum(h, plain));
  }

  lemma SealedParts(h: Half, plain: seq<byte>)
    ensures var w := Sealed(h, plain);
            && w[0..4] == [1, 0, 0, 0] && w[12..16] == Le32(h.next) && w[16..] == Crypt(h.stream, h.pos, plain)
            && w[4..12] == Crypt(h.stream, h.pos + |plain|, Checksum(h, plain))
  {
    LittleEndianBytes(1);
    hide Le, Crypt, Checksum;
  }

  class Rc4 {
    const stream: nat -> byte
    var pos: nat

    constructor (stream: nat -> byte)
      ensures this.stream == stream && pos == 0
    {
      this.stream := stream;
      pos := 0;
    }

    method Apply(bytes: seq<byte>) returns (r: seq<byte>)
      modifies this
      ensures r == Crypt(stream, old(pos), bytes) && pos == old(pos) + |bytes|
    {
      r := Crypt(stream, pos, bytes);
      pos := pos + |bytes|;
    }
  }

  /** NTLMSSP_CONTEXT once the keys are derived. */
  class Context {
    const mac: Mac
    const clientSigningKey: seq<byte>
    const serverSigningKey: seq<byte>
    const clientSeal: Rc4
    const serverSeal: Rc4
    var established: bool
    var sendSeq: nat
    var recvSeq: nat

    ghost predicate Valid()
      reads this
    {
      clientSeal != serverSeal && sendSeq < WORD && recvSeq < WORD
    }

    ghost function Sending(): (h: Half)
      reads this, clientSeal
    {
      Half(mac, clientSigningKey, clientSeal.stream, clientSeal.pos, sendSeq)
    }

    ghost function Receiving(): (h: Half)
      reads this, serverSeal
    {
      Half(mac, serverSigningKey, serverSeal.stream, serverSeal.pos, recvSeq)
    }

    constructor (mac: Mac, clientKey: seq<byte>, serverKey: seq<byte>, clientStream: nat -> byte, serverStream: nat -> byte)
      ensures Valid() && established
      ensures Sending() == Half(mac, clientKey, clientStream, 0, 0)
      ensures Receiving() == Half(mac, serverKey, serverStream, 0, 0)
    {
      this.mac := mac;
      clientSigningKey, serverSigningKey := clientKey, serverKey;
      clientSeal := new Rc4(clientStream);
      serverSeal := new Rc4(serverStream);
      established, sendSeq, recvSeq := true, 0, 0;
    }

    /** ntlmssp_wrap: the payload takes its key stream before the checksum does. */
    method Wrap(plain: seq<byte>) returns (out: Option<seq<byte>>)
      requires Valid()
      modifies this`sendSeq, clientSeal
      ensures Valid() && Receiving() == old(Receiving())
      ensures if established then out == Some(Sealed(old(Sending()), plain)) && Sending() == Advanced(old(Sending()), |plain|)
              else out == None && Sending() == old(Sending())
      ensures established ==>
                && Under(out.value[16..], plain, clientSeal.stream, old(clientSeal.pos))
                && Under(out.value[4..12], mac(clientSigningKey, Bytes32(old(sendSeq)) + plain)[..8],
                         clientSeal.stream, old(clientSeal.pos) + |plain|)
    {
      if !established {
        return None;
      }
      SealedUnder(Sending(), plain);
      hide Under, Bytes32, Xor, Crypt, Le;
      var payload := clientSeal.Apply(plain);
      var checksum := mac(clientSigningKey, Le32(sendSeq) + plain);
      var sealed := clientSeal.Apply(checksum[..8]);
      var signature := Le32(1) + sealed + Le32(sendSeq);
      out := Some(signature + payload);
      sendSeq := (sendSeq + 1) % WORD;
    }

    /** ntlmssp_unwrap. */
    method Unwrap(wrapped: seq<byte>) returns (out: Option<seq<byte>>)
      requires Valid()
      modifies this`recvSeq, serverSeal
      ensures Valid() && Sending() == old(Sending())
      ensures if established then Opened(Receiving(), out) == Open(old(Receiving()), wrapped)
              else out == None && Receiving() == old(Receiving())
    {
      hide Crypt, Le, FromLe;
      if !established || |wrapped| < SIGNATURE_SIZE {
        return None;
      }
      VersionOne(wrapped);
      if wrapped[0] != 1 || wrapped[1] != 0 || wrapped[2] != 0 || wrapped[3] != 0 {
        return None;
      }
      var sequence := FromLe(wrapped[12..16]);
      if sequence != recvSeq {
        return None;
      }
      var plain := serverSeal.Apply(wrapped[16..]);
      var decrypted := serverSeal.Apply(wrapped[4..12]);
      var expected := mac(serverSigningKey, Le32(recvSeq) + plain);
      if decrypted != expected[..8] {
        return None;
      }
      recvSeq := (recvSeq + 1) % WORD;
      out := Some(plain);
    }
  }
}
