/** The rewriting of NTLM target information ([MS-NLMP] section 2.2.2.1) in ntlmssp.c, as lists of pairs. */
module AvPairs {
  import opened Bits
  import opened Words

  const AV_EOL := 0
  const AV_FLAGS := 6
  const AV_TARGET_NAME := 9
  const MIC_PRESENT := 2

  datatype Pair = Pair(id: nat, value: seq<byte>)

  function U16(b: seq<byte>, i: nat): (v: nat)
    requires i + 2 <= |b|
    ensures v < 65536
  {
    b[i] as int + 256 * b[i + 1] as int
  }

  function Out16(v: nat): (b: seq<byte>)
    ensures b == [v % 256, v / 256 % 256]
  {
    assert Le(v / 256, 1) == [v / 256 % 256];
    Le(v, 2)
  }

  /** The next pair starts at `pos`: a whole header, not the end marker, and a value that fits. */
  predicate PairAt(info: seq<byte>, pos: nat) {
    && pos + 4 <= |info|
    && U16(info, pos) != AV_EOL
    && U16(info, pos + 2) <= |info| - (pos + 4)
  }

  /** The pairs up to the end marker, the end of the data or the first value that does not fit. */
  function Parse(info: seq<byte>, pos: nat): (ps: seq<Pair>)
    decreases |info| - pos
  {
    if !PairAt(info, pos) then []
    else
      var n := U16(info, pos + 2);
      [Pair(U16(info, pos), info[pos + 4..pos + 4 + n])] + Parse(info, pos + 4 + n)
  }

  function PairBytes(p: Pair): (b: seq<byte>)
    ensures |b| == 4 + |p.value|
  {
    Out16(p.id) + Out16(|p.value|) + p.value
  }

  function Print(ps: seq<Pair>): (b: seq<byte>) {
    if |ps| == 0 then [] else PairBytes(ps[0]) + Print(ps[1..])
  }

  const EOL_BYTES: seq<byte> := [0, 0, 0, 0]

  /** Bit 1 of a number. */
  function WithMic(v: nat): (r: nat) {
    if v / MIC_PRESENT % 2 == 1 then v else v + MIC_PRESENT
  }

  predicate IsFlags(p: Pair) {
    p.id == AV_FLAGS && |p.value| == 4
  }

  function Marked(p: Pair): (r: Pair) {
    if IsFlags(p) then Pair(AV_FLAGS, Le(WithMic(FromLe(p.value)), 4)) else p
  }

  /** All pairs but target names, with the flags marked. */
  function Kept(ps: seq<Pair>): (r: seq<Pair>) {
    if |ps| == 0 then []
    else if ps[0].id == AV_TARGET_NAME then Kept(ps[1..])
    else [Marked(ps[0])] + Kept(ps[1..])
  }

  predicate HasFlags(ps: seq<Pair>) {
    exists i :: 0 <= i < |ps| && IsFlags(ps[i])
  }

  const MIC_ONLY := Pair(AV_FLAGS, [2, 0, 0, 0])

  function Added(flags: bool, name: seq<byte>): (ps: seq<Pair>) {
    (if flags then [] else [MIC_ONLY]) + (if |name| > 0 then [Pair(AV_TARGET_NAME, name)] else [])
  }

  /** Drop the target names, mark the flags (adding them if there are none), add the new target name. */
  function Rewrite(ps: seq<Pair>, name: seq<byte>): (r: seq<Pair>) {
    Kept(ps) + Added(HasFlags(ps), name)
  }

  /** What is sent. */
  function Rewritten(info: seq<byte>, name: seq<byte>): (b: seq<byte>) {
    Print(Rewrite(Parse(info, 0), name)) + EOL_BYTES
  }

  predicate Printable(p: Pair) {
    0 < p.id < 65536 && |p.value| < 65536
  }

  lemma {:induction false} PrintConcat(a: seq<Pair>, b: seq<Pair>)
    ensures Print(a + b) == Print(a) + Print(b)
  {
    hide PairBytes;
    if |a| == 0 {
      assert a + b == b;
    } else {
      PrintConcat(a[1..], b);
      assert (a + b)[1..] == a[1..] + b && (a + b)[0] == a[0];
      assert PairBytes(a[0]) + (Print(a[1..]) + Print(b)) == PairBytes(a[0]) + Print(a[1..]) + Print(b);
    }
  }

  lemma U16Shift(before: seq<byte>, info: seq<byte>, i: nat)
    requires i + 2 <= |info|
    ensures U16(before + info, |before| + i) == U16(info, i)
  {
  }

  lemma {:induction false} ParseFrom(before: seq<byte>, info: seq<byte>, pos: nat)
    ensures Parse(before + info, |before| + pos) == Parse(info, pos)
    decreases |info| - pos
  {
    hide U16;
    var all := before + info;
    if pos + 4 <= |info| {
      U16Shift(before, info, pos);
      U16Shift(before, info, pos + 2);
      if PairAt(info, pos) {
        var n := U16(info, pos + 2);
        assert all[|before| + pos + 4..|before| + pos + 4 + n] == info[pos + 4..pos + 4 + n];
        ParseFrom(before, info, pos + 4 + n);
      }
    }
  }

  lemma U16Out16(v: nat, tail: seq<byte>)
    requires v < 65536
    ensures U16(Out16(v) + tail, 0) == v
  {
  }

  lemma PairReads(p: Pair, tail: seq<byte>)
    requires Printable(p)
    ensures var info := PairBytes(p) + tail;
            U16(info, 0) == p.id && U16(info, 2) == |p.value| && info[4..4 + |p.value|] == p.value
  {
    hide U16, Out16;
    var info := PairBytes(p) + tail;
    assert info == Out16(p.id) + (Out16(|p.value|) + (p.value + tail));
    U16Out16(p.id, Out16(|p.value|) + (p.value + tail));
    U16Shift(Out16(p.id), Out16(|p.value|) + (p.value + tail), 0);
    U16Out16(|p.value|, p.value + tail);
  }

  lemma {:induction false} ParseFirst(p: Pair, tail: seq<byte>)
    requires Printable(p)
    ensures Parse(PairBytes(p) + tail, 0) == [p] + Parse(tail, 0)
  {
    PairReads(p, tail);
    hide PairBytes, U16;
    ParseFrom(PairBytes(p), tail, 0);
  }

  /** Printed pairs parse back, whatever follows the end marker. */
  lemma {:induction false} ParsePrint(ps: seq<Pair>, rest: seq<byte>)
    requires forall i :: 0 <= i < |ps| ==> Printable(ps[i])
    ensures Parse(Print(ps) + EOL_BYTES + rest, 0) == ps
  {
    if |ps| == 0 {
      assert U16(Print(ps) + EOL_BYTES + rest, 0) == 0;
    } else {
      hide PairBytes, PairAt, Parse, Printable;
      assert Print(ps) + EOL_BYTES + rest == PairBytes(ps[0]) + (Print(ps[1..]) + EOL_BYTES + rest);
      ParseFirst(ps[0], Print(ps[1..]) + EOL_BYTES + rest);
      ParsePrint(ps[1..], rest);
    }
  }

  lemma {:induction false} KeptConcat(a: seq<Pair>, b: seq<Pair>)
    ensures Kept(a + b) == Kept(a) + Kept(b)
  {
    hide Marked;
    if |a| == 0 {
      assert a + b == b;
    } else {
      KeptConcat(a[1..], b);
      assert (a + b)[1..] == a[1..] + b && (a + b)[0] == a[0];
    }
  }

  /** What walking past one more pair adds to the output. */
  lemma {:induction false} KeptNext(done: seq<Pair>, p: Pair)
    ensures Print(Kept(done + [p]))
         == Print(Kept(done)) + if p.id == AV_TARGET_NAME then [] else PairBytes(Marked(p))
    ensures HasFlags(done + [p]) <==> HasFlags(done) || IsFlags(p)
  {
    hide PairBytes, Marked, IsFlags;
    KeptConcat(done, [p]);
    PrintConcat(Kept(done), Kept([p]));
    assert Kept([p]) == if p.id == AV_TARGET_NAME then [] else [Marked(p)];
    assert Print([Marked(p)]) == PairBytes(Marked(p));
    assert (done + [p])[|done|] == p;
    if HasFlags(done) {
      var i :| 0 <= i < |done| && IsFlags(done[i]);
      assert IsFlags((done + [p])[i]);
    }
    if HasFlags(done + [p]) {
      var i :| 0 <= i < |done + [p]| && IsFlags((done + [p])[i]);
      assert i < |done| ==> IsFlags(done[i]);
    }
  }

  lemma KeptLength(done: seq<Pair>, p: Pair)
    ensures |Print(Kept(done + [p]))| == |Print(Kept(done))| + if p.id == AV_TARGET_NAME then 0 else 4 + |p.value|
    ensures HasFlags(done + [p]) <==> HasFlags(done) || IsFlags(p)
  {
    hide Print, Kept, HasFlags;
    KeptNext(done, p);
    MarkedBytes(p);
  }

  lemma NothingKept()
    ensures Print(Kept([])) == [] && !HasFlags([]) && Short(0) == 0
  {
  }

  /** The pairs before `pos` are `done`. */
  predicate Walked(info: seq<byte>, pos: nat, done: seq<Pair>) {
    Parse(info, 0) == done + Parse(info, pos)
  }

  lemma WalkStarts(info: seq<byte>)
    ensures Walked(info, 0, [])
  {
  }

  lemma ParseEnd(info: seq<byte>, pos: nat, done: seq<Pair>)
    requires !PairAt(info, pos) && Walked(info, pos, done)
    ensures done == Parse(info, 0)
  {
  }

  lemma ParseNext(info: seq<byte>, pos: nat, done: seq<Pair>) returns (p: Pair)
    requires PairAt(info, pos) && Walked(info, pos, done)
    ensures p == Pair(U16(info, pos), info[pos + 4..pos + 4 + U16(info, pos + 2)])
    ensures Walked(info, pos + 4 + |p.value|, done + [p])
  {
    p := Pair(U16(info, pos), info[pos + 4..pos + 4 + U16(info, pos + 2)]);
    var rest := Parse(info, pos + 4 + |p.value|);
    assert done + ([p] + rest) == done + [p] + rest;
  }

  function Short(v: nat): (w: nat)
    ensures w < 65536
  {
    v % 65536
  }

  lemma ShortAdds(a: nat, b: nat)
    ensures Short(Short(a) + b) == Short(a + b)
  {
  }

  /** What the length pass counts, in 16 bits. */
  function Counted(ps: seq<Pair>, nameLen: nat): (n: nat) {
    Short(|Print(Kept(ps))| + (if HasFlags(ps) then 0 else 8) + (if nameLen > 0 then 4 + nameLen else 0) + 4)
  }

  /** The part behind the loop: flags if there were none, target name, end marker. */
  method CountAdded(soFar: nat, sawFlags: bool, targetNameLen: nat, ghost ps: seq<Pair>) returns (outLen: nat)
    requires soFar == Short(|Print(Kept(ps))|) && sawFlags == HasFlags(ps)
    ensures outLen == Counted(ps, targetNameLen)
  {
    hide Print, Kept, HasFlags, Short;
    ghost var n := |Print(Kept(ps))|;
    outLen := soFar;
    if !sawFlags {
      ShortAdds(n, 8);
      outLen := Short(outLen + 8);
      n := n + 8;
    }
    if targetNameLen > 0 {
      ShortAdds(n, 4 + targetNameLen);
      outLen := Short(outLen + (4 + targetNameLen));
      n := n + (4 + targetNameLen);
    }
    ShortAdds(n, 4);
    outLen := Short(outLen + 4);
  }

  /** One pair of the length pass. */
  method CountPair(soFar: nat, saw: bool, avId: nat, avLen: nat, ghost done: seq<Pair>, ghost p: Pair)
    returns (outLen: nat, sawFlags: bool)
    requires soFar == Short(|Print(Kept(done))|) && saw == HasFlags(done) && p.id == avId && |p.value| == avLen
    ensures outLen == Short(|Print(Kept(done + [p]))|) && sawFlags == HasFlags(done + [p])
  {
    KeptLength(done, p);
    hide Short, Print, Kept, HasFlags;
    outLen, sawFlags := soFar, saw;
    if avId != AV_TARGET_NAME {
      ShortAdds(|Print(Kept(done))|, 4 + avLen);
      outLen := Short(outLen + (4 + avLen));
      if avId == AV_FLAGS && avLen == 4 {
        sawFlags := true;
      }
    }
  }

  /** ntlmssp_target_info_len_with_auth_av_pairs; the sum is kept in 16 bits. */
  method LengthPass(info: seq<byte>, targetNameLen: nat) returns (outLen: nat)
    requires |info| < 65536 && targetNameLen < 65536
    ensures outLen == Counted(Parse(info, 0), targetNameLen)
  {
    outLen := 0;
    var sawFlags, pos := false, 0;
    ghost var done: seq<Pair> := [];
    NothingKept();
    WalkStarts(info);
    hide Walked, Print, Kept, HasFlags, IsFlags, Parse, PairBytes, Le, FromLe, WithMic, Rewrite, Short, U16, Marked, Out16, Counted;
    while pos + 4 <= |info|
      invariant pos <= |info|
      invariant Walked(info, pos, done)
      invariant outLen == Short(|Print(Kept(done))|) && sawFlags == HasFlags(done)
      decreases |info| - pos
    {
      var avId, avLen := U16(info, pos), U16(info, pos + 2);
      if avId == AV_EOL {
        break;
      }
      if avLen > |info| - (pos + 4) {
        break;
      }
      ghost var p := ParseNext(info, pos, done);
      outLen, sawFlags := CountPair(outLen, sawFlags, avId, avLen, done, p);
      pos := pos + 4 + avLen;
      done := done + [p];
    }
    ParseEnd(info, pos, done);
    outLen := CountAdded(outLen, sawFlags, targetNameLen, done);
  }

  /** The part behind the loop. */
  method OutAdded(sawFlags: bool, targetName: seq<byte>, ghost ps: seq<Pair>) returns (out: seq<byte>)
    requires sawFlags == HasFlags(ps)
    ensures Print(Kept(ps)) + out == Print(Rewrite(ps, targetName)) + EOL_BYTES
  {
    hide Print, Kept, HasFlags, Le, Rewrite;
    OutEnd(ps, sawFlags, targetName);
    out := [];
    if !sawFlags {
      out := Out16(AV_FLAGS) + Out16(4) + Le(MIC_PRESENT, 4);
    }
    if |targetName| > 0 {
      out := out + (Out16(AV_TARGET_NAME) + Out16(|targetName|) + targetName);
    }
    out := out + (Out16(AV_EOL) + Out16(0));
  }

  /** One pair that is kept. */
  method OutPair(avId: nat, value: seq<byte>) returns (printed: seq<byte>, isFlags: bool)
    ensures printed == PairBytes(Marked(Pair(avId, value))) && isFlags == IsFlags(Pair(avId, value))
  {
    MarkedBytes(Pair(avId, value));
    hide Out16, Le, FromLe, WithMic, Marked, PairBytes;
    printed, isFlags := Out16(avId) + Out16(|value|), avId == AV_FLAGS && |value| == 4;
    if isFlags {
      printed := printed + Le(WithMic(FromLe(value)), 4);
    } else {
      printed := printed + value;
    }
  }

  /** What walking past one more pair adds behind `start`. */
  lemma OutNext(start: seq<byte>, done: seq<Pair>, p: Pair)
    ensures start + Print(Kept(done + [p]))
         == start + Print(Kept(done)) + if p.id == AV_TARGET_NAME then [] else PairBytes(Marked(p))
    ensures HasFlags(done + [p]) <==> HasFlags(done) || IsFlags(p)
  {
    hide Print, Kept, HasFlags, IsFlags, PairBytes, Marked;
    KeptNext(done, p);
  }

  /** ntlmssp_out_target_info_auth_av_pairs. */
  method OutPass(start: seq<byte>, info: seq<byte>, targetName: seq<byte>) returns (out: seq<byte>)
    requires |info| < 65536
    ensures out == start + Rewritten(info, targetName)
  {
    out := start;
    var sawFlags, pos := false, 0;
    ghost var done: seq<Pair> := [];
    NothingKept();
    WalkStarts(info);
    hide Walked, Print, Kept, HasFlags, Parse, PairBytes, Le, FromLe, WithMic, Rewrite, U16, Marked, Out16;
    while pos + 4 <= |info|
      invariant pos <= |info|
      invariant Walked(info, pos, done)
      invariant out == start + Print(Kept(done)) && (sawFlags <==> HasFlags(done))
    {
      var avId, avLen := U16(info, pos), U16(info, pos + 2);
      if avId == AV_EOL {
        break;
      }
      if avLen > |info| - (pos + 4) {
        break;
      }
      ghost var p := ParseNext(info, pos, done);
      OutNext(start, done, p);
      if avId != AV_TARGET_NAME {
        var printed, isFlags := OutPair(avId, info[pos + 4..pos + 4 + avLen]);
        out := out + printed;
        sawFlags := sawFlags || isFlags;
      }
      pos := pos + 4 + avLen;
      done := done + [p];
    }
    ParseEnd(info, pos, done);
    var added := OutAdded(sawFlags, targetName, done);
    out := out + added;
  }

  lemma MarkedBytes(p: Pair)
    ensures |PairBytes(Marked(p))| == 4 + |p.value|
    ensures PairBytes(Marked(p)) == Out16(p.id) + Out16(|p.value|) + if IsFlags(p) then Le(WithMic(FromLe(p.value)), 4) else p.value
  {
  }

  lemma MicOnlyBytes()
    ensures Print([MIC_ONLY]) == Out16(AV_FLAGS) + Out16(4) + Le(MIC_PRESENT, 4)
  {
    assert Print([MIC_ONLY]) == PairBytes(MIC_ONLY);
    assert Le(MIC_PRESENT, 4) == [2, 0, 0, 0] by {
      assert Le(0, 3) == [0, 0, 0];
    }
  }

  lemma NameBytes(name: seq<byte>)
    ensures Print([Pair(AV_TARGET_NAME, name)]) == Out16(AV_TARGET_NAME) + Out16(|name|) + name
  {
    hide Out16;
  }

  lemma OutEnd(ps: seq<Pair>, flags: bool, name: seq<byte>)
    requires flags == HasFlags(ps)
    ensures Print(Rewrite(ps, name)) + EOL_BYTES
         == Print(Kept(ps))
          + (if flags then [] else Out16(AV_FLAGS) + Out16(4) + Le(MIC_PRESENT, 4))
          + (if |name| > 0 then Out16(AV_TARGET_NAME) + Out16(|name|) + name else [])
          + (Out16(AV_EOL) + Out16(0))
  {
    var a := if flags then [] else [MIC_ONLY];
    var b := if |name| > 0 then [Pair(AV_TARGET_NAME, name)] else [];
    assert EOL_BYTES == Out16(AV_EOL) + Out16(0);
    MicOnlyBytes();
    NameBytes(name);
    assert Print([]) == [];
    hide Kept, HasFlags, Print, Out16, Le, PairBytes;
    PrintConcat(Kept(ps), a + b);
    PrintConcat(a, b);
    assert Print(Kept(ps)) + (Print(a) + Print(b)) == Print(Kept(ps)) + Print(a) + Print(b);
  }

  /**
   The length pass equals the output, up to 16 bits, exactly when the target name is not a non-empty
   one whose length is a multiple of 65536 (its length is passed in 16 bits).
   */
  lemma {:induction false} LengthsAgreeExactlyWhen(info: seq<byte>, name: seq<byte>)
    ensures Counted(Parse(info, 0), Short(|name|)) == Short(|Rewritten(info, name)|)
       <==> |name| == 0 || |name| % 65536 != 0
  {
    hide Print, Kept, HasFlags, Parse, Le, Rewrite;
    var ps := Parse(info, 0);
    OutEnd(ps, HasFlags(ps), name);
    var n := |name|;
    var k := |Print(Kept(ps))| + (if HasFlags(ps) then 0 else 8) + 4;
    assert |Rewritten(info, name)| == k + if n > 0 then 4 + n else 0;
    assert Counted(ps, n % 65536) == (k + if n % 65536 > 0 then 4 + n % 65536 else 0) % 65536;
    hide Rewritten;
    SixteenBits(k + 4, n);
  }

  lemma SixteenBits(k: nat, n: nat)
    ensures (k + n % 65536) % 65536 == (k + n) % 65536
    ensures n % 65536 == 0 ==> (k + n) % 65536 == k % 65536 && (n > 0 ==> k >= 4 ==> (k - 4) % 65536 != k % 65536)
  {
  }

  /** For a name of at most 65535 bytes the buffer is exactly filled if and only if the output fits 16 bits. */
  lemma {:induction false} BufferFilledExactlyWhen(info: seq<byte>, name: seq<byte>)
    requires |name| < 65536
    ensures Counted(Parse(info, 0), |name|) == |Rewritten(info, name)| <==> |Rewritten(info, name)| < 65536
  {
    hide Rewritten, Parse;
    LengthsAgreeExactlyWhen(info, name);
  }

  lemma MarkedSize(p: Pair)
    ensures |Marked(p).value| == |p.value|
  {
  }

  /** What is kept takes no more room than the pairs it comes from. */
  lemma {:induction false} KeptFits(info: seq<byte>, pos: nat)
    requires pos <= |info|
    ensures |Print(Kept(Parse(info, pos)))| <= |info| - pos
    ensures |info| - pos < 4 ==> |Print(Kept(Parse(info, pos)))| == 0
    decreases |info| - pos
  {
    hide U16, Marked, IsFlags;
    if PairAt(info, pos) {
      var n := U16(info, pos + 2);
      var p := Pair(U16(info, pos), info[pos + 4..pos + 4 + n]);
      KeptFits(info, pos + 4 + n);
      MarkedSize(p);
      var ps := Parse(info, pos);
      assert ps[0] == p && ps[1..] == Parse(info, pos + 4 + n);
      var r := Kept(ps);
      assert p.id != AV_TARGET_NAME ==> r[0] == Marked(p) && r[1..] == Kept(ps[1..]);
    }
  }

  /** The most bytes the output can have for information of `n` bytes and a target name of `m`. */
  function MostSent(n: nat, m: nat): (r: nat) {
    (if n < 4 then 0 else n) + 8 + (if m > 0 then 4 + m else 0) + 4
  }

  lemma {:induction false} OutputFits(info: seq<byte>, name: seq<byte>)
    ensures |Rewritten(info, name)| <= MostSent(|info|, |name|)
  {
    hide Print, Kept, HasFlags, Parse, Le, Rewrite, Out16;
    var ps := Parse(info, 0);
    KeptFits(info, 0);
    OutEnd(ps, HasFlags(ps), name);
  }

  /** Information of `n` bytes that is one pair, of no meaning to the client. */
  function OnePair(n: nat): (info: seq<byte>)
    requires 4 <= n < 65536
    ensures |info| == n
  {
    PairBytes(Pair(1, seq(n - 4, _ => 0)))
  }

  /** Such information makes the output as long as it can be. */
  lemma {:induction false} OnePairFills(n: nat, name: seq<byte>)
    requires 4 <= n < 65536
    ensures |Rewritten(OnePair(n), name)| == MostSent(n, |name|)
  {
    var info, p := OnePair(n), Pair(1, seq(n - 4, _ => 0));
    PairReads(p, []);
    assert PairBytes(p) + [] == info;
    OnePairParses(n);
    assert Marked(p) == p && !IsFlags(p);
    assert Print([p]) == PairBytes(p);
    hide Parse, PairBytes, Out16, Le, Marked, Rewrite, U16;
    assert Kept([p]) == [p];
    OutEnd([p], false, name);
  }

  lemma OnePairParses(n: nat)
    requires 4 <= n < 65536
    ensures Parse(OnePair(n), 0) == [Pair(1, seq(n - 4, _ => 0))]
  {
    var info, p := OnePair(n), Pair(1, seq(n - 4, _ => 0));
    PairReads(p, []);
    assert PairBytes(p) + [] == info;
    hide PairBytes, U16, Out16;
    assert Parse(info, n) == [];
  }

  /**
   Information of `n` bytes is safe whatever it holds exactly when the most that can be sent for it
   fits 16 bits; the caller can tell from the two lengths.  Beyond, one long pair makes the buffer
   too short.
   */
  lemma {:induction false} LengthsSafeExactlyWhen(n: nat, name: seq<byte>)
    requires n < 65536 && |name| < 65536
    ensures (forall info: seq<byte> | |info| == n :: Counted(Parse(info, 0), |name|) == |Rewritten(info, name)|)
       <==> MostSent(n, |name|) < 65536
    ensures n >= 4 && MostSent(n, |name|) >= 65536 ==>
              Counted(Parse(OnePair(n), 0), |name|) < |Rewritten(OnePair(n), name)|
  {
    hide Parse, Rewritten, Counted, OnePair, MostSent;
    if MostSent(n, |name|) < 65536 {
      forall info: seq<byte> | |info| == n
        ensures Counted(Parse(info, 0), |name|) == |Rewritten(info, name)|
      {
        OutputFits(info, name);
        BufferFilledExactlyWhen(info, name);
      }
    } else if n >= 4 {
      OnePairFills(n, name);
      BufferFilledExactlyWhen(OnePair(n), name);
      CountedIsShort(OnePair(n), name);
    } else {
      var info: seq<byte> := seq(n, _ => 0);
      ShortInfo(info, name);
      BufferFilledExactlyWhen(info, name);
    }
  }

  lemma CountedIsShort(info: seq<byte>, name: seq<byte>)
    ensures Counted(Parse(info, 0), |name|) < 65536
  {
  }

  /** Information too short for a pair makes the output as long as it can be, too. */
  lemma {:induction false} ShortInfo(info: seq<byte>, name: seq<byte>)
    requires |info| < 4
    ensures |Rewritten(info, name)| == MostSent(|info|, |name|)
  {
    hide Out16, Le;
    assert Parse(info, 0) == [];
    OutEnd([], false, name);
  }

  lemma {:induction false} ParsePrintable(info: seq<byte>, pos: nat)
    ensures forall i :: 0 <= i < |Parse(info, pos)| ==> Printable(Parse(info, pos)[i])
    decreases |info| - pos
  {
    if PairAt(info, pos) {
      ParsePrintable(info, pos + 4 + U16(info, pos + 2));
    }
  }

  lemma {:induction false} KeptPrintable(ps: seq<Pair>)
    requires forall i :: 0 <= i < |ps| ==> Printable(ps[i])
    ensures forall i :: 0 <= i < |Kept(ps)| ==> Printable(Kept(ps)[i])
  {
    if |ps| > 0 {
      KeptPrintable(ps[1..]);
    }
  }

  /** The output parses as the input pairs without target names, flags marked, then the new target name. */
  lemma {:induction false} OutputReparses(info: seq<byte>, name: seq<byte>)
    requires |name| < 65536
    ensures Parse(Rewritten(info, name), 0) == Rewrite(Parse(info, 0), name)
  {
    var ps := Parse(info, 0);
    ParsePrintable(info, 0);
    KeptPrintable(ps);
    var r := Rewrite(ps, name);
    assert forall i :: 0 <= i < |r| ==> Printable(r[i]) by {
      hide Parse, Kept;
    }
    ParsePrint(r, []);
    assert Print(r) + EOL_BYTES + [] == Print(r) + EOL_BYTES;
  }

  lemma WithMicMarks(v: nat)
    ensures var r := WithMic(v);
            && WithMic(r) == r && r / 2 % 2 == 1 && r % 2 == v % 2 && r / 4 == v / 4
  {
  }

  lemma {:induction false} MarkedMarks(p: Pair)
    ensures Marked(Marked(p)) == Marked(p) && Marked(p).id == p.id && (IsFlags(Marked(p)) <==> IsFlags(p))
    ensures IsFlags(p) ==> FromLe(Marked(p).value) / 2 % 2 == 1
  {
    if IsFlags(p) {
      var v := FromLe(p.value);
      FromLeInverse(p.value);
      WithMicMarks(v);
      MicFits(v);
      LeInverse(WithMic(v), 4);
    }
  }

  lemma MicFits(v: nat)
    requires v < Limit(4)
    ensures WithMic(v) < Limit(4)
  {
    assert Limit(4) == 4 * (64 * Limit(3));
  }

  lemma {:induction false} KeptTwice(ps: seq<Pair>)
    ensures Kept(Kept(ps)) == Kept(ps)
    ensures HasFlags(Kept(ps)) <==> HasFlags(ps)
  {
    hide Marked, IsFlags;
    if |ps| > 0 {
      KeptTwice(ps[1..]);
      MarkedMarks(ps[0]);
      FlagsSplit(ps);
      NameIsNoFlags(ps[0]);
      if ps[0].id != AV_TARGET_NAME {
        FlagsSplit(Kept(ps));
        assert Kept(ps)[1..] == Kept(ps[1..]);
      }
    }
  }

  lemma NameIsNoFlags(p: Pair)
    ensures IsFlags(p) ==> p.id != AV_TARGET_NAME
  {
  }

  lemma FlagsSplit(ps: seq<Pair>)
    requires |ps| > 0
    ensures HasFlags(ps) <==> IsFlags(ps[0]) || HasFlags(ps[1..])
  {
    hide IsFlags;
    if HasFlags(ps) {
      var i :| 0 <= i < |ps| && IsFlags(ps[i]);
      assert i > 0 ==> IsFlags(ps[1..][i - 1]);
    }
    if HasFlags(ps[1..]) {
      var i :| 0 <= i < |ps[1..]| && IsFlags(ps[1..][i]);
      assert IsFlags(ps[i + 1]);
    }
  }

  /** Rewriting twice with the same target name is rewriting once. */
  lemma {:induction false} RewriteTwice(ps: seq<Pair>, name: seq<byte>)
    ensures Rewrite(Rewrite(ps, name), name) == Rewrite(ps, name)
  {
    var r, added := Rewrite(ps, name), Added(HasFlags(ps), name);
    KeptTwice(ps);
    KeptConcat(Kept(ps), added);
    AddedKept(HasFlags(ps), name);
    FlagsJoin(Kept(ps), added);
    hide Kept, HasFlags;
    assert Kept(r) == Kept(ps) + (if HasFlags(ps) then [] else [MIC_ONLY]);
    assert HasFlags(r);
  }

  lemma AddedKept(flags: bool, name: seq<byte>)
    ensures Kept(Added(flags, name)) == if flags then [] else [MIC_ONLY]
    ensures !flags ==> HasFlags(Added(flags, name))
  {
    MicOnlyMarked();
    var a := if flags then [] else [MIC_ONLY];
    var b := if |name| > 0 then [Pair(AV_TARGET_NAME, name)] else [];
    KeptConcat(a, b);
    assert Kept(b) == [];
    assert Kept(a) == a;
    if !flags {
      assert IsFlags(Added(flags, name)[0]);
    }
  }

  lemma MicOnlyMarked()
    ensures Marked(MIC_ONLY) == MIC_ONLY
  {
    var b := MIC_ONLY.value;
    assert FromLe(b[1..]) == 0 by {
      assert FromLe(b[3..]) == 0 && b[2..][1..] == b[3..] && b[1..][1..] == b[2..];
      assert FromLe(b[2..]) == 0;
    }
    FromLeInverse(b);
  }

  lemma FlagsJoin(a: seq<Pair>, b: seq<Pair>)
    ensures HasFlags(a + b) <==> HasFlags(a) || HasFlags(b)
  {
    hide IsFlags;
    if HasFlags(a) {
      var i :| 0 <= i < |a| && IsFlags(a[i]);
      assert IsFlags((a + b)[i]);
    }
    if HasFlags(b) {
      var i :| 0 <= i < |b| && IsFlags(b[i]);
      assert IsFlags((a + b)[|a| + i]);
    }
    if HasFlags(a + b) {
      var i :| 0 <= i < |a + b| && IsFlags((a + b)[i]);
      assert if i < |a| then IsFlags(a[i]) else IsFlags(b[i - |a|]);
    }
  }

  /** On bytes: sending what was sent once more changes nothing. */
  lemma {:induction false} RewrittenTwice(info: seq<byte>, name: seq<byte>)
    requires |name| < 65536
    ensures Rewritten(Rewritten(info, name), name) == Rewritten(info, name)
  {
    hide Rewrite, Parse;
    OutputReparses(info, name);
    RewriteTwice(Parse(info, 0), name);
  }

  /** Every four-byte flags value sent has the MIC bit, there is one, and only the last pair is a target name. */
  lemma {:induction false} MicAnnounced(ps: seq<Pair>, name: seq<byte>)
    ensures var r := Rewrite(ps, name);
            && HasFlags(r)
            && (forall i :: 0 <= i < |r| && IsFlags(r[i]) ==> FromLe(r[i].value) / 2 % 2 == 1)
            && (forall i :: 0 <= i < |r| && r[i].id == AV_TARGET_NAME ==> i == |r| - 1 && r[i].value == name)
  {
    KeptTwice(ps);
    AddedKept(HasFlags(ps), name);
    FlagsJoin(Kept(ps), Added(HasFlags(ps), name));
    KeptMarked(ps);
    var b := MIC_ONLY.value;
    assert FromLe(b) == b[0] as int + 256 * FromLe(b[1..]);
    hide Kept, HasFlags, FromLe;
  }

  lemma {:induction false} KeptMarked(ps: seq<Pair>)
    ensures forall i :: 0 <= i < |Kept(ps)| ==> Kept(ps)[i].id != AV_TARGET_NAME
    ensures forall i :: 0 <= i < |Kept(ps)| && IsFlags(Kept(ps)[i]) ==> FromLe(Kept(ps)[i].value) / 2 % 2 == 1
  {
    if |ps| > 0 {
      KeptMarked(ps[1..]);
      MarkedMarks(ps[0]);
    }
  }

  // ---- What is kept, pair by pair and byte by byte ----

  /** On the wire a pair is its id, the length of its value, both lowest byte first, and the value. */
  lemma {:induction false} PairLayout(p: Pair)
    requires p.id < 65536 && |p.value| < 65536
    ensures var b, n := PairBytes(p), |p.value|;
            && |b| == 4 + n && b[0] as int + 0x100 * b[1] as int == p.id && b[2] as int + 0x100 * b[3] as int == n
            && b[4..] == p.value
  {
    hide Le;
  }

  /** No pair starts here: too little is left, the end is marked, or the value is cut off. */
  predicate Stops(t: seq<byte>) {
    |t| < 4 || (t[0] == 0 && t[1] == 0) || t[2] as int + 0x100 * t[3] as int > |t| - 4
  }

  /** Pairs followed by anything that starts no pair parse to just those pairs. */
  lemma {:induction false} ParsesTo(ps: seq<Pair>, t: seq<byte>)
    requires AllPrintable(ps) && Stops(t)
    ensures Parse(Print(ps) + t, 0) == ps
  {
    if |ps| == 0 {
      assert Print(ps) + t == t;
    } else {
      hide PairBytes, PairAt, Parse, Printable, Stops;
      assert Print(ps) + t == PairBytes(ps[0]) + (Print(ps[1..]) + t);
      ParseFirst(ps[0], Print(ps[1..]) + t);
      ParsesTo(ps[1..], t);
    }
  }

  lemma PrintedBack(info: seq<byte>, pos: nat)
    requires PairAt(info, pos)
    ensures var n := U16(info, pos + 2);
            && Printable(Pair(U16(info, pos), info[pos + 4..pos + 4 + n]))
            && PairBytes(Pair(U16(info, pos), info[pos + 4..pos + 4 + n])) == info[pos..pos + 4 + n]
  {
    var n := U16(info, pos + 2);
    var p := Pair(U16(info, pos), info[pos + 4..pos + 4 + n]);
    assert Out16(p.id) == [info[pos], info[pos + 1]] && Out16(n) == [info[pos + 2], info[pos + 3]];
    hide Out16, U16;
  }

  predicate AllPrintable(ps: seq<Pair>) {
    forall i :: 0 <= i < |ps| ==> Printable(ps[i])
  }

  /** Whatever the input, it is the printed pairs it parses to, and a rest that starts no pair. */
  lemma {:induction false} ParseCovers(info: seq<byte>, pos: nat) returns (t: seq<byte>)
    requires pos <= |info|
    ensures AllPrintable(Parse(info, pos)) && Stops(t) && info[pos..] == Print(Parse(info, pos)) + t
    decreases |info| - pos
  {
    if PairAt(info, pos) {
      var p, end := CoversOne(info, pos);
      hide *;
      var ps := Parse(info, end);
      t := ParseCovers(info, end);
      PrintNext(p, ps);
      Grouped(PairBytes(p), Print(ps), t);
    } else {
      t := info[pos..];
      StopsHere(info, pos);
    }
  }

  lemma CoversOne(info: seq<byte>, pos: nat) returns (p: Pair, end: nat)
    requires PairAt(info, pos)
    ensures pos < end <= |info| && Parse(info, pos) == [p] + Parse(info, end)
    ensures Printable(p) && info[pos..] == PairBytes(p) + info[end..]
  {
    PrintedBack(info, pos);
    ParseStep(info, pos);
    var n := U16(info, pos + 2);
    p, end := Pair(U16(info, pos), info[pos + 4..pos + 4 + n]), pos + 4 + n;
    hide U16, Parse, PairBytes, Printable;
    SplitAt(info, pos, end);
  }

  lemma StopsHere(info: seq<byte>, pos: nat)
    requires pos <= |info| && !PairAt(info, pos)
    ensures Stops(info[pos..]) && Parse(info, pos) == [] && AllPrintable([]) && info[pos..] == Print([]) + info[pos..]
  {
  }

  lemma ParseStep(info: seq<byte>, pos: nat)
    requires PairAt(info, pos)
    ensures var n := U16(info, pos + 2);
            Parse(info, pos) == [Pair(U16(info, pos), info[pos + 4..pos + 4 + n])] + Parse(info, pos + 4 + n)
  {
    hide U16;
  }

  lemma PrintNext(p: Pair, ps: seq<Pair>)
    ensures Print([p] + ps) == PairBytes(p) + Print(ps)
    ensures Printable(p) && AllPrintable(ps) ==> AllPrintable([p] + ps)
  {
    hide PairBytes, Printable;
    assert ([p] + ps)[1..] == ps;
  }

  lemma SplitAt(s: seq<byte>, a: nat, b: nat)
    requires a <= b <= |s|
    ensures s[a..] == s[a..b] + s[b..]
  {
  }

  lemma Grouped(a: seq<byte>, b: seq<byte>, c: seq<byte>)
    ensures a + (b + c) == a + b + c
  {
  }

  /** How many pairs are no target names. */
  function NonTargets(ps: seq<Pair>): (n: nat) {
    if |ps| == 0 then 0 else NonTargets(ps[..|ps| - 1]) + if ps[|ps| - 1].id == 9 then 0 else 1
  }

  lemma {:induction false} KeptCount(ps: seq<Pair>)
    ensures |Kept(ps)| == NonTargets(ps)
  {
    hide Marked;
    if |ps| > 0 {
      var n := |ps| - 1;
      KeptCount(ps[..n]);
      KeptConcat(ps[..n], [ps[n]]);
      assert ps[..n] + [ps[n]] == ps;
      assert Kept([ps[n]]) == if ps[n].id == 9 then [] else [Marked(ps[n])];
    }
  }

  /**
   Every pair but a target name is sent, in its order; unchanged, except that a four-byte flags value
   has bit 1 of its first byte set.
   */
  lemma {:induction false} PairKept(ps: seq<Pair>, i: nat)
    requires i < |ps| && ps[i].id != 9
    ensures var n := NonTargets(ps[..i]);
            && |Kept(ps)| == NonTargets(ps) && n < |Kept(ps)|
            && var p, q := ps[i], Kept(ps)[n];
               if p.id == 6 && |p.value| == 4 then
                 q.id == 6 && |q.value| == 4 && q.value[1..] == p.value[1..]
                 && forall k: nat :: k < 8 ==> (Bit(q.value[0], k) <==> k == 1 || Bit(p.value[0], k))
               else q == p
  {
    KeptCount(ps);
    KeptCount(ps[..i]);
    var rest := ps[i..];
    assert ps == ps[..i] + rest && rest[0] == ps[i];
    KeptConcat(ps[..i], rest);
    assert Kept(rest)[0] == Marked(ps[i]);
    hide Bit, Le, FromLe, WithMic, Kept, NonTargets;
    if IsFlags(ps[i]) {
      FlagsMarked(ps[i].value);
    }
  }

  lemma {:induction false} FlagsMarked(value: seq<byte>)
    requires |value| == 4
    ensures var q := Le(WithMic(FromLe(value)), 4);
            |q| == 4 && q[1..] == value[1..] && forall k: nat :: k < 8 ==> (Bit(q[0], k) <==> k == 1 || Bit(value[0], k))
  {
    var b, m := value[0], if value[0] / 2 % 2 == 1 then value[0] as int else value[0] + 2;
    var rest := FromLe(value[1..]);
    FirstByte(b, rest);
    FromLeInverse(value[1..]);
    forall k: nat | k < 8 ensures Bit(m, k) <==> k == 1 || Bit(b, k) {
      MicBit(b, k);
    }
  }

  lemma FirstByte(b: byte, rest: nat)
    ensures var m := if b / 2 % 2 == 1 then b as int else b + 2;
            && 0 <= m < 256 && WithMic(b + 256 * rest) == m + 256 * rest
            && WithMic(b + 256 * rest) % 256 == m && WithMic(b + 256 * rest) / 256 == rest
  {
    var m := if b / 2 % 2 == 1 then b as int else b + 2;
    SecondBit(b, rest);
    LowByte(m, rest);
  }

  lemma SecondBit(b: byte, rest: nat)
    ensures (b + 256 * rest) / 2 % 2 == b / 2 % 2
    ensures b / 2 % 2 == 0 ==> b + 2 < 256
  {
    var q := b / 2;
    Half(b + 256 * rest, q + 128 * rest, b % 2);
    Half(q + 128 * rest, q / 2 + 64 * rest, q % 2);
  }

  lemma LowByte(m: byte, rest: nat)
    ensures (m + 256 * rest) % 256 == m && (m + 256 * rest) / 256 == rest
  {
  }

  /** Setting bit 1 leaves the others. */
  lemma {:induction false} MicBit(b: byte, k: nat)
    requires k < 8
    ensures Bit(if b / 2 % 2 == 1 then b as int else b + 2, k) <==> k == 1 || Bit(b, k)
  {
    var m := if b / 2 % 2 == 1 then b as int else b + 2;
    assert m % 2 == b % 2 && m / 2 / 2 == b / 2 / 2 && m / 2 % 2 == 1;
    hide WithMic;
  }

  /** What is added: flags of their own if none were sent, and the target name if it is not empty, last. */
  lemma {:induction false} RewriteAdds(ps: seq<Pair>, name: seq<byte>)
    ensures Rewrite(ps, name)
         == Kept(ps) + (if exists i :: 0 <= i < |ps| && ps[i].id == 6 && |ps[i].value| == 4 then [] else [Pair(6, [2, 0, 0, 0])])
          + (if |name| > 0 then [Pair(9, name)] else [])
  {
    hide Kept;
    assert HasFlags(ps) <==> exists i :: 0 <= i < |ps| && ps[i].id == 6 && |ps[i].value| == 4;
  }
}
