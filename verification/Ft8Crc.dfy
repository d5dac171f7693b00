/** The FT8 CRC-14: computed over the 77-bit payload extended by five zeros,
    carried in bits 77..90 of the packed message. */
module Ft8Crc {
  import opened Gf2
  import opened Bytes
  import opened CrcTheory
  import opened Ft8Code

  const PAYLOAD: nat := 77

  /** 0x2757, highest coefficient first. */
  const POLY14: Vec := [true, false, false, true, true, true, false, true, false, true, false, true, true, true]

  /** The low 14 bits of the two bytes 0x27 and 0x57. */
  lemma PolyValue14()
    ensures POLY14 == ByteVec(0x27)[2..] + ByteVec(0x57)
  {}

  /** The checksum of a bit string: division by the polynomial. */
  function Crc14(m: Vec): (c: Vec)
    ensures |c| == 14
  {
    Feed(POLY14, Zero(14), m)
  }

  function CrcOfPayload(u: Vec): (c: Vec)
    requires |u| == PAYLOAD
    ensures |c| == 14
  {
    Crc14(u + Zero(5))
  }

  /** The bits of the byte being read that the register has not used yet. */
  function Pending(msg: seq<bv8>, i: nat): (v: Vec)
    requires (i + 7) / 8 <= |msg|
    ensures |v| == 8 * ((i + 7) / 8) - i
  {
    seq(8 * ((i + 7) / 8) - i, k requires 0 <= k < 8 * ((i + 7) / 8) - i => BitAt(msg, i + k))
  }

  /** Expected low 14 bits of the remainder after i message bits. */
  function Expected(msg: seq<bv8>, i: nat): (r: Vec)
    requires (i + 7) / 8 <= |msg|
    ensures |r| == 14
  {
    Xor(Crc14(Unpack(msg, i)), Pad(Pending(msg, i), 14))
  }

  lemma ExpectedLoad(msg: seq<bv8>, i: nat)
    requires i % 8 == 0 && i / 8 < |msg|
    ensures Xor(Expected(msg, i), Pad(ByteVec(msg[i / 8]), 14))
         == Xor(Crc14(Unpack(msg, i)), Pad(ByteVec(msg[i / 8]), 14))
  {
    hide ByteVec, Crc14;
    assert Pad(Pending(msg, i), 14) == Zero(14);
  }

  lemma CrcStep(msg: seq<bv8>, i: nat)
    requires i < 8 * |msg|
    ensures Crc14(Unpack(msg, i + 1)) == Step(POLY14, Crc14(Unpack(msg, i)), BitAt(msg, i))
  {
    hide BitAt, Step;
    assert Unpack(msg, i + 1) == Unpack(msg, i) + [BitAt(msg, i)];
    FeedSplit(POLY14, Zero(14), Unpack(msg, i), [BitAt(msg, i)]);
    FeedOne(POLY14, Crc14(Unpack(msg, i)), BitAt(msg, i));
  }

  lemma StepWithPending(f: Vec, p: Vec)
    requires |f| == 14 && 1 <= |p| <= 8
    ensures Step(POLY14, Xor(f, Pad(p, 14)), false) == Xor(Step(POLY14, f, p[0]), Pad(p[1..], 14))
  {}

  /** One more bit of the message through the division. */
  lemma ExpectedStep(msg: seq<bv8>, i: nat, p: Vec)
    requires i / 8 < |msg| && 1 <= |p| <= 8 && |p| == 8 * (i / 8 + 1) - i
    requires forall k :: 0 <= k < |p| ==> p[k] == BitAt(msg, i + k)
    ensures Step(POLY14, Xor(Crc14(Unpack(msg, i)), Pad(p, 14)), false) == Expected(msg, i + 1)
  {
    hide BitAt, Step, Crc14;
    CrcStep(msg, i);
    StepWithPending(Crc14(Unpack(msg, i)), p);
    assert Pending(msg, i + 1) == p[1..];
  }

  // ---------- the 16-bit remainder, top bit first ----------

  function Divide(r: Vec): (s: Vec)
    requires |r| == 16
    ensures |s| == 16
  {
    var shifted := r[1..] + [false];
    if r[2] then Xor(shifted, [false, false] + POLY14) else shifted
  }

  lemma DivideIsStep(r: Vec)
    requires |r| == 16
    ensures Divide(r)[2..] == Step(POLY14, r[2..], false)
  {}

  /** The byte added in below the top two bits. */
  function Load(r: Vec, b: bv8): (s: Vec)
    requires |r| == 16
    ensures |s| == 16
  {
    Xor(r, [false, false] + ByteVec(b) + Zero(6))
  }

  lemma LoadIsPad(r: Vec, b: bv8)
    requires |r| == 16
    ensures Load(r, b)[2..] == Xor(r[2..], Pad(ByteVec(b), 14))
  {
    hide ByteVec;
  }

  lemma LoopStep(msg: seq<bv8>, i: nat, r: Vec)
    requires i < 8 * |msg| && |r| == 16 && r[2..] == Expected(msg, i)
    ensures Divide(if i % 8 == 0 then Load(r, msg[i / 8]) else r)[2..] == Expected(msg, i + 1)
  {
    hide ByteVec, Crc14, BitAt, Step, ByteBit, Divide, Load;
    if i % 8 == 0 {
      var s := Load(r, msg[i / 8]);
      LoadIsPad(r, msg[i / 8]);
      ExpectedLoad(msg, i);
      ByteVecAt(msg, i / 8);
      ExpectedStep(msg, i, ByteVec(msg[i / 8]));
      DivideIsStep(s);
    } else {
      ExpectedStep(msg, i, Pending(msg, i));
      DivideIsStep(r);
    }
  }

  /** The loop over message bits: each byte is added in at its first bit. */
  method ComputeCrc14(msg: seq<bv8>, numBits: nat) returns (crc: Vec)
    requires (numBits + 7) / 8 <= |msg|
    ensures |crc| == 16 && crc[..2] == [false, false] && crc[2..] == Expected(msg, numBits)
  {
    hide Divide, Load, Expected;
    var remainder := Zero(16);
    var idxByte := 0;
    StartsEmpty(msg);
    assert remainder[2..] == Zero(14);
    for idxBit := 0 to numBits
      invariant idxByte == (idxBit + 7) / 8 && |remainder| == 16
      invariant remainder[2..] == Expected(msg, idxBit)
    {
      LoopStep(msg, idxBit, remainder);
      if idxBit % 8 == 0 {
        remainder := Load(remainder, msg[idxByte]);
        idxByte := idxByte + 1;
      }
      remainder := Divide(remainder);
    }
    crc := [false, false] + remainder[2..];
  }

  lemma ByteVecAt(msg: seq<bv8>, i: nat)
    requires i < |msg|
    ensures forall k :: 0 <= k < 8 ==> ByteVec(msg[i])[k] == BitAt(msg, 8 * i + k)
  {
    hide ByteBit;
  }

  lemma StartsEmpty(msg: seq<bv8>)
    ensures Expected(msg, 0) == Zero(14)
  {
    assert Unpack(msg, 0) == [] && Pending(msg, 0) == [];
  }

  // ---------- checking and appending ----------

  /** The message with its checksum field cleared. */
  ghost predicate ClearedAfterPayload(a: seq<bv8>, u: Vec) {
    |a| >= 12 && |u| == PAYLOAD && forall p: nat :: p < 88 ==> BitAt(a, p) == (p < PAYLOAD && u[p])
  }

  lemma ClearedExpected(a: seq<bv8>, u: Vec)
    requires ClearedAfterPayload(a, u)
    ensures Expected(a, 82) == CrcOfPayload(u)
  {
    hide BitAt, Feed;
    assert Unpack(a, 82) == u + Zero(5);
    assert Pad(Pending(a, 82), 14) == Zero(14);
  }

  lemma ClearBytes(a: seq<bv8>, b: seq<bv8>, u: Vec)
    requires |a| == |b| >= 12 && |u| == PAYLOAD
    requires forall p: nat :: p < PAYLOAD ==> BitAt(a, p) == u[p]
    requires forall i :: 0 <= i < 9 ==> b[i] == a[i]
    requires b[9] == And8(a[9], 0xF8) && b[10] == 0
    ensures ClearedAfterPayload(b, u)
  {
    hide ByteBit, And8;
    forall p: nat | p < 88
      ensures BitAt(b, p) == (p < PAYLOAD && u[p])
    {
      KeepFive(a[9], p % 8);
      ZeroByte(p % 8);
      assert p < PAYLOAD ==> BitAt(a, p) == u[p];
    }
  }

  /** The 14 checksum bits of the packed message, as a 16-bit word. */
  function Extract(a: seq<bv8>): (w: Vec)
    requires |a| >= 12
    ensures |w| == 16
  {
    [false, false] + ByteVec(a[9])[5..] + ByteVec(a[10]) + ByteVec(a[11])[..3]
  }

  lemma ExtractBits(a: seq<bv8>, v: Vec)
    requires |a| >= 12 && |v| == 14
    requires forall p: nat :: PAYLOAD <= p < K ==> BitAt(a, p) == v[p - PAYLOAD]
    ensures Extract(a) == [false, false] + v
  {
    forall i | 0 <= i < 14
      ensures Extract(a)[2 + i] == v[i]
    {
      hide Extract, BitAt;
      ExtractedBit(a, i);
      assert BitAt(a, PAYLOAD + i) == v[i];
    }
    ExtractStarts(a);
    hide *;
  }

  lemma ExtractStarts(a: seq<bv8>)
    requires |a| >= 12
    ensures Extract(a)[..2] == [false, false]
  {
    hide ByteVec;
  }

  lemma ExtractedBit(a: seq<bv8>, i: nat)
    requires |a| >= 12 && i < 14
    ensures Extract(a)[2 + i] == BitAt(a, PAYLOAD + i)
  {
    hide ByteBit, BitAt, ByteVec;
    ByteVecAt(a, 9);
    ByteVecAt(a, 10);
    ByteVecAt(a, 11);
  }

  predicate CrcMatches(plain: Vec)
    requires |plain| >= K
  {
    plain[PAYLOAD..K] == CrcOfPayload(plain[..PAYLOAD])
  }

  /** The checksum the first 91 bits carry and the one they should carry. */
  method CrcWords(plain: seq<bool>) returns (extracted: Vec, calculated: Vec)
    requires |plain| >= K
    ensures extracted == [false, false] + plain[PAYLOAD..K]
    ensures calculated == [false, false] + CrcOfPayload(plain[..PAYLOAD])
  {
    hide BitAt, ByteVec, And8, CrcOfPayload, Expected;
    var a91 := new bv8[12];
    PackBits(plain, K, a91);
    ghost var packed := a91[..];
    extracted := Extract(a91[..]);
    ExtractBits(packed, plain[PAYLOAD..K]);
    a91[9] := And8(a91[9], 0xF8);
    a91[10] := 0;
    ClearBytes(packed, a91[..], plain[..PAYLOAD]);
    ClearedExpected(a91[..], plain[..PAYLOAD]);
    calculated := ComputeCrc14(a91[..], 96 - 14);
    assert calculated == [false, false] + calculated[2..];
  }

  /** Whether the two agree. */
  method VerifyCrc(plain: seq<bool>) returns (ok: bool)
    requires |plain| >= K
    ensures ok <==> CrcMatches(plain)
  {
    hide CrcOfPayload;
    var extracted, calculated := CrcWords(plain);
    ok := extracted == calculated;
    assert extracted[2..] == plain[PAYLOAD..K] && calculated[2..] == CrcOfPayload(plain[..PAYLOAD]);
  }

  /** The 91-bit message of a payload: its bits, its checksum, five zeros. */
  ghost predicate Framed(a: seq<bv8>, u: Vec)
  {
    && |a| >= 12 && |u| == PAYLOAD
    && forall p: nat :: p < 96 ==>
         BitAt(a, p) == if p < PAYLOAD then u[p] else if p < K then CrcOfPayload(u)[p - PAYLOAD] else false
  }

  lemma ChecksumBytes(b: seq<bv8>, d: seq<bv8>, u: Vec, crc: Vec)
    requires |d| == |b| && ClearedAfterPayload(b, u) && |crc| == 14 && crc == CrcOfPayload(u)
    requires forall i :: 0 <= i < 9 ==> d[i] == b[i]
    requires d[9] == Or8(b[9], ByteOf([false, false, false, false, false] + crc[..3]))
    requires d[10] == ByteOf(crc[3..11])
    requires d[11] == ByteOf(crc[11..] + Zero(5))
    ensures Framed(d, u)
  {
    hide ByteBit, Or8, ByteOf, CrcOfPayload;
    forall p: nat | p < 96
      ensures BitAt(d, p) == if p < PAYLOAD then u[p] else if p < K then CrcOfPayload(u)[p - PAYLOAD] else false
    {
      ByteOrBits(b[9], ByteOf([false, false, false, false, false] + crc[..3]), p % 8);
      ByteOfBits([false, false, false, false, false] + crc[..3], p % 8);
      ByteOfBits(crc[3..11], p % 8);
      ByteOfBits(crc[11..] + Zero(5), p % 8);
      assert p < 88 ==> BitAt(b, p) == (p < PAYLOAD && u[p]);
    }
  }

  /** Copies the 77-bit payload and appends its checksum. */
  method AddCrc(payload: seq<bv8>, a91: array<bv8>)
    requires |payload| >= 10 && a91.Length >= 12
    modifies a91
    ensures Framed(a91[..], Unpack(payload, PAYLOAD))
    ensures forall i :: 12 <= i < a91.Length ==> a91[i] == old(a91[i])
  {
    hide BitAt, And8, Or8, ByteOf, CrcOfPayload, Expected;
    for i := 0 to 10
      invariant forall j :: 0 <= j < i ==> a91[j] == payload[j]
      invariant forall j :: 10 <= j < a91.Length ==> a91[j] == old(a91[j])
    {
      a91[i] := payload[i];
    }
    ghost var copied := a91[..];
    CopiedBits(payload, copied);
    ghost var u := Unpack(payload, PAYLOAD);
    a91[9] := And8(a91[9], 0xF8);
    a91[10] := 0;
    ghost var cleared := a91[..];
    ClearBytes(copied, cleared, u);
    ClearedExpected(cleared, u);
    var checksum := ComputeCrc14(a91[..], 96 - 14);
    ghost var crc := checksum[2..];
    a91[9] := Or8(a91[9], ByteOf([false, false, false] + checksum[..5]));
    a91[10] := ByteOf(checksum[5..13]);
    a91[11] := ByteOf(checksum[13..] + Zero(5));
    assert [false, false, false] + checksum[..5] == [false, false, false, false, false] + crc[..3];
    assert checksum[5..13] == crc[3..11] && checksum[13..] == crc[11..];
    ChecksumBytes(cleared, a91[..], u, crc);
  }

  lemma CopiedBits(payload: seq<bv8>, a: seq<bv8>)
    requires |payload| >= 10 && |a| >= 10 && forall i :: 0 <= i < 10 ==> a[i] == payload[i]
    ensures forall p: nat :: p < PAYLOAD ==> BitAt(a, p) == Unpack(payload, PAYLOAD)[p]
  {
    hide ByteBit;
  }

  /** The check accepts exactly the messages that appending the checksum makes. */
  lemma CrcMatchesIffFramed(plain: Vec, packed: seq<bv8>)
    requires |plain| >= K && |packed| == 12
    requires forall p: nat :: p < 96 ==> BitAt(packed, p) == (p < K && plain[p])
    ensures CrcMatches(plain) <==> Framed(packed, plain[..PAYLOAD])
  {
    hide BitAt, CrcOfPayload;
    var c := CrcOfPayload(plain[..PAYLOAD]);
    if Framed(packed, plain[..PAYLOAD]) {
      forall i | 0 <= i < 14
        ensures plain[PAYLOAD + i] == c[i]
      {
        assert BitAt(packed, PAYLOAD + i) == c[i];
      }
      assert plain[PAYLOAD..K] == c;
    }
    if CrcMatches(plain) {
      forall p: nat | PAYLOAD <= p < K
        ensures BitAt(packed, p) == c[p - PAYLOAD]
      {
        assert plain[PAYLOAD..K][p - PAYLOAD] == c[p - PAYLOAD];
      }
    }
  }

  /** The framed message of a payload is one string of bytes, so the check
      accepts just the packed message that appending the checksum would write. */
  lemma CrcMatchesIffAppended(plain: Vec, packed: seq<bv8>, appended: seq<bv8>)
    requires |plain| >= K && |packed| == |appended| == 12 && Framed(appended, plain[..PAYLOAD])
    requires forall p: nat :: p < 96 ==> BitAt(packed, p) == (p < K && plain[p])
    ensures CrcMatches(plain) <==> packed == appended
  {
    CrcMatchesIffFramed(plain, packed);
    hide BitAt, CrcOfPayload, CrcMatches;
    if CrcMatches(plain) {
      SameBytes(packed, appended);
    }
  }

  // ---------- errors ----------

  /** The payload, the five zeros, then the checksum. */
  function Stretch(m: Vec): (v: Vec)
    requires |m| == K
    ensures |v| == K + 5
  {
    m[..PAYLOAD] + Zero(5) + m[PAYLOAD..]
  }

  lemma PolyIsOdd14()
    ensures |POLY14| == 14 && POLY14[13]
  {}

  /** Passing the check is dividing to nothing. */
  lemma MatchesIffDivides(m: Vec)
    requires |m| == K
    ensures CrcMatches(m) <==> Feed(POLY14, Zero(14), Stretch(m)) == Zero(14)
  {
    PolyIsOdd14();
    hide Feed, POLY14;
    assert m[PAYLOAD..K] == m[PAYLOAD..];
    assert Stretch(m) == (m[..PAYLOAD] + Zero(5)) + m[PAYLOAD..];
    FeedSplit(POLY14, Zero(14), m[..PAYLOAD] + Zero(5), m[PAYLOAD..]);
    OnlyOwnTail(POLY14, CrcOfPayload(m[..PAYLOAD]), m[PAYLOAD..]);
  }

  /** An error goes unnoticed exactly if it would pass the check itself. */
  lemma ErrorPassesIff(plain: Vec, e: Vec)
    requires |plain| == |e| == K && CrcMatches(plain)
    ensures CrcMatches(Xor(plain, e)) <==> CrcMatches(e)
  {
    PolyIsOdd14();
    hide Feed, POLY14, CrcMatches;
    var y := Xor(plain, e);
    MatchesIffDivides(plain);
    MatchesIffDivides(e);
    MatchesIffDivides(y);
    assert Stretch(y) == Xor(Stretch(plain), Stretch(e)) && Xor(Zero(14), Zero(14)) == Zero(14);
    FeedXor(POLY14, Zero(14), Zero(14), Stretch(plain), Stretch(e));
    var f := Feed(POLY14, Zero(14), Stretch(e));
    assert Xor(Zero(14), f) == f;
  }

  /** Short of the gap between payload and checksum, a burst of up to 14 bits
      does not pass. */
  lemma BurstOnOneSide(e: Vec, i: nat, j: nat)
    requires |e| == K && Window(e, i, j, 14) && (j <= PAYLOAD || PAYLOAD <= i)
    ensures !CrcMatches(e)
  {
    PolyIsOdd14();
    MatchesIffDivides(e);
    hide Feed, Step, POLY14, CrcMatches;
    var e' := Stretch(e);
    var k := SomeSet(e);
    assert e'[if k < PAYLOAD then k else k + 5];
    assert Window(e', if j <= PAYLOAD then i else i + 5, if j <= PAYLOAD then j else j + 5, 14);
    BurstDetected(POLY14, e');
  }

  /** The remainders of one to three: what makes multiples of up to 16 bits. */
  lemma TwoBitRemainders()
    ensures Feed(POLY14, Zero(14), [false, false]) == Zero(14)
    ensures Feed(POLY14, Zero(14), [false, true]) == POLY14
    ensures Feed(POLY14, Zero(14), [true, false])
         == [true, false, true, false, false, true, true, true, true, true, true, false, false, true]
    ensures Feed(POLY14, Zero(14), [true, true])
         == [false, false, true, true, true, false, true, false, true, false, true, true, true, false]
  {
    assert Step(POLY14, Zero(14), false) == Zero(14) && Step(POLY14, Zero(14), true) == POLY14;
    assert [false, false][1..] == [false] && [false, true][1..] == [true];
    assert [true, false][1..] == [false] && [true, true][1..] == [true];
    FeedOne(POLY14, Zero(14), false);
    FeedOne(POLY14, Zero(14), true);
    FeedOne(POLY14, POLY14, false);
    FeedOne(POLY14, POLY14, true);
  }

  /** The three nonzero multiples of up to 16 bits. */
  const ONE_TIME: Vec :=
    [false, true, true, false, false, true, true, true, false, true, false, true, false, true, true, true]
  const TWO_TIMES: Vec :=
    [true, false, true, false, true, false, false, true, true, true, true, true, true, false, false, true]
  const THREE_TIMES: Vec :=
    [true, true, false, false, true, true, true, false, true, false, true, false, true, true, true, false]

  /** Two bits and their remainder. */
  function WithRemainder(w: Vec): (v: Vec)
    ensures |v| == |w| + 14
  {
    w + Feed(POLY14, Zero(14), w)
  }

  lemma Multiples()
    ensures WithRemainder([false, false]) == Zero(16) && WithRemainder([false, true]) == ONE_TIME
    ensures WithRemainder([true, false]) == TWO_TIMES && WithRemainder([true, true]) == THREE_TIMES
  {
    TwoBitRemainders();
    hide Feed;
  }

  lemma ShortMultiples(v: Vec)
    requires |v| == 16 && v != Zero(16) && Feed(POLY14, Zero(14), v) == Zero(14)
    ensures v == ONE_TIME || v == TWO_TIMES || v == THREE_TIMES
  {
    hide Feed, POLY14;
    var w, u := v[..2], v[2..];
    assert v == w + u && w == [v[0], v[1]];
    TailIsRemainder(w, u);
    Multiples();
    hide ONE_TIME, TWO_TIMES, THREE_TIMES;
    assert v == WithRemainder(w);
    hide WithRemainder;
    if v[0] {
      assert if v[1] then w == [true, true] else w == [true, false];
    } else {
      assert if v[1] then w == [false, true] else w == [false, false];
    }
  }

  lemma TailIsRemainder(w: Vec, u: Vec)
    requires |u| == 14 && Feed(POLY14, Zero(14), w + u) == Zero(14)
    ensures u == Feed(POLY14, Zero(14), w)
  {
    PolyIsOdd14();
    hide Feed, POLY14;
    FeedSplit(POLY14, Zero(14), w, u);
    OnlyOwnTail(POLY14, Feed(POLY14, Zero(14), w), u);
  }

  /** No nonzero multiple of up to 16 bits has three zeros in a row inside. */
  lemma MultiplesHaveNoGap(v: Vec, a: nat)
    requires |v| == 16 && v != Zero(16) && Feed(POLY14, Zero(14), v) == Zero(14) && 1 <= a <= 13
    ensures v[a] || v[a + 1] || v[a + 2]
  {
    ShortMultiples(v);
    hide Feed, POLY14;
    OneTimeHasNoGap(a);
    TwoTimesHaveNoGap(a);
    ThreeTimesHaveNoGap(a);
    hide ONE_TIME, TWO_TIMES, THREE_TIMES;
  }

  lemma OneTimeHasNoGap(a: nat)
    requires 1 <= a <= 13
    ensures |ONE_TIME| == 16 && (ONE_TIME[a] || ONE_TIME[a + 1] || ONE_TIME[a + 2])
  {}

  lemma TwoTimesHaveNoGap(a: nat)
    requires 1 <= a <= 13
    ensures |TWO_TIMES| == 16 && (TWO_TIMES[a] || TWO_TIMES[a + 1] || TWO_TIMES[a + 2])
  {}

  lemma ThreeTimesHaveNoGap(a: nat)
    requires 1 <= a <= 13
    ensures |THREE_TIMES| == 16 && (THREE_TIMES[a] || THREE_TIMES[a + 1] || THREE_TIMES[a + 2])
  {}

  lemma AcrossTheGap(e: Vec, i: nat, j: nat)
    requires |e| == K && Window(e, i, j, 11) && i < PAYLOAD < j
    ensures var lo := j - 11;
            var v := e[lo..PAYLOAD] + Zero(5) + e[PAYLOAD..j];
            |v| == 16 && v != Zero(16) && Stretch(e) == Zero(lo) + (v + Zero(K - j))
  {
    var lo := j - 11;
    var v := e[lo..PAYLOAD] + Zero(5) + e[PAYLOAD..j];
    var k := SomeSet(e);
    assert v[if k < PAYLOAD then k - lo else k + 5 - lo];
    ZerosAround(e, lo, j);
    StretchedParts(e, lo, j);
  }

  lemma ZerosAround(e: Vec, lo: nat, j: nat)
    requires lo <= PAYLOAD < j <= |e| == K && forall k :: 0 <= k < K && e[k] ==> lo <= k < j
    ensures e[..lo] == Zero(lo) && e[j..] == Zero(K - j)
  {}

  lemma StretchedParts(e: Vec, lo: nat, j: nat)
    requires lo <= PAYLOAD < j <= |e| == K
    ensures Stretch(e) == e[..lo] + ((e[lo..PAYLOAD] + Zero(5) + e[PAYLOAD..j]) + e[j..])
  {
    assert e[..PAYLOAD] == e[..lo] + e[lo..PAYLOAD] && e[PAYLOAD..] == e[PAYLOAD..j] + e[j..];
  }

  /** A burst of up to 11 bits across the gap does not pass either. */
  lemma BurstAcross(e: Vec, i: nat, j: nat)
    requires |e| == K && Window(e, i, j, 11) && i < PAYLOAD < j
    ensures !CrcMatches(e)
  {
    MatchesIffDivides(e);
    PolyIsOdd14();
    hide Feed, Step, POLY14, CrcMatches;
    var lo := j - 11;
    var v := e[lo..PAYLOAD] + Zero(5) + e[PAYLOAD..j];
    AcrossTheGap(e, i, j);
    FeedSplit(POLY14, Zero(14), Zero(lo), v + Zero(K - j));
    FeedFromZero(POLY14, 14, lo);
    FeedSplit(POLY14, Zero(14), v, Zero(K - j));
    if Feed(POLY14, Zero(14), Stretch(e)) == Zero(14) {
      FeedInjective(POLY14, Feed(POLY14, Zero(14), v), K - j);
      MultiplesHaveNoGap(v, PAYLOAD - lo);
    }
  }

  /** A message passing the check fails it after any burst of up to 14 bits on
      one side of the gap, and of up to 11 bits anywhere. */
  lemma BurstFailsCheck(plain: Vec, e: Vec, i: nat, j: nat)
    requires |plain| == |e| == K && CrcMatches(plain)
    requires Window(e, i, j, if j <= PAYLOAD || PAYLOAD <= i then 14 else 11)
    ensures !CrcMatches(Xor(plain, e))
  {
    hide CrcMatches;
    ErrorPassesIff(plain, e);
    if j <= PAYLOAD || PAYLOAD <= i {
      BurstOnOneSide(e, i, j);
    } else {
      BurstAcross(e, i, j);
    }
  }

  /** The last eight payload bits and the first four of the checksum. */
  const TWELVE: Vec := Zero(69) +
    [true, true, true, true, true, true, false, true] + [true, false, true, true] + Zero(10)

  /** Twelve bits across the gap can be too many: this error is never noticed. */
  lemma TwelveBitsPass(plain: Vec)
    requires |plain| == K && CrcMatches(plain)
    ensures Window(TWELVE, 69, 81, 12) && CrcMatches(Xor(plain, TWELVE))
  {
    TwelveShape();
    ErrorPassesIff(plain, TWELVE);
    TwelvePasses();
    hide CrcMatches, TWELVE;
  }

  lemma TwelveShape()
    ensures |TWELVE| == K && Window(TWELVE, 69, 81, 12)
  {
    assert TWELVE[69] && !Zero(K)[69];
  }

  lemma ThreeOnes()
    ensures Feed(POLY14, Zero(14), [true, true, true])
         == [true, true, true, false, true, false, false, false, false, false, true, false, true, true]
  {
    TwoBitRemainders();
    hide Feed;
    var r := Feed(POLY14, Zero(14), [true, true]);
    assert [true, true, true] == [true, true] + [true];
    FeedSplit(POLY14, Zero(14), [true, true], [true]);
    FeedOne(POLY14, r, true);
  }

  lemma OwnRemainderPasses(i: nat, w: Vec, j: nat)
    ensures Feed(POLY14, Zero(14), Zero(i) + ((w + Feed(POLY14, Zero(14), w)) + Zero(j))) == Zero(14)
  {
    PolyIsOdd14();
    hide Feed, POLY14;
    var u := Feed(POLY14, Zero(14), w);
    FeedSplit(POLY14, Zero(14), Zero(i), (w + u) + Zero(j));
    FeedFromZero(POLY14, 14, i);
    FeedSplit(POLY14, Zero(14), w + u, Zero(j));
    FeedSplit(POLY14, Zero(14), w, u);
    FeedSelf(POLY14, u);
    FeedFromZero(POLY14, 14, j);
  }

  lemma TwelvePasses()
    ensures |TWELVE| == K && CrcMatches(TWELVE)
  {
    hide *;
    TwelveShape();
    MatchesIffDivides(TWELVE);
    ThreeOnes();
    OwnRemainderPasses(69, [true, true, true], 10);
    TwelveStretched();
  }

  /** With the five bits between payload and checksum it is three ones and their remainder. */
  lemma TwelveStretched()
    requires |TWELVE| == K
    ensures Stretch(TWELVE)
         == Zero(69) + (([true, true, true] +
            [true, true, true, false, true, false, false, false, false, false, true, false, true, true]) + Zero(10))
  {}
}
