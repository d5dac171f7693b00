/** The Mode S checksum: a 24-bit remainder, computed a byte at a time from a
    table.  Registers are their bits, highest first, the order they leave in. */
module Crc24 {
  import opened Arith
  import opened Gf2
  import opened CrcTheory
  import opened Octets

  /** 0xFFF409 */
  const POLY24: Vec := [true, true, true, true, true, true, true, true, true, true, true, true,
                        false, true, false, false, false, false, false, false, true, false, false, true]

  // ---------- bits, highest first ----------

  function MsbBits(b: nat, n: nat): (v: Vec)
    ensures |v| == n
  {
    if n == 0 then [] else MsbBits(b / 2, n - 1) + [b % 2 == 1]
  }

  function MsbValue(v: Vec): (b: nat)
    ensures b < Pow2(|v|)
  {
    if v == [] then 0 else 2 * MsbValue(v[..|v| - 1]) + if v[|v| - 1] then 1 else 0
  }

  lemma {:induction false} MsbRoundTrip(v: Vec)
    ensures MsbBits(MsbValue(v), |v|) == v
  {
    if v == [] {
    } else {
      var m := |v| - 1;
      MsbRoundTrip(v[..m]);
      assert v == v[..m] + [v[m]];
    }
  }

  lemma {:induction false} MsbValueOf(b: nat, n: nat)
    requires b < Pow2(n)
    ensures MsbValue(MsbBits(b, n)) == b
  {
    if n == 0 {
    } else {
      MsbValueOf(b / 2, n - 1);
      assert MsbBits(b, n)[..n - 1] == MsbBits(b / 2, n - 1);
    }
  }

  /** The bits of a message in the order they are sent. */
  function MsgBits(msg: seq<byte>): (v: Vec)
    ensures |v| == 8 * |msg|
  {
    if msg == [] then [] else MsgBits(msg[..|msg| - 1]) + MsbBits(msg[|msg| - 1], 8)
  }

  lemma {:induction false} MsgBitsConcat(a: seq<byte>, b: seq<byte>)
    ensures MsgBits(a + b) == MsgBits(a) + MsgBits(b)
    decreases |b|
  {
    hide MsbBits;
    if b == [] {
      assert a + b == a;
    } else {
      var m := |b| - 1;
      assert (a + b)[..|a| + m] == a + b[..m];
      MsgBitsConcat(a, b[..m]);
    }
  }

  lemma LastOctet(a: seq<byte>)
    requires a != []
    ensures var m := |a| - 1;
            MsgBits(a)[..8 * m] == MsgBits(a[..m]) && MsgBits(a)[8 * m..] == MsbBits(a[m], 8)
  {
    hide MsbBits;
  }

  lemma SameOctet(a: byte, b: byte)
    requires MsbBits(a, 8) == MsbBits(b, 8)
    ensures a == b
  {
    hide MsbBits;
    Pow2Of8();
    MsbValueOf(a, 8);
    MsbValueOf(b, 8);
  }

  lemma {:induction false} MsgBitsInjective(a: seq<byte>, b: seq<byte>)
    requires MsgBits(a) == MsgBits(b)
    ensures a == b
    decreases |a|
  {
    hide *;
    assert |a| == |b|;
    if a == [] {
    } else {
      var m := |a| - 1;
      LastOctet(a);
      LastOctet(b);
      SameOctet(a[m], b[m]);
      MsgBitsInjective(a[..m], b[..m]);
      assert a == a[..m] + [a[m]] && b == b[..m] + [b[m]];
    }
  }

  /** The polynomial as the number the source has. */
  lemma PolyValue()
    ensures MsgBits([0xFF, 0xF4, 0x09]) == POLY24
  {
    ThreeOctets(0xFF, 0xF4, 0x09);
    hide *;
    HighOctet();
    MiddleOctet();
    LowOctet();
    PolyInOctets();
  }

  lemma PolyInOctets()
    ensures POLY24 == [true, true, true, true, true, true, true, true] +
                      [true, true, true, true, false, true, false, false] +
                      [false, false, false, false, true, false, false, true]
  {}

  lemma ThreeOctets(a: byte, b: byte, c: byte)
    ensures MsgBits([a, b, c]) == MsbBits(a, 8) + MsbBits(b, 8) + MsbBits(c, 8)
  {
    hide MsbBits;
    assert [a, b, c][..2] == [a, b] && [a, b][..1] == [a] && [a][..0] == [];
    assert MsgBits([a]) == [] + MsbBits(a, 8);
  }

  lemma HighOctet()
    ensures MsbBits(0xFF, 8) == [true, true, true, true, true, true, true, true]
  {}

  lemma MiddleOctet()
    ensures MsbBits(0xF4, 8) == [true, true, true, true, false, true, false, false]
  {}

  lemma LowOctet()
    ensures MsbBits(0x09, 8) == [false, false, false, false, true, false, false, true]
  {}

  /** The checksum: bit-by-bit division of the message. */
  function Remainder(m: Vec): (c: Vec)
    ensures |c| == 24
  {
    Feed(POLY24, Zero(24), m)
  }

  // ---------- the table ----------

  /** One division step on a 32-bit word; bits above 24 are left to rot. */
  function DivideWord(c: Vec): (d: Vec)
    requires |c| == 32
    ensures |d| == 32
  {
    var shifted := c[1..] + [false];
    if c[8] then Xor(shifted, Zero(8) + POLY24) else shifted
  }

  lemma DivideWordIsStep(c: Vec)
    requires |c| == 32
    ensures DivideWord(c)[8..] == Step(POLY24, c[8..], false)
  {}

  /** What eight zero bits make of a byte in the top of the register. */
  function Entry(i: nat): (c: Vec)
    ensures |c| == 24
  {
    Feed(POLY24, MsbBits(i, 8) + Zero(16), Zero(8))
  }

  ghost predicate Table(tab: seq<Vec>) {
    |tab| == 256 && forall i: nat :: i < 256 ==> tab[i] == Entry(i)
  }

  lemma FeedZeroStep(r: Vec, k: nat)
    requires |r| == 24
    ensures Feed(POLY24, r, Zero(k + 1)) == Step(POLY24, Feed(POLY24, r, Zero(k)), false)
  {
    hide Step;
    assert Zero(k + 1) == Zero(k) + [false];
    FeedSplit(POLY24, r, Zero(k), [false]);
    FeedOne(POLY24, Feed(POLY24, r, Zero(k)), false);
  }

  lemma FeedNothing(r: Vec)
    requires |r| == 24
    ensures Feed(POLY24, r, Zero(0)) == r && Feed(POLY24, r, []) == r
  {}

  /** Builds the 256 entries, eight divisions each. */
  method BuildTable() returns (tab: seq<Vec>)
    ensures Table(tab)
  {
    hide Feed, Step, MsbBits, DivideWord;
    tab := [];
    for i := 0 to 256
      invariant |tab| == i && forall j: nat :: j < i ==> tab[j] == Entry(j)
    {
      var c := Zero(8) + MsbBits(i, 8) + Zero(16);
      ghost var r := MsbBits(i, 8) + Zero(16);
      assert c[8..] == r;
      FeedNothing(r);
      for k := 0 to 8
        invariant |c| == 32 && c[8..] == Feed(POLY24, r, Zero(k))
      {
        DivideWordIsStep(c);
        FeedZeroStep(r, k);
        c := DivideWord(c);
      }
      tab := tab + [c[8..]];
    }
  }

  /** While the bits leaving are zero, a division only shifts. */
  lemma {:induction false} ShiftOnly(t: Vec, k: nat)
    requires |t| == 24 && k <= 24 && forall i :: 0 <= i < k ==> !t[i]
    ensures Feed(POLY24, t, Zero(k)) == t[k..] + Zero(k)
    decreases k
  {
    if k == 0 {
      FeedNothing(t);
      assert t[0..] + Zero(0) == t;
    } else {
      var s := t[1..] + [false];
      assert Step(POLY24, t, false) == s;
      assert Zero(k)[1..] == Zero(k - 1);
      ShiftOnly(s, k - 1);
      assert s[k - 1..] + Zero(k - 1) == t[k..] + Zero(k);
    }
  }

  /** The table step equals feeding the byte's eight bits. */
  lemma TableStep(r: Vec, b: byte)
    requires |r| == 24
    ensures var i := MsbValue(Xor(r[..8], MsbBits(b, 8)));
            i < 256 && Xor(r[8..] + Zero(8), Entry(i)) == Feed(POLY24, r, MsbBits(b, 8))
  {
    hide Feed, MsbBits, MsbValue;
    Pow2Of8();
    var t := Xor(r[..8], MsbBits(b, 8));
    MsbRoundTrip(t);
    FeedIsPreload(POLY24, r, MsbBits(b, 8));
    var hi, lo := t + Zero(16), Zero(8) + r[8..];
    assert Xor(r, Pad(MsbBits(b, 8), 24)) == Xor(hi, lo);
    assert Xor(Zero(8), Zero(8)) == Zero(8);
    FeedXor(POLY24, hi, lo, Zero(8), Zero(8));
    ShiftOnly(lo, 8);
    assert lo[8..] == r[8..];
    var e := Feed(POLY24, hi, Zero(8));
    assert Xor(e, r[8..] + Zero(8)) == Xor(r[8..] + Zero(8), e);
  }

  /** The checksum of packed bytes, one table look-up a byte. */
  method ComputeCrc24(tab: seq<Vec>, msg: seq<byte>) returns (crc: Vec)
    requires Table(tab)
    ensures crc == Remainder(MsgBits(msg))
  {
    hide Feed, MsbBits, MsbValue, Entry;
    crc := Zero(24);
    FeedNothing(Zero(24));
    assert msg[..0] == [];
    for k := 0 to |msg|
      invariant |crc| == 24 && crc == Remainder(MsgBits(msg[..k]))
    {
      TableStep(crc, msg[k]);
      FeedSplit(POLY24, Zero(24), MsgBits(msg[..k]), MsbBits(msg[k], 8));
      assert msg[..k + 1][..k] == msg[..k];
      crc := Xor(crc[8..] + Zero(8), tab[MsbValue(Xor(crc[..8], MsbBits(msg[k], 8)))]);
    }
    assert msg[..|msg|] == msg;
  }

  // ---------- appended checksums ----------

  /** The three bytes of a checksum. */
  function CrcBytes(c: Vec): (b: seq<byte>)
    requires |c| == 24
    ensures |b| == 3
  {
    Pow2Of8();
    [MsbValue(c[..8]), MsbValue(c[8..16]), MsbValue(c[16..])]
  }

  method AppendCrc24(tab: seq<Vec>, data: seq<byte>) returns (msg: seq<byte>)
    requires Table(tab)
    ensures msg == data + CrcBytes(Remainder(MsgBits(data)))
  {
    var c := ComputeCrc24(tab, data);
    msg := data + CrcBytes(c);
  }

  lemma CrcBytesBits(c: Vec)
    requires |c| == 24
    ensures MsgBits(CrcBytes(c)) == c
  {
    hide MsbBits, MsbValue;
    var b := CrcBytes(c);
    MsbRoundTrip(c[..8]);
    MsbRoundTrip(c[8..16]);
    MsbRoundTrip(c[16..]);
    assert b[..2][..1] == [b[0]] && b[..2][1] == b[1] && b[..1][..0] == [];
    assert MsgBits(b[..1]) == MsgBits(b[..1][..0]) + MsbBits(b[0], 8);
    assert MsgBits(b[..2]) == MsgBits(b[..1]) + MsbBits(b[1], 8) by { assert b[..2][..1] == b[..1]; }
    assert MsgBits(b) == MsgBits(b[..2]) + MsbBits(b[2], 8);
    assert c == c[..8] + c[8..16] + c[16..];
  }

  lemma PolyIsOdd24()
    ensures |POLY24| == 24 && POLY24[23]
  {}

  lemma OnlyOwnTail24(r: Vec, t: Vec)
    requires |r| == |t| == 24
    ensures Feed(POLY24, r, t) == Zero(24) <==> t == r
  {
    PolyIsOdd24();
    hide *;
    OnlyOwnTail(POLY24, r, t);
  }

  /** A message checks to zero exactly when it ends in the checksum of the rest. */
  lemma ZeroIffAppended(msg: seq<byte>)
    requires |msg| >= 3
    ensures Remainder(MsgBits(msg)) == Zero(24)
       <==> msg[|msg| - 3..] == CrcBytes(Remainder(MsgBits(msg[..|msg| - 3])))
  {
    PolyIsOdd24();
    hide Feed, MsbBits, MsbValue, MsgBits, POLY24, CrcBytes;
    var data, tail := msg[..|msg| - 3], msg[|msg| - 3..];
    assert msg == data + tail;
    MsgBitsConcat(data, tail);
    var r, t := Remainder(MsgBits(data)), MsgBits(tail);
    FeedSplit(POLY24, Zero(24), MsgBits(data), t);
    OnlyOwnTail24(r, t);
    CrcBytesBits(r);
    if t == r {
      MsgBitsInjective(tail, CrcBytes(r));
    }
  }

  /** A message with its checksum appended checks to zero. */
  lemma AppendedIsZero(data: seq<byte>)
    ensures Remainder(MsgBits(data + CrcBytes(Remainder(MsgBits(data))))) == Zero(24)
  {
    var msg := data + CrcBytes(Remainder(MsgBits(data)));
    ZeroIffAppended(msg);
    assert msg[..|msg| - 3] == data && msg[|msg| - 3..] == CrcBytes(Remainder(MsgBits(data)));
  }

  lemma RemainderIsDivision(m: Vec)
    ensures Remainder(m) == Feed(POLY24, Zero(24), m) && Zero(24) != []
  {
    hide Feed, POLY24;
  }

  lemma BurstMovesRemainder(m: Vec, e: Vec)
    requires |e| == |m| && Burst(e, 24)
    ensures Remainder(Xor(m, e)) != Remainder(m)
  {
    hide *;
    PolyIsOdd24();
    RemainderIsDivision(m);
    RemainderIsDivision(Xor(m, e));
    BurstChangesRegister(POLY24, Zero(24), m, e);
  }

  /** No error burst of up to 24 bits turns a good message into a good one. */
  lemma BurstCaught(sent: seq<byte>, received: seq<byte>, e: Vec)
    requires Remainder(MsgBits(sent)) == Zero(24) && |e| == 8 * |sent| && Burst(e, 24)
    requires MsgBits(received) == Xor(MsgBits(sent), e)
    ensures Remainder(MsgBits(received)) != Zero(24)
  {
    hide *;
    BurstMovesRemainder(MsgBits(sent), e);
  }
}
