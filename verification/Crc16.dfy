/** CRC-16/X.25, the frame check sequence of AX.25 and AIS.  The register is
    its sixteen bits, least significant first, which is also the order in
    which they leave it. */
module Crc16 {
  import opened Arith
  import opened Gf2
  import opened CrcTheory
  import opened Octets

  const POLY16: Vec := BitsOf(0x8408, 16)

  const RESIDUE: Vec := BitsOf(0xF0B8, 16)

  /** The register after a bit string, from all ones. */
  function Register(m: Vec): (c: Vec)
    ensures |c| == 16
  {
    Feed(POLY16, Ones(16), m)
  }

  function Divide(c: Vec): (d: Vec)
    requires |c| == 16
    ensures |d| == 16
  {
    var half := c[1..] + [false];
    if c[0] then Xor(half, POLY16) else half
  }

  lemma DivideIsStep(c: Vec)
    requires |c| == 16
    ensures Divide(c) == Step(POLY16, c, false)
  {}

  /** One byte: added into the low half, then divided eight times. */
  lemma ByteStep(c: Vec, b: byte)
    requires |c| == 16
    ensures Feed(POLY16, c, BitsOf(b, 8)) == Feed(POLY16, Xor(c, BitsOf(b, 8) + Zero(8)), Zero(8))
  {
    hide BitsOf, Feed;
    FeedIsPreload(POLY16, c, BitsOf(b, 8));
    assert Pad(BitsOf(b, 8), 16) == BitsOf(b, 8) + Zero(8);
  }

  lemma FeedZeroOnce(c: Vec, i: nat)
    requires |c| == 16
    ensures Feed(POLY16, c, Zero(i + 1)) == Divide(Feed(POLY16, c, Zero(i)))
  {
    assert Zero(i + 1) == Zero(i) + [false];
    FeedSplit(POLY16, c, Zero(i), [false]);
    FeedOne(POLY16, Feed(POLY16, c, Zero(i)), false);
    DivideIsStep(Feed(POLY16, c, Zero(i)));
  }

  method ComputeCrc16(data: seq<byte>) returns (crc: Vec)
    ensures crc == Register(AirBits(data))
  {
    hide Feed, Divide, BitsOf, AirBits;
    crc := Ones(16);
    AirBitsNone();
    FeedNone(Ones(16));
    assert data[..0] == [];
    for k := 0 to |data|
      invariant |crc| == 16 && crc == Register(AirBits(data[..k]))
    {
      assert data[..k + 1] == data[..k] + [data[k]];
      AirBitsConcat(data[..k], [data[k]]);
      AirBitsOne(data[k]);
      FeedSplit(POLY16, Ones(16), AirBits(data[..k]), BitsOf(data[k], 8));
      ByteStep(crc, data[k]);
      crc := Xor(crc, BitsOf(data[k], 8) + Zero(8));
      ghost var loaded := crc;
      FeedNone(loaded);
      for i := 0 to 8
        invariant |crc| == 16 && crc == Feed(POLY16, loaded, Zero(i))
      {
        FeedZeroOnce(loaded, i);
        crc := Divide(crc);
      }
    }
    assert data[..|data|] == data;
  }

  lemma AirBitsNone()
    ensures AirBits([]) == []
  {}

  lemma FeedNone(c: Vec)
    requires |c| == 16
    ensures Feed(POLY16, c, Zero(0)) == c && Feed(POLY16, c, []) == c
  {}

  // ---------- the frame check sequence ----------

  function Complement(v: Vec): (c: Vec)
    ensures |c| == |v|
  {
    seq(|v|, i requires 0 <= i < |v| => !v[i])
  }

  /** The two bytes sent after a body: the register complemented, low byte first. */
  function FcsBytes(body: seq<byte>): (fcs: seq<byte>)
    ensures |fcs| == 2
  {
    var c := Complement(Register(AirBits(body)));
    Pow2Of8();
    [ValueOf(c[..8]), ValueOf(c[8..])]
  }

  predicate ValidFcs(all: seq<byte>) {
    |all| >= 2 && Register(AirBits(all)) == RESIDUE
  }

  lemma FcsBits(body: seq<byte>)
    ensures AirBits(FcsBytes(body)) == Complement(Register(AirBits(body)))
  {
    var c := Complement(Register(AirBits(body)));
    var f := FcsBytes(body);
    Pow2Of8();
    BitsOfValue(c[..8]);
    BitsOfValue(c[8..]);
    assert f == [f[0]] + [f[1]];
    AirBitsConcat([f[0]], [f[1]]);
    AirBitsOne(f[0]);
    AirBitsOne(f[1]);
    assert c == c[..8] + c[8..];
  }

  // ---------- the register as a number, to evaluate constants ----------

  predicate NatBit(n: nat, i: nat) {
    if i == 0 then n % 2 == 1 else NatBit(n / 2, i - 1)
  }

  /** n with bit i inverted. */
  function Toggle(n: nat, i: nat): (t: nat) {
    NatBitFits(n, i);
    if NatBit(n, i) then n - Pow2(i) else n + Pow2(i)
  }

  lemma {:induction false} NatBitFits(n: nat, i: nat)
    ensures NatBit(n, i) ==> Pow2(i) <= n
  {
    if i == 0 {
    } else {
      NatBitFits(n / 2, i - 1);
    }
  }

  lemma ToggleHalf(n: nat, i: nat)
    requires i > 0
    ensures Toggle(n, i) / 2 == Toggle(n / 2, i - 1) && Toggle(n, i) % 2 == n % 2
  {
    NatBitFits(n / 2, i - 1);
  }

  lemma ToggleLow(n: nat)
    ensures Toggle(n, 0) / 2 == n / 2 && Toggle(n, 0) % 2 == 1 - n % 2
  {}

  lemma LowBit(n: nat, w: nat)
    requires w > 0
    ensures BitsOf(n, w) == [n % 2 == 1] + BitsOf(n / 2, w - 1)
  {}

  lemma {:induction false} ToggleBits(n: nat, i: nat, w: nat)
    requires i < w
    ensures BitsOf(Toggle(n, i), w) == BitsOf(n, w)[i := !BitsOf(n, w)[i]]
    decreases i
  {
    hide Toggle, BitsOf, NatBit;
    var t := Toggle(n, i);
    LowBit(n, w);
    LowBit(t, w);
    if i == 0 {
      ToggleLow(n);
    } else {
      ToggleHalf(n, i);
      ToggleBits(n / 2, i - 1, w - 1);
      var u := BitsOf(n / 2, w - 1);
      assert [n % 2 == 1] + u[i - 1 := !u[i - 1]] == ([n % 2 == 1] + u)[i := !u[i - 1]];
    }
  }

  lemma {:induction false} BitsOfZero(n: nat)
    ensures BitsOf(0, n) == Zero(n)
  {
    if n == 0 {
    } else {
      BitsOfZero(n - 1);
    }
  }

  lemma PolyBits()
    ensures POLY16 == Zero(16)[3 := true][10 := true][15 := true]
  {
    hide BitsOf, Toggle, NatBit;
    BitsOfZero(16);
    ToggleBits(0, 3, 16);
    ToggleBits(0x0008, 10, 16);
    ToggleBits(0x0408, 15, 16);
    ToggleConstants();
  }

  lemma ToggleConstants()
    ensures Toggle(0, 3) == 0x0008 && Toggle(0x0008, 10) == 0x0408 && Toggle(0x0408, 15) == 0x8408
  {
    TapPowers();
    assert !NatBit(0, 3) && !NatBit(0x0008, 10) && !NatBit(0x0408, 15);
  }

  function DivideNat(n: nat): nat {
    var m := n / 2;
    if n % 2 == 1
    then m + 0x8000 + (if (m / 8) % 2 == 1 then -8 else 8) + (if (m / 1024) % 2 == 1 then -1024 else 1024)
    else m
  }

  lemma {:induction false} HalfBits(n: nat, k: nat)
    requires n < Pow2(k)
    ensures BitsOf(n, k + 1) == BitsOf(n, k) + [false]
  {
    if k == 0 {
    } else {
      HalfBits(n / 2, k - 1);
    }
  }

  lemma TapPowers()
    ensures Pow2(3) == 8 && Pow2(10) == 0x400 && Pow2(15) == 0x8000
  {
    Pow2Of8();
    Pow2Add(8, 2);
    Pow2Add(8, 7);
    assert Pow2(8) == 2 * Pow2(7);
  }

  lemma ToggleIs(n: nat, i: nat, p: int)
    requires p == Pow2(i)
    ensures Toggle(n, i) == n + if (n / p) % 2 == 1 then -p else p
  {
    hide NatBit, Pow2;
    NatBitFits(n, i);
    NatBitIs(n, i, p);
  }

  /** Bit 3 turned over leaves bit 10 alone. */
  lemma OtherTap(m: nat, t: int)
    requires m < 0x8000 && t == m + if (m / 8) % 2 == 1 then -8 else 8
    ensures (t / 1024) % 2 == (m / 1024) % 2 && 0 <= t < 0x8000
  {
    var q, r := m / 16, m % 16;
    assert m == 16 * q + r && m / 8 == 2 * q + r / 8 && t / 16 == q;
    Sixteenths(m);
    Sixteenths(t);
  }

  lemma Sixteenths(n: int)
    ensures n / 1024 == n / 16 / 64
  {
    assert n == 16 * (n / 16) + n % 16 && n / 16 == 64 * (n / 16 / 64) + n / 16 % 64;
  }

  lemma TopClear(t: nat, u: int)
    requires t < 0x8000 && u == t + if (t / 1024) % 2 == 1 then -1024 else 1024
    ensures (u / 0x8000) % 2 == 0
  {}

  /** The three feedback taps as arithmetic. */
  lemma TogglesAreDivide(m: nat)
    requires m < 0x8000
    ensures Toggle(Toggle(Toggle(m, 3), 10), 15)
         == m + 0x8000 + (if (m / 8) % 2 == 1 then -8 else 8) + (if (m / 1024) % 2 == 1 then -1024 else 1024)
  {
    hide *;
    TapPowers();
    var t := Toggle(m, 3);
    ToggleIs(m, 3, 8);
    OtherTap(m, t);
    ToggleIs(t, 10, 1024);
    ToggleIs(Toggle(t, 10), 15, 0x8000);
    TopClear(t, Toggle(t, 10));
  }

  lemma {:induction false} NatBitIs(n: nat, i: nat, p: nat)
    requires p == Pow2(i)
    ensures NatBit(n, i) == ((n / p) % 2 == 1)
  {
    if i == 0 {
    } else {
      NatBitIs(n / 2, i - 1, p / 2);
      DivTwice(n, p / 2);
    }
  }

  lemma DivTwice(n: nat, h: nat)
    requires h > 0
    ensures (n / 2) / h == n / (2 * h)
  {
    var q, r := (n / 2) / h, (n / 2) % h;
    assert n == (2 * h) * q + (2 * r + n % 2);
    DivUnique(n, 2 * h, q, 2 * r + n % 2);
  }

  lemma PolyXor(b: Vec)
    requires |b| == 16
    ensures Xor(b, POLY16) == b[3 := !b[3]][10 := !b[10]][15 := !b[15]]
  {
    hide BitsOf;
    PolyBits();
  }

  lemma ShiftedBits(n: nat)
    requires n < 0x10000
    ensures BitsOf(n, 16)[0] == (n % 2 == 1) && BitsOf(n, 16)[1..] + [false] == BitsOf(n / 2, 16)
  {
    Pow2Of8();
    Pow2Add(8, 7);
    assert Pow2(8) == 2 * Pow2(7);
    assert BitsOf(n, 16)[1..] == BitsOf(n / 2, 15);
    HalfBits(n / 2, 15);
  }

  lemma DivideIsNat(n: nat)
    requires n < 0x10000
    ensures Divide(BitsOf(n, 16)) == BitsOf(DivideNat(n), 16)
  {
    hide BitsOf, Toggle;
    var m := n / 2;
    ShiftedBits(n);
    if n % 2 == 1 {
      TogglesAreDivide(m);
      ToggleBits(m, 3, 16);
      ToggleBits(Toggle(m, 3), 10, 16);
      ToggleBits(Toggle(Toggle(m, 3), 10), 15, 16);
      PolyXor(BitsOf(m, 16));
    }
  }

  /** The register after i zero bits from all ones, as a number. */
  function AfterZeros(i: nat): nat {
    if i == 0 then 0xFFFF else DivideNat(AfterZeros(i - 1))
  }

  lemma AfterZerosValues()
    ensures AfterZeros(16) == 0xF0B8
  {
    FirstDivisions();
    LastDivisions();
    hide DivideNat;
    assert AfterZeros(1) == 0xFBF7;
    assert AfterZeros(2) == 0xF9F3;
    assert AfterZeros(3) == 0xF8F1;
    assert AfterZeros(4) == 0xF870;
    assert AfterZeros(5) == 0x7C38;
    assert AfterZeros(6) == 0x3E1C;
    assert AfterZeros(7) == 0x1F0E;
    assert AfterZeros(8) == 0xF87;
    assert AfterZeros(9) == 0x83CB;
    assert AfterZeros(10) == 0xC5ED;
    assert AfterZeros(11) == 0xE6FE;
    assert AfterZeros(12) == 0x737F;
    assert AfterZeros(13) == 0xBDB7;
    assert AfterZeros(14) == 0xDAD3;
    assert AfterZeros(15) == 0xE961;
    assert AfterZeros(16) == 0xF0B8;
  }

  lemma FirstDivisions()
    ensures DivideNat(0xFFFF) == 0xFBF7
    ensures DivideNat(0xFBF7) == 0xF9F3
    ensures DivideNat(0xF9F3) == 0xF8F1
    ensures DivideNat(0xF8F1) == 0xF870
    ensures DivideNat(0xF870) == 0x7C38
    ensures DivideNat(0x7C38) == 0x3E1C
    ensures DivideNat(0x3E1C) == 0x1F0E
    ensures DivideNat(0x1F0E) == 0xF87
  {}

  lemma LastDivisions()
    ensures DivideNat(0xF87) == 0x83CB
    ensures DivideNat(0x83CB) == 0xC5ED
    ensures DivideNat(0xC5ED) == 0xE6FE
    ensures DivideNat(0xE6FE) == 0x737F
    ensures DivideNat(0x737F) == 0xBDB7
    ensures DivideNat(0xBDB7) == 0xDAD3
    ensures DivideNat(0xDAD3) == 0xE961
    ensures DivideNat(0xE961) == 0xF0B8
  {}

  lemma AfterZerosStep(i: nat)
    ensures AfterZeros(i) == if i == 0 then 0xFFFF else DivideNat(AfterZeros(i - 1))
  {
    hide DivideNat;
  }

  lemma {:induction false} FeedZeros(i: nat)
    ensures AfterZeros(i) < 0x10000
    ensures Feed(POLY16, Ones(16), Zero(i)) == BitsOf(AfterZeros(i), 16)
  {
    hide *;
    AfterZerosStep(i);
    if i == 0 {
      AllOnes();
      FeedNone(Ones(16));
    } else {
      FeedZeros(i - 1);
      DivideNatBound(AfterZeros(i - 1));
      FeedZeroOnce(Ones(16), i - 1);
      DivideIsNat(AfterZeros(i - 1));
    }
  }

  lemma DivideNatBound(n: nat)
    requires n < 0x10000
    ensures DivideNat(n) < 0x10000
  {}

  lemma {:induction false} AllOnesBits(n: nat)
    ensures BitsOf(Pow2(n) - 1, n) == Ones(n)
  {
    if n == 0 {
    } else {
      AllOnesBits(n - 1);
      assert (Pow2(n) - 1) / 2 == Pow2(n - 1) - 1;
    }
  }

  lemma AllOnes()
    ensures BitsOf(0xFFFF, 16) == Ones(16)
  {
    AllOnesBits(16);
    Pow2Of8();
    Pow2Add(8, 8);
  }

  lemma ResidueValue()
    ensures Feed(POLY16, Ones(16), Zero(16)) == RESIDUE
  {
    hide Feed, BitsOf, AfterZeros;
    FeedZeros(16);
    AfterZerosValues();
  }

  lemma PolyIsOdd()
    ensures POLY16[15]
  {
    hide BitsOf;
    PolyBits();
  }

  // ---------- what the check accepts and rejects ----------

  /** After any body, only the complement of the register leaves the residue. */
  lemma OnlyComplement(r: Vec, t: Vec)
    requires |r| == |t| == 16
    ensures Feed(POLY16, r, t) == RESIDUE <==> t == Complement(r)
  {
    hide Feed, BitsOf;
    var c := Complement(r);
    ResidueValue();
    FeedComplement(POLY16, r, c);
    FeedIsPreload(POLY16, r, t);
    FeedIsPreload(POLY16, r, c);
    assert Pad(t, 16) == t && Pad(c, 16) == c;
    if Feed(POLY16, r, t) == RESIDUE {
      PolyIsOdd();
      SamePreload(Xor(r, t), Xor(r, c), 16);
      forall i | 0 <= i < 16
        ensures t[i] == c[i]
      {
        assert Xor(r, t)[i] == Xor(r, c)[i];
      }
    }
  }

  /** The check accepts exactly the bodies followed by their own bytes. */
  lemma ValidIffFcs(all: seq<byte>)
    ensures ValidFcs(all) <==> |all| >= 2 && all[|all| - 2..] == FcsBytes(all[..|all| - 2])
  {
    hide Feed, BitsOf, AirBits, Complement;
    if |all| >= 2 {
      var body, tail := all[..|all| - 2], all[|all| - 2..];
      assert all == body + tail;
      AirBitsConcat(body, tail);
      FeedSplit(POLY16, Ones(16), AirBits(body), AirBits(tail));
      OnlyComplement(Register(AirBits(body)), AirBits(tail));
      FcsBits(body);
      if AirBits(tail) == AirBits(FcsBytes(body)) {
        AirBitsInjective(tail, FcsBytes(body));
      }
    }
  }

  lemma SamePreload(a: Vec, b: Vec, k: nat)
    requires |a| == |b| == 16 && POLY16[15]
    requires Feed(POLY16, a, Zero(k)) == Feed(POLY16, b, Zero(k))
    ensures a == b
  {
    hide Feed, BitsOf;
    assert Xor(Zero(k), Zero(k)) == Zero(k);
    FeedXor(POLY16, a, b, Zero(k), Zero(k));
    var z := Feed(POLY16, b, Zero(k));
    assert Xor(z, z) == Zero(16);
    FeedInjective(POLY16, Xor(a, b), k);
    forall i | 0 <= i < 16
      ensures a[i] == b[i]
    {
      assert Xor(a, b)[i] == Zero(16)[i];
    }
  }

  /** A body with its own check bytes passes. */
  lemma OwnFcsPasses(body: seq<byte>)
    ensures ValidFcs(body + FcsBytes(body))
  {
    var all := body + FcsBytes(body);
    ValidIffFcs(all);
    assert all[..|all| - 2] == body && all[|all| - 2..] == FcsBytes(body);
  }

  /** No error burst within 16 consecutive bits on the air goes unnoticed. */
  lemma BurstRejected(sent: seq<byte>, received: seq<byte>, e: Vec)
    requires ValidFcs(sent) && |e| == 8 * |sent| && Burst(e, 16)
    requires AirBits(received) == Xor(AirBits(sent), e)
    ensures !ValidFcs(received)
  {
    hide Feed, BitsOf;
    PolyIsOdd();
    BurstChangesRegister(POLY16, Ones(16), AirBits(sent), e);
  }
}
