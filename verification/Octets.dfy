/** Octets as numbers below 256, sent least significant bit first. */
module Octets {
  import opened Arith
  import opened Gf2

  type byte = x: int | 0 <= x < 256

  /** The n low bits of b, lowest first. */
  function BitsOf(b: nat, n: nat): (v: Vec)
    ensures |v| == n
  {
    if n == 0 then [] else [b % 2 == 1] + BitsOf(b / 2, n - 1)
  }

  function ValueOf(v: Vec): (b: nat)
    ensures b < Pow2(|v|)
  {
    if v == [] then 0 else (if v[0] then 1 else 0) + 2 * ValueOf(v[1..])
  }

  lemma {:induction false} ValueOfBits(b: nat, n: nat)
    requires b < Pow2(n)
    ensures ValueOf(BitsOf(b, n)) == b
    decreases n
  {
    if n == 0 {
    } else {
      ValueOfBits(b / 2, n - 1);
      assert BitsOf(b, n)[1..] == BitsOf(b / 2, n - 1);
    }
  }

  lemma {:induction false} BitsOfValue(v: Vec)
    ensures BitsOf(ValueOf(v), |v|) == v
    decreases |v|
  {
    if v == [] {
    } else {
      BitsOfValue(v[1..]);
      assert v == [v[0]] + v[1..];
    }
  }

  /** A bit put in above the others. */
  lemma {:induction false} ValueAppend(v: Vec, b: bool)
    ensures ValueOf(v + [b]) == ValueOf(v) + if b then Pow2(|v|) else 0
    decreases |v|
  {
    if v == [] {
      assert v + [b] == [b] && [b][1..] == [];
    } else {
      assert (v + [b])[1..] == v[1..] + [b];
      ValueAppend(v[1..], b);
    }
  }

  lemma Pow2Of8()
    ensures Pow2(8) == 256
  {
    assert Pow2(4) == 16;
    Pow2Add(4, 4);
  }

  /** The bits of a byte string in the order they go on the air. */
  function AirBits(data: seq<byte>): (v: Vec)
    ensures |v| == 8 * |data|
  {
    if data == [] then [] else BitsOf(data[0], 8) + AirBits(data[1..])
  }

  lemma {:induction false} AirBitsConcat(a: seq<byte>, b: seq<byte>)
    ensures AirBits(a + b) == AirBits(a) + AirBits(b)
    decreases |a|
  {
    if a == [] {
      assert a + b == b;
    } else {
      assert (a + b)[1..] == a[1..] + b;
      AirBitsConcat(a[1..], b);
    }
  }

  lemma AirBitsOne(b: byte)
    ensures AirBits([b]) == BitsOf(b, 8)
  {
    assert [b][1..] == [];
  }

  lemma {:induction false} AirBitsInjective(a: seq<byte>, b: seq<byte>)
    requires AirBits(a) == AirBits(b)
    ensures a == b
    decreases |a|
  {
    assert |a| == |b|;
    if a == [] {
    } else {
      assert AirBits(a)[..8] == BitsOf(a[0], 8) && AirBits(b)[..8] == BitsOf(b[0], 8);
      assert AirBits(a)[8..] == AirBits(a[1..]) && AirBits(b)[8..] == AirBits(b[1..]);
      Pow2Of8();
      ValueOfBits(a[0], 8);
      ValueOfBits(b[0], 8);
      AirBitsInjective(a[1..], b[1..]);
    }
  }
}
