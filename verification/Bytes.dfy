/** Bits of bytes, most significant bit first, and buffers packed from them. */
module Bytes {
  import opened Gf2

  // Byte operations, named so that proofs elsewhere can treat them as black boxes.
  function And8(a: bv8, b: bv8): bv8 { a & b }
  function Or8(a: bv8, b: bv8): bv8 { a | b }
  function Half8(a: bv8): bv8 { a >> 1 }

  /** The byte `0x80 >> k`. */
  function Mask8(k: nat): bv8
    requires k < 8
  {
    if k == 0 then 0x80 else if k == 1 then 0x40 else if k == 2 then 0x20 else if k == 3 then 0x10
    else if k == 4 then 0x08 else if k == 5 then 0x04 else if k == 6 then 0x02 else 0x01
  }

  predicate ByteBit(b: bv8, k: nat)
    requires k < 8
  {
    And8(b, Mask8(k)) != 0
  }

  /** Bit p of a packed buffer. */
  predicate BitAt(a: seq<bv8>, p: nat)
    requires p < 8 * |a|
  {
    ByteBit(a[p / 8], p % 8)
  }

  function Unpack(a: seq<bv8>, n: nat): (v: Vec)
    requires n <= 8 * |a|
    ensures |v| == n
  {
    seq(n, p requires 0 <= p < n => BitAt(a, p))
  }

  lemma ByteOr(b: bv8, j: nat, k: nat)
    requires j < 8 && k < 8
    ensures ByteBit(Or8(b, Mask8(j)), k) == (j == k || ByteBit(b, k))
  {}

  lemma MaskStep(k: nat)
    requires k < 8
    ensures Half8(Mask8(k)) == if k < 7 then Mask8(k + 1) else 0
    ensures Half8(Mask8(k)) == 0 <==> k == 7
  {}

  lemma ByteAnd(a: bv8, b: bv8, k: nat)
    requires k < 8
    ensures ByteBit(And8(a, b), k) == (ByteBit(a, k) && ByteBit(b, k))
  {}

  lemma KeepFive(b: bv8, k: nat)
    requires k < 8
    ensures ByteBit(And8(b, 0xF8), k) == (k < 5 && ByteBit(b, k))
  {}

  lemma ByteOrBits(a: bv8, b: bv8, k: nat)
    requires k < 8
    ensures ByteBit(Or8(a, b), k) == (ByteBit(a, k) || ByteBit(b, k))
  {}

  lemma ZeroByte(k: nat)
    requires k < 8
    ensures !ByteBit(0, k)
  {}

  lemma SameByte(a: bv8, b: bv8)
    requires forall k: nat :: k < 8 ==> ByteBit(a, k) == ByteBit(b, k)
    ensures a == b
  {
    assert ByteBit(a, 0) == ByteBit(b, 0);
    assert ByteBit(a, 1) == ByteBit(b, 1);
    assert ByteBit(a, 2) == ByteBit(b, 2);
    assert ByteBit(a, 3) == ByteBit(b, 3);
    assert ByteBit(a, 4) == ByteBit(b, 4);
    assert ByteBit(a, 5) == ByteBit(b, 5);
    assert ByteBit(a, 6) == ByteBit(b, 6);
    assert ByteBit(a, 7) == ByteBit(b, 7);
  }

  /** A buffer is determined by its bits. */
  lemma SameBytes(a: seq<bv8>, b: seq<bv8>)
    requires |a| == |b|
    requires forall p: nat :: p < 8 * |a| ==> BitAt(a, p) == BitAt(b, p)
    ensures a == b
  {
    hide ByteBit;
    forall i | 0 <= i < |a|
      ensures a[i] == b[i]
    {
      forall k: nat | k < 8
        ensures ByteBit(a[i], k) == ByteBit(b[i], k)
      {
        assert BitAt(a, 8 * i + k) == BitAt(b, 8 * i + k);
      }
      SameByte(a[i], b[i]);
    }
  }

  function ByteVec(b: bv8): (v: Vec)
    ensures |v| == 8
  {
    seq(8, k requires 0 <= k < 8 => ByteBit(b, k))
  }

  /** The byte with the given bits. */
  function ByteOf(v: Vec): bv8
    requires |v| == 8
  {
    (if v[0] then 0x80 else 0) | (if v[1] then 0x40 else 0) | (if v[2] then 0x20 else 0) | (if v[3] then 0x10 else 0) |
    (if v[4] then 0x08 else 0) | (if v[5] then 0x04 else 0) | (if v[6] then 0x02 else 0) | (if v[7] then 0x01 else 0)
  }

  lemma ByteOfBits(v: Vec, k: nat)
    requires |v| == 8 && k < 8
    ensures ByteBit(ByteOf(v), k) == v[k]
  {}

  /** Parity of a byte by halving folds. */
  function Fold8(x: bv8): bool {
    var x4 := x ^ (x >> 4);
    var x2 := x4 ^ (x4 >> 2);
    var x1 := x2 ^ (x2 >> 1);
    x1 & 1 == 1
  }

  lemma FoldIsXor(x: bv8)
    ensures Fold8(x) == (ByteBit(x, 0) != (ByteBit(x, 1) != (ByteBit(x, 2) != (ByteBit(x, 3) !=
                        (ByteBit(x, 4) != (ByteBit(x, 5) != (ByteBit(x, 6) != ByteBit(x, 7))))))))
  {}

  lemma ParityOfEight(v: Vec)
    requires |v| == 8
    ensures Parity(v) == (v[0] != (v[1] != (v[2] != (v[3] != (v[4] != (v[5] != (v[6] != v[7])))))))
  {
    assert v[..7][..6] == v[..6];
    assert v[..6][..5] == v[..5];
    assert v[..5][..4] == v[..4];
    assert v[..4][..3] == v[..3];
    assert v[..3][..2] == v[..2];
    assert v[..2][..1] == v[..1];
    assert v[..1][..0] == [];
    assert Parity(v[..1]) == v[0];
    assert Parity(v[..3]) == ((v[0] != v[1]) != v[2]);
    assert Parity(v[..5]) == ((Parity(v[..3]) != v[3]) != v[4]);
    assert Parity(v[..7]) == ((Parity(v[..5]) != v[5]) != v[6]);
  }

  lemma FoldIsParity(x: bv8)
    ensures Fold8(x) == Parity(ByteVec(x))
  {
    hide Fold8, ByteBit;
    FoldIsXor(x);
    ParityOfEight(ByteVec(x));
  }

  /** One more byte of a packed inner product. */
  lemma DotByte(a: seq<bv8>, b: seq<bv8>, j: nat)
    requires j < |a| && j < |b|
    ensures Dot(Unpack(a, 8 * (j + 1)), Unpack(b, 8 * (j + 1)))
         == (Dot(Unpack(a, 8 * j), Unpack(b, 8 * j)) != Fold8(And8(a[j], b[j])))
  {
    hide Fold8, ByteBit, And8;
    var w := AndVec(Unpack(a, 8 * j), Unpack(b, 8 * j));
    var t := ByteVec(And8(a[j], b[j]));
    forall k: nat | k < 8
      ensures t[k] == (BitAt(a, 8 * j + k) && BitAt(b, 8 * j + k))
    {
      ByteAnd(a[j], b[j], k);
    }
    assert AndVec(Unpack(a, 8 * (j + 1)), Unpack(b, 8 * (j + 1))) == w + t;
    ParitySplit(w, t);
    FoldIsParity(And8(a[j], b[j]));
  }

  /** Setting one bit of a buffer. */
  lemma BufferOr(a: seq<bv8>, i: nat, k: nat, p: nat)
    requires i < |a| && k < 8 && p < 8 * |a|
    ensures BitAt(a[i := Or8(a[i], Mask8(k))], p) == (p == 8 * i + k || BitAt(a, p))
  {
    hide ByteBit, Or8, Mask8;
    if p / 8 == i {
      ByteOr(a[i], k, p % 8);
    }
  }
}
