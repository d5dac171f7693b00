/** The FT8 (174,91) code: packing, the systematic generator, and the sparse
    parity checks.  The published tables are parameters. */
module Ft8Code {
  import opened Gf2
  import opened Bytes

  const N: nat := 174
  const K: nat := 91
  const M: nat := 83

  /** Packs the first numBits bits, most significant first; the rest of the
      buffer is cleared. */
  method PackBits(bits: seq<bool>, numBits: nat, packed: array<bv8>)
    requires numBits <= |bits| && numBits <= 8 * packed.Length
    modifies packed
    ensures forall p: nat :: p < 8 * packed.Length ==> BitAt(packed[..], p) == (p < numBits && bits[p])
  {
    hide ByteBit, Or8, Half8, Mask8;
    for i := 0 to packed.Length
      invariant forall j :: 0 <= j < i ==> packed[j] == 0
    {
      packed[i] := 0;
    }
    forall p: nat | p < 8 * packed.Length
      ensures !BitAt(packed[..], p)
    {
      ZeroByte(p % 8);
    }
    var mask: bv8 := 0x80;
    var byteIdx := 0;
    ghost var k: nat := 0;
    FirstMask();
    for i := 0 to numBits
      invariant i == 8 * byteIdx + k && k < 8 && mask == Mask8(k)
      invariant forall p: nat :: p < 8 * packed.Length ==> BitAt(packed[..], p) == (p < i && bits[p])
    {
      ghost var before := packed[..];
      if bits[i] {
        packed[byteIdx] := Or8(packed[byteIdx], mask);
        forall p: nat | p < 8 * packed.Length
          ensures BitAt(packed[..], p) == (p == i || BitAt(before, p))
        {
          BufferOr(before, byteIdx, k, p);
          assert packed[..] == before[byteIdx := Or8(before[byteIdx], Mask8(k))];
        }
      }
      MaskStep(k);
      mask := Half8(mask);
      k := k + 1;
      if mask == 0 {
        mask := 0x80;
        byteIdx := byteIdx + 1;
        k := 0;
      }
    }
  }

  lemma FirstMask()
    ensures Mask8(0) == 0x80
  {}

  // ---------- the systematic generator ----------

  /** 83 parity rows of 12 packed bytes each. */
  predicate GeneratorTable(gen: seq<seq<bv8>>) {
    |gen| == M && forall i :: 0 <= i < M ==> |gen[i]| == 12
  }

  predicate GenMessageBit(gen: seq<seq<bv8>>, i: nat, j: nat)
    requires GeneratorTable(gen) && i < M && j < K
  {
    BitAt(gen[i], j)
  }

  /** The 174-bit codeword of 91 message bits. */
  function Encode(gen: seq<seq<bv8>>, u: Vec): (c: Vec)
    requires GeneratorTable(gen) && |u| == K
    ensures |c| == N && c[..K] == u
  {
    u + seq(M, i requires 0 <= i < M => Dot(u, Unpack(gen[i], K)))
  }

  predicate IsCodeword(gen: seq<seq<bv8>>, c: Vec)
    requires GeneratorTable(gen)
  {
    |c| == N && c == Encode(gen, c[..K])
  }

  /** Row j of the generator matrix. */
  function UnitCodeword(gen: seq<seq<bv8>>, j: nat): (c: Vec)
    requires GeneratorTable(gen) && j < K
    ensures |c| == N
  {
    seq(N, p requires 0 <= p < N => if p < K then p == j else GenMessageBit(gen, p - K, j))
  }

  function UnitCodewords(gen: seq<seq<bv8>>): (g: seq<Vec>)
    requires GeneratorTable(gen)
    ensures |g| == K && Matrix(g, N)
  {
    seq(K, j requires 0 <= j < K => UnitCodeword(gen, j))
  }

  /** Encoding is the sum of the selected generator rows. */
  lemma EncodeIsComb(gen: seq<seq<bv8>>, u: Vec)
    requires GeneratorTable(gen) && |u| == K
    ensures Comb(UnitCodewords(gen), u, N) == Encode(gen, u)
  {
    hide ByteBit, Dot;
    var g := UnitCodewords(gen);
    forall p | 0 <= p < N
      ensures Comb(g, u, N)[p] == Encode(gen, u)[p]
    {
      if p < K {
        assert Column(g, N, p) == Zero(K)[p := true];
        DotComm(u, Column(g, N, p));
        DotUnit(u, p);
      } else {
        forall j: nat | j < K
          ensures Column(g, N, p)[j] == Unpack(gen[p - K], K)[j]
        {
          assert g[j][p] == GenMessageBit(gen, p - K, j);
        }
        assert Column(g, N, p) == Unpack(gen[p - K], K);
      }
    }
  }

  /** The code is linear. */
  lemma CodewordXor(gen: seq<seq<bv8>>, a: Vec, b: Vec)
    requires GeneratorTable(gen) && IsCodeword(gen, a) && IsCodeword(gen, b)
    ensures IsCodeword(gen, Xor(a, b))
  {
    var g := UnitCodewords(gen);
    EncodeIsComb(gen, a[..K]);
    EncodeIsComb(gen, b[..K]);
    EncodeIsComb(gen, Xor(a[..K], b[..K]));
    CombXor(g, a[..K], b[..K], N);
    assert Xor(a, b)[..K] == Xor(a[..K], b[..K]);
  }

  lemma UnitIsCodeword(gen: seq<seq<bv8>>, j: nat)
    requires GeneratorTable(gen) && j < K
    ensures IsCodeword(gen, UnitCodeword(gen, j))
  {
    hide ByteBit;
    var c := UnitCodeword(gen, j);
    assert c[..K] == Zero(K)[j := true];
    forall p | K <= p < N
      ensures c[p] == Encode(gen, c[..K])[p]
    {
      var row := Unpack(gen[p - K], K);
      DotUnit(row, j);
      assert c[..K] == Zero(|row|)[j := true];
      assert c[p] == GenMessageBit(gen, p - K, j);
      assert Encode(gen, c[..K])[p] == Dot(c[..K], row);
    }
  }

  // ---------- packed encoder ----------

  predicate Copied(message: seq<bv8>, p: nat) {
    p < 8 * |message| && BitAt(message, p)
  }

  predicate PackedParity(gen: seq<seq<bv8>>, message: seq<bv8>, i: nat)
    requires GeneratorTable(gen) && |message| >= 12 && i < M
  {
    Dot(Unpack(message, 96), Unpack(gen[i], 96))
  }

  /** Copies the message and sets the 83 parity bits after bit 90. */
  method Encode174(gen: seq<seq<bv8>>, message: seq<bv8>, codeword: array<bv8>)
    requires GeneratorTable(gen) && |message| >= 12 && codeword.Length >= 22
    modifies codeword
    ensures forall p: nat :: p < 8 * codeword.Length ==>
      BitAt(codeword[..], p) == (Copied(message, p) || (K <= p < N && PackedParity(gen, message, p - K)))
  {
    hide ByteBit, Or8, And8, Half8, Mask8, Fold8, Dot;
    for j := 0 to codeword.Length
      invariant forall i :: 0 <= i < j ==> codeword[i] == if i < |message| then message[i] else 0
    {
      codeword[j] := if j < |message| then message[j] else 0;
    }
    forall p: nat | p < 8 * codeword.Length
      ensures BitAt(codeword[..], p) == Copied(message, p)
    {
      ZeroByte(p % 8);
    }
    var colMask: bv8 := 0x10;
    var colIdx := 11;
    ghost var k: nat := 3;
    FirstParityMask();
    for i := 0 to M
      invariant K + i == 8 * colIdx + k && k < 8 && colMask == Mask8(k)
      invariant forall p: nat :: p < 8 * codeword.Length ==>
        BitAt(codeword[..], p) == (Copied(message, p) || (K <= p < K + i && PackedParity(gen, message, p - K)))
    {
      var nsum := PackedDot(message, gen[i]);
      ghost var before := codeword[..];
      if nsum {
        codeword[colIdx] := Or8(codeword[colIdx], colMask);
        forall p: nat | p < 8 * codeword.Length
          ensures BitAt(codeword[..], p) == (p == K + i || BitAt(before, p))
        {
          BufferOr(before, colIdx, k, p);
          assert codeword[..] == before[colIdx := Or8(before[colIdx], Mask8(k))];
        }
      }
      MaskStep(k);
      colMask := Half8(colMask);
      k := k + 1;
      if colMask == 0 {
        colMask := 0x80;
        colIdx := colIdx + 1;
        k := 0;
      }
    }
  }

  /** The inner loop of the encoder: parity of the first 96 bits of message AND row. */
  method PackedDot(message: seq<bv8>, row: seq<bv8>) returns (nsum: bool)
    requires |message| >= 12 && |row| == 12
    ensures nsum == Dot(Unpack(message, 96), Unpack(row, 96))
  {
    hide ByteBit, And8, Fold8;
    nsum := false;
    for j := 0 to 12
      invariant nsum == Dot(Unpack(message, 8 * j), Unpack(row, 8 * j))
    {
      DotByte(message, row, j);
      nsum := nsum != Fold8(And8(message[j], row[j]));
    }
  }

  lemma FirstParityMask()
    ensures Mask8(3) == 0x10 && Mask8(0) == 0x80
  {}

  /** With the five bits after the message clear, the packed encoder and the
      bit-level generator agree. */
  lemma PackedEncoderAgrees(gen: seq<seq<bv8>>, message: seq<bv8>, codeword: seq<bv8>)
    requires GeneratorTable(gen) && |message| == 12 && |codeword| == 22
    requires forall p: nat :: K <= p < 96 ==> !BitAt(message, p)
    requires forall p: nat :: p < 8 * |codeword| ==>
      BitAt(codeword, p) == (Copied(message, p) || (K <= p < N && PackedParity(gen, message, p - K)))
    ensures Unpack(codeword, N) == Encode(gen, Unpack(message, K))
  {
    hide ByteBit;
    forall i: nat | i < M
      ensures PackedParity(gen, message, i) == Dot(Unpack(message, K), Unpack(gen[i], K))
    {
      assert AndVec(Unpack(message, 96), Unpack(gen[i], 96))
          == AndVec(Unpack(message, K), Unpack(gen[i], K)) + Zero(5);
      ParitySplit(AndVec(Unpack(message, K), Unpack(gen[i], K)), Zero(5));
      ParityZero(5);
    }
  }

  // ---------- sparse parity checks ----------

  /** Row m lists the 1-based positions of check m, numRows[m] of them. */
  datatype Checks = Checks(nm: seq<seq<nat>>, numRows: seq<nat>)

  predicate CheckTable(h: Checks) {
    && |h.nm| == M && |h.numRows| == M
    && forall m :: 0 <= m < M ==>
         h.numRows[m] <= |h.nm[m]| && forall i :: 0 <= i < h.numRows[m] ==> 1 <= h.nm[m][i] <= N
  }

  function CheckBits(h: Checks, m: nat, c: Vec): (v: Vec)
    requires CheckTable(h) && m < M && |c| == N
    ensures |v| == h.numRows[m]
  {
    seq(h.numRows[m], i requires 0 <= i < h.numRows[m] => c[h.nm[m][i] - 1])
  }

  predicate Violated(h: Checks, m: nat, c: Vec)
    requires CheckTable(h) && m < M && |c| == N
  {
    Parity(CheckBits(h, m, c))
  }

  function Violations(h: Checks, c: Vec, upto: nat): nat
    requires CheckTable(h) && upto <= M && |c| == N
  {
    if upto == 0 then 0
    else Violations(h, c, upto - 1) + if Violated(h, upto - 1, c) then 1 else 0
  }

  ghost predicate Satisfies(h: Checks, c: Vec)
    requires CheckTable(h) && |c| == N
  {
    forall m: nat :: m < M ==> !Violated(h, m, c)
  }

  /** Counts the violated checks. */
  method LdpcCheck(h: Checks, bits: Vec) returns (errors: nat)
    requires CheckTable(h) && |bits| == N
    ensures errors == Violations(h, bits, M)
    ensures errors == 0 <==> Satisfies(h, bits)
    ensures errors <= M
  {
    errors := 0;
    for m := 0 to M
      invariant errors == Violations(h, bits, m) && errors <= m
      invariant errors == 0 <==> forall q: nat :: q < m ==> !Violated(h, q, bits)
    {
      var x := false;
      for i := 0 to h.numRows[m]
        invariant x == Parity(CheckBits(h, m, bits)[..i])
      {
        assert CheckBits(h, m, bits)[..i + 1][..i] == CheckBits(h, m, bits)[..i];
        x := x != bits[h.nm[m][i] - 1];
      }
      assert CheckBits(h, m, bits)[..h.numRows[m]] == CheckBits(h, m, bits);
      if x {
        errors := errors + 1;
      }
    }
  }

  /** The check matrix annihilates the generator: H times G transposed is zero. */
  ghost predicate Orthogonal(gen: seq<seq<bv8>>, h: Checks)
    requires GeneratorTable(gen) && CheckTable(h)
  {
    forall j: nat :: j < K ==> Satisfies(h, UnitCodeword(gen, j))
  }

  lemma SatisfiesXor(h: Checks, a: Vec, b: Vec)
    requires CheckTable(h) && |a| == |b| == N && Satisfies(h, a) && Satisfies(h, b)
    ensures Satisfies(h, Xor(a, b))
  {
    forall m: nat | m < M
      ensures !Violated(h, m, Xor(a, b))
    {
      assert !Violated(h, m, a) && !Violated(h, m, b);
      assert CheckBits(h, m, Xor(a, b)) == Xor(CheckBits(h, m, a), CheckBits(h, m, b));
      ParityXor(CheckBits(h, m, a), CheckBits(h, m, b));
    }
  }

  lemma {:induction false} CombSatisfies(h: Checks, rows: seq<Vec>, sel: Vec, m: nat)
    requires CheckTable(h) && |rows| == |sel| && m <= |rows| && Matrix(rows, N)
    requires forall j :: 0 <= j < |rows| ==> Satisfies(h, rows[j])
    ensures Satisfies(h, Comb(rows[..m], sel[..m], N))
  {
    if m == 0 {
      CombNone(N);
      forall q: nat | q < M
        ensures !Violated(h, q, Zero(N))
      {
        assert CheckBits(h, q, Zero(N)) == Zero(h.numRows[q]);
        ParityZero(h.numRows[q]);
      }
    } else {
      CombSatisfies(h, rows, sel, m - 1);
      CombStep(rows, sel, N, m - 1);
      SatisfiesXor(h, Comb(rows[..m - 1], sel[..m - 1], N), rows[m - 1]);
    }
  }

  /** Every codeword passes every check. */
  lemma CodewordSatisfies(gen: seq<seq<bv8>>, h: Checks, c: Vec)
    requires GeneratorTable(gen) && CheckTable(h) && Orthogonal(gen, h) && IsCodeword(gen, c)
    ensures Satisfies(h, c)
  {
    var g := UnitCodewords(gen);
    EncodeIsComb(gen, c[..K]);
    CombSatisfies(h, g, c[..K], K);
    assert g[..K] == g && c[..K][..K] == c[..K];
  }
}
