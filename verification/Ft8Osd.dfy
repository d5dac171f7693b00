/** Ordered-statistics decoding: re-encode the hard decisions on the most
    reliable basis, then search flips of its weakest positions. */
module Ft8Osd {
  import opened Arith
  import opened Options
  import opened Gf2
  import opened PackedRow
  import opened Ft8Code
  import opened Ft8Basis

  // ---------- what the search is over ----------

  function Hard(llr: seq<real>): (v: Vec)
    ensures |v| == |llr|
  {
    seq(|llr|, i requires 0 <= i < |llr| => llr[i] > 0.0)
  }

  function Distance(a: Vec, b: Vec): nat
    requires |a| == |b|
  {
    Weight(Xor(a, b))
  }

  /** `1 << n` in a 64-bit signed integer. */
  function ShiftOne(n: nat): int {
    if n < 63 then Pow2(n) else if n == 63 then -(Pow2(63) as int) else 0
  }

  /** How many of the weakest basis positions the search flips: the order, cut
      to the basis size; none at all once `1 << order` overflows. */
  function Depth(order: nat): (d: nat)
    ensures d <= K
  {
    var o := if order > K then K else order;
    if o < 63 then o else 0
  }

  ghost predicate Agrees(c: Vec, hard: Vec, basis: seq<nat>, m: nat)
    requires |c| == |hard| == |basis| == N && Below(basis, N) && m <= N
  {
    forall p :: 0 <= p < m ==> c[basis[p]] == hard[basis[p]]
  }

  /** r is a closest codeword to hard among those agreeing with it on the
      first m basis positions. */
  ghost predicate Closest(gen: seq<seq<bv8>>, r: Vec, hard: Vec, basis: seq<nat>, m: nat)
    requires GeneratorTable(gen) && |hard| == |basis| == N && Below(basis, N) && m <= N
  {
    && IsCodeword(gen, r) && Agrees(r, hard, basis, m)
    && forall c: Vec :: IsCodeword(gen, c) && Agrees(c, hard, basis, m) ==> Distance(r, hard) <= Distance(c, hard)
  }

  // ---------- masks and flips ----------

  function Shr(mask: nat, i: nat): nat {
    if i == 0 then mask else Shr(mask / 2, i - 1)
  }

  predicate MaskBit(mask: nat, i: nat) {
    Shr(mask, i) % 2 == 1
  }

  /** v with the weakest basis positions flipped that mask selects. */
  function Flipped(v: Vec, mask: nat, order: nat): (w: Vec)
    requires |v| == WIDTH && order <= K
    ensures |w| == WIDTH
  {
    seq(WIDTH, p requires 0 <= p < WIDTH => v[p] != (K - order <= p < K && MaskBit(mask, K - 1 - p)))
  }

  lemma {:induction false} ShrZero(i: nat)
    ensures !MaskBit(0, i)
  {
    if i == 0 {
    } else {
      ShrZero(i - 1);
    }
  }

  /** The mask of the positions where sel and v differ, from bit i on. */
  function MaskOf(sel: Vec, v: Vec, i: nat, order: nat): (mask: nat)
    requires |sel| == |v| == WIDTH && i <= order <= K
    decreases order - i
  {
    if i == order then 0
    else (if sel[K - 1 - i] != v[K - 1 - i] then 1 else 0) + 2 * MaskOf(sel, v, i + 1, order)
  }

  lemma {:induction false} MaskOfBound(sel: Vec, v: Vec, i: nat, order: nat)
    requires |sel| == |v| == WIDTH && i <= order <= K
    ensures MaskOf(sel, v, i, order) < Pow2(order - i)
    decreases order - i
  {
    if i == order {
    } else {
      MaskOfBound(sel, v, i + 1, order);
    }
  }

  lemma {:induction false} MaskOfBit(sel: Vec, v: Vec, i: nat, order: nat, j: nat)
    requires |sel| == |v| == WIDTH && i + j < order <= K
    ensures MaskBit(MaskOf(sel, v, i, order), j) == (sel[K - 1 - i - j] != v[K - 1 - i - j])
    decreases j
  {
    var m := MaskOf(sel, v, i, order);
    if j == 0 {
    } else {
      MaskOfBit(sel, v, i + 1, order, j - 1);
      assert m / 2 == MaskOf(sel, v, i + 1, order);
    }
  }

  /** Every selection that agrees with v off the weakest positions is a flip of v. */
  lemma FlipsReachAll(sel: Vec, v: Vec, order: nat) returns (mask: nat)
    requires |sel| == |v| == WIDTH && order <= K
    requires forall p :: 0 <= p < K - order || K <= p < WIDTH ==> sel[p] == v[p]
    ensures mask < Pow2(order) && Flipped(v, mask, order) == sel
  {
    hide MaskBit, MaskOf;
    mask := MaskOf(sel, v, 0, order);
    MaskOfBound(sel, v, 0, order);
    forall p | 0 <= p < WIDTH
      ensures Flipped(v, mask, order)[p] == sel[p]
    {
      if K - order <= p < K {
        MaskOfBit(sel, v, 0, order, K - 1 - p);
      }
    }
  }

  lemma FlippedNone(v: Vec, order: nat)
    requires |v| == WIDTH && order <= K
    ensures Flipped(v, 0, order) == v
  {
    forall p | 0 <= p < WIDTH
      ensures Flipped(v, 0, order)[p] == v[p]
    {
      if p < K {
        ShrZero(K - 1 - p);
      }
    }
  }

  /** Flips bit k-1-i of sel for every set bit i of mask. */
  method FlipWeakest(mrb: Row, order: nat, mask: nat) returns (sel: Row)
    requires order <= K
    ensures Bits(sel) == Flipped(Bits(mrb), mask, order)
  {
    hide Bit, SetBit, ClearBit, MaskBit;
    sel := mrb;
    for i := 0 to order
      invariant Bits(sel) == Flipped(Bits(mrb), mask, i)
    {
      if MaskBit(mask, i) {
        var p := K - 1 - i;
        BitsAt(sel, p);
        if Bit(sel, p) {
          ClearBitBits(sel, p);
          sel := ClearBit(sel, p);
        } else {
          SetBitBits(sel, p);
          sel := SetBit(sel, p);
        }
      }
    }
  }

  /** The sum of the rows that sel selects. */
  method EncodeSel(rows: array<Row>, sel: Row) returns (cw: Row)
    requires rows.Length == K
    ensures Bits(cw) == Comb(RowVecs(rows[..]), Bits(sel)[..K], WIDTH)
  {
    hide Bit, Comb, XorRow;
    ghost var v, s := RowVecs(rows[..]), Bits(sel)[..K];
    cw := EMPTY;
    EmptyBits();
    CombNone(WIDTH);
    assert v[..0] == [] && s[..0] == [];
    for j := 0 to K
      invariant Bits(cw) == Comb(v[..j], s[..j], WIDTH)
    {
      CombStep(v, s, WIDTH, j);
      BitsAt(sel, j);
      if Bit(sel, j) {
        XorRowBits(cw, rows[j]);
        cw := XorRow(cw, rows[j]);
      }
    }
    assert v[..K] == v && s[..K] == s;
  }

  /** The candidate of one mask. */
  ghost function Candidate(v: seq<Vec>, mrb: Vec, order: nat, mask: nat): (c: Vec)
    requires |v| == K && Matrix(v, WIDTH) && |mrb| == WIDTH && order <= K
    ensures |c| == WIDTH
  {
    Comb(v, Flipped(mrb, mask, order)[..K], WIDTH)
  }

  /** best is a closest candidate of the masks below m. */
  ghost predicate BestOf(v: seq<Vec>, mrb: Vec, hb: Vec, order: nat, m: nat, best: Vec, w: nat)
    requires |v| == K && Matrix(v, WIDTH) && |mrb| == |hb| == |best| == WIDTH && order <= K
  {
    && w == Distance(best, hb)
    && (exists k: nat :: k < m && best == Candidate(v, mrb, order, k))
    && forall k: nat :: k < m ==> w <= Distance(Candidate(v, mrb, order, k), hb)
  }

  lemma BestOfFirst(v: seq<Vec>, mrb: Vec, hb: Vec, order: nat, best: Vec, w: nat)
    requires |v| == K && Matrix(v, WIDTH) && |mrb| == |hb| == |best| == WIDTH && order <= K
    requires best == Comb(v, mrb[..K], WIDTH) && w == Distance(best, hb)
    ensures BestOf(v, mrb, hb, order, 1, best, w)
  {
    FlippedNone(mrb, order);
    assert best == Candidate(v, mrb, order, 0);
  }

  lemma BestOfStep(v: seq<Vec>, mrb: Vec, hb: Vec, order: nat, m: nat, best: Vec, w: nat, c: Vec, wc: nat)
    requires |v| == K && Matrix(v, WIDTH) && |mrb| == |hb| == |best| == WIDTH && order <= K
    requires BestOf(v, mrb, hb, order, m, best, w)
    requires c == Candidate(v, mrb, order, m) && wc == Distance(c, hb)
    ensures if wc < w then BestOf(v, mrb, hb, order, m + 1, c, wc) else BestOf(v, mrb, hb, order, m + 1, best, w)
  {
    hide Candidate, Distance;
  }

  /** Number of masks the search looks at, the unflipped one included. */
  function MaskCount(order: nat): (m: nat)
    ensures m >= 1
  {
    if ShiftOne(order) < 1 then 1 else ShiftOne(order)
  }

  /** The sweep over all masks. */
  method Sweep(rows: array<Row>, mrb: Row, hb: Row, order: nat) returns (best: Row, bestW: nat)
    requires rows.Length == K && order <= K
    ensures BestOf(RowVecs(rows[..]), Bits(mrb), Bits(hb), order, MaskCount(order), Bits(best), bestW)
  {
    ghost var v := RowVecs(rows[..]);
    best := EncodeSel(rows, mrb);
    bestW := RowWeight(best, hb);
    BestOfFirst(v, Bits(mrb), Bits(hb), order, Bits(best), bestW);
    hide Bits, BestOf, Flipped;
    var mask := 1;
    while mask < ShiftOne(order)
      invariant 1 <= mask <= MaskCount(order)
      invariant BestOf(v, Bits(mrb), Bits(hb), order, mask, Bits(best), bestW)
    {
      var sel := FlipWeakest(mrb, order, mask);
      var cw := EncodeSel(rows, sel);
      var w := RowWeight(cw, hb);
      BestOfStep(v, Bits(mrb), Bits(hb), order, mask, Bits(best), bestW, Bits(cw), w);
      if w < bestW {
        best, bestW := cw, w;
      }
      mask := mask + 1;
    }
  }

  // ---------- distance does not depend on the order of positions ----------

  ghost function Ones(v: Vec): set<nat> {
    set p: nat | p < |v| && v[p]
  }

  lemma {:induction false} WeightIsOnes(v: Vec)
    ensures Weight(v) == |Ones(v)|
  {
    if v == [] {
      assert Ones(v) == {};
    } else {
      var m := |v| - 1;
      WeightIsOnes(v[..m]);
      if v[m] {
        assert Ones(v) == Ones(v[..m]) + {m};
      } else {
        assert Ones(v) == Ones(v[..m]);
      }
    }
  }

  ghost function Image(s: set<nat>, f: seq<nat>): set<nat>
    requires forall p :: p in s ==> p < |f|
  {
    set p | p in s :: f[p]
  }

  lemma {:induction false} ImageSize(s: set<nat>, f: seq<nat>)
    requires forall p :: p in s ==> p < |f|
    requires forall p, q :: p in s && q in s && f[p] == f[q] ==> p == q
    ensures |Image(s, f)| == |s|
  {
    if s == {} {
      assert Image(s, f) == {};
    } else {
      var p :| p in s;
      ImageSize(s - {p}, f);
      assert Image(s, f) == Image(s - {p}, f) + {f[p]};
      assert f[p] !in Image(s - {p}, f);
    }
  }

  lemma SpreadWeight(v: Vec, idx: seq<nat>)
    requires |v| == N && Permutes(idx)
    ensures Weight(Spread(v, idx)) == Weight(v)
  {
    var inv :| Inverse(idx, inv);
    var s := Ones(Spread(v, idx));
    WeightIsOnes(v);
    WeightIsOnes(Spread(v, idx));
    forall p, q | p in s && q in s && idx[p] == idx[q]
      ensures p == q
    {
      assert inv[idx[p]] == p && inv[idx[q]] == q;
    }
    ImageSize(s, idx);
    forall c: nat | c < N && v[c]
      ensures c in Image(s, idx)
    {
      assert idx[inv[c]] == c && inv[c] in s;
    }
    assert Image(s, idx) == Ones(v);
  }

  lemma SpreadDistance(a: Vec, b: Vec, idx: seq<nat>)
    requires |a| == |b| == N && Permutes(idx)
    ensures Distance(Spread(a, idx), Spread(b, idx)) == Distance(a, b)
  {
    SpreadXor(a, b, idx);
    SpreadWeight(Xor(a, b), idx);
  }

  // ---------- candidates and codewords ----------

  /** A codeword is the combination that its first K permuted bits select. */
  lemma CodewordIsSystematic(gen: seq<seq<bv8>>, v: seq<Vec>, idx: seq<nat>, cw: seq<Vec>, c: Vec)
    requires GeneratorTable(gen) && Tracks(gen, v, idx, cw) && Reduced(v, K) && IsCodeword(gen, c)
    ensures Comb(v, Spread(c, idx)[..K], WIDTH) == Spread(c, idx)
  {
    assert InSpan(cw, N, c);
    hide Independent, IsCodeword, Comb, Spread, Reduced;
    var sel: Vec :| |sel| == K && Comb(cw, sel, N) == c;
    SpreadComb(cw, sel, idx);
    forall q: nat | q < K
      ensures sel[q] == Spread(c, idx)[q]
    {
      ReducedComb(v, K, sel, q);
    }
    assert sel == Spread(c, idx)[..K];
  }

  /** Every combination of the rows is a permuted codeword. */
  lemma CombIsCodeword(gen: seq<seq<bv8>>, v: seq<Vec>, idx: seq<nat>, cw: seq<Vec>, sel: Vec)
    requires GeneratorTable(gen) && Tracks(gen, v, idx, cw) && |sel| == K
    ensures |cw| == K && Matrix(cw, N) && IsCodeword(gen, Comb(cw, sel, N))
    ensures Comb(v, sel, WIDTH) == Spread(Comb(cw, sel, N), idx)
  {
    TracksShape(gen, v, idx, cw);
    SpreadComb(cw, sel, idx);
    CombOfCodewords(gen, cw, sel, K);
    assert cw[..K] == cw && sel[..K] == sel;
  }

  lemma {:induction false} CombOfCodewords(gen: seq<seq<bv8>>, cw: seq<Vec>, sel: Vec, m: nat)
    requires GeneratorTable(gen) && |cw| == |sel| && m <= |cw| && Matrix(cw, N)
    requires forall j :: 0 <= j < |cw| ==> IsCodeword(gen, cw[j])
    ensures IsCodeword(gen, Comb(cw[..m], sel[..m], N))
  {
    hide Comb, IsCodeword, Xor, Zero;
    if m == 0 {
      CombNone(N);
      ZeroIsCodeword(gen);
    } else {
      CombOfCodewords(gen, cw, sel, m - 1);
      CombStep(cw, sel, N, m - 1);
      CodewordXor(gen, Comb(cw[..m - 1], sel[..m - 1], N), cw[m - 1]);
    }
  }

  lemma ZeroIsCodeword(gen: seq<seq<bv8>>)
    requires GeneratorTable(gen)
    ensures IsCodeword(gen, Zero(N))
  {
    var c := UnitCodeword(gen, 0);
    UnitIsCodeword(gen, 0);
    CodewordXor(gen, c, c);
    assert Xor(c, c) == Zero(N);
  }

  /** The selection of basis rows that a permuted codeword's own first bits make. */
  function Systematic(s: Vec): (sel: Vec)
    requires |s| == WIDTH
    ensures |sel| == WIDTH && sel[..K] == s[..K]
    ensures forall p :: 0 <= p < WIDTH ==> sel[p] == (p < K && s[p])
  {
    s[..K] + Zero(WIDTH - K)
  }

  lemma SystematicAgrees(c: Vec, hard: Vec, idx: seq<nat>, mrb: Vec, m: nat, p: nat)
    requires |c| == |hard| == |idx| == N && Below(idx, N) && |mrb| == WIDTH && m <= K
    requires forall q :: 0 <= q < WIDTH ==> mrb[q] == (q < K && Spread(hard, idx)[q])
    requires Agrees(c, hard, idx, m) && p < WIDTH && (p < m || K <= p)
    ensures Systematic(Spread(c, idx))[p] == mrb[p]
  {
    if p < K {
      assert c[idx[p]] == hard[idx[p]];
    }
  }

  /** A selection that differs on the weakest positions only is some mask's. */
  lemma SomeMask(sel: Vec, mrb: Vec, order: nat) returns (k: nat)
    requires |sel| == |mrb| == WIDTH && order <= K
    requires forall p :: 0 <= p < WIDTH && (p < K - Depth(order) || K <= p) ==> sel[p] == mrb[p]
    ensures k < MaskCount(order) && Flipped(mrb, k, order) == sel
  {
    hide MaskBit, Flipped;
    if order < 63 {
      k := FlipsReachAll(sel, mrb, order);
    } else {
      k := 0;
      FlippedNone(mrb, order);
      assert sel == mrb;
    }
  }

  /** Every codeword that agrees off the weakest positions is a candidate. */
  lemma AgreeingIsCandidate(gen: seq<seq<bv8>>, v: seq<Vec>, idx: seq<nat>, cw: seq<Vec>, mrb: Vec, hard: Vec,
                            order: nat, c: Vec) returns (k: nat)
    requires GeneratorTable(gen) && Tracks(gen, v, idx, cw) && Reduced(v, K) && IsCodeword(gen, c)
    requires |hard| == N && |idx| == N && Below(idx, N) && |mrb| == WIDTH && order <= K
    requires forall p :: 0 <= p < WIDTH ==> mrb[p] == (p < K && Spread(hard, idx)[p])
    requires Agrees(c, hard, idx, K - Depth(order))
    ensures k < MaskCount(order) && Candidate(v, mrb, order, k) == Spread(c, idx)
  {
    CodewordIsSystematic(gen, v, idx, cw, c);
    hide Tracks, Reduced, Comb, Flipped, Systematic, Spread, Agrees, IsCodeword, MaskCount, Depth;
    var sel := Systematic(Spread(c, idx));
    forall p | 0 <= p < WIDTH && (p < K - Depth(order) || K <= p)
      ensures sel[p] == mrb[p]
    {
      SystematicAgrees(c, hard, idx, mrb, K - Depth(order), p);
    }
    k := SomeMask(sel, mrb, order);
  }

  /** What a finished sweep found, in terms of codewords. */
  lemma SweepFindsClosest(gen: seq<seq<bv8>>, v: seq<Vec>, idx: seq<nat>, cw: seq<Vec>, mrb: Vec, hard: Vec,
                          order: nat, best: Vec, w: nat, r: Vec)
    requires GeneratorTable(gen) && Tracks(gen, v, idx, cw) && Reduced(v, K)
    requires |hard| == |r| == N && |idx| == N && Below(idx, N) && |mrb| == |best| == WIDTH && order <= K
    requires forall p :: 0 <= p < WIDTH ==> mrb[p] == (p < K && Spread(hard, idx)[p])
    requires BestOf(v, mrb, Spread(hard, idx), order, MaskCount(order), best, w)
    requires best == Spread(r, idx)
    ensures Closest(gen, r, hard, idx, K - Depth(order))
  {
    var hb := Spread(hard, idx);
    var k: nat :| k < MaskCount(order) && best == Candidate(v, mrb, order, k);
    var sel := Flipped(mrb, k, order)[..K];
    CombIsCodeword(gen, v, idx, cw, sel);
    TracksShape(gen, v, idx, cw);
    SpreadInjective(r, Comb(cw, sel, N), idx);
    AgreesWhereUnflipped(v, idx, mrb, hard, order, k, r);
    SpreadDistance(r, hard, idx);
    forall c: Vec | IsCodeword(gen, c) && Agrees(c, hard, idx, K - Depth(order))
      ensures Distance(r, hard) <= Distance(c, hard)
    {
      var j := AgreeingIsCandidate(gen, v, idx, cw, mrb, hard, order, c);
      SpreadDistance(c, hard, idx);
      assert w <= Distance(Candidate(v, mrb, order, j), hb);
    }
  }

  lemma AgreesWhereUnflipped(v: seq<Vec>, idx: seq<nat>, mrb: Vec, hard: Vec, order: nat, k: nat, r: Vec)
    requires Reduced(v, K) && |hard| == |r| == N && |idx| == N && Below(idx, N) && |mrb| == WIDTH && order <= K
    requires forall p :: 0 <= p < WIDTH ==> mrb[p] == (p < K && Spread(hard, idx)[p])
    requires k < MaskCount(order) && Candidate(v, mrb, order, k) == Spread(r, idx)
    ensures Agrees(r, hard, idx, K - Depth(order))
  {
    hide Comb, MaskBit;
    if order >= 63 {
      FlippedNone(mrb, order);
    }
    forall p: nat | p < K - Depth(order)
      ensures r[idx[p]] == hard[idx[p]]
    {
      ReducedComb(v, K, Flipped(mrb, k, order)[..K], p);
      assert Spread(r, idx)[p] == Flipped(mrb, k, order)[p] == mrb[p];
    }
  }

  // ---------- the decoder ----------

  /** Permuted hard decisions: bit p says whether LLR idx[p] is positive. */
  method HardRow(llr: seq<real>, idx: seq<nat>) returns (hb: Row)
    requires |llr| == N && |idx| == N && Below(idx, N)
    ensures Bits(hb) == Spread(Hard(llr), idx)
  {
    hide Bit, SetBit;
    hb := EMPTY;
    EmptyBits();
    for p := 0 to N
      invariant forall q :: 0 <= q < WIDTH ==> Bits(hb)[q] == (q < p && Spread(Hard(llr), idx)[q])
    {
      assert Spread(Hard(llr), idx)[p] == (llr[idx[p]] > 0.0);
      if llr[idx[p]] > 0.0 {
        SetBitBits(hb, p);
        hb := SetBit(hb, p);
      }
    }
  }

  /** The hard decisions on the basis. */
  method BasisRow(hb: Row) returns (mrb: Row)
    ensures forall q :: 0 <= q < WIDTH ==> Bits(mrb)[q] == (q < K && Bits(hb)[q])
  {
    hide Bit, SetBit;
    mrb := EMPTY;
    EmptyBits();
    for j := 0 to K
      invariant forall q :: 0 <= q < WIDTH ==> Bits(mrb)[q] == (q < j && Bits(hb)[q])
    {
      BitsAt(hb, j);
      if Bit(hb, j) {
        SetBitBits(mrb, j);
        mrb := SetBit(mrb, j);
      }
    }
  }

  /** Back to original bit order: bits[idx[p]] is bit p. */
  method Unpermute(best: Row, idx: seq<nat>) returns (bits: seq<bool>)
    requires Permutes(idx)
    ensures |bits| == N && forall p :: 0 <= p < N ==> bits[idx[p]] == Bits(best)[p]
  {
    hide Bit;
    ghost var inv :| Inverse(idx, inv);
    bits := Zero(N);
    for p := 0 to N
      invariant |bits| == N
      invariant forall q :: 0 <= q < p ==> bits[idx[q]] == Bits(best)[q]
    {
      BitsAt(best, p);
      assert inv[idx[p]] == p;
      assert forall q :: 0 <= q < p ==> inv[idx[q]] == q;
      bits := bits[idx[p] := Bit(best, p)];
    }
  }

  /** The row Unpermute read back is the codeword in permuted order. */
  lemma UnpermutedSpread(bits: Vec, best: Vec, idx: seq<nat>, c: Vec)
    requires Permutes(idx) && |bits| == |c| == N && |best| == WIDTH && best == Spread(c, idx)
    requires forall p :: 0 <= p < N ==> bits[idx[p]] == best[p]
    ensures bits == c
  {
    var inv :| Inverse(idx, inv);
    forall i | 0 <= i < N
      ensures bits[i] == c[i]
    {
      assert idx[inv[i]] == i;
      assert best[inv[i]] == c[idx[inv[i]]];
    }
  }

  /** The outcome of a decode with the basis order it used. */
  ghost predicate Decoded(gen: seq<seq<bv8>>, llr: seq<real>, order: nat, basis: seq<nat>, r: Vec)
    requires GeneratorTable(gen) && |llr| == N
  {
    && ReliabilityOrder(llr, SortByReliability(llr, N))
    && GreedyOrder(gen, SortByReliability(llr, N), K, basis)
    && Permutes(basis)
    && Closest(gen, r, Hard(llr), basis, K - Depth(order))
  }

  /** Searches the reduced rows. */
  method SearchBasis(gen: seq<seq<bv8>>, llr: seq<real>, rows: array<Row>, idx: seq<nat>, order: nat,
                     ghost cw: seq<Vec>) returns (bits: seq<bool>)
    requires GeneratorTable(gen) && |llr| == N && rows.Length == K
    requires Tracks(gen, RowVecs(rows[..]), idx, cw) && Reduced(RowVecs(rows[..]), K)
    ensures Permutes(idx) && Closest(gen, bits, Hard(llr), idx, K - Depth(order))
  {
    TracksShape(gen, RowVecs(rows[..]), idx, cw);
    hide Tracks, Reduced, BestOf, Closest, Bits, Inverse;
    var hb := HardRow(llr, idx);
    var mrb := BasisRow(hb);
    var cut := if order > K then K else order;
    var best, bestW := Sweep(rows, mrb, hb, cut);
    bits := Unpermute(best, idx);
    ghost var c := BestCodeword(gen, RowVecs(rows[..]), idx, cw, Bits(mrb), Bits(hb), cut, Bits(best), bestW);
    UnpermutedSpread(bits, Bits(best), idx, c);
    SweepFindsClosest(gen, RowVecs(rows[..]), idx, cw, Bits(mrb), Hard(llr), cut, Bits(best), bestW, bits);
    assert Depth(cut) == Depth(order);
  }

  lemma BestCodeword(gen: seq<seq<bv8>>, v: seq<Vec>, idx: seq<nat>, cw: seq<Vec>, mrb: Vec, hb: Vec,
                     order: nat, best: Vec, w: nat) returns (c: Vec)
    requires GeneratorTable(gen) && Tracks(gen, v, idx, cw) && |v| == K && Matrix(v, WIDTH)
    requires |mrb| == |hb| == |best| == WIDTH && order <= K && |idx| == N && Below(idx, N)
    requires BestOf(v, mrb, hb, order, MaskCount(order), best, w)
    ensures |c| == N && best == Spread(c, idx)
  {
    var k: nat :| k < MaskCount(order) && best == Candidate(v, mrb, order, k);
    CombIsCodeword(gen, v, idx, cw, Flipped(mrb, k, order)[..K]);
    c := Comb(cw, Flipped(mrb, k, order)[..K], N);
  }

  // ---------- what was sent comes back ----------

  lemma {:induction false} WeightOfSum(a: Vec, b: Vec)
    requires |a| == |b|
    ensures Weight(Xor(a, b)) <= Weight(a) + Weight(b)
    decreases |a|
  {
    if a == [] {
    } else {
      var m := |a| - 1;
      assert Xor(a, b)[..m] == Xor(a[..m], b[..m]);
      WeightOfSum(a[..m], b[..m]);
    }
  }

  lemma {:induction false} WeightZeroIff(a: Vec)
    ensures Weight(a) == 0 <==> a == Zero(|a|)
    decreases |a|
  {
    if a == [] {
    } else {
      var m := |a| - 1;
      WeightZeroIff(a[..m]);
      assert Zero(|a|)[..m] == Zero(m);
      assert a == a[..m] + [a[m]];
    }
  }

  lemma DistanceZeroIff(a: Vec, b: Vec)
    requires |a| == |b|
    ensures Distance(a, b) == 0 <==> a == b
  {
    hide Weight;
    WeightZeroIff(Xor(a, b));
    if Xor(a, b) == Zero(|a|) {
      forall i | 0 <= i < |a|
        ensures a[i] == b[i]
      {
        assert !Xor(a, b)[i];
      }
    }
    if a == b {
      assert Xor(a, b) == Zero(|a|);
    }
  }

  lemma Triangle(a: Vec, h: Vec, b: Vec)
    requires |a| == |h| == |b|
    ensures Distance(a, b) <= Distance(a, h) + Distance(b, h)
  {
    hide Weight;
    assert Xor(a, b) == Xor(Xor(a, h), Xor(b, h));
    WeightOfSum(Xor(a, h), Xor(b, h));
  }

  /** Positive means one: the signs of an LLR vector. */
  ghost predicate SignsOf(llr: seq<real>, s: Vec) {
    |s| == |llr| && forall i :: 0 <= i < |s| ==> (s[i] <==> llr[i] > 0.0)
  }

  /** No other codeword within d bits of c. */
  ghost predicate Alone(gen: seq<seq<bv8>>, c: Vec, d: nat)
    requires GeneratorTable(gen) && |c| == N
  {
    forall b: Vec :: IsCodeword(gen, b) && b != c ==> Distance(b, c) > d
  }

  /** A codeword whose bits the LLRs have wrong in e places at most, none of
      them among the reliable basis positions, comes back if no other codeword
      lies within 2 e bits of it. */
  lemma SentComesBack(gen: seq<seq<bv8>>, llr: seq<real>, s: Vec, c: Vec, e: nat, order: nat, basis: seq<nat>, r: Vec)
    requires GeneratorTable(gen) && |llr| == N && SignsOf(llr, s) && Decoded(gen, llr, order, basis, r)
    requires IsCodeword(gen, c) && Distance(c, s) <= e && Alone(gen, c, 2 * e)
    requires forall p :: 0 <= p < K - Depth(order) ==> c[basis[p]] == s[basis[p]]
    ensures r == c
  {
    assert |c| == N && |r| == N;
    hide ReliabilityOrder, GreedyOrder, IsCodeword, Distance, Weight;
    assert Hard(llr) == s;
    assert Agrees(c, s, basis, K - Depth(order));
    assert Distance(r, s) <= Distance(c, s);
    Triangle(r, s, c);
  }

  /** A codeword every LLR is right about comes back, whatever the order. */
  lemma CleanComesBack(gen: seq<seq<bv8>>, llr: seq<real>, c: Vec, order: nat, basis: seq<nat>, r: Vec)
    requires GeneratorTable(gen) && |llr| == N && IsCodeword(gen, c) && Decoded(gen, llr, order, basis, r)
    requires SignsOf(llr, c)
    ensures r == c
  {
    hide Weight, ReliabilityOrder, GreedyOrder;
    DistanceZeroIff(c, c);
    forall b: Vec | IsCodeword(gen, b) && b != c
      ensures Distance(b, c) > 0
    {
      DistanceZeroIff(b, c);
    }
    hide IsCodeword, Distance;
    SentComesBack(gen, llr, c, c, 0, order, basis, r);
  }

  lemma CleanAllComeBack(gen: seq<seq<bv8>>, llr: seq<real>, order: nat, basis: seq<nat>, r: Vec)
    requires GeneratorTable(gen) && |llr| == N && Decoded(gen, llr, order, basis, r)
    ensures forall c: Vec :: IsCodeword(gen, c) && SignsOf(llr, c) ==> r == c
  {
    forall c: Vec | IsCodeword(gen, c) && SignsOf(llr, c)
      ensures r == c
    {
      hide *;
      CleanComesBack(gen, llr, c, order, basis, r);
    }
  }

  /** Order-l decoding.  The only way to fail is a codeword that the check
      table rejects, which an orthogonal table never does. */
  method Decode(gen: seq<seq<bv8>>, h: Checks, llr: seq<real>, order: nat)
    returns (r: Option<Vec>, ghost basis: seq<nat>)
    requires GeneratorTable(gen) && CheckTable(h) && |llr| == N
    ensures r.None? ==> !Orthogonal(gen, h)
    ensures r.Some? ==> |r.value| == N && Satisfies(h, r.value) && Decoded(gen, llr, order, basis, r.value)
    ensures Orthogonal(gen, h) ==> forall c: Vec :: IsCodeword(gen, c) && SignsOf(llr, c) ==> r == Some(c)
  {
    var sorted := SortByReliability(llr, N);
    SortIsOrder(llr);
    assert Below(sorted, N);
    hide Satisfies, Closest, IsCodeword, SignsOf;
    var idx := new nat[N](i requires 0 <= i < N => sorted[i]);
    assert idx[..] == sorted;
    var rows := new Row[K](_ => EMPTY);
    BuildRows(gen, sorted, rows);
    GeneratorIsBasis(gen);
    hide BasisOfCode, ReliabilityOrder, GreedyOrder;
    var ok;
    ghost var cw;
    ok, cw := GaussJordan(gen, rows, idx, UnitCodewords(gen));
    basis := idx[..];
    if !ok {
      return None, basis;
    }
    var bits := SearchBasis(gen, llr, rows, idx[..], order, cw);
    ClosestIsCodeword(gen, bits, Hard(llr), basis, K - Depth(order));
    var errors := LdpcCheck(h, bits);
    if errors != 0 {
      if Orthogonal(gen, h) {
        CodewordSatisfies(gen, h, bits);
      }
      return None, basis;
    }
    CleanAllComeBack(gen, llr, order, basis, bits);
    r := Some(bits);
  }

  lemma ClosestIsCodeword(gen: seq<seq<bv8>>, r: Vec, hard: Vec, basis: seq<nat>, m: nat)
    requires GeneratorTable(gen) && |hard| == |basis| == N && Below(basis, N) && m <= N
    requires Closest(gen, r, hard, basis, m)
    ensures IsCodeword(gen, r) && |r| == N
  {}
}
