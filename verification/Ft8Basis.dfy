/** The most reliable basis of the (174,91) code: positions in reliability
    order, and Gauss-Jordan elimination of the generator onto the first 91. */
module Ft8Basis {
  import opened Gf2
  import opened PackedRow
  import opened Bytes
  import opened Ft8Code

  // ---------- reliability order ----------

  function AbsF(v: real): real {
    if v < 0.0 then -v else v
  }

  /** a is tried before b: more reliable, or equally so and earlier. */
  predicate Before(llr: seq<real>, a: nat, b: nat)
    requires a < |llr| && b < |llr|
  {
    AbsF(llr[a]) > AbsF(llr[b]) || (AbsF(llr[a]) == AbsF(llr[b]) && a < b)
  }

  predicate Below(s: seq<nat>, n: nat) {
    forall p :: 0 <= p < |s| ==> s[p] < n
  }

  predicate Sorted(llr: seq<real>, s: seq<nat>)
    requires Below(s, |llr|)
  {
    forall p, q :: 0 <= p < q < |s| ==> Before(llr, s[p], s[q])
  }

  /** In terms of the squares: no LLR is followed by a stronger one, and of two
      as strong the earlier comes first. */
  lemma SortedBySquares(llr: seq<real>, idx: seq<nat>, p: nat, q: nat)
    requires Below(idx, |llr|) && Sorted(llr, idx) && p < q < |idx|
    ensures var a, b := llr[idx[p]] * llr[idx[p]], llr[idx[q]] * llr[idx[q]];
            a > b || (a == b && idx[p] < idx[q])
  {
    assert Before(llr, idx[p], idx[q]);
    SquareOrder(llr[idx[p]], llr[idx[q]]);
  }

  lemma SquareOrder(x: real, y: real)
    ensures AbsF(x) > AbsF(y) ==> x * x > y * y
    ensures AbsF(x) == AbsF(y) ==> x * x == y * y
  {
    var a, b := AbsF(x), AbsF(y);
    SquareOfAbs(x);
    SquareOfAbs(y);
    if a > b {
      SquareGrows(a, b);
    }
  }

  lemma SquareOfAbs(x: real)
    ensures AbsF(x) * AbsF(x) == x * x && AbsF(x) >= 0.0
  {}

  lemma PositiveTimes(x: real, y: real)
    requires x > 0.0 && y > 0.0
    ensures x * y > 0.0
  {}

  lemma SquareGrows(a: real, b: real)
    requires a > b >= 0.0
    ensures a * a > b * b
  {
    PositiveTimes(a - b, a + b);
    assert (a - b) * (a + b) == a * a - b * b;
  }

  /** idx and inv are mutually inverse permutations of 0..N. */
  predicate Inverse(idx: seq<nat>, inv: seq<nat>) {
    && |idx| == |inv| == N
    && (forall p :: 0 <= p < N ==> idx[p] < N && inv[idx[p]] == p)
    && (forall c :: 0 <= c < N ==> inv[c] < N && idx[inv[c]] == c)
  }

  ghost predicate Permutes(idx: seq<nat>) {
    |idx| == N && Below(idx, N) && exists inv: seq<nat> :: Inverse(idx, inv)
  }

  ghost predicate ReliabilityOrder(llr: seq<real>, idx: seq<nat>)
    requires |llr| == N
  {
    Permutes(idx) && Sorted(llr, idx)
  }

  lemma SwapInverse(idx: seq<nat>, inv: seq<nat>, a: nat, b: nat)
    requires Inverse(idx, inv) && a < N && b < N
    ensures Inverse(Swap(idx, a, b), Swap(inv, idx[a], idx[b]))
  {}

  lemma SwapPermutes(idx: seq<nat>, a: nat, b: nat)
    requires Permutes(idx) && a < N && b < N
    ensures |idx| == N && Permutes(Swap(idx, a, b))
  {
    var inv :| Inverse(idx, inv);
    SwapInverse(idx, inv, a, b);
  }

  /** Places x after every index at least as reliable. */
  function Insert(llr: seq<real>, s: seq<nat>, x: nat): (t: seq<nat>)
    requires x < |llr| && Below(s, |llr|)
    ensures |t| == |s| + 1 && Below(t, |llr|)
    ensures x in t && forall c :: c in s ==> c in t
  {
    var m := |s| - 1;
    if s == [] || AbsF(llr[x]) <= AbsF(llr[s[m]]) then s + [x]
    else
      assert s == s[..m] + [s[m]];
      Insert(llr, s[..m], x) + [s[m]]
  }

  /** The stable sort of 0..m by descending reliability. */
  function SortByReliability(llr: seq<real>, m: nat): (s: seq<nat>)
    requires m <= |llr|
    ensures |s| == m && Below(s, |llr|)
    ensures forall c: nat :: c < m ==> c in s
  {
    if m == 0 then [] else Insert(llr, SortByReliability(llr, m - 1), m - 1)
  }

  lemma {:induction false} InsertSorted(llr: seq<real>, s: seq<nat>, x: nat)
    requires x < |llr| && Below(s, x) && Sorted(llr, s)
    ensures Sorted(llr, Insert(llr, s, x))
  {
    var m := |s| - 1;
    var t := Insert(llr, s, x);
    if s == [] || AbsF(llr[x]) <= AbsF(llr[s[m]]) {
      assert t == s + [x];
      forall p, q | 0 <= p < q < |t|
        ensures Before(llr, t[p], t[q])
      {
        if q == |s| && p < m {
          assert Before(llr, s[p], s[m]);
        }
      }
    } else {
      var u := Insert(llr, s[..m], x);
      InsertSorted(llr, s[..m], x);
      InsertMembers(llr, s[..m], x);
      forall p | 0 <= p < |u|
        ensures Before(llr, u[p], s[m])
      {
        if u[p] != x {
          var i :| 0 <= i < m && s[i] == u[p];
          assert Before(llr, s[i], s[m]);
        }
      }
    }
  }

  lemma {:induction false} InsertMembers(llr: seq<real>, s: seq<nat>, x: nat)
    requires x < |llr| && Below(s, |llr|)
    ensures forall p :: 0 <= p < |s| + 1 ==> Insert(llr, s, x)[p] == x || Insert(llr, s, x)[p] in s
  {
    var m := |s| - 1;
    if s == [] || AbsF(llr[x]) <= AbsF(llr[s[m]]) {
    } else {
      InsertMembers(llr, s[..m], x);
    }
  }

  lemma {:induction false} InsertBelow(llr: seq<real>, s: seq<nat>, x: nat, n: nat)
    requires x < |llr| && Below(s, |llr|) && x < n && Below(s, n)
    ensures Below(Insert(llr, s, x), n)
  {
    var m := |s| - 1;
    if s == [] || AbsF(llr[x]) <= AbsF(llr[s[m]]) {
    } else {
      InsertBelow(llr, s[..m], x, n);
    }
  }

  lemma {:induction false} SortSorted(llr: seq<real>, m: nat)
    requires m <= |llr|
    ensures Below(SortByReliability(llr, m), m) && Sorted(llr, SortByReliability(llr, m))
  {
    hide Insert, Before;
    if m == 0 {
    } else {
      SortSorted(llr, m - 1);
      InsertBelow(llr, SortByReliability(llr, m - 1), m - 1, m);
      InsertSorted(llr, SortByReliability(llr, m - 1), m - 1);
    }
  }

  function IndexOf(s: seq<nat>, c: nat): (p: nat)
    requires c in s
    ensures p < |s| && s[p] == c
  {
    if s[0] == c then 0 else 1 + IndexOf(s[1..], c)
  }

  lemma SortedDistinct(llr: seq<real>, s: seq<nat>, p: nat, q: nat)
    requires Below(s, |llr|) && Sorted(llr, s) && p < |s| && q < |s| && s[p] == s[q]
    ensures p == q
  {}

  function InverseOf(s: seq<nat>, n: nat): (inv: seq<nat>)
    requires forall c: nat :: c < n ==> c in s
    ensures |inv| == n
    ensures forall c: nat :: c < n ==> inv[c] < |s| && s[inv[c]] == c
  {
    seq(n, c requires 0 <= c < n => IndexOf(s, c))
  }

  lemma InverseAt(llr: seq<real>, s: seq<nat>, p: nat)
    requires Below(s, |llr|) && Sorted(llr, s) && p < |s|
    requires forall c: nat :: c < |llr| ==> c in s
    ensures s[p] < |llr| && InverseOf(s, |llr|)[s[p]] == p
  {
    hide Sorted, IndexOf;
    assert s[p] in s;
    SortedDistinct(llr, s, p, IndexOf(s, s[p]));
  }

  lemma SortIsOrder(llr: seq<real>)
    requires |llr| == N
    ensures ReliabilityOrder(llr, SortByReliability(llr, N))
  {
    var s := SortByReliability(llr, N);
    SortSorted(llr, N);
    hide SortByReliability, Sorted, InverseOf, IndexOf, Before;
    var inv := InverseOf(s, N);
    forall p | 0 <= p < N
      ensures s[p] < N && inv[s[p]] == p
    {
      hide *;
      InverseAt(llr, s, p);
    }
    assert Inverse(s, inv);
  }

  // ---------- permuted codewords ----------

  /** Codeword c in permuted order, padded to the row width. */
  function Spread(c: Vec, idx: seq<nat>): (v: Vec)
    requires |c| == N && |idx| == N && Below(idx, N)
    ensures |v| == WIDTH
  {
    seq(WIDTH, p requires 0 <= p < WIDTH => p < N && c[idx[p]])
  }

  function SpreadAll(cw: seq<Vec>, idx: seq<nat>): (rows: seq<Vec>)
    requires Matrix(cw, N) && |idx| == N && Below(idx, N)
    ensures |rows| == |cw| && Matrix(rows, WIDTH)
  {
    seq(|cw|, j requires 0 <= j < |cw| => Spread(cw[j], idx))
  }

  lemma SpreadXor(a: Vec, b: Vec, idx: seq<nat>)
    requires |a| == |b| == N && |idx| == N && Below(idx, N)
    ensures Spread(Xor(a, b), idx) == Xor(Spread(a, idx), Spread(b, idx))
  {}

  lemma SpreadSwap(c: Vec, idx: seq<nat>, a: nat, b: nat)
    requires |c| == N && |idx| == N && Below(idx, N) && a < N && b < N
    ensures Spread(c, Swap(idx, a, b)) == Swap(Spread(c, idx), a, b)
  {}

  lemma SpreadInjective(a: Vec, b: Vec, idx: seq<nat>)
    requires |a| == |b| == N && Permutes(idx) && Spread(a, idx) == Spread(b, idx)
    ensures a == b
  {
    var inv :| Inverse(idx, inv);
    forall c | 0 <= c < N
      ensures a[c] == b[c]
    {
      assert Spread(a, idx)[inv[c]] == Spread(b, idx)[inv[c]];
    }
  }

  lemma SpreadComb(cw: seq<Vec>, sel: Vec, idx: seq<nat>)
    requires Matrix(cw, N) && |sel| == |cw| && |idx| == N && Below(idx, N)
    ensures Comb(SpreadAll(cw, idx), sel, WIDTH) == Spread(Comb(cw, sel, N), idx)
  {
    var rows := SpreadAll(cw, idx);
    forall p | 0 <= p < WIDTH
      ensures Comb(rows, sel, WIDTH)[p] == Spread(Comb(cw, sel, N), idx)[p]
    {
      if p < N {
        assert Column(rows, WIDTH, p) == Column(cw, N, idx[p]);
      } else {
        assert AndVec(sel, Column(rows, WIDTH, p)) == Zero(|sel|);
        ParityZero(|sel|);
      }
    }
  }

  /** The rows of cw are a basis of the code. */
  ghost predicate BasisOfCode(gen: seq<seq<bv8>>, cw: seq<Vec>)
    requires GeneratorTable(gen)
  {
    && |cw| == K && Matrix(cw, N)
    && (forall j :: 0 <= j < K ==> IsCodeword(gen, cw[j]))
    && Independent(cw, N)
    && forall c :: IsCodeword(gen, c) ==> InSpan(cw, N, c)
  }

  lemma GeneratorIsBasis(gen: seq<seq<bv8>>)
    requires GeneratorTable(gen)
    ensures BasisOfCode(gen, UnitCodewords(gen))
  {
    var g := UnitCodewords(gen);
    forall j: nat | j < K
      ensures IsCodeword(gen, g[j])
    {
      UnitIsCodeword(gen, j);
    }
    forall sel: Vec | |sel| == K && Comb(g, sel, N) == Zero(N)
      ensures sel == Zero(K)
    {
      EncodeIsComb(gen, sel);
      assert sel == Encode(gen, sel)[..K] == Zero(N)[..K];
    }
    forall c | IsCodeword(gen, c)
      ensures InSpan(g, N, c)
    {
      EncodeIsComb(gen, c[..K]);
    }
  }

  lemma SwapKeepsBasis(gen: seq<seq<bv8>>, cw: seq<Vec>, a: nat, b: nat)
    requires GeneratorTable(gen) && BasisOfCode(gen, cw) && a < K && b < K
    ensures BasisOfCode(gen, Swap(cw, a, b))
  {
    hide Comb, Independent, InSpan, IsCodeword, Swap;
    SwapKeepsIndependent(cw, a, b, N);
    forall c | IsCodeword(gen, c)
      ensures InSpan(Swap(cw, a, b), N, c)
    {
      SwapKeepsSpan(cw, a, b, N, c);
    }
  }

  lemma AddKeepsBasis(gen: seq<seq<bv8>>, cw: seq<Vec>, r: nat, c: nat)
    requires GeneratorTable(gen) && BasisOfCode(gen, cw) && r < K && c < K && r != c
    ensures BasisOfCode(gen, AddRow(cw, r, c, N))
  {
    hide Comb, Independent, InSpan, IsCodeword;
    AddKeepsIndependent(cw, r, c, N);
    CodewordXor(gen, cw[r], cw[c]);
    forall v | IsCodeword(gen, v)
      ensures InSpan(AddRow(cw, r, c, N), N, v)
    {
      AddKeepsSpan(cw, r, c, N, v);
    }
  }

  // ---------- Gauss-Jordan ----------

  function RowVecs(rows: seq<Row>): (v: seq<Vec>)
    ensures |v| == |rows| && Matrix(v, WIDTH)
  {
    seq(|rows|, j requires 0 <= j < |rows| => Bits(rows[j]))
  }

  /** The packed rows are the basis cw of the code, in the column order idx. */
  ghost predicate Tracks(gen: seq<seq<bv8>>, v: seq<Vec>, idx: seq<nat>, cw: seq<Vec>)
    requires GeneratorTable(gen)
  {
    BasisOfCode(gen, cw) && Permutes(idx) && v == SpreadAll(cw, idx)
  }

  /** The first col columns are those of the identity. */
  ghost predicate Reduced(v: seq<Vec>, col: nat) {
    |v| == K && col <= K && Matrix(v, WIDTH) &&
    forall j, p :: 0 <= j < K && 0 <= p < col ==> v[j][p] == (j == p)
  }

  /** Some row from col on has a bit in column p. */
  ghost predicate HasPivot(v: seq<Vec>, col: nat, p: nat)
    requires Matrix(v, WIDTH) && p < WIDTH
  {
    exists r :: col <= r < |v| && v[r][p]
  }

  /** No pivot is left for column col: not in the column itself, and in no
      column outside the first K. */
  ghost predicate Stuck(v: seq<Vec>, col: nat) {
    |v| == K && col < K && Matrix(v, WIDTH) && !HasPivot(v, col, col) &&
    forall p: nat :: K <= p < WIDTH ==> !HasPivot(v, col, p)
  }

  lemma CombSuffix(rows: seq<Vec>, n: nat, m: nat, sel: Vec)
    requires Matrix(rows, n) && m <= |rows| && |sel| == |rows| - m
    ensures Comb(rows, Zero(m) + sel, n) == Comb(rows[m..], sel, n)
  {
    forall p | 0 <= p < n
      ensures Comb(rows, Zero(m) + sel, n)[p] == Comb(rows[m..], sel, n)[p]
    {
      var t := AndVec(sel, Column(rows[m..], n, p));
      assert AndVec(Zero(m) + sel, Column(rows, n, p)) == Zero(m) + t;
      ParitySplit(Zero(m), t);
      ParityZero(m);
    }
  }

  /** K - col rows supported on K - col - 1 columns are dependent. */
  lemma StuckIsDependent(v: seq<Vec>, col: nat) returns (full: Vec)
    requires Reduced(v, col) && Stuck(v, col)
    ensures |full| == K && full != Zero(K) && Comb(v, full, WIDTH) == Zero(WIDTH)
  {
    forall j, p | 0 <= j < K - col && 0 <= p < WIDTH && v[col..][j][p]
      ensures col + 1 <= p < K
    {
      assert v[col + j][p];
      assert HasPivot(v, col, p);
    }
    var sel := Dependent(v[col..], WIDTH, col + 1, K - 1 - col);
    full := Zero(col) + sel;
    CombSuffix(v, WIDTH, col, sel);
    var i := SomeSet(sel);
    assert full[col + i];
  }

  /** The search for a replacement column cannot fail. */
  lemma NeverStuck(gen: seq<seq<bv8>>, v: seq<Vec>, idx: seq<nat>, cw: seq<Vec>, col: nat)
    requires GeneratorTable(gen) && Tracks(gen, v, idx, cw) && Reduced(v, col)
    ensures !Stuck(v, col)
  {
    hide Comb, Spread, Reduced, Stuck;
    if Stuck(v, col) {
      var full := StuckIsDependent(v, col);
      SpreadComb(cw, full, idx);
      SpreadZero(idx);
      SpreadInjective(Comb(cw, full, N), Zero(N), idx);
    }
  }

  lemma SpreadZero(idx: seq<nat>)
    requires |idx| == N && Below(idx, N)
    ensures Spread(Zero(N), idx) == Zero(WIDTH)
  {}

  // ---------- which columns can extend the basis, without the matrix ----------

  /** Position idx[p] is not determined by the positions idx[0..col]. */
  ghost predicate Usable(gen: seq<seq<bv8>>, idx: seq<nat>, col: nat, p: nat)
    requires GeneratorTable(gen) && |idx| == N && Below(idx, N) && col <= K && p < N
  {
    exists c: Vec :: IsCodeword(gen, c) && c[idx[p]] && forall q :: 0 <= q < col ==> !c[idx[q]]
  }

  /** The greedy choice for column col: keep it if it is usable, else exchange
      it with the first usable position outside the first K. */
  ghost predicate NextOrder(gen: seq<seq<bv8>>, idx: seq<nat>, col: nat, next: seq<nat>)
    requires GeneratorTable(gen) && |idx| == N && Below(idx, N) && col < K
  {
    if Usable(gen, idx, col, col) then next == idx
    else exists p: nat :: K <= p < N && Usable(gen, idx, col, p) && next == Swap(idx, col, p)
                       && forall q: nat :: K <= q < p ==> !Usable(gen, idx, col, q)
  }

  /** idx is what the greedy choices for columns 0..col make of idx0. */
  ghost predicate GreedyOrder(gen: seq<seq<bv8>>, idx0: seq<nat>, col: nat, idx: seq<nat>)
    requires GeneratorTable(gen) && col <= K
  {
    exists path: seq<seq<nat>> :: GreedyPath(gen, idx0, col, idx, path)
  }

  /** The orders after each column, every one chosen greedily from the last. */
  ghost predicate GreedyPath(gen: seq<seq<bv8>>, idx0: seq<nat>, col: nat, idx: seq<nat>, path: seq<seq<nat>>)
    requires GeneratorTable(gen) && col <= K
  {
    |path| == col + 1 && path[0] == idx0 && path[col] == idx &&
    forall c: nat :: c < col ==> |path[c]| == N && Below(path[c], N) && NextOrder(gen, path[c], c, path[c + 1])
  }

  lemma PivotIsUsable(gen: seq<seq<bv8>>, v: seq<Vec>, idx: seq<nat>, cw: seq<Vec>, col: nat, p: nat)
    requires GeneratorTable(gen) && Tracks(gen, v, idx, cw) && Reduced(v, col) && p < N
    requires HasPivot(v, col, p)
    ensures Usable(gen, idx, col, p)
  {
    hide Independent, InSpan, IsCodeword;
    var r :| col <= r < |v| && v[r][p];
    var c := cw[r];
    assert IsCodeword(gen, c) && c[idx[p]];
    forall q | 0 <= q < col
      ensures !c[idx[q]]
    {
      assert v[r][q] == c[idx[q]];
    }
  }

  lemma UsableIsPivot(gen: seq<seq<bv8>>, v: seq<Vec>, idx: seq<nat>, cw: seq<Vec>, col: nat, p: nat)
    requires GeneratorTable(gen) && Tracks(gen, v, idx, cw) && Reduced(v, col) && p < N
    requires Usable(gen, idx, col, p)
    ensures HasPivot(v, col, p)
  {
    hide Independent, Comb, IsCodeword;
    var c: Vec :| IsCodeword(gen, c) && c[idx[p]] && forall q :: 0 <= q < col ==> !c[idx[q]];
    assert InSpan(cw, N, c);
    var sel: Vec :| |sel| == K && Comb(cw, sel, N) == c;
    SpreadComb(cw, sel, idx);
    var s := Spread(c, idx);
    assert s[p] && forall q :: 0 <= q < col ==> !s[q];
    SomePivot(v, col, p, sel);
  }

  lemma SomePivot(v: seq<Vec>, col: nat, p: nat, sel: Vec)
    requires Reduced(v, col) && |sel| == K && p < WIDTH && Comb(v, sel, WIDTH)[p]
    requires forall q :: 0 <= q < col ==> !Comb(v, sel, WIDTH)[q]
    ensures HasPivot(v, col, p)
  {
    forall q: nat | q < col
      ensures !sel[q]
    {
      ReducedComb(v, col, sel, q);
    }
    ParityZero(K);
    var t := AndVec(sel, Column(v, WIDTH, p));
    var i := SomeSet(t);
    assert v[i][p];
  }

  /** A column is usable exactly when a remaining row has a bit in it. */
  lemma UsableIffPivot(gen: seq<seq<bv8>>, v: seq<Vec>, idx: seq<nat>, cw: seq<Vec>, col: nat, p: nat)
    requires GeneratorTable(gen) && Tracks(gen, v, idx, cw) && Reduced(v, col) && p < N
    ensures Usable(gen, idx, col, p) <==> HasPivot(v, col, p)
  {
    assert |idx| == N && Below(idx, N);
    hide Tracks, Reduced, Usable, HasPivot;
    if HasPivot(v, col, p) {
      PivotIsUsable(gen, v, idx, cw, col, p);
    }
    if Usable(gen, idx, col, p) {
      UsableIsPivot(gen, v, idx, cw, col, p);
    }
  }

  /** In a reduced matrix the selection shows in the first columns. */
  lemma ReducedComb(v: seq<Vec>, col: nat, sel: Vec, q: nat)
    requires Reduced(v, col) && |sel| == K && q < col
    ensures Comb(v, sel, WIDTH)[q] == sel[q]
  {
    assert Column(v, WIDTH, q) == Zero(K)[q := true];
    DotComm(sel, Column(v, WIDTH, q));
    DotUnit(sel, q);
  }

  // ---------- what each elementary step keeps ----------

  function SwapColumns(v: seq<Vec>, a: nat, b: nat): (w: seq<Vec>)
    requires Matrix(v, WIDTH) && a < WIDTH && b < WIDTH
    ensures |w| == |v| && Matrix(w, WIDTH)
  {
    seq(|v|, j requires 0 <= j < |v| => Swap(v[j], a, b))
  }

  lemma SwapColumnsTracks(gen: seq<seq<bv8>>, v: seq<Vec>, idx: seq<nat>, cw: seq<Vec>, a: nat, b: nat)
    requires GeneratorTable(gen) && Tracks(gen, v, idx, cw) && a < N && b < N
    ensures Matrix(v, WIDTH) && Tracks(gen, SwapColumns(v, a, b), Swap(idx, a, b), cw)
  {
    hide Independent, InSpan, IsCodeword;
    SwapPermutes(idx, a, b);
    forall j | 0 <= j < |v|
      ensures SwapColumns(v, a, b)[j] == SpreadAll(cw, Swap(idx, a, b))[j]
    {
      SpreadSwap(cw[j], idx, a, b);
    }
  }

  lemma SwapRowsTracks(gen: seq<seq<bv8>>, v: seq<Vec>, idx: seq<nat>, cw: seq<Vec>, a: nat, b: nat)
    requires GeneratorTable(gen) && Tracks(gen, v, idx, cw) && a < K && b < K
    ensures |v| == |cw| == K && Tracks(gen, Swap(v, a, b), idx, Swap(cw, a, b))
  {
    hide Independent, InSpan, IsCodeword, Spread;
    SwapKeepsBasis(gen, cw, a, b);
    assert Swap(v, a, b) == SpreadAll(Swap(cw, a, b), idx);
  }

  lemma AddRowTracks(gen: seq<seq<bv8>>, v: seq<Vec>, idx: seq<nat>, cw: seq<Vec>, r: nat, c: nat)
    requires GeneratorTable(gen) && Tracks(gen, v, idx, cw) && r < K && c < K && r != c
    ensures |v| == |cw| == K && Matrix(v, WIDTH) && Matrix(cw, N)
    ensures Tracks(gen, AddRow(v, r, c, WIDTH), idx, AddRow(cw, r, c, N))
  {
    hide Independent, InSpan, IsCodeword, Spread;
    AddKeepsBasis(gen, cw, r, c);
    SpreadXor(cw[r], cw[c], idx);
    assert AddRow(v, r, c, WIDTH) == SpreadAll(AddRow(cw, r, c, N), idx);
  }

  lemma SwapColumnsReduced(v: seq<Vec>, col: nat, p: nat)
    requires Reduced(v, col) && col <= p < WIDTH
    ensures Reduced(SwapColumns(v, col, p), col)
  {}

  lemma SwapColumnsPivot(v: seq<Vec>, col: nat, p: nat)
    requires Reduced(v, col) && col <= p < WIDTH && HasPivot(v, col, p)
    ensures HasPivot(SwapColumns(v, col, p), col, col)
  {
    var r :| col <= r < |v| && v[r][p];
    assert SwapColumns(v, col, p)[r][col];
  }

  lemma SwapRowsReduced(v: seq<Vec>, col: nat, r: nat)
    requires Reduced(v, col) && col <= r < K
    ensures Reduced(Swap(v, col, r), col)
  {}

  lemma AddRowReduced(v: seq<Vec>, col: nat, r: nat)
    requires Reduced(v, col) && col < K && r < K && r != col
    ensures Reduced(AddRow(v, r, col, WIDTH), col)
  {}

  /** Column col after rows 0..r have been cleared. */
  ghost predicate Cleared(v: seq<Vec>, col: nat, r: nat) {
    |v| == K && Matrix(v, WIDTH) && col < K && r <= K &&
    v[col][col] && forall j :: 0 <= j < r && j != col ==> !v[j][col]
  }

  lemma ClearedNone(v: seq<Vec>, col: nat)
    requires |v| == K && Matrix(v, WIDTH) && col < K && v[col][col]
    ensures Cleared(v, col, 0)
  {}

  lemma ClearOne(v: seq<Vec>, col: nat, r: nat)
    requires Cleared(v, col, r) && r < K
    ensures Cleared(if r != col && v[r][col] then AddRow(v, r, col, WIDTH) else v, col, r + 1)
  {}

  lemma ClearedReduced(v: seq<Vec>, col: nat)
    requires Reduced(v, col) && Cleared(v, col, K)
    ensures Reduced(v, col + 1)
  {}

  lemma TracksShape(gen: seq<seq<bv8>>, v: seq<Vec>, idx: seq<nat>, cw: seq<Vec>)
    requires GeneratorTable(gen) && Tracks(gen, v, idx, cw)
    ensures |cw| == K && Matrix(cw, N) && Permutes(idx) && |idx| == N && Below(idx, N)
  {}

  // ---------- the elimination, in place ----------

  /** Generator rows with their columns in the order idx. */
  method BuildRows(gen: seq<seq<bv8>>, idx: seq<nat>, rows: array<Row>)
    requires GeneratorTable(gen) && |idx| == N && Below(idx, N) && rows.Length == K
    modifies rows
    ensures RowVecs(rows[..]) == SpreadAll(UnitCodewords(gen), idx)
  {
    hide SetBit, Bit, BitAt;
    for j := 0 to K
      invariant forall i :: 0 <= i < j ==> Bits(rows[i]) == Spread(UnitCodeword(gen, i), idx)
    {
      rows[j] := EMPTY;
      EmptyBits();
      ghost var goal := Spread(UnitCodeword(gen, j), idx);
      for p := 0 to N
        invariant forall q :: 0 <= q < WIDTH ==> Bits(rows[j])[q] == (q < p && goal[q])
        invariant forall i :: 0 <= i < j ==> Bits(rows[i]) == Spread(UnitCodeword(gen, i), idx)
      {
        var c := idx[p];
        assert goal[p] == UnitCodeword(gen, j)[c];
        if c == j || (c >= K && GenMessageBit(gen, c - K, j)) {
          SetBitBits(rows[j], p);
          rows[j] := SetBit(rows[j], p);
        }
      }
      assert Bits(rows[j]) == goal;
    }
    forall j | 0 <= j < K
      ensures RowVecs(rows[..])[j] == SpreadAll(UnitCodewords(gen), idx)[j]
    {}
  }

  /** Exchanges columns a and b of every row. */
  method SwapCol(rows: array<Row>, idx: array<nat>, a: nat, b: nat)
    requires rows.Length == K && idx.Length == N && a < N && b < N
    modifies rows, idx
    ensures RowVecs(rows[..]) == SwapColumns(old(RowVecs(rows[..])), a, b)
    ensures idx[..] == Swap(old(idx[..]), a, b)
  {
    hide Flip, Bits;
    for r := 0 to K
      invariant forall j :: 0 <= j < r ==> Bits(rows[j]) == Swap(Bits(old(rows[j])), a, b)
      invariant forall j :: r <= j < K ==> rows[j] == old(rows[j])
      invariant idx[..] == old(idx[..])
    {
      SwapColRow(rows[r], a, b);
      if Bit(rows[r], a) != Bit(rows[r], b) {
        rows[r] := Flip(rows[r], a);
        rows[r] := Flip(rows[r], b);
      }
    }
    idx[a], idx[b] := idx[b], idx[a];
  }

  lemma SwapColRow(r: Row, a: nat, b: nat)
    requires a < N && b < N
    ensures Bits(if Bit(r, a) != Bit(r, b) then Flip(Flip(r, a), b) else r) == Swap(Bits(r), a, b)
  {
    hide Flip, Bit;
    FlipBits(r, a);
    FlipBits(Flip(r, a), b);
    assert Bits(r)[a] == Bit(r, a) && Bits(r)[b] == Bit(r, b);
    if Bit(r, a) != Bit(r, b) {
      assert Bits(Flip(r, a))[b] == Bit(Flip(r, a), b);
    }
  }

  lemma BitsAt(r: Row, p: nat)
    requires p < WIDTH
    ensures Bits(r)[p] == Bit(r, p)
  {}

  /** The first row at or below col with a bit in column p, if any. */
  method FindPivot(rows: array<Row>, col: nat, p: nat) returns (pivot: int)
    requires rows.Length == K && col < K && p < N
    ensures pivot == -1 || (col <= pivot < K && RowVecs(rows[..])[pivot][p])
    ensures pivot == -1 <==> !HasPivot(RowVecs(rows[..]), col, p)
  {
    hide Bit, Bits;
    for r := col to K
      invariant forall q :: col <= q < r ==> !Bits(rows[q])[p]
    {
      BitsAt(rows[r], p);
      if Bit(rows[r], p) {
        return r;
      }
    }
    return -1;
  }

  /** Clears column col from every row but row col. */
  method Eliminate(gen: seq<seq<bv8>>, rows: array<Row>, col: nat, idx: seq<nat>, ghost cw0: seq<Vec>)
    returns (ghost cw: seq<Vec>)
    requires GeneratorTable(gen) && rows.Length == K && col < K && Tracks(gen, RowVecs(rows[..]), idx, cw0)
    requires Reduced(RowVecs(rows[..]), col) && RowVecs(rows[..])[col][col]
    modifies rows
    ensures Tracks(gen, RowVecs(rows[..]), idx, cw)
    ensures Reduced(RowVecs(rows[..]), col + 1)
  {
    assert K == 91 && N == 174 && WIDTH == 192;
    hide *;
    ClearedNone(RowVecs(rows[..]), col);
    cw := cw0;
    TracksShape(gen, RowVecs(rows[..]), idx, cw);
    for r := 0 to K
      invariant |cw| == K && Matrix(cw, N) && Tracks(gen, RowVecs(rows[..]), idx, cw)
      invariant Reduced(RowVecs(rows[..]), col)
      invariant Cleared(RowVecs(rows[..]), col, r)
    {
      ghost var v := RowVecs(rows[..]);
      RowBit(rows[..], r, col);
      ClearOne(v, col, r);
      if r != col && Bit(rows[r], col) {
        AddRowTracks(gen, v, idx, cw, r, col);
        AddRowReduced(v, col, r);
        AddRowVecs(rows[..], r, col);
        cw := AddRow(cw, r, col, N);
        ghost var next := rows[..][r := XorRow(rows[r], rows[col])];
        rows[r] := XorRow(rows[r], rows[col]);
        assert rows[..] == next;
      }
    }
    ClearedReduced(RowVecs(rows[..]), col);
  }

  lemma RowBit(rows: seq<Row>, r: nat, p: nat)
    requires r < |rows| && p < WIDTH
    ensures RowVecs(rows)[r][p] == Bit(rows[r], p)
  {}

  lemma AddRowVecs(rows: seq<Row>, r: nat, c: nat)
    requires r < |rows| && c < |rows|
    ensures RowVecs(rows[r := XorRow(rows[r], rows[c])]) == AddRow(RowVecs(rows), r, c, WIDTH)
  {
    hide Bits, XorRow;
    XorRowBits(rows[r], rows[c]);
  }

  /** The first column outside the basis with a bit in a remaining row, or N. */
  method FindReplacement(rows: array<Row>, col: nat) returns (p: nat)
    requires rows.Length == K && col < K
    ensures K <= p <= N && forall q: nat :: K <= q < p ==> !HasPivot(RowVecs(rows[..]), col, q)
    ensures p < N ==> HasPivot(RowVecs(rows[..]), col, p)
  {
    hide HasPivot, RowVecs;
    p := K;
    while p < N
      invariant K <= p <= N && forall q: nat :: K <= q < p ==> !HasPivot(RowVecs(rows[..]), col, q)
    {
      var r := FindPivot(rows, col, p);
      if r != -1 {
        return;
      }
      p := p + 1;
    }
  }

  /** Swaps a usable column outside the basis into position col. */
  method ReplaceColumn(gen: seq<seq<bv8>>, rows: array<Row>, idx: array<nat>, col: nat, ghost cw: seq<Vec>)
    returns (found: bool)
    requires GeneratorTable(gen) && rows.Length == K && idx.Length == N && col < K
    requires Tracks(gen, RowVecs(rows[..]), idx[..], cw) && Reduced(RowVecs(rows[..]), col)
    requires !HasPivot(RowVecs(rows[..]), col, col)
    modifies rows, idx
    ensures found && Replaced(gen, cw, col, old(idx[..]), RowVecs(rows[..]), idx[..])
  {
    assert K == 91 && N == 174 && WIDTH == 192;
    hide *;
    ghost var v0, idx0 := RowVecs(rows[..]), idx[..];
    var p := FindReplacement(rows, col);
    found := p < N;
    if found {
      ColumnReplaced(gen, v0, idx0, cw, col, p);
      SwapCol(rows, idx, col, p);
    } else {
      ExhaustedIsStuck(gen, v0, idx0, cw, col);
      NeverStuck(gen, v0, idx0, cw, col);
    }
  }

  /** The state after the greedy choice for column col. */
  ghost predicate Replaced(gen: seq<seq<bv8>>, cw: seq<Vec>, col: nat, idx: seq<nat>, v: seq<Vec>, next: seq<nat>)
    requires GeneratorTable(gen) && col < K
  {
    && Permutes(idx) && NextOrder(gen, idx, col, next)
    && Tracks(gen, v, next, cw) && Reduced(v, col) && HasPivot(v, col, col)
  }

  lemma ColumnReplaced(gen: seq<seq<bv8>>, v: seq<Vec>, idx: seq<nat>, cw: seq<Vec>, col: nat, p: nat)
    requires GeneratorTable(gen) && Tracks(gen, v, idx, cw) && Reduced(v, col) && col < K <= p < N
    requires !HasPivot(v, col, col) && HasPivot(v, col, p)
    requires forall q: nat :: K <= q < p ==> !HasPivot(v, col, q)
    ensures |v| == K && Matrix(v, WIDTH) && |idx| == N
    ensures Replaced(gen, cw, col, idx, SwapColumns(v, col, p), Swap(idx, col, p))
  {
    TracksShape(gen, v, idx, cw);
    hide Tracks, Reduced, HasPivot, NextOrder;
    SwapColumnsTracks(gen, v, idx, cw, col, p);
    SwapColumnsReduced(v, col, p);
    SwapColumnsPivot(v, col, p);
    NextBySwap(gen, v, idx, cw, col, p);
  }

  lemma NextBySwap(gen: seq<seq<bv8>>, v: seq<Vec>, idx: seq<nat>, cw: seq<Vec>, col: nat, p: nat)
    requires GeneratorTable(gen) && Tracks(gen, v, idx, cw) && Reduced(v, col) && col < K <= p < N
    requires !HasPivot(v, col, col) && HasPivot(v, col, p)
    requires forall q: nat :: K <= q < p ==> !HasPivot(v, col, q)
    ensures NextOrder(gen, idx, col, Swap(idx, col, p))
  {
    assert |idx| == N && Below(idx, N);
    hide Tracks, Reduced, Usable, HasPivot;
    UsableIffPivot(gen, v, idx, cw, col, col);
    UsableIffPivot(gen, v, idx, cw, col, p);
    forall q: nat | K <= q < p
      ensures !Usable(gen, idx, col, q)
    {
      UsableIffPivot(gen, v, idx, cw, col, q);
    }
  }

  lemma ExhaustedIsStuck(gen: seq<seq<bv8>>, v: seq<Vec>, idx: seq<nat>, cw: seq<Vec>, col: nat)
    requires GeneratorTable(gen) && Tracks(gen, v, idx, cw) && Matrix(v, WIDTH) && col < K
    requires !HasPivot(v, col, col) && forall p: nat :: K <= p < N ==> !HasPivot(v, col, p)
    ensures Stuck(v, col)
  {
    forall p: nat | N <= p < WIDTH
      ensures !HasPivot(v, col, p)
    {}
  }

  /** A row with a bit in column col, after a column replacement if need be;
      -1, which the search never returns, stands for a singular matrix. */
  method ChoosePivot(gen: seq<seq<bv8>>, rows: array<Row>, idx: array<nat>, col: nat, ghost cw: seq<Vec>)
    returns (pivot: int)
    requires GeneratorTable(gen) && rows.Length == K && idx.Length == N && col < K
    requires Tracks(gen, RowVecs(rows[..]), idx[..], cw) && Reduced(RowVecs(rows[..]), col)
    modifies rows, idx
    ensures col <= pivot < K && RowVecs(rows[..])[pivot][col]
    ensures Permutes(old(idx[..])) && NextOrder(gen, old(idx[..]), col, idx[..])
    ensures Tracks(gen, RowVecs(rows[..]), idx[..], cw) && Reduced(RowVecs(rows[..]), col)
  {
    hide Tracks, RowVecs, Reduced, Usable, HasPivot;
    TracksShape(gen, RowVecs(rows[..]), idx[..], cw);
    UsableIffPivot(gen, RowVecs(rows[..]), idx[..], cw, col, col);
    pivot := FindPivot(rows, col, col);
    if pivot == -1 {
      hide NextOrder;
      var found := ReplaceColumn(gen, rows, idx, col, cw);
      if found {
        pivot := FindPivot(rows, col, col);
      }
    }
  }

  /** Moves the pivot row into place. */
  method PlacePivot(gen: seq<seq<bv8>>, rows: array<Row>, idx: seq<nat>, col: nat, pivot: nat,
                    ghost cw0: seq<Vec>) returns (ghost cw: seq<Vec>)
    requires GeneratorTable(gen) && rows.Length == K && col <= pivot < K && RowVecs(rows[..])[pivot][col]
    requires Tracks(gen, RowVecs(rows[..]), idx, cw0) && Reduced(RowVecs(rows[..]), col)
    modifies rows
    ensures RowVecs(rows[..])[col][col]
    ensures Tracks(gen, RowVecs(rows[..]), idx, cw) && Reduced(RowVecs(rows[..]), col)
  {
    hide Tracks, RowVecs, Reduced;
    ghost var v := RowVecs(rows[..]);
    SwapRowsTracks(gen, v, idx, cw0, col, pivot);
    SwapRowsReduced(v, col, pivot);
    SwapRowVecs(rows[..], col, pivot);
    cw := Swap(cw0, col, pivot);
    ghost var swapped := Swap(rows[..], col, pivot);
    rows[col], rows[pivot] := rows[pivot], rows[col];
    assert rows[..] == swapped;
  }

  /** Gauss-Jordan: the first K columns become the identity, for some order of
      the positions; no order of the positions makes the search fail. */
  method GaussJordan(gen: seq<seq<bv8>>, rows: array<Row>, idx: array<nat>, ghost cw0: seq<Vec>)
    returns (ok: bool, ghost cw: seq<Vec>)
    requires GeneratorTable(gen) && rows.Length == K && idx.Length == N
    requires Tracks(gen, RowVecs(rows[..]), idx[..], cw0)
    modifies rows, idx
    ensures ok
    ensures Tracks(gen, RowVecs(rows[..]), idx[..], cw) && Reduced(RowVecs(rows[..]), K)
    ensures GreedyOrder(gen, old(idx[..]), K, idx[..])
  {
    NothingReduced(rows[..]);
    NothingChosen(gen, idx[..]);
    hide *;
    cw := cw0;
    for col := 0 to K
      invariant GreedyOrder(gen, old(idx[..]), col, idx[..])
      invariant Tracks(gen, RowVecs(rows[..]), idx[..], cw)
      invariant Reduced(RowVecs(rows[..]), col)
    {
      ghost var before := idx[..];
      var found;
      found, cw := ReduceColumn(gen, rows, idx, col, cw);
      ChosenNext(gen, old(idx[..]), col, before, idx[..]);
      if !found {
        return false, cw;
      }
    }
    return true, cw;
  }

  /** One column: a pivot for it, its row in place, and every other row cleared. */
  method ReduceColumn(gen: seq<seq<bv8>>, rows: array<Row>, idx: array<nat>, col: nat, ghost cw0: seq<Vec>)
    returns (found: bool, ghost cw: seq<Vec>)
    requires GeneratorTable(gen) && rows.Length == K && idx.Length == N && col < K
    requires Tracks(gen, RowVecs(rows[..]), idx[..], cw0) && Reduced(RowVecs(rows[..]), col)
    modifies rows, idx
    ensures found && Permutes(old(idx[..])) && NextOrder(gen, old(idx[..]), col, idx[..])
    ensures Tracks(gen, RowVecs(rows[..]), idx[..], cw) && Reduced(RowVecs(rows[..]), col + 1)
  {
    assert K == 91 && N == 174 && WIDTH == 192;
    hide *;
    cw := cw0;
    var pivot := ChoosePivot(gen, rows, idx, col, cw);
    found := pivot >= 0;
    if found {
      cw := PlacePivot(gen, rows, idx[..], col, pivot, cw);
      cw := Eliminate(gen, rows, col, idx[..], cw);
    }
  }

  lemma NothingReduced(rows: seq<Row>)
    requires |rows| == K
    ensures Reduced(RowVecs(rows), 0)
  {}

  lemma NothingChosen(gen: seq<seq<bv8>>, idx: seq<nat>)
    requires GeneratorTable(gen) && |idx| == N
    ensures GreedyOrder(gen, idx, 0, idx)
  {
    assert GreedyPath(gen, idx, 0, idx, [idx]);
  }

  lemma ChosenNext(gen: seq<seq<bv8>>, idx0: seq<nat>, col: nat, idx: seq<nat>, next: seq<nat>)
    requires GeneratorTable(gen) && col < K && Permutes(idx)
    requires GreedyOrder(gen, idx0, col, idx) && NextOrder(gen, idx, col, next)
    ensures GreedyOrder(gen, idx0, col + 1, next)
  {
    hide NextOrder;
    assert |idx| == N && Below(idx, N);
    var path :| GreedyPath(gen, idx0, col, idx, path);
    assert GreedyPath(gen, idx0, col + 1, next, path + [next]);
  }

  lemma SwapRowVecs(rows: seq<Row>, a: nat, b: nat)
    requires a < |rows| && b < |rows|
    ensures RowVecs(Swap(rows, a, b)) == Swap(RowVecs(rows), a, b)
  {}
}
