/** Linear algebra over GF(2) on sequences of bits. */
module Gf2 {
  type Vec = seq<bool>

  function Zero(n: nat): (v: Vec)
    ensures |v| == n
  {
    seq(n, _ => false)
  }

  function Xor(a: Vec, b: Vec): (v: Vec)
    requires |a| == |b|
    ensures |v| == |a|
  {
    seq(|a|, i requires 0 <= i < |a| => a[i] != b[i])
  }

  /** The number of set bits. */
  function Weight(v: Vec): nat {
    if v == [] then 0
    else Weight(v[..|v| - 1]) + if v[|v| - 1] then 1 else 0
  }

  /** The exclusive or of all entries. */
  function Parity(v: Vec): bool {
    v != [] && (Parity(v[..|v| - 1]) != v[|v| - 1])
  }

  function AndVec(a: Vec, b: Vec): (v: Vec)
    requires |a| == |b|
    ensures |v| == |a|
  {
    seq(|a|, i requires 0 <= i < |a| => a[i] && b[i])
  }

  function Dot(a: Vec, b: Vec): bool
    requires |a| == |b|
  {
    Parity(AndVec(a, b))
  }

  predicate Matrix(rows: seq<Vec>, n: nat) {
    forall j :: 0 <= j < |rows| ==> |rows[j]| == n
  }

  function Column(rows: seq<Vec>, n: nat, p: nat): (v: Vec)
    requires Matrix(rows, n) && p < n
    ensures |v| == |rows|
  {
    seq(|rows|, j requires 0 <= j < |rows| => rows[j][p])
  }

  /** The sum of the rows that sel selects. */
  function Comb(rows: seq<Vec>, sel: Vec, n: nat): (v: Vec)
    requires |sel| == |rows| && Matrix(rows, n)
    ensures |v| == n
  {
    seq(n, p requires 0 <= p < n => Dot(sel, Column(rows, n, p)))
  }

  ghost predicate Independent(rows: seq<Vec>, n: nat)
    requires Matrix(rows, n)
  {
    forall sel: Vec :: |sel| == |rows| && Comb(rows, sel, n) == Zero(n) ==> sel == Zero(|rows|)
  }

  ghost predicate InSpan(rows: seq<Vec>, n: nat, v: Vec)
    requires Matrix(rows, n)
  {
    exists sel: Vec :: |sel| == |rows| && Comb(rows, sel, n) == v
  }

  function Swap<T>(s: seq<T>, a: nat, b: nat): (t: seq<T>)
    requires a < |s| && b < |s|
    ensures |t| == |s|
    ensures forall j :: 0 <= j < |t| ==> t[j] == s[if j == a then b else if j == b then a else j]
  {
    s[a := s[b]][b := s[a]]
  }

  function AddRow(rows: seq<Vec>, r: nat, c: nat, n: nat): (s: seq<Vec>)
    requires r < |rows| && c < |rows| && Matrix(rows, n)
    ensures |s| == |rows| && Matrix(s, n)
  {
    rows[r := Xor(rows[r], rows[c])]
  }

  lemma SomeSet(v: Vec) returns (i: nat)
    requires v != Zero(|v|)
    ensures i < |v| && v[i]
  {
    i :| 0 <= i < |v| && v[i] != Zero(|v|)[i];
  }

  // ---------- parity ----------

  lemma {:induction false} ParityZero(n: nat)
    ensures !Parity(Zero(n))
  {
    if n == 0 {
    } else {
      assert Zero(n)[..n - 1] == Zero(n - 1);
      ParityZero(n - 1);
    }
  }

  lemma {:induction false} ParityXor(a: Vec, b: Vec)
    requires |a| == |b|
    ensures Parity(Xor(a, b)) == (Parity(a) != Parity(b))
  {
    if a == [] {
    } else {
      var m := |a| - 1;
      assert Xor(a, b)[..m] == Xor(a[..m], b[..m]);
      ParityXor(a[..m], b[..m]);
    }
  }

  lemma {:induction false} ParityFlip(a: Vec, i: nat)
    requires i < |a|
    ensures Parity(a[i := !a[i]]) == !Parity(a)
  {
    var m := |a| - 1;
    if i == m {
      assert a[i := !a[i]][..m] == a[..m];
    } else {
      assert a[i := !a[i]][..m] == a[..m][i := !a[i]];
      ParityFlip(a[..m], i);
    }
  }

  lemma {:induction false} ParitySplit(a: Vec, b: Vec)
    ensures Parity(a + b) == (Parity(a) != Parity(b))
  {
    if b == [] {
      assert a + b == a;
    } else {
      var m := |b| - 1;
      assert (a + b)[..|a| + m] == a + b[..m];
      ParitySplit(a, b[..m]);
    }
  }

  lemma DotComm(a: Vec, b: Vec)
    requires |a| == |b|
    ensures Dot(a, b) == Dot(b, a)
  {
    assert AndVec(a, b) == AndVec(b, a);
  }

  lemma DotXor(a: Vec, b: Vec, c: Vec)
    requires |a| == |b| == |c|
    ensures Dot(Xor(a, b), c) == (Dot(a, c) != Dot(b, c))
  {
    assert AndVec(Xor(a, b), c) == Xor(AndVec(a, c), AndVec(b, c));
    ParityXor(AndVec(a, c), AndVec(b, c));
  }

  /** An inner product with a unit vector picks one entry. */
  lemma DotUnit(c: Vec, i: nat)
    requires i < |c|
    ensures Dot(Zero(|c|)[i := true], c) == c[i]
  {
    var z := Zero(|c|);
    ParityZero(|c|);
    if c[i] {
      assert AndVec(z[i := true], c) == z[i := !z[i]];
      ParityFlip(z, i);
    } else {
      assert AndVec(z[i := true], c) == z;
    }
  }

  // ---------- combinations ----------

  lemma CombXor(rows: seq<Vec>, s: Vec, t: Vec, n: nat)
    requires |s| == |t| == |rows| && Matrix(rows, n)
    ensures Comb(rows, Xor(s, t), n) == Xor(Comb(rows, s, n), Comb(rows, t, n))
  {
    forall p | 0 <= p < n
      ensures Comb(rows, Xor(s, t), n)[p] == (Comb(rows, s, n)[p] != Comb(rows, t, n)[p])
    {
      DotXor(s, t, Column(rows, n, p));
    }
  }

  lemma CombStepAt(rows: seq<Vec>, sel: Vec, n: nat, m: nat, p: nat)
    requires |sel| == |rows| && Matrix(rows, n) && m < |rows| && p < n
    ensures Matrix(rows[..m + 1], n) && Matrix(rows[..m], n)
    ensures Comb(rows[..m + 1], sel[..m + 1], n)[p]
         == (Comb(rows[..m], sel[..m], n)[p] != (sel[m] && rows[m][p]))
  {
    var v := AndVec(sel[..m + 1], Column(rows[..m + 1], n, p));
    assert v[..m] == AndVec(sel[..m], Column(rows[..m], n, p));
  }

  /** One more row: the step of a loop that accumulates selected rows. */
  lemma CombStep(rows: seq<Vec>, sel: Vec, n: nat, m: nat)
    requires |sel| == |rows| && Matrix(rows, n) && m < |rows|
    ensures Comb(rows[..m + 1], sel[..m + 1], n)
         == if sel[m] then Xor(Comb(rows[..m], sel[..m], n), rows[m])
            else Comb(rows[..m], sel[..m], n)
  {
    var next, was := Comb(rows[..m + 1], sel[..m + 1], n), Comb(rows[..m], sel[..m], n);
    forall p | 0 <= p < n
      ensures next[p] == (was[p] != (sel[m] && rows[m][p]))
    {
      hide *;
      CombStepAt(rows, sel, n, m, p);
    }
    hide Comb;
  }

  lemma CombNone(n: nat)
    ensures Comb([], [], n) == Zero(n)
  {}

  lemma SwapTwice<T>(s: seq<T>, a: nat, b: nat)
    requires a < |s| && b < |s|
    ensures Swap(Swap(s, a, b), a, b) == s
  {}

  lemma SwapTerms(t: Vec, a: nat, b: nat)
    requires a < |t| && b < |t|
    ensures Parity(Swap(t, a, b)) == Parity(t)
  {
    if t[a] == t[b] {
      assert Swap(t, a, b) == t;
    } else {
      ParityFlip(t, a);
      ParityFlip(t[a := !t[a]], b);
      assert Swap(t, a, b) == t[a := !t[a]][b := !t[b]];
    }
  }

  lemma CombSwap(rows: seq<Vec>, sel: Vec, a: nat, b: nat, n: nat)
    requires |sel| == |rows| && Matrix(rows, n) && a < |rows| && b < |rows|
    ensures Matrix(Swap(rows, a, b), n)
    ensures Comb(Swap(rows, a, b), Swap(sel, a, b), n) == Comb(rows, sel, n)
  {
    var rows', sel' := Swap(rows, a, b), Swap(sel, a, b);
    forall p | 0 <= p < n
      ensures Comb(rows', sel', n)[p] == Comb(rows, sel, n)[p]
    {
      var t := AndVec(sel, Column(rows, n, p));
      assert AndVec(sel', Column(rows', n, p)) == Swap(t, a, b);
      SwapTerms(t, a, b);
    }
  }

  /** Adding row c to row r re-expresses every combination. */
  lemma CombAddRow(rows: seq<Vec>, sel: Vec, r: nat, c: nat, n: nat)
    requires |sel| == |rows| && Matrix(rows, n) && r < |rows| && c < |rows| && r != c
    ensures Comb(AddRow(rows, r, c, n), sel, n) == Comb(rows, sel[c := sel[c] != sel[r]], n)
  {
    var rows', sel' := AddRow(rows, r, c, n), sel[c := sel[c] != sel[r]];
    forall p | 0 <= p < n
      ensures Comb(rows', sel, n)[p] == Comb(rows, sel', n)[p]
    {
      var t := AndVec(sel, Column(rows, n, p));
      var t1 := AndVec(sel, Column(rows', n, p));
      var t2 := AndVec(sel', Column(rows, n, p));
      if sel[r] && rows[c][p] {
        assert t1 == t[r := !t[r]];
        assert t2 == t[c := !t[c]];
        ParityFlip(t, r);
        ParityFlip(t, c);
      } else {
        assert t1 == t;
        assert t2 == t;
      }
    }
  }

  lemma SwapKeepsIndependent(rows: seq<Vec>, a: nat, b: nat, n: nat)
    requires Matrix(rows, n) && a < |rows| && b < |rows| && Independent(rows, n)
    ensures Matrix(Swap(rows, a, b), n) && Independent(Swap(rows, a, b), n)
  {
    hide Comb;
    var rows' := Swap(rows, a, b);
    forall sel: Vec | |sel| == |rows| && Comb(rows', sel, n) == Zero(n)
      ensures sel == Zero(|rows|)
    {
      CombSwap(rows, Swap(sel, a, b), a, b, n);
      SwapTwice(sel, a, b);
      assert Swap(Zero(|rows|), a, b) == Zero(|rows|);
    }
  }

  lemma SwapKeepsSpan(rows: seq<Vec>, a: nat, b: nat, n: nat, v: Vec)
    requires Matrix(rows, n) && a < |rows| && b < |rows| && InSpan(rows, n, v)
    ensures Matrix(Swap(rows, a, b), n) && InSpan(Swap(rows, a, b), n, v)
  {
    var sel: Vec :| |sel| == |rows| && Comb(rows, sel, n) == v;
    CombSwap(rows, sel, a, b, n);
  }

  lemma AddKeepsIndependent(rows: seq<Vec>, r: nat, c: nat, n: nat)
    requires Matrix(rows, n) && r < |rows| && c < |rows| && r != c && Independent(rows, n)
    ensures Independent(AddRow(rows, r, c, n), n)
  {
    hide Comb;
    forall sel: Vec | |sel| == |rows| && Comb(AddRow(rows, r, c, n), sel, n) == Zero(n)
      ensures sel == Zero(|rows|)
    {
      CombAddRow(rows, sel, r, c, n);
      var sel' := sel[c := sel[c] != sel[r]];
      assert sel' == Zero(|rows|);
      forall i | 0 <= i < |sel|
        ensures !sel[i]
      {
        assert !sel'[r] && !sel'[c] && !sel'[i];
      }
    }
  }

  lemma AddKeepsSpan(rows: seq<Vec>, r: nat, c: nat, n: nat, v: Vec)
    requires Matrix(rows, n) && r < |rows| && c < |rows| && r != c && InSpan(rows, n, v)
    ensures InSpan(AddRow(rows, r, c, n), n, v)
  {
    var sel: Vec :| |sel| == |rows| && Comb(rows, sel, n) == v;
    var sel' := sel[c := sel[c] != sel[r]];
    CombAddRow(rows, sel', r, c, n);
    assert sel'[c := sel'[c] != sel'[r]] == sel;
  }

  // ---------- more vectors than coordinates are dependent ----------

  ghost predicate SupportedOn(rows: seq<Vec>, n: nat, lo: nat, m: nat)
    requires Matrix(rows, n)
  {
    forall j, p :: 0 <= j < |rows| && 0 <= p < n && rows[j][p] ==> lo <= p < lo + m
  }

  lemma ZeroComb(rows: seq<Vec>, sel: Vec, n: nat, lo: nat)
    requires |sel| == |rows| && Matrix(rows, n) && SupportedOn(rows, n, lo, 0)
    ensures Comb(rows, sel, n) == Zero(n)
  {
    forall p | 0 <= p < n
      ensures !Comb(rows, sel, n)[p]
    {
      assert AndVec(sel, Column(rows, n, p)) == Zero(|sel|);
      ParityZero(|sel|);
    }
  }

  /** One elimination step: clear column q of every row but the last. */
  function ClearColumn(rows: seq<Vec>, n: nat, q: nat): (s: seq<Vec>)
    requires rows != [] && Matrix(rows, n) && q < n
    ensures |s| == |rows| - 1 && Matrix(s, n)
  {
    var last := rows[|rows| - 1];
    seq(|rows| - 1, j requires 0 <= j < |rows| - 1 =>
      if rows[j][q] then Xor(rows[j], last) else rows[j])
  }

  lemma LiftComb(rows: seq<Vec>, n: nat, q: nat, sel: Vec)
    requires rows != [] && Matrix(rows, n) && q < n && |sel| == |rows| - 1
    requires Comb(ClearColumn(rows, n, q), sel, n) == Zero(n)
    ensures Comb(rows, sel + [Dot(sel, Column(rows[..|sel|], n, q))], n) == Zero(n)
  {
    var L := |sel|;
    var us := ClearColumn(rows, n, q);
    var b := Dot(sel, Column(rows[..L], n, q));
    forall p | 0 <= p < n
      ensures !Comb(rows, sel + [b], n)[p]
    {
      var tp := AndVec(sel, Column(rows[..L], n, p));
      var tq := AndVec(sel, Column(rows[..L], n, q));
      var u := AndVec(sel, Column(us, n, p));
      assert !Comb(us, sel, n)[p];
      if rows[L][p] {
        assert u == Xor(tp, tq);
        ParityXor(tp, tq);
      } else {
        assert u == tp;
      }
      assert AndVec(sel + [b], Column(rows, n, p))[..L] == tp;
    }
  }

  lemma {:induction false} Dependent(rows: seq<Vec>, n: nat, lo: nat, m: nat) returns (sel: Vec)
    requires Matrix(rows, n) && |rows| > m && lo + m <= n && SupportedOn(rows, n, lo, m)
    ensures |sel| == |rows| && sel != Zero(|rows|) && Comb(rows, sel, n) == Zero(n)
    decreases m
  {
    if m == 0 {
      sel := Zero(|rows|)[0 := true];
      assert sel[0] && !Zero(|rows|)[0];
      ZeroComb(rows, sel, n, lo);
      return;
    }
    var q := lo + m - 1;
    if forall j :: 0 <= j < |rows| ==> !rows[j][q] {
      sel := Dependent(rows, n, lo, m - 1);
      return;
    }
    var r: nat :| r < |rows| && rows[r][q];
    var L := |rows| - 1;
    var ws := Swap(rows, r, L);
    assert Matrix(ws, n);
    var us := ClearColumn(ws, n, q);
    forall j, p | 0 <= j < |us| && 0 <= p < n && us[j][p]
      ensures lo <= p < lo + (m - 1)
    {
      assert ws[j][p] || ws[L][p];
    }
    var part := Dependent(us, n, lo, m - 1);
    var wsel := part + [Dot(part, Column(ws[..L], n, q))];
    LiftComb(ws, n, q, part);
    assert wsel[..L] == part;
    sel := Swap(wsel, r, L);
    CombSwap(ws, wsel, r, L, n);
    SwapTwice(rows, r, L);
    var i := SomeSet(part);
    assert sel[if i == r then L else i];
  }
}
