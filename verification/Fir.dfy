/** Decimating filters fed block by block.  One body serves the three filters,
    over whatever samples and taps multiply and add. */
module Fir {
  import opened Arith
  import opened Complex
  import opened History

  /** How samples X and taps T are weighed and summed. */
  datatype Arithmetic<!X, !T> = Arithmetic(zero: X, add: (X, X) -> X, mul: (X, T) -> X)

  // ---------- the whole stream ----------

  /** The first k terms of the convolution sum at sample n, in order. */
  function Sum<X, T>(a: Arithmetic<X, T>, taps: seq<T>, s: seq<X>, n: nat, k: nat): X
    requires n < |s| && k <= |taps|
  {
    if k == 0 then a.zero else a.add(Sum(a, taps, s, n, k - 1), a.mul(At(a.zero, s, n - (k - 1)), taps[k - 1]))
  }

  /** Every d-th sample of the filtered stream. */
  function Decimated<X, T>(a: Arithmetic<X, T>, taps: seq<T>, d: nat, s: seq<X>): (r: seq<X>)
    requires d > 0
    ensures |r| == |s| / d
  {
    seq(|s| / d, j requires 0 <= j < |s| / d => (Fits(d, j, |s|); Sum(a, taps, s, j * d + d - 1, |taps|)))
  }

  lemma Fits(d: nat, j: nat, n: nat)
    requires d > 0 && j < n / d
    ensures 0 <= j * d + d - 1 < n
  {
    var q, r := n / d, n % d;
    assert n == d * q + r;
    MulLess(d, j, q);
  }

  /** A unit impulse shows the taps one after the other, and then nothing. */
  lemma {:induction false} ImpulseResponse(taps: seq<real>, s: seq<real>, n: nat, k: nat)
    requires n < |s| && k <= |taps| && forall i: nat :: i < |s| ==> s[i] == if i == 0 then 1.0 else 0.0
    ensures Sum(REALS, taps, s, n, k) == if n < k then taps[n] else 0.0
  {
    if k == 0 {
    } else {
      ImpulseResponse(taps, s, n, k - 1);
    }
  }

  /** What comes later does not change an output. */
  lemma {:induction false} SumOfPrefix<X, T>(a: Arithmetic<X, T>, taps: seq<T>, s: seq<X>, more: seq<X>, n: nat, k: nat)
    requires n < |s| && k <= |taps|
    ensures Sum(a, taps, s + more, n, k) == Sum(a, taps, s, n, k)
  {
    if k == 0 {
    } else {
      SumOfPrefix(a, taps, s, more, n, k - 1);
    }
  }

  /** A block's outputs, given all that came before it. */
  function BlockOutputs<X, T>(a: Arithmetic<X, T>, taps: seq<T>, d: nat, s: seq<X>, block: seq<X>): (r: seq<X>)
    requires d > 0
    ensures |r| == |block| / d
  {
    seq(|block| / d, j requires 0 <= j < |block| / d =>
      (Fits(d, j, |block|); Sum(a, taps, s + block, |s| + j * d + d - 1, |taps|)))
  }

  lemma GroupCount(d: nat, m: nat, n: nat)
    requires d > 0 && m % d == 0
    ensures m == d * (m / d) && (m + n) / d == m / d + n / d
  {
    assert m == d * (m / d);
    assert n == d * (n / d) + n % d;
    DivUnique(m + n, d, m / d + n / d, n % d);
  }

  lemma OutputPlace(d: nat, q: nat, i: nat)
    ensures (q + i) * d + d - 1 == d * q + (i * d + d - 1)
  {}

  lemma EarlyOutput<X, T>(a: Arithmetic<X, T>, taps: seq<T>, d: nat, s: seq<X>, block: seq<X>, j: nat)
    requires d > 0 && j < |s| / d && j < |s + block| / d
    ensures Decimated(a, taps, d, s + block)[j] == Decimated(a, taps, d, s)[j]
  {
    Fits(d, j, |s|);
    SumOfPrefix(a, taps, s, block, j * d + d - 1, |taps|);
    hide Sum;
  }

  lemma LateOutput<X, T>(a: Arithmetic<X, T>, taps: seq<T>, d: nat, s: seq<X>, block: seq<X>, i: nat)
    requires d > 0 && |s| == d * (|s| / d) && i < |block| / d && |s| / d + i < |s + block| / d
    ensures Decimated(a, taps, d, s + block)[|s| / d + i] == BlockOutputs(a, taps, d, s, block)[i]
  {
    var q := |s| / d;
    OutputPlace(d, q, i);
    Fits(d, q + i, |s + block|);
    hide Sum;
  }

  /** After whole groups of d, a block's outputs continue the stream's. */
  lemma BlockContinues<X, T>(a: Arithmetic<X, T>, taps: seq<T>, d: nat, s: seq<X>, block: seq<X>)
    requires d > 0 && |s| % d == 0
    ensures Decimated(a, taps, d, s + block) == Decimated(a, taps, d, s) + BlockOutputs(a, taps, d, s, block)
  {
    var q, p := |s| / d, |block| / d;
    GroupCount(d, |s|, |block|);
    hide Decimated, BlockOutputs;
    var whole, parts := Decimated(a, taps, d, s + block), Decimated(a, taps, d, s) + BlockOutputs(a, taps, d, s, block);
    forall j: nat | j < q + p
      ensures whole[j] == parts[j]
    {
      if j < q {
        EarlyOutput(a, taps, d, s, block, j);
      } else {
        LateOutput(a, taps, d, s, block, j - q);
      }
    }
  }

  // ---------- the filter ----------

  /** One block: appends its outputs and leaves the newest samples behind. */
  method Filter<X, T>(a: Arithmetic<X, T>, taps: seq<T>, hist: array<X>, d: nat, input: seq<X>, out: seq<X>,
                      ghost s: seq<X>) returns (out': seq<X>)
    requires d > 0 && |taps| > 0 && hist.Length == |taps| - 1 && hist[..] == Last(a.zero, s, |taps| - 1)
    modifies hist
    ensures out' == out + BlockOutputs(a, taps, d, s, input)
    ensures hist[..] == Last(a.zero, s + input, |taps| - 1)
  {
    var l := |taps|;
    var nOut := |input| / d;
    out' := out;
    ghost var outputs := BlockOutputs(a, taps, d, s, input);
    for j := 0 to nOut
      invariant hist[..] == Last(a.zero, s, l - 1)
      invariant out' == out + outputs[..j]
    {
      Fits(d, j, |input|);
      var newest := j * d + d - 1;
      var acc := a.zero;
      for k := 0 to l
        invariant hist[..] == Last(a.zero, s, l - 1)
        invariant acc == Sum(a, taps, s + input, |s| + newest, k)
      {
        var idx := newest - k;
        var x;
        AtConcat(a.zero, s, input, |s| + idx);
        if idx >= 0 {
          x := input[idx];
        } else {
          x := hist[l - 1 + idx];
          assert hist[..][l - 1 + idx] == x;
          LastAt(a.zero, s, l - 1, l - 1 + idx);
        }
        acc := a.add(acc, a.mul(x, taps[k]));
      }
      out' := out' + [acc];
    }
    Shift(a, hist, input, s);
  }

  /** Keeps the newest samples, for blocks longer or shorter than the filter. */
  method Shift<X, T>(ghost a: Arithmetic<X, T>, hist: array<X>, input: seq<X>, ghost s: seq<X>)
    requires hist[..] == Last(a.zero, s, hist.Length)
    modifies hist
    ensures hist[..] == Last(a.zero, s + input, hist.Length)
  {
    hide Last, At;
    var m := hist.Length;
    ghost var was := hist[..];
    if |input| >= m {
      forall i | 0 <= i < m {
        hist[i] := input[|input| - m + i];
      }
    } else {
      var keep := m - |input|;
      forall i | 0 <= i < keep {
        hist[i] := hist[m - keep + i];
      }
      forall i | keep <= i < m {
        hist[i] := input[i - keep];
      }
      assert forall i :: 0 <= i < keep ==> hist[i] == was[|input| + i];
    }
    forall i | 0 <= i < m
      ensures hist[i] == Last(a.zero, s + input, m)[i]
    {
      LastShifts(a.zero, s, input, m, i);
    }
  }

  // ---------- the three filters ----------

  const REALS: Arithmetic<real, real> := Arithmetic(0.0, (x: real, y: real) => x + y, (x: real, t: real) => x * t)

  const SCALED: Arithmetic<Cx, real> :=
    Arithmetic(ZERO, (x: Cx, y: Cx) => Add(x, y), (x: Cx, t: real) => Cx(x.re * t, x.im * t))

  const COMPLEX: Arithmetic<Cx, Cx> := Arithmetic(ZERO, (x: Cx, y: Cx) => Add(x, y), (x: Cx, t: Cx) => Mul(x, t))

  function Re(s: seq<Cx>): (r: seq<real>)
    ensures |r| == |s|
  {
    seq(|s|, i requires 0 <= i < |s| => s[i].re)
  }

  function Im(s: seq<Cx>): (r: seq<real>)
    ensures |r| == |s|
  {
    seq(|s|, i requires 0 <= i < |s| => s[i].im)
  }

  lemma SumNext<X, T>(a: Arithmetic<X, T>, taps: seq<T>, s: seq<X>, n: nat, k: nat)
    requires n < |s| && 0 < k <= |taps|
    ensures Sum(a, taps, s, n, k) == a.add(Sum(a, taps, s, n, k - 1), a.mul(At(a.zero, s, n - (k - 1)), taps[k - 1]))
  {}

  lemma SumNone<X, T>(a: Arithmetic<X, T>, taps: seq<T>, s: seq<X>, n: nat)
    requires n < |s|
    ensures Sum(a, taps, s, n, 0) == a.zero
  {}

  lemma PartsOfTerm(acc: Cx, x: Cx, t: real)
    ensures SCALED.add(acc, SCALED.mul(x, t))
         == Cx(REALS.add(acc.re, REALS.mul(x.re, t)), REALS.add(acc.im, REALS.mul(x.im, t)))
  {}

  /** Real taps filter the two parts of a complex stream apart. */
  lemma {:induction false} PartsApart(taps: seq<real>, s: seq<Cx>, n: nat, k: nat)
    requires n < |s| && k <= |taps|
    ensures Sum(SCALED, taps, s, n, k) == Cx(Sum(REALS, taps, Re(s), n, k), Sum(REALS, taps, Im(s), n, k))
  {
    if k == 0 {
      SumNone(SCALED, taps, s, n);
      SumNone(REALS, taps, Re(s), n);
      SumNone(REALS, taps, Im(s), n);
    } else {
      PartsApart(taps, s, n, k - 1);
      SumNext(SCALED, taps, s, n, k);
      SumNext(REALS, taps, Re(s), n, k);
      SumNext(REALS, taps, Im(s), n, k);
      var x := At(ZERO, s, n - (k - 1));
      assert x.re == At(0.0, Re(s), n - (k - 1)) && x.im == At(0.0, Im(s), n - (k - 1));
      PartsOfTerm(Sum(SCALED, taps, s, n, k - 1), x, taps[k - 1]);
      assert SCALED.zero == ZERO && REALS.zero == 0.0;
      hide Sum, SCALED, REALS;
    }
  }

  lemma TapOnAxis(x: Cx, t: real)
    ensures COMPLEX.mul(x, Cx(t, 0.0)) == SCALED.mul(x, t)
    ensures COMPLEX.zero == SCALED.zero && COMPLEX.add == SCALED.add
  {
    assert x.im * 0.0 == 0.0 && x.re * 0.0 == 0.0;
  }

  /** Taps on the real axis filter like real taps. */
  lemma {:induction false} RealAxisTaps(taps: seq<real>, cx: seq<Cx>, s: seq<Cx>, n: nat, k: nat)
    requires n < |s| && k <= |taps| == |cx| && forall i :: 0 <= i < |cx| ==> cx[i] == Cx(taps[i], 0.0)
    ensures Sum(COMPLEX, cx, s, n, k) == Sum(SCALED, taps, s, n, k)
  {
    hide Sum, COMPLEX, SCALED;
    TapOnAxis(ZERO, 0.0);
    if k == 0 {
      SumNone(COMPLEX, cx, s, n);
      SumNone(SCALED, taps, s, n);
    } else {
      RealAxisTaps(taps, cx, s, n, k - 1);
      SumNext(COMPLEX, cx, s, n, k);
      SumNext(SCALED, taps, s, n, k);
      TapOnAxis(At(SCALED.zero, s, n - (k - 1)), taps[k - 1]);
    }
  }

  /** A filter and its history, the empty one all zero. */
  class Stage<X, T> {
    const a: Arithmetic<X, T>
    const taps: seq<T>
    const d: nat
    const hist: array<X>
    ghost var fed: seq<X>

    ghost predicate Valid()
      reads this, hist
    {
      d > 0 && |taps| > 0 && hist.Length == |taps| - 1 && hist[..] == Last(a.zero, fed, |taps| - 1)
    }

    constructor (a: Arithmetic<X, T>, taps: seq<T>, d: nat)
      requires d > 0 && |taps| > 0
      ensures Valid() && fed == [] && fresh(hist) && this.a == a && this.taps == taps && this.d == d
    {
      this.a, this.taps, this.d := a, taps, d;
      fed := [];
      hist := new X[|taps| - 1](_ => a.zero);
      new;
      forall i | 0 <= i < hist.Length
        ensures hist[i] == Last(a.zero, [], hist.Length)[i]
      {
        LastAt(a.zero, [], hist.Length, i);
      }
    }

    /** One block; outputs are appended. */
    method Process(block: seq<X>, out: seq<X>) returns (out': seq<X>)
      requires Valid()
      modifies this, hist
      ensures Valid() && fed == old(fed) + block
      ensures out' == out + BlockOutputs(a, taps, d, old(fed), block)
      ensures |old(fed)| % d == 0 && out == Decimated(a, taps, d, old(fed)) ==> out' == Decimated(a, taps, d, fed)
    {
      hide BlockOutputs, Decimated;
      out' := Filter(a, taps, hist, d, block, out, fed);
      if |fed| % d == 0 {
        BlockContinues(a, taps, d, fed, block);
      }
      fed := fed + block;
    }
  }

  ghost predicate WholeGroups<X>(blocks: seq<seq<X>>, d: nat)
    requires d > 0
  {
    forall k: nat :: k < |blocks| ==> |blocks[k]| % d == 0
  }

  lemma {:induction false} ConcatGroups<X>(blocks: seq<seq<X>>, d: nat)
    requires d > 0 && WholeGroups(blocks, d)
    ensures |Concat(blocks)| % d == 0
  {
    if blocks == [] {
    } else {
      var m := |blocks| - 1;
      ConcatGroups(blocks[..m], d);
      WholeSum(|Concat(blocks[..m])|, |blocks[m]|, d);
    }
  }

  lemma WholeSum(m: nat, n: nat, d: nat)
    requires d > 0 && m % d == 0 && n % d == 0
    ensures (m + n) % d == 0
  {
    assert m == d * (m / d) && n == d * (n / d);
    DivUnique(m + n, d, m / d + n / d, 0);
  }

  /** However a stream is cut into whole groups (anywhere, for d = 1), the
      outputs together are the filtered stream's. */
  method ProcessAll<X, T>(stage: Stage<X, T>, blocks: seq<seq<X>>) returns (out: seq<X>)
    requires stage.Valid() && stage.fed == [] && WholeGroups(blocks, stage.d)
    modifies stage, stage.hist
    ensures stage.Valid() && stage.fed == Concat(blocks)
    ensures out == Decimated(stage.a, stage.taps, stage.d, Concat(blocks))
  {
    hide BlockOutputs, Last;
    out := [];
    assert blocks[..0] == [];
    for k := 0 to |blocks|
      invariant stage.Valid() && stage.fed == Concat(blocks[..k])
      invariant out == Decimated(stage.a, stage.taps, stage.d, stage.fed)
    {
      hide Decimated;
      assert blocks[..k + 1][..k] == blocks[..k];
      ConcatGroups(blocks[..k], stage.d);
      out := stage.Process(blocks[k], out);
    }
    assert blocks[..|blocks|] == blocks;
  }
}
