/** The 2560-point transform: five 512-point transforms of every fifth sample,
    joined by twiddles and a 5-point combine. */
module Fft2560 {
  import opened Arith
  import opened Complex
  import opened Fft

  const N: nat := 2560
  const N1: nat := 512
  const N2: nat := 5

  // ---------- why the combine is the transform ----------

  /** w stands for exp(-2 pi i / 2560). */
  predicate Root2560(w: Cx) {
    Pow(w, 1280) == MINUS_ONE
  }

  lemma FullTurn(w: Cx)
    requires Root2560(w)
    ensures Pow(w, N) == ONE
  {
    hide Mul, Pow;
    PowAdd(w, 1280, 1280);
    MulUnits(MINUS_ONE);
    assert Mul(MINUS_ONE, MINUS_ONE) == ONE by { MinusSquared(); }
  }

  lemma MinusSquared()
    ensures Mul(MINUS_ONE, MINUS_ONE) == ONE
  {}

  /** The fifth power is a root for the 512-point transforms. */
  lemma FifthIsRoot(w: Cx)
    requires Root2560(w)
    ensures RootFor(Pow(w, 5), 9)
  {
    hide Mul, Pow;
    Pow2Values();
    PowPow(w, 5, 256);
  }

  lemma Pow2Values()
    ensures Pow2(8) == 256 && Pow2(9) == 512
  {
    assert Pow2(4) == 16;
    Pow2Add(4, 4);
  }

  /** The twiddle that strand r gets in output k1 + 512 k2. */
  function Twiddle(w: Cx, r: nat, k1: nat, k2: nat): Cx {
    Mul(Pow(w, r * k1), Pow(w, N1 * ((r * k2) % N2)))
  }

  lemma TwiddleIsPower(w: Cx, r: nat, k1: nat, k2: nat)
    requires Root2560(w)
    ensures Twiddle(w, r, k1, k2) == Pow(Pow(w, k1 + N1 * k2), r)
  {
    hide Mul, Pow;
    FullTurn(w);
    var q, p := (r * k2) / N2, (r * k2) % N2;
    PowPow(w, k1 + N1 * k2, r);
    Regroup(r, k1, k2);
    PowAdd(w, r * k1, N1 * (r * k2));
    assert N1 * (r * k2) == q * N + N1 * p;
    PowPeriod(w, N, q, N1 * p);
  }

  lemma Regroup(r: nat, k1: nat, k2: nat)
    ensures r * (k1 + N1 * k2) == r * k1 + N1 * (r * k2)
  {}

  lemma FifthPower(w: Cx, k1: nat, k2: nat)
    requires Root2560(w)
    ensures Pow(Pow(w, k1 + N1 * k2), N2) == Pow(Pow(w, 5), k1)
  {
    hide Mul, Pow;
    FullTurn(w);
    PowPow(w, k1 + N1 * k2, N2);
    PowPow(w, 5, k1);
    assert N2 * (k1 + N1 * k2) == k2 * N + k1 * 5;
    PowPeriod(w, N, k2, k1 * 5);
  }

  /** The first m terms of the 5-point combine. */
  function Combined(sub: seq<seq<Cx>>, w: Cx, k1: nat, k2: nat, m: nat): Cx
    requires |sub| == N2 && m <= N2 && k1 < N1 && forall r :: 0 <= r < N2 ==> |sub[r]| == N1
  {
    if m == 0 then ZERO
    else Add(Combined(sub, w, k1, k2, m - 1), Mul(sub[m - 1][k1], Twiddle(w, m - 1, k1, k2)))
  }

  ghost predicate StrandTransforms(x: seq<Cx>, w: Cx, sub: seq<seq<Cx>>) {
    |x| == N && |sub| == N2 &&
    forall r: nat :: r < N2 ==> |sub[r]| == N1 && sub[r] == Dft(Strand(x, N2, r), Pow(w, 5))
  }

  lemma TermMatches(x: seq<Cx>, w: Cx, sub: seq<seq<Cx>>, k1: nat, k2: nat, r: nat)
    requires Root2560(w) && StrandTransforms(x, w, sub) && k1 < N1 && r < N2
    ensures Mul(sub[r][k1], Twiddle(w, r, k1, k2))
         == Mul(Pow(Pow(w, k1 + N1 * k2), r), Eval(Strand(x, N2, r), Pow(Pow(w, k1 + N1 * k2), N2)))
  {
    hide Mul, Pow, Eval, DftSum, Twiddle, Root2560, Strand;
    TwiddleIsPower(w, r, k1, k2);
    FifthPower(w, k1, k2);
    var s := Strand(x, N2, r);
    DftIsEval(s, Pow(w, 5), k1, N1);
    assert s[..N1] == s;
    MulComm(sub[r][k1], Twiddle(w, r, k1, k2));
  }

  lemma {:induction false} CombinedIsStrandSum(x: seq<Cx>, w: Cx, sub: seq<seq<Cx>>, k1: nat, k2: nat, m: nat)
    requires Root2560(w) && StrandTransforms(x, w, sub) && k1 < N1 && m <= N2
    ensures Combined(sub, w, k1, k2, m) == StrandSum(x, Pow(w, k1 + N1 * k2), N2, m)
  {
    hide Mul, Pow, Eval, DftSum, Twiddle, Root2560, Strand, Dft;
    if m == 0 {
    } else {
      CombinedIsStrandSum(x, w, sub, k1, k2, m - 1);
      TermMatches(x, w, sub, k1, k2, m - 1);
    }
  }

  /** Output k1 + 512 k2 of the combine is that output of the transform. */
  lemma CombinedIsDft(x: seq<Cx>, w: Cx, sub: seq<seq<Cx>>, k1: nat, k2: nat)
    requires Root2560(w) && StrandTransforms(x, w, sub) && k1 < N1 && k2 < N2
    ensures Combined(sub, w, k1, k2, N2) == Dft(x, w)[k1 + N1 * k2]
  {
    hide Mul, Pow, Eval, DftSum, Combined, StrandSum;
    var k := k1 + N1 * k2;
    CombinedIsStrandSum(x, w, sub, k1, k2, N2);
    EvalByStrands(x, Pow(w, k), N2);
    DftIsEval(x, w, k, N);
    assert x[..N] == x;
  }

  // ---------- the transform ----------

  /** The scratch state: the twiddle table is filled on first use. */
  class Plan {
    const w: Cx
    var tw: seq<Cx>

    ghost predicate Valid()
      reads this
    {
      Root2560(w) && (|tw| == N2 * N1 ==> TableOf(tw, N2 * N1))
    }

    ghost predicate TableOf(t: seq<Cx>, m: nat)
    {
      |t| == m <= N2 * N1 && forall i: nat :: i < m ==> t[i] == Pow(w, (i / N1) * (i % N1))
    }

    constructor (w: Cx)
      requires Root2560(w)
      ensures Valid() && this.w == w && tw == []
    {
      this.w := w;
      this.tw := [];
    }

    /** Fills the table once. */
    method Prepare()
      requires Valid()
      modifies this`tw
      ensures Valid() && |tw| == N2 * N1
    {
      hide Pow;
      if |tw| != N2 * N1 {
        var t: seq<Cx> := [];
        for r := 0 to N2
          invariant TableOf(t, r * N1)
        {
          for k1 := 0 to N1
            invariant TableOf(t, r * N1 + k1)
          {
            t := t + [Pow(w, r * k1)];
          }
        }
        tw := t;
      }
    }

    /** Strand r of the input, transformed. */
    method SubTransform(re: array<real>, im: array<real>, r: nat) returns (sub: seq<Cx>)
      requires Root2560(w) && re.Length >= N && im.Length >= N && r < N2
      ensures |sub| == N1 && sub == Dft(Strand(Cells(re[..N], im[..N]), N2, r), Pow(w, 5))
    {
      hide Pow, Mul, DftSum;
      var subRe, subIm := new real[N1], new real[N1];
      for n := 0 to N1
        invariant forall j :: 0 <= j < n ==> subRe[j] == re[j * N2 + r] && subIm[j] == im[j * N2 + r]
      {
        subRe[n], subIm[n] := re[n * N2 + r], im[n * N2 + r];
      }
      ghost var x := Cells(re[..N], im[..N]);
      forall j: nat | j < N1
        ensures Cells(subRe[..], subIm[..])[j] == Strand(x, N2, r)[j]
      {
        assert StrandAt(x, N2, r, j) == x[N2 * j + r];
      }
      assert Cells(subRe[..], subIm[..]) == Strand(x, N2, r);
      FifthIsRoot(w);
      Pow2Values();
      hide RootFor;
      FFT(subRe, subIm, Pow(w, 5), 9);
      sub := Cells(subRe[..], subIm[..]);
    }

    /** One output of the combine, from the tables. */
    method CombineOutput(sub: seq<seq<Cx>>, w5: seq<Cx>, k1: nat, k2: nat) returns (acc: Cx)
      requires Valid() && |tw| == N2 * N1 && |sub| == N2 && k1 < N1 && k2 < N2
      requires forall r :: 0 <= r < N2 ==> |sub[r]| == N1
      requires |w5| == N2 && forall r: nat :: r < N2 ==> w5[r] == Pow(w, N1 * r)
      ensures acc == Combined(sub, w, k1, k2, N2)
    {
      hide Pow, Mul;
      acc := ZERO;
      for r := 0 to N2
        invariant acc == Combined(sub, w, k1, k2, r)
      {
        var t, u := tw[r * N1 + k1], w5[(r * k2) % N2];
        assert (r * N1 + k1) / N1 == r && (r * N1 + k1) % N1 == k1;
        MulAssoc(sub[r][k1], t, u);
        acc := Add(acc, Mul(Mul(sub[r][k1], t), u));
      }
    }

    /** The transform of the first 2560 cells, in place. */
    method Transform(re: array<real>, im: array<real>)
      requires Valid() && re.Length >= N && im.Length >= N && re != im
      modifies this`tw, re, im
      ensures Valid()
      ensures Cells(re[..N], im[..N]) == Dft(old(Cells(re[..N], im[..N])), w)
      ensures re[N..] == old(re[N..]) && im[N..] == old(im[N..])
    {
      hide Pow, Mul, DftSum, Combined;
      ghost var x := Cells(re[..N], im[..N]);
      var sub: seq<seq<Cx>> := [];
      for r := 0 to N2
        invariant |sub| == r && re[..] == old(re[..]) && im[..] == old(im[..]) && Valid()
        invariant forall q: nat :: q < r ==> |sub[q]| == N1 && sub[q] == Dft(Strand(x, N2, q), Pow(w, 5))
      {
        var s := SubTransform(re, im, r);
        sub := sub + [s];
      }
      Prepare();
      var w5 := seq(N2, r requires 0 <= r < N2 => Pow(w, N1 * r));
      var out := new Cx[N](_ => ZERO);
      CombineAll(sub, w5, out, x);
      for i := 0 to N
        invariant forall j :: 0 <= j < i ==> re[j] == out[j].re && im[j] == out[j].im
        invariant re[N..] == old(re[N..]) && im[N..] == old(im[N..]) && Valid() && out[..] == Dft(x, w)
      {
        re[i], im[i] := out[i].re, out[i].im;
      }
      assert Cells(re[..N], im[..N]) == out[..];
    }

    method CombineAll(sub: seq<seq<Cx>>, w5: seq<Cx>, out: array<Cx>, ghost x: seq<Cx>)
      requires Valid() && |tw| == N2 * N1 && StrandTransforms(x, w, sub) && out.Length == N
      requires |w5| == N2 && forall r: nat :: r < N2 ==> w5[r] == Pow(w, N1 * r)
      modifies out
      ensures out[..] == Dft(x, w)
    {
      hide Pow, Mul, DftSum, Combined, TableOf;
      ghost var y := Dft(x, w);
      for k1 := 0 to N1
        invariant forall k :: 0 <= k < N && k % N1 < k1 ==> out[k] == y[k]
      {
        for k2 := 0 to N2
          invariant forall k :: 0 <= k < N && (k % N1 < k1 || (k % N1 == k1 && k / N1 < k2)) ==> out[k] == y[k]
        {
          var acc := CombineOutput(sub, w5, k1, k2);
          CombinedIsDft(x, w, sub, k1, k2);
          out[k1 + N1 * k2] := acc;
        }
      }
    }
  }
}
