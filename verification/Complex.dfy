/** Complex numbers over exact reals, and polynomials evaluated at them. */
module Complex {
  import opened Arith

  datatype Cx = Cx(re: real, im: real)

  const ZERO := Cx(0.0, 0.0)
  const ONE := Cx(1.0, 0.0)
  const MINUS_ONE := Cx(-1.0, 0.0)

  function Add(a: Cx, b: Cx): Cx {
    Cx(a.re + b.re, a.im + b.im)
  }

  function Sub(a: Cx, b: Cx): Cx {
    Cx(a.re - b.re, a.im - b.im)
  }

  function Mul(a: Cx, b: Cx): Cx {
    Cx(a.re * b.re - a.im * b.im, a.re * b.im + a.im * b.re)
  }

  lemma MulComm(a: Cx, b: Cx)
    ensures Mul(a, b) == Mul(b, a)
  {}

  function Triple(x: real, y: real, z: real): real {
    x * y * z
  }

  lemma TripleLeft(x: real, y: real, u: real, v: real, z: real)
    ensures (x * y - u * v) * z == Triple(x, y, z) - Triple(u, v, z)
    ensures (x * y + u * v) * z == Triple(x, y, z) + Triple(u, v, z)
  {}

  lemma TripleRight(x: real, y: real, z: real, u: real, v: real)
    ensures x * (y * z - u * v) == Triple(x, y, z) - Triple(x, u, v)
    ensures x * (y * z + u * v) == Triple(x, y, z) + Triple(x, u, v)
  {}

  lemma MulAssocRe(a: Cx, b: Cx, c: Cx)
    ensures Mul(Mul(a, b), c).re == Mul(a, Mul(b, c)).re
  {
    hide Triple;
    TripleLeft(a.re, b.re, a.im, b.im, c.re);
    TripleLeft(a.re, b.im, a.im, b.re, c.im);
    TripleRight(a.re, b.re, c.re, b.im, c.im);
    TripleRight(a.im, b.re, c.im, b.im, c.re);
  }

  lemma MulAssocIm(a: Cx, b: Cx, c: Cx)
    ensures Mul(Mul(a, b), c).im == Mul(a, Mul(b, c)).im
  {
    hide Triple;
    TripleLeft(a.re, b.re, a.im, b.im, c.im);
    TripleLeft(a.re, b.im, a.im, b.re, c.re);
    TripleRight(a.re, b.re, c.im, b.im, c.re);
    TripleRight(a.im, b.re, c.re, b.im, c.im);
  }

  lemma MulAssoc(a: Cx, b: Cx, c: Cx)
    ensures Mul(Mul(a, b), c) == Mul(a, Mul(b, c))
  {
    hide Mul;
    MulAssocRe(a, b, c);
    MulAssocIm(a, b, c);
  }

  lemma MulAdd(a: Cx, b: Cx, c: Cx)
    ensures Mul(a, Add(b, c)) == Add(Mul(a, b), Mul(a, c))
  {}

  lemma MulUnits(a: Cx)
    ensures Mul(ONE, a) == a && Mul(a, ONE) == a
    ensures Mul(ZERO, a) == ZERO && Mul(a, ZERO) == ZERO
    ensures Mul(MINUS_ONE, a) == Sub(ZERO, a)
  {}

  // ---------- powers ----------

  function Pow(w: Cx, n: nat): Cx {
    if n == 0 then ONE else Mul(w, Pow(w, n - 1))
  }

  lemma {:induction false} PowAdd(w: Cx, m: nat, n: nat)
    ensures Pow(w, m + n) == Mul(Pow(w, m), Pow(w, n))
  {
    hide Mul;
    if m == 0 {
      MulUnits(Pow(w, n));
    } else {
      PowAdd(w, m - 1, n);
      MulAssoc(w, Pow(w, m - 1), Pow(w, n));
    }
  }

  lemma {:induction false} PowPow(w: Cx, m: nat, n: nat)
    ensures Pow(Pow(w, m), n) == Pow(w, n * m)
  {
    hide Mul;
    if n == 0 {
    } else {
      PowPow(w, m, n - 1);
      PowAdd(w, m, (n - 1) * m);
      assert m + (n - 1) * m == n * m;
    }
  }

  lemma {:induction false} PowOne(n: nat)
    ensures Pow(ONE, n) == ONE
  {
    hide Mul;
    if n == 0 {
    } else {
      PowOne(n - 1);
      MulUnits(ONE);
    }
  }

  /** Exponents of a root of unity count modulo its order. */
  lemma PowPeriod(w: Cx, n: nat, q: nat, k: nat)
    requires Pow(w, n) == ONE
    ensures Pow(w, q * n + k) == Pow(w, k)
  {
    hide Mul;
    PowAdd(w, q * n, k);
    PowPow(w, n, q);
    PowOne(q);
    MulUnits(Pow(w, k));
  }

  lemma PowFirst(w: Cx)
    ensures Pow(w, 1) == w
  {
    hide Mul;
    MulUnits(w);
  }

  // ---------- polynomials ----------

  /** x[0] + x[1] z + x[2] z^2 + ... */
  function Eval(x: seq<Cx>, z: Cx): Cx {
    if x == [] then ZERO else Add(x[0], Mul(z, Eval(x[1..], z)))
  }

  /** The m-term sum that defines output k of the discrete Fourier transform. */
  function DftSum(x: seq<Cx>, w: Cx, k: nat, m: nat): Cx
    requires m <= |x|
  {
    if m == 0 then ZERO else Add(DftSum(x, w, k, m - 1), Mul(x[m - 1], Pow(w, (m - 1) * k)))
  }

  function Dft(x: seq<Cx>, w: Cx): (y: seq<Cx>)
    ensures |y| == |x|
  {
    seq(|x|, k requires 0 <= k < |x| => DftSum(x, w, k, |x|))
  }

  lemma {:induction false} EvalConcat(x: seq<Cx>, y: seq<Cx>, z: Cx)
    ensures Eval(x + y, z) == Add(Eval(x, z), Mul(Pow(z, |x|), Eval(y, z)))
  {
    hide Mul;
    if x == [] {
      assert x + y == y;
      MulUnits(Eval(y, z));
    } else {
      assert (x + y)[1..] == x[1..] + y;
      EvalConcat(x[1..], y, z);
      var p := Pow(z, |x| - 1);
      MulAdd(z, Eval(x[1..], z), Mul(p, Eval(y, z)));
      MulAssoc(z, p, Eval(y, z));
    }
  }

  /** Output k of the transform is the polynomial x at the k-th power of w. */
  lemma {:induction false} DftIsEval(x: seq<Cx>, w: Cx, k: nat, m: nat)
    requires m <= |x|
    ensures DftSum(x, w, k, m) == Eval(x[..m], Pow(w, k))
  {
    hide Mul;
    var z := Pow(w, k);
    if m == 0 {
    } else {
      DftIsEval(x, w, k, m - 1);
      assert x[..m] == x[..m - 1] + [x[m - 1]];
      EvalConcat(x[..m - 1], [x[m - 1]], z);
      EvalSingle(x[m - 1], z);
      PowPow(w, k, m - 1);
      MulComm(x[m - 1], Pow(w, (m - 1) * k));
    }
  }

  lemma EvalSingle(a: Cx, z: Cx)
    ensures Eval([a], z) == a
  {
    hide Mul;
    assert [a][1..] == [];
    MulUnits(z);
  }

  /** Every d-th coefficient, from r on. */
  function Strand(x: seq<Cx>, d: nat, r: nat): (s: seq<Cx>)
    requires d > 0 && r < d && |x| % d == 0
    ensures |s| == |x| / d
  {
    seq(|x| / d, j requires 0 <= j < |x| / d => StrandAt(x, d, r, j))
  }

  function StrandAt(x: seq<Cx>, d: nat, r: nat, j: nat): Cx
    requires d > 0 && r < d && |x| % d == 0 && j < |x| / d
  {
    StrandIndex(|x|, d, r, j);
    x[d * j + r]
  }

  lemma StrandIndex(n: nat, d: nat, r: nat, j: nat)
    requires d > 0 && r < d && n % d == 0 && j < n / d
    ensures d * j + r < n
  {
    assert d * (j + 1) <= d * (n / d);
  }

  /** The first m terms of the sum of z^r times strand r at z^d. */
  function StrandSum(x: seq<Cx>, z: Cx, d: nat, m: nat): Cx
    requires d > 0 && m <= d && |x| % d == 0
  {
    if m == 0 then ZERO
    else Add(StrandSum(x, z, d, m - 1), Mul(Pow(z, m - 1), Eval(Strand(x, d, m - 1), Pow(z, d))))
  }

  lemma DropBlock(n: nat, d: nat)
    requires d > 0 && n % d == 0 && n > 0
    ensures n >= d && (n - d) % d == 0 && (n - d) / d == n / d - 1
  {
    var q := n / d;
    assert n == d * q;
    assert q >= 1;
    assert n - d == d * (q - 1);
    DivExact(d, q - 1);
  }

  lemma StrandStep(x: seq<Cx>, d: nat, r: nat)
    requires d > 0 && r < d && |x| % d == 0 && |x| > 0
    ensures |x| >= d && |x[d..]| % d == 0
    ensures Strand(x, d, r) == [x[r]] + Strand(x[d..], d, r)
  {
    DropBlock(|x|, d);
    var s, t := Strand(x, d, r), Strand(x[d..], d, r);
    forall j | 0 <= j < |s|
      ensures s[j] == ([x[r]] + t)[j]
    {
      StrandIndex(|x|, d, r, j);
      if j > 0 {
        StrandIndex(|x| - d, d, r, j - 1);
        assert d * j + r == d + (d * (j - 1) + r);
      }
    }
  }

  /** One block of coefficients taken off every strand. */
  lemma {:induction false} StrandSumStep(x: seq<Cx>, z: Cx, d: nat, m: nat)
    requires d > 0 && m <= d && |x| % d == 0 && |x| > 0
    ensures |x| >= d && |x[d..]| % d == 0
    ensures StrandSum(x, z, d, m) == Add(Eval(x[..m], z), Mul(Pow(z, d), StrandSum(x[d..], z, d, m)))
  {
    hide Mul, Eval, Pow;
    DropBlock(|x|, d);
    var y, p := x[d..], Pow(z, d);
    if m == 0 {
      MulUnits(p);
      assert Eval(x[..0], z) == ZERO by { EvalEmpty(x[..0], z); }
    } else {
      var r := m - 1;
      StrandSumStep(x, z, d, r);
      StrandStep(x, d, r);
      var e := Eval(Strand(y, d, r), p);
      var q := Pow(z, r);
      EvalHead(x[r], Strand(y, d, r), p);
      MulAdd(q, x[r], Mul(p, e));
      MulSwap(q, p, e);
      MulAdd(p, StrandSum(y, z, d, r), Mul(q, e));
      assert x[..m] == x[..r] + [x[r]];
      EvalConcat(x[..r], [x[r]], z);
      EvalSingle(x[r], z);
    }
  }

  lemma EvalEmpty(x: seq<Cx>, z: Cx)
    requires x == []
    ensures Eval(x, z) == ZERO
  {}

  lemma EvalHead(a: Cx, x: seq<Cx>, z: Cx)
    ensures Eval([a] + x, z) == Add(a, Mul(z, Eval(x, z)))
  {
    assert ([a] + x)[1..] == x;
  }

  lemma MulSwap(a: Cx, b: Cx, c: Cx)
    ensures Mul(a, Mul(b, c)) == Mul(b, Mul(a, c))
  {
    hide Mul;
    MulAssoc(a, b, c);
    MulComm(a, b);
    MulAssoc(b, a, c);
  }

  /** Decimation: a polynomial is the sum of its strands in the d-th power. */
  lemma {:induction false} EvalByStrands(x: seq<Cx>, z: Cx, d: nat)
    requires d > 0 && |x| % d == 0
    ensures Eval(x, z) == StrandSum(x, z, d, d)
    decreases |x|
  {
    hide Mul, StrandSum;
    if x == [] {
      StrandSumEmpty(x, z, d, d);
    } else {
      DropBlock(|x|, d);
      EvalByStrands(x[d..], z, d);
      StrandSumStep(x, z, d, d);
      assert x == x[..d] + x[d..];
      EvalConcat(x[..d], x[d..], z);
    }
  }

  lemma {:induction false} StrandSumEmpty(x: seq<Cx>, z: Cx, d: nat, m: nat)
    requires x == [] && d > 0 && m <= d
    ensures StrandSum(x, z, d, m) == ZERO
  {
    hide Mul, Eval;
    if m == 0 {
    } else {
      StrandSumEmpty(x, z, d, m - 1);
      EvalEmpty(Strand(x, d, m - 1), Pow(z, d));
      MulUnits(Pow(z, m - 1));
    }
  }
}
