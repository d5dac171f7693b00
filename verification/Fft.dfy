/** The in-place radix-2 transform: bit-reversal permutation, then butterflies. */
module Fft {
  import opened Arith
  import opened Complex

  /** The numbers held in a pair of arrays. */
  function Cells(re: seq<real>, im: seq<real>): (x: seq<Cx>)
    requires |re| == |im|
    ensures |x| == |re|
  {
    seq(|re|, i requires 0 <= i < |re| => Cx(re[i], im[i]))
  }

  // ---------- the recursive form ----------

  /** The even-indexed half first, recursively. */
  function BitReversed(x: seq<Cx>, m: nat): (y: seq<Cx>)
    requires |x| == Pow2(m)
    ensures |y| == |x|
    decreases m
  {
    if m == 0 then x
    else BitReversed(Half(x, 0), m - 1) + BitReversed(Half(x, 1), m - 1)
  }

  function Half(x: seq<Cx>, r: nat): (s: seq<Cx>)
    requires |x| % 2 == 0 && r < 2
    ensures |s| == |x| / 2
  {
    seq(|x| / 2, j requires 0 <= j < |x| / 2 => x[2 * j + r])
  }

  /** One butterfly pass over two transforms of half the length. */
  function Combine(e: seq<Cx>, o: seq<Cx>, w: Cx): (y: seq<Cx>)
    requires |e| == |o|
    ensures |y| == 2 * |e|
  {
    seq(2 * |e|, i requires 0 <= i < 2 * |e| =>
      if i < |e| then Add(e[i], Mul(o[i], Pow(w, i))) else Sub(e[i - |e|], Mul(o[i - |e|], Pow(w, i - |e|))))
  }

  /** Butterflies on bit-reversed input; w is the root for the full length. */
  function Butterflies(y: seq<Cx>, w: Cx, m: nat): (t: seq<Cx>)
    requires |y| == Pow2(m)
    ensures |t| == |y|
    decreases m
  {
    if m == 0 then y
    else
      var h := Pow2(m - 1);
      Combine(Butterflies(y[..h], Mul(w, w), m - 1), Butterflies(y[h..], Mul(w, w), m - 1), w)
  }

  /** w is minus one at half the length: a primitive root for length 2^m. */
  predicate RootFor(w: Cx, m: nat) {
    m == 0 || Pow(w, Pow2(m - 1)) == MINUS_ONE
  }

  lemma SquareIsRoot(w: Cx, m: nat)
    requires m > 0 && RootFor(w, m)
    ensures RootFor(Mul(w, w), m - 1)
  {
    hide Mul;
    if m > 1 {
      SquarePow(w, Pow2(m - 2));
    }
  }

  lemma SquarePow(w: Cx, n: nat)
    ensures Pow(Mul(w, w), n) == Pow(w, 2 * n)
  {
    hide Mul;
    PowFirst(w);
    PowAdd(w, 1, 1);
    PowPow(w, 2, n);
  }

  lemma HalfIsStrand(x: seq<Cx>, r: nat)
    requires |x| % 2 == 0 && r < 2
    ensures Half(x, r) == Strand(x, 2, r)
  {
    forall j: nat | j < |x| / 2
      ensures Half(x, r)[j] == Strand(x, 2, r)[j]
    {
      assert StrandAt(x, 2, r, j) == x[2 * j + r];
    }
  }

  /** The decimation step of the transform. */
  lemma EvenOdd(x: seq<Cx>, z: Cx)
    requires |x| % 2 == 0
    ensures Eval(x, z) == Add(Eval(Half(x, 0), Mul(z, z)), Mul(z, Eval(Half(x, 1), Mul(z, z))))
  {
    hide Mul, Eval;
    EvalByStrands(x, z, 2);
    HalfIsStrand(x, 0);
    HalfIsStrand(x, 1);
    PowFirst(z);
    PowAdd(z, 1, 1);
    var a, b := Eval(Half(x, 0), Mul(z, z)), Eval(Half(x, 1), Mul(z, z));
    MulUnits(a);
    assert StrandSum(x, z, 2, 0) == ZERO;
    assert StrandSum(x, z, 2, 1) == Add(ZERO, Mul(Pow(z, 0), a));
    assert StrandSum(x, z, 2, 2) == Add(StrandSum(x, z, 2, 1), Mul(Pow(z, 1), b));
  }

  lemma NegSquare(u: Cx)
    ensures Mul(Sub(ZERO, u), Sub(ZERO, u)) == Mul(u, u)
  {}

  lemma NegTimes(u: Cx, v: Cx)
    ensures Mul(Sub(ZERO, u), v) == Sub(ZERO, Mul(u, v))
  {}

  lemma PowSquared(w: Cx, i: nat)
    ensures Pow(Mul(w, w), i) == Mul(Pow(w, i), Pow(w, i))
  {
    hide Mul;
    SquarePow(w, i);
    PowAdd(w, i, i);
  }

  /** One butterfly gives the values of the polynomial at two opposite powers. */
  lemma ButterflyValues(x: seq<Cx>, w: Cx, h: nat, i: nat, e: Cx, o: Cx)
    requires |x| == 2 * h && Pow(w, h) == MINUS_ONE
    requires e == Eval(Half(x, 0), Pow(Mul(w, w), i)) && o == Eval(Half(x, 1), Pow(Mul(w, w), i))
    ensures Add(e, Mul(o, Pow(w, i))) == Eval(x, Pow(w, i))
    ensures Sub(e, Mul(o, Pow(w, i))) == Eval(x, Pow(w, h + i))
  {
    hide Mul, Eval, Pow;
    var u := Pow(w, i);
    PowSquared(w, i);
    MulComm(u, o);
    EvenOdd(x, u);
    PowAdd(w, h, i);
    MulUnits(u);
    var n := Sub(ZERO, u);
    NegSquare(u);
    NegTimes(u, o);
    EvenOdd(x, n);
  }

  lemma ButterfliesSplit(x: seq<Cx>, w: Cx, m: nat)
    requires m > 0 && |x| == Pow2(m)
    ensures Butterflies(BitReversed(x, m), w, m)
         == Combine(Butterflies(BitReversed(Half(x, 0), m - 1), Mul(w, w), m - 1),
                    Butterflies(BitReversed(Half(x, 1), m - 1), Mul(w, w), m - 1), w)
  {
    hide Mul, Combine, Pow;
    var h, y := Pow2(m - 1), BitReversed(x, m);
    assert y[..h] == BitReversed(Half(x, 0), m - 1) && y[h..] == BitReversed(Half(x, 1), m - 1);
  }

  /** The butterflies compute the transform. */
  lemma {:induction false} ButterfliesAreDft(x: seq<Cx>, w: Cx, m: nat, k: nat)
    requires |x| == Pow2(m) && RootFor(w, m) && k < |x|
    ensures Butterflies(BitReversed(x, m), w, m)[k] == Eval(x, Pow(w, k))
    decreases m
  {
    hide Mul, Eval, Pow, Butterflies, BitReversed, Half, Combine;
    if m == 0 {
      ButterfliesOfOne(x, w, k);
    } else {
      var h := Pow2(m - 1);
      var i := if k < h then k else k - h;
      var a, b := Half(x, 0), Half(x, 1);
      SquareIsRoot(w, m);
      ButterfliesSplit(x, w, m);
      ButterfliesAreDft(a, Mul(w, w), m - 1, i);
      ButterfliesAreDft(b, Mul(w, w), m - 1, i);
      var e := Butterflies(BitReversed(a, m - 1), Mul(w, w), m - 1);
      var o := Butterflies(BitReversed(b, m - 1), Mul(w, w), m - 1);
      CombineAt(e, o, w, i);
      ButterflyValues(x, w, h, i, e[i], o[i]);
    }
  }

  lemma ButterfliesOfOne(x: seq<Cx>, w: Cx, k: nat)
    requires |x| == 1 && k == 0
    ensures Butterflies(BitReversed(x, 0), w, 0)[k] == Eval(x, Pow(w, k))
  {
    EvalSingle(x[0], Pow(w, 0));
    assert x == [x[0]];
  }

  lemma CombineAt(e: seq<Cx>, o: seq<Cx>, w: Cx, i: nat)
    requires |e| == |o| && i < |e|
    ensures Combine(e, o, w)[i] == Add(e[i], Mul(o[i], Pow(w, i)))
    ensures Combine(e, o, w)[|e| + i] == Sub(e[i], Mul(o[i], Pow(w, i)))
  {}

  // ---------- bit reversal by index ----------

  /** i with its m low bits reversed. */
  function Rev(i: nat, m: nat): (r: nat)
    requires i < Pow2(m)
    ensures r < Pow2(m)
  {
    if m == 0 then 0
    else if i < Pow2(m - 1) then 2 * Rev(i, m - 1)
    else 2 * Rev(i - Pow2(m - 1), m - 1) + 1
  }

  lemma {:induction false} BitReversedAt(x: seq<Cx>, m: nat, i: nat)
    requires |x| == Pow2(m) && i < |x|
    ensures BitReversed(x, m)[i] == x[Rev(i, m)]
    decreases m
  {
    if m == 0 {
    } else {
      var h := Pow2(m - 1);
      if i < h {
        BitReversedAt(Half(x, 0), m - 1, i);
      } else {
        BitReversedAt(Half(x, 1), m - 1, i - h);
      }
    }
  }

  /** The same reversal read from the low end. */
  lemma {:induction false} RevLow(q: nat, b: nat, m: nat)
    requires m > 0 && q < Pow2(m - 1) && b < 2
    ensures 2 * q + b < Pow2(m) && Rev(2 * q + b, m) == Rev(q, m - 1) + b * Pow2(m - 1)
    decreases m
  {
    if m == 1 {
    } else {
      var h := Pow2(m - 2);
      if q < h {
        RevLow(q, b, m - 1);
      } else {
        RevLow(q - h, b, m - 1);
      }
    }
  }

  lemma {:induction false} RevRev(i: nat, m: nat)
    requires i < Pow2(m)
    ensures Rev(Rev(i, m), m) == i
    decreases m
  {
    if m == 0 {
    } else {
      var h := Pow2(m - 1);
      if i < h {
        RevLow(Rev(i, m - 1), 0, m);
        RevRev(i, m - 1);
      } else {
        RevLow(Rev(i - h, m - 1), 1, m);
        RevRev(i - h, m - 1);
      }
    }
  }

  /** What adding one at the top with carries downwards makes of j. */
  function NextReversed(j: nat, m: nat): nat
    requires j < Pow2(m)
    decreases m
  {
    if m == 0 then 0
    else if j < Pow2(m - 1) then j + Pow2(m - 1)
    else NextReversed(j - Pow2(m - 1), m - 1)
  }

  lemma {:induction false} NextIsRev(i: nat, m: nat)
    requires i + 1 < Pow2(m)
    ensures NextReversed(Rev(i, m), m) == Rev(i + 1, m)
    decreases m
  {
    hide Rev;
    if m == 0 {
    } else {
      var q := i / 2;
      if i % 2 == 0 {
        RevLow(q, 0, m);
        RevLow(q, 1, m);
      } else {
        RevLow(q, 1, m);
        RevLow(q + 1, 0, m);
        NextIsRev(q, m - 1);
      }
    }
  }

  /** Positions below i, and their mirror images, hold the reversed order. */
  ghost predicate PartlyReversed(a: seq<real>, a0: seq<real>, m: nat, i: nat) {
    && |a| == |a0| == Pow2(m)
    && forall p: nat :: p < |a| ==> a[p] == a0[if p < i || Rev(p, m) < i then Rev(p, m) else p]
  }

  lemma PartlyReversedStart(a: seq<real>, m: nat)
    requires |a| == Pow2(m)
    ensures PartlyReversed(a, a, m, 1)
  {
    RevZero(m);
    forall p: nat | p < |a| && Rev(p, m) == 0
      ensures p == 0
    {
      RevRev(p, m);
    }
  }

  lemma {:induction false} RevZero(m: nat)
    ensures Rev(0, m) == 0
  {
    if m == 0 {
    } else {
      RevZero(m - 1);
    }
  }

  lemma {:induction false} RevAllOnes(m: nat)
    ensures Rev(Pow2(m) - 1, m) == Pow2(m) - 1
  {
    if m == 0 {
    } else {
      RevAllOnes(m - 1);
    }
  }

  lemma RevNotAllOnes(i: nat, m: nat)
    requires i + 1 < Pow2(m)
    ensures Rev(i, m) < Pow2(m) - 1
  {
    RevAllOnes(m);
    RevRev(i, m);
  }

  function SwapIf(a: seq<real>, i: nat, j: nat): (s: seq<real>)
    requires i < |a| && j < |a|
    ensures |s| == |a|
  {
    if i < j then a[i := a[j]][j := a[i]] else a
  }

  lemma PartlyReversedStep(a: seq<real>, a0: seq<real>, m: nat, i: nat)
    requires PartlyReversed(a, a0, m, i) && i < |a|
    ensures PartlyReversed(SwapIf(a, i, Rev(i, m)), a0, m, i + 1)
  {
    hide Rev;
    var r := Rev(i, m);
    var b := SwapIf(a, i, r);
    RevRev(i, m);
    forall p: nat | p < |a|
      ensures b[p] == a0[if p < i + 1 || Rev(p, m) < i + 1 then Rev(p, m) else p]
    {
      RevRev(p, m);
      if p != i && p != r {
        assert Rev(p, m) != i;
        assert b[p] == a[p];
      }
    }
  }

  lemma FullyReversed(re: seq<real>, im: seq<real>, re0: seq<real>, im0: seq<real>, m: nat)
    requires PartlyReversed(re, re0, m, Pow2(m)) && PartlyReversed(im, im0, m, Pow2(m))
    ensures Cells(re, im) == BitReversed(Cells(re0, im0), m)
  {
    forall p | 0 <= p < |re|
      ensures Cells(re, im)[p] == BitReversed(Cells(re0, im0), m)[p]
    {
      BitReversedAt(Cells(re0, im0), m, p);
    }
  }

  // ---------- the in-place transform ----------

  /** The bit-reversal permutation; bit tests are written as arithmetic. */
  method BitReverse(re: array<real>, im: array<real>, ghost m: nat)
    requires re.Length == im.Length == Pow2(m) && re != im
    modifies re, im
    ensures Cells(re[..], im[..]) == BitReversed(old(Cells(re[..], im[..])), m)
  {
    var n := re.Length;
    ghost var re0, im0 := re[..], im[..];
    var j := 0;
    PartlyReversedStart(re0, m);
    PartlyReversedStart(im0, m);
    RevZero(m);
    hide PartlyReversed, BitReversed, Rev;
    for i := 1 to n
      invariant j < n && j == Rev(i - 1, m)
      invariant PartlyReversed(re[..], re0, m, i) && PartlyReversed(im[..], im0, m, i)
    {
      j := NextIndex(j, n, i, m);
      PartlyReversedStep(re[..], re0, m, i);
      PartlyReversedStep(im[..], im0, m, i);
      ghost var re1, im1 := SwapIf(re[..], i, j), SwapIf(im[..], i, j);
      if i < j {
        re[i], re[j] := re[j], re[i];
        im[i], im[j] := im[j], im[i];
      }
      assert re[..] == re1 && im[..] == im1;
    }
    FullyReversed(re[..], im[..], re0, im0, m);
  }

  /** The inner loop: carry a one downwards from the top bit of j. */
  method NextIndex(j0: nat, n: nat, ghost i: nat, ghost m: nat) returns (j: nat)
    requires n == Pow2(m) && 1 <= i < n && j0 == Rev(i - 1, m)
    ensures j == Rev(i, m)
  {
    j := j0;
    var bit := n / 2;
    RevNotAllOnes(i - 1, m);
    NextIsRev(i - 1, m);
    ghost var t := m;
    while (j / bit) % 2 != 0
      invariant 0 < t <= m && bit == Pow2(t - 1) && j < Pow2(t) - 1
      invariant NextReversed(j, t) == Rev(i, m)
      decreases t
    {
      LeadingBit(j, bit);
      j := j - bit;
      bit := bit / 2;
      t := t - 1;
    }
    LeadingBit(j, bit);
    j := j + bit;
  }

  lemma LeadingBit(j: nat, bit: nat)
    requires bit > 0 && j < 2 * bit
    ensures (j / bit) % 2 == if j < bit then 0 else 1
  {
    if j < bit {
      DivUnique(j, bit, 0, j);
    } else {
      DivUnique(j, bit, 1, j - bit);
    }
  }

  /** Block j of length 2^s. */
  function Block(x: seq<Cx>, s: nat, j: nat): (b: seq<Cx>)
    requires (j + 1) * Pow2(s) <= |x|
    ensures |b| == Pow2(s)
  {
    assert (j + 1) * Pow2(s) == j * Pow2(s) + Pow2(s);
    x[j * Pow2(s)..(j + 1) * Pow2(s)]
  }

  /** The root for blocks of length 2^(m-t) in a transform of length 2^m. */
  function RootAt(w: Cx, t: nat): Cx {
    Pow(w, Pow2(t))
  }

  lemma BlockFits(m: nat, s: nat, j: nat)
    requires s <= m && j < Pow2(m - s)
    ensures (j + 1) * Pow2(s) <= Pow2(m)
  {
    Pow2Add(m - s, s);
    MulMonotone(j + 1, Pow2(m - s), Pow2(s));
  }

  /** Blocks of length 2^s before block q are transformed, the others are as
      the previous pass left them. */
  ghost predicate Passed(x: seq<Cx>, b: seq<Cx>, w: Cx, m: nat, s: nat, q: nat) {
    && 0 < s <= m && |x| == |b| == Pow2(m) && q <= Pow2(m - s)
    && DoneRange(x, b, w, m, s, 0, q) && DoneRange(x, b, w, m, s - 1, 2 * q, Pow2(m - s + 1))
  }

  ghost predicate DoneRange(x: seq<Cx>, b: seq<Cx>, w: Cx, m: nat, s: nat, lo: nat, hi: nat)
    requires s <= m && |x| == |b| == Pow2(m) && hi <= Pow2(m - s)
  {
    forall j: nat :: lo <= j < hi ==> Done(x, b, w, m, s, j)
  }

  ghost predicate Done(x: seq<Cx>, b: seq<Cx>, w: Cx, m: nat, s: nat, j: nat)
    requires s <= m && |x| == |b| == Pow2(m) && j < Pow2(m - s)
  {
    BlockFits(m, s, j);
    Block(x, s, j) == Butterflies(Block(b, s, j), RootAt(w, m - s), s)
  }

  /** x with the butterfly of block i..i+2h carried out for the first k pairs. */
  function Butterflied(x: seq<Cx>, i: nat, h: nat, root: Cx, k: nat): (y: seq<Cx>)
    requires i + 2 * h <= |x| && k <= h
    ensures |y| == |x|
  {
    seq(|x|, p requires 0 <= p < |x| =>
      if i <= p < i + k then Add(x[p], Mul(x[p + h], Pow(root, p - i)))
      else if i + h <= p < i + h + k then Sub(x[p - h], Mul(x[p], Pow(root, p - i - h)))
      else x[p])
  }

  lemma ButterflyStep(x: seq<Cx>, i: nat, h: nat, root: Cx, k: nat)
    requires i + 2 * h <= |x| && k < h
    ensures var y := Butterflied(x, i, h, root, k);
            y[i + k] == x[i + k] && y[i + k + h] == x[i + k + h] &&
            Butterflied(x, i, h, root, k + 1)
            == y[i + k := Add(x[i + k], Mul(x[i + k + h], Pow(root, k)))]
                [i + k + h := Sub(x[i + k], Mul(x[i + k + h], Pow(root, k)))]
  {
    hide Mul, Pow;
  }

  lemma CellsUpdate(re: seq<real>, im: seq<real>, p: nat, c: Cx)
    requires |re| == |im| && p < |re|
    ensures Cells(re[p := c.re], im[p := c.im]) == Cells(re, im)[p := c]
  {}

  /** One butterfly on the cells p and p2, with twiddle t. */
  method Butterfly(re: array<real>, im: array<real>, p: nat, p2: nat, t: Cx)
    requires re.Length == im.Length && re != im && p < re.Length && p2 < re.Length && p != p2
    modifies re, im
    ensures var x := old(Cells(re[..], im[..]));
            Cells(re[..], im[..]) == x[p := Add(x[p], Mul(x[p2], t))][p2 := Sub(x[p], Mul(x[p2], t))]
  {
    hide Mul;
    ghost var x, re0, im0 := Cells(re[..], im[..]), re[..], im[..];
    var u := Cx(re[p], im[p]);
    var o := Cx(re[p2], im[p2]);
    var v := Mul(o, t);
    assert u == x[p] && o == x[p2];
    var a, b := Add(u, v), Sub(u, v);
    re[p], im[p] := a.re, a.im;
    re[p2], im[p2] := b.re, b.im;
    CellsUpdate(re0, im0, p, a);
    CellsUpdate(re0[p := a.re], im0[p := a.im], p2, b);
    assert re[..] == re0[p := a.re][p2 := b.re] && im[..] == im0[p := a.im][p2 := b.im];
  }

  /** The inner loop over one block. */
  method ButterflyBlock(re: array<real>, im: array<real>, i: nat, h: nat, root: Cx)
    requires re.Length == im.Length && re != im && i + 2 * h <= re.Length
    modifies re, im
    ensures Cells(re[..], im[..]) == Butterflied(old(Cells(re[..], im[..])), i, h, root, h)
  {
    hide Mul, Pow, Add, Sub;
    ghost var x := Cells(re[..], im[..]);
    assert Butterflied(x, i, h, root, 0) == x;
    hide Butterflied;
    for k := 0 to h
      invariant Cells(re[..], im[..]) == Butterflied(x, i, h, root, k)
    {
      ButterflyStep(x, i, h, root, k);
      Butterfly(re, im, i + k, i + k + h, Pow(root, k));
    }
  }

  lemma RootSquared(w: Cx, t: nat)
    ensures Mul(RootAt(w, t), RootAt(w, t)) == RootAt(w, t + 1)
  {
    hide Mul, Pow;
    PowAdd(w, Pow2(t), Pow2(t));
  }

  lemma BlockHalves(x: seq<Cx>, s: nat, j: nat)
    requires s > 0 && (j + 1) * Pow2(s) <= |x|
    ensures (2 * j + 1 + 1) * Pow2(s - 1) <= |x| && (2 * j + 1) * Pow2(s - 1) <= |x|
    ensures Block(x, s, j)[..Pow2(s - 1)] == Block(x, s - 1, 2 * j)
    ensures Block(x, s, j)[Pow2(s - 1)..] == Block(x, s - 1, 2 * j + 1)
  {
    var h := Pow2(s - 1);
    assert j * (2 * h) == (2 * j) * h;
    assert (2 * j + 1) * h == (2 * j) * h + h;
    assert (2 * j + 2) * h == (2 * j) * h + 2 * h;
    assert (j + 1) * (2 * h) == j * (2 * h) + 2 * h;
  }

  lemma ButterfliedSlice(x: seq<Cx>, i: nat, h: nat, root: Cx)
    requires i + 2 * h <= |x|
    ensures Butterflied(x, i, h, root, h)[i..i + 2 * h] == Combine(x[i..i + h], x[i + h..i + 2 * h], root)
  {
    hide Mul, Pow;
  }

  lemma ButterfliedBlock(x: seq<Cx>, s: nat, q: nat, root: Cx)
    requires s > 0 && (q + 1) * Pow2(s) <= |x|
    ensures q * Pow2(s) + 2 * Pow2(s - 1) <= |x|
    ensures var b := Block(x, s, q); var h := Pow2(s - 1);
            Block(Butterflied(x, q * Pow2(s), h, root, h), s, q) == Combine(b[..h], b[h..], root)
  {
    hide Mul, Pow, Butterflied, Combine;
    assert (q + 1) * Pow2(s) == q * Pow2(s) + Pow2(s);
    var i, h := q * Pow2(s), Pow2(s - 1);
    ButterfliedSlice(x, i, h, root);
    var b := Block(x, s, q);
    assert b[..h] == x[i..i + h] && b[h..] == x[i + h..i + 2 * h];
  }

  lemma ButterfliedOther(x: seq<Cx>, i: nat, h: nat, root: Cx, s: nat, j: nat)
    requires i + 2 * h <= |x| && (j + 1) * Pow2(s) <= |x|
    requires (j + 1) * Pow2(s) <= i || i + 2 * h <= j * Pow2(s)
    ensures Block(Butterflied(x, i, h, root, h), s, j) == Block(x, s, j)
  {
    hide Butterflied, Pow2;
    assert (j + 1) * Pow2(s) == j * Pow2(s) + Pow2(s);
    SliceKept(x, i, h, root, j * Pow2(s), (j + 1) * Pow2(s));
  }

  lemma SliceKept(x: seq<Cx>, i: nat, h: nat, root: Cx, lo: nat, hi: nat)
    requires i + 2 * h <= |x| && lo <= hi <= |x| && (hi <= i || i + 2 * h <= lo)
    ensures Butterflied(x, i, h, root, h)[lo..hi] == x[lo..hi]
  {
    hide Mul, Pow;
  }

  /** One block of a pass. */
  lemma BlockDone(x: seq<Cx>, b: seq<Cx>, w: Cx, m: nat, s: nat, q: nat)
    requires 0 < s <= m && |x| == |b| == Pow2(m) && q < Pow2(m - s)
    requires 2 * q + 1 < Pow2(m - s + 1)
    requires Done(x, b, w, m, s - 1, 2 * q) && Done(x, b, w, m, s - 1, 2 * q + 1)
    ensures q * Pow2(s) + 2 * Pow2(s - 1) <= |x|
    ensures Done(Butterflied(x, q * Pow2(s), Pow2(s - 1), RootAt(w, m - s), Pow2(s - 1)), b, w, m, s, q)
  {
    hide Mul, Pow, Combine, Butterflied, Block, RootAt;
    BlockFits(m, s, q);
    BlockHalves(x, s, q);
    BlockHalves(b, s, q);
    RootSquared(w, m - s);
    ButterfliedBlock(x, s, q, RootAt(w, m - s));
  }

  lemma PassStep(x: seq<Cx>, b: seq<Cx>, w: Cx, m: nat, s: nat, q: nat)
    requires Passed(x, b, w, m, s, q) && q < Pow2(m - s)
    ensures q * Pow2(s) + 2 * Pow2(s - 1) <= |x|
    ensures Passed(Butterflied(x, q * Pow2(s), Pow2(s - 1), RootAt(w, m - s), Pow2(s - 1)), b, w, m, s, q + 1)
  {
    hide Mul, Pow, Butterflied, Butterflies, Block, RootAt;
    BlockDone(x, b, w, m, s, q);
    var h, i, root := Pow2(s - 1), q * Pow2(s), RootAt(w, m - s);
    var y := Butterflied(x, i, h, root, h);
    forall j: nat | j < q
      ensures Done(y, b, w, m, s, j)
    {
      BlockFits(m, s, j);
      MulMonotone(j + 1, q, Pow2(s));
      ButterfliedOther(x, i, h, root, s, j);
      assert Done(x, b, w, m, s, j);
    }
    var prev := s - 1;
    forall j: nat | 2 * (q + 1) <= j < Pow2(m - s + 1)
      ensures Done(y, b, w, m, prev, j)
    {
      BlockFits(m, prev, j);
      MulMonotone(2 * q + 2, j, h);
      TwoHalves(q, h);
      ButterfliedOther(x, i, h, root, prev, j);
      assert Done(x, b, w, m, prev, j);
    }
  }

  lemma TwoHalves(q: nat, h: nat)
    ensures (2 * q + 2) * h == q * (2 * h) + 2 * h
  {}

  /** A finished pass is the start of the next. */
  lemma NextPass(x: seq<Cx>, b: seq<Cx>, w: Cx, m: nat, s: nat)
    requires s < m && Passed(x, b, w, m, s, Pow2(m - s))
    ensures Passed(x, b, w, m, s + 1, 0)
  {
    hide Done;
  }

  lemma FirstPass(b: seq<Cx>, w: Cx, m: nat)
    requires 0 < m && |b| == Pow2(m)
    ensures Passed(b, b, w, m, 1, 0)
  {
    hide Mul, Pow, RootAt;
  }

  lemma LastPass(x: seq<Cx>, b: seq<Cx>, w: Cx, m: nat)
    requires Passed(x, b, w, m, m, 1)
    ensures x == Butterflies(b, w, m)
  {
    hide Mul, Butterflies;
    PowFirst(w);
    assert Done(x, b, w, m, m, 0);
    assert Block(x, m, 0) == x && Block(b, m, 0) == b;
  }

  lemma Quotient(m: nat, s: nat)
    requires s <= m
    ensures Pow2(m) / Pow2(s) == Pow2(m - s)
  {
    Pow2Add(m - s, s);
    DivExact(Pow2(s), Pow2(m - s));
    assert Pow2(s) * Pow2(m - s) == Pow2(m - s) * Pow2(s);
  }

  lemma TrivialTransform(b: seq<Cx>, w: Cx)
    requires |b| == 1
    ensures Butterflies(b, w, 0) == b
  {}

  lemma BlockInRange(m: nat, s: nat, q: nat)
    requires s <= m && q <= Pow2(m - s)
    ensures q < Pow2(m - s) <==> q * Pow2(s) < Pow2(m)
    ensures q == Pow2(m - s) <==> q * Pow2(s) == Pow2(m)
  {
    Pow2Add(m - s, s);
    if q < Pow2(m - s) {
      BlockFits(m, s, q);
      assert (q + 1) * Pow2(s) == q * Pow2(s) + Pow2(s);
    }
  }

  /** One pass over all blocks of a given length. */
  method Pass(re: array<real>, im: array<real>, length: nat, w: Cx, ghost b: seq<Cx>, ghost m: nat, ghost s: nat)
    requires re.Length == im.Length == Pow2(m) && re != im
    requires 0 < s <= m && length == Pow2(s) && Passed(Cells(re[..], im[..]), b, w, m, s, 0)
    modifies re, im
    ensures Passed(Cells(re[..], im[..]), b, w, m, s, Pow2(m - s))
  {
    var n := re.Length;
    var root := Pow(w, n / length);
    Quotient(m, s);
    assert root == RootAt(w, m - s) && length / 2 == Pow2(s - 1) && length > 0;
    hide *;
    var i := 0;
    ghost var q := 0;
    while i < n
      invariant q <= Pow2(m - s) && i == q * length
      invariant Passed(Cells(re[..], im[..]), b, w, m, s, q)
      decreases n - i
    {
      BlockInRange(m, s, q);
      PassStep(Cells(re[..], im[..]), b, w, m, s, q);
      ButterflyBlock(re, im, i, length / 2, root);
      assert (q + 1) * length == q * length + length;
      i := i + length;
      q := q + 1;
    }
    BlockInRange(m, s, q);
  }

  /** The transform in place; w stands for exp(-2 pi i / n), and twiddle k of a
      block of a given length is w to the power k n / length. */
  method Transform(re: array<real>, im: array<real>, w: Cx, ghost m: nat)
    requires re.Length == im.Length == Pow2(m) && re != im
    modifies re, im
    ensures Cells(re[..], im[..]) == Butterflies(BitReversed(old(Cells(re[..], im[..])), m), w, m)
  {
    hide Mul, Pow, Butterflies, BitReversed, Passed;
    var n := re.Length;
    BitReverse(re, im, m);
    ghost var b := Cells(re[..], im[..]);
    if m == 0 {
      TrivialTransform(b, w);
    } else {
      FirstPass(b, w, m);
    }
    var length := 2;
    ghost var s := 1;
    while length <= n
      invariant 0 < s <= m + 1 && length == Pow2(s)
      invariant s <= m ==> Passed(Cells(re[..], im[..]), b, w, m, s, 0)
      invariant s == m + 1 ==> Cells(re[..], im[..]) == Butterflies(b, w, m)
      decreases m + 1 - s
    {
      Pow2Order(s, m);
      Pass(re, im, length, w, b, m, s);
      if s < m {
        NextPass(Cells(re[..], im[..]), b, w, m, s);
      } else {
        LastPass(Cells(re[..], im[..]), b, w, m);
      }
      length := length * 2;
      s := s + 1;
    }
    Pow2Order(s, m);
  }

  /** The result is the discrete Fourier transform whenever w is a root for n. */
  lemma TransformIsDft(x: seq<Cx>, w: Cx, m: nat)
    requires |x| == Pow2(m) && RootFor(w, m)
    ensures Butterflies(BitReversed(x, m), w, m) == Dft(x, w)
  {
    hide Butterflies, BitReversed, Mul, Pow, Eval, DftSum;
    forall k | 0 <= k < |x|
      ensures Butterflies(BitReversed(x, m), w, m)[k] == Dft(x, w)[k]
    {
      ButterfliesAreDft(x, w, m, k);
      DftIsEval(x, w, k, |x|);
      assert x[..|x|] == x;
    }
  }

  /** The transform as its callers see it.  It panics on lengths that are no
      power of two, except zero, where it does nothing. */
  method FFT(re: array<real>, im: array<real>, w: Cx, ghost m: nat)
    requires re.Length == im.Length && re != im
    requires re.Length == 0 || (re.Length == Pow2(m) && RootFor(w, m))
    modifies re, im
    ensures Cells(re[..], im[..]) == Dft(old(Cells(re[..], im[..])), w)
  {
    hide Butterflies, BitReversed, DftSum;
    if re.Length > 0 {
      TransformIsDft(Cells(re[..], im[..]), w, m);
      Transform(re, im, w, m);
    }
  }
}
