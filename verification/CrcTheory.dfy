/** Cyclic redundancy checks as linear maps over GF(2).  Entry 0 of a register
    is the bit that leaves it next; a polynomial is what feeds back. */
module CrcTheory {
  import opened Gf2

  /** One message bit through the division register. */
  function Step(poly: Vec, r: Vec, b: bool): (s: Vec)
    requires |poly| == |r| && r != []
    ensures |s| == |r|
  {
    var shifted := r[1..] + [false];
    if r[0] != b then Xor(shifted, poly) else shifted
  }

  /** A whole message, first bit first. */
  function Feed(poly: Vec, r: Vec, m: Vec): (s: Vec)
    requires |poly| == |r| && r != []
    ensures |s| == |r|
    decreases |m|
  {
    if m == [] then r else Feed(poly, Step(poly, r, m[0]), m[1..])
  }

  function Ones(n: nat): (v: Vec)
    ensures |v| == n
  {
    seq(n, _ => true)
  }

  function Pad(m: Vec, n: nat): (v: Vec)
    requires |m| <= n
    ensures |v| == n
  {
    m + Zero(n - |m|)
  }

  lemma {:induction false} FeedSplit(poly: Vec, r: Vec, a: Vec, b: Vec)
    requires |poly| == |r| && r != []
    ensures Feed(poly, r, a + b) == Feed(poly, Feed(poly, r, a), b)
    decreases |a|
  {
    if a == [] {
      assert a + b == b;
    } else {
      assert (a + b)[1..] == a[1..] + b;
      FeedSplit(poly, Step(poly, r, a[0]), a[1..], b);
    }
  }

  lemma FeedOne(poly: Vec, r: Vec, b: bool)
    requires |poly| == |r| && r != []
    ensures Feed(poly, r, [b]) == Step(poly, r, b)
  {
    hide Step;
    assert [b][1..] == [];
  }

  lemma StepXor(poly: Vec, r: Vec, s: Vec, a: bool, b: bool)
    requires |poly| == |r| == |s| && r != []
    ensures Step(poly, Xor(r, s), a != b) == Xor(Step(poly, r, a), Step(poly, s, b))
  {}

  /** Superposition: the register of a sum is the sum of the registers. */
  lemma {:induction false} FeedXor(poly: Vec, r: Vec, s: Vec, m: Vec, e: Vec)
    requires |poly| == |r| == |s| && r != [] && |m| == |e|
    ensures Feed(poly, Xor(r, s), Xor(m, e)) == Xor(Feed(poly, r, m), Feed(poly, s, e))
    decreases |m|
  {
    if m == [] {
    } else {
      StepXor(poly, r, s, m[0], e[0]);
      assert Xor(m, e)[1..] == Xor(m[1..], e[1..]);
      FeedXor(poly, Step(poly, r, m[0]), Step(poly, s, e[0]), m[1..], e[1..]);
    }
  }

  lemma StepFromZero(poly: Vec, n: nat)
    requires |poly| == n > 0
    ensures Step(poly, Zero(n), false) == Zero(n)
  {}

  lemma {:induction false} FeedFromZero(poly: Vec, n: nat, k: nat)
    requires |poly| == n > 0
    ensures Feed(poly, Zero(n), Zero(k)) == Zero(n)
  {
    if k == 0 {
    } else {
      StepFromZero(poly, n);
      assert Zero(k)[1..] == Zero(k - 1);
      FeedFromZero(poly, n, k - 1);
    }
  }

  /** Feeding up to a register's width is adding it in and then feeding zeros. */
  lemma {:induction false} FeedIsPreload(poly: Vec, r: Vec, m: Vec)
    requires |poly| == |r| && r != [] && |m| <= |r|
    ensures Feed(poly, r, m) == Feed(poly, Xor(r, Pad(m, |r|)), Zero(|m|))
    decreases |m|
  {
    var n := |r|;
    if m == [] {
      assert Xor(r, Pad(m, n)) == r;
    } else {
      var rest := Pad(m[1..], n);
      var s := Step(poly, r, m[0]);
      assert Zero(|m|)[1..] == Zero(|m| - 1);
      assert Step(poly, Xor(r, Pad(m, n)), false) == Xor(s, rest);
      FeedIsPreload(poly, s, m[1..]);
    }
  }

  /** Feeding a register its own content empties it. */
  lemma FeedSelf(poly: Vec, r: Vec)
    requires |poly| == |r| && r != []
    ensures Feed(poly, r, r) == Zero(|r|)
  {
    FeedIsPreload(poly, r, r);
    assert Xor(r, Pad(r, |r|)) == Zero(|r|);
    FeedFromZero(poly, |r|, |r|);
  }

  /** Feeding the complement of the content leaves the same residue always. */
  lemma FeedComplement(poly: Vec, r: Vec, c: Vec)
    requires |poly| == |r| == |c| && r != [] && Xor(r, c) == Ones(|r|)
    ensures Feed(poly, r, c) == Feed(poly, Ones(|r|), Zero(|r|))
  {
    FeedIsPreload(poly, r, c);
    assert Pad(c, |r|) == c;
  }

  /** With the lowest coefficient set a zero step loses nothing. */
  lemma StepInjective(poly: Vec, r: Vec)
    requires |poly| == |r| && r != [] && poly[|poly| - 1]
    requires Step(poly, r, false) == Zero(|r|)
    ensures r == Zero(|r|)
  {
    var n := |r|;
    var s := Step(poly, r, false);
    assert s[n - 1] == r[0];
    forall i | 0 <= i < n
      ensures !r[i]
    {
      if i > 0 {
        assert s[i - 1] == r[i];
      }
    }
  }

  lemma {:induction false} FeedInjective(poly: Vec, r: Vec, k: nat)
    requires |poly| == |r| && r != [] && poly[|poly| - 1]
    requires Feed(poly, r, Zero(k)) == Zero(|r|)
    ensures r == Zero(|r|)
    decreases k
  {
    if k == 0 {
    } else {
      assert Zero(k)[1..] == Zero(k - 1);
      FeedInjective(poly, Step(poly, r, false), k - 1);
      StepInjective(poly, r);
    }
  }

  /** Of all tails as wide as the register only its own content empties it. */
  lemma OnlyOwnTail(poly: Vec, r: Vec, t: Vec)
    requires |poly| == |r| == |t| && r != [] && poly[|poly| - 1]
    ensures Feed(poly, r, t) == Zero(|r|) <==> t == r
  {
    hide Feed, Step;
    FeedIsPreload(poly, r, t);
    assert Pad(t, |r|) == t;
    FeedSelf(poly, r);
    if Feed(poly, r, t) == Zero(|r|) {
      FeedInjective(poly, Xor(r, t), |r|);
      forall i | 0 <= i < |r|
        ensures t[i] == r[i]
      {
        assert Xor(r, t)[i] == Zero(|r|)[i];
      }
      assert t == r;
    }
  }

  /** An error pattern: zero outside a window no wider than the register. */
  ghost predicate Burst(e: Vec, width: nat) {
    exists i: nat, j: nat :: Window(e, i, j, width)
  }

  ghost predicate Window(e: Vec, i: nat, j: nat, width: nat) {
    i <= j <= |e| && j - i <= width && e != Zero(|e|) &&
    forall k :: 0 <= k < |e| && e[k] ==> i <= k < j
  }

  lemma PaddedNonzero(b: Vec, n: nat)
    requires |b| <= n && b != Zero(|b|)
    ensures Pad(b, n) != Zero(n) && Xor(Zero(n), Pad(b, n)) == Pad(b, n)
  {
    var p := Pad(b, n);
    var k := SomeSet(b);
    assert p[k] && !Zero(n)[k];
    assert Xor(Zero(n), p) == p;
  }

  lemma WindowDetected(poly: Vec, i: nat, b: Vec, j: nat)
    requires poly != [] && poly[|poly| - 1] && |b| <= |poly| && b != Zero(|b|)
    ensures Feed(poly, Zero(|poly|), Zero(i) + (b + Zero(j))) != Zero(|poly|)
  {
    hide Feed, Step, Pad, Zero, Xor;
    var n := |poly|;
    FeedSplit(poly, Zero(n), Zero(i), b + Zero(j));
    FeedFromZero(poly, n, i);
    FeedSplit(poly, Zero(n), b, Zero(j));
    FeedIsPreload(poly, Zero(n), b);
    PaddedNonzero(b, n);
    if Feed(poly, Feed(poly, Zero(n), b), Zero(j)) == Zero(n) {
      FeedInjective(poly, Feed(poly, Zero(n), b), j);
      FeedInjective(poly, Pad(b, n), |b|);
    }
  }

  /** No burst up to the register's width feeds to zero. */
  lemma BurstDetected(poly: Vec, e: Vec)
    requires poly != [] && poly[|poly| - 1] && Burst(e, |poly|)
    ensures Feed(poly, Zero(|poly|), e) != Zero(|poly|)
  {
    hide Feed;
    var i: nat, j: nat :| Window(e, i, j, |poly|);
    var k := SomeSet(e);
    assert e[i..j][k - i];
    assert e == Zero(i) + (e[i..j] + Zero(|e| - j));
    WindowDetected(poly, i, e[i..j], |e| - j);
  }

  /** Two messages that differ by a burst leave different registers. */
  lemma BurstChangesRegister(poly: Vec, r: Vec, m: Vec, e: Vec)
    requires |poly| == |r| && r != [] && poly[|poly| - 1] && |m| == |e| && Burst(e, |poly|)
    ensures Feed(poly, r, Xor(m, e)) != Feed(poly, r, m)
  {
    var n := |poly|;
    assert Xor(r, Zero(n)) == r;
    FeedXor(poly, r, Zero(n), m, e);
    BurstDetected(poly, e);
    var d := Feed(poly, Zero(n), e);
    var i := SomeSet(d);
    assert Xor(Feed(poly, r, m), d)[i] != Feed(poly, r, m)[i];
  }
}
