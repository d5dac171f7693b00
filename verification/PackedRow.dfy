/** The packed 174-bit rows of the ordered-statistics decoder: three 64-bit
    words, bit 0 in the top bit of the first word.  Every word operation is
    related to the row's bit vector. */
module PackedRow {
  import opened Gf2

  const WIDTH: nat := 192

  datatype Row = Row(w0: bv64, w1: bv64, w2: bv64)

  const EMPTY := Row(0, 0, 0)

  // The word operations, named so that proofs above this file can treat them
  // as black boxes.
  function And(a: bv64, b: bv64): bv64 { a & b }
  function Or(a: bv64, b: bv64): bv64 { a | b }
  function AndNot(a: bv64, b: bv64): bv64 { a & !b }
  function XorWord(a: bv64, b: bv64): bv64 { a ^ b }
  function Shl(a: bv64): bv64 { a << 1 }
  function Pred(a: bv64): bv64 { a - 1 }

  /** The word `1 << (63 - q)`. */
  function Mask(q: nat): bv64
    requires q < 64
    decreases 64 - q
  {
    if q == 63 then 1 else Shl(Mask(q + 1))
  }

  predicate OneHot(m: bv64) {
    m != 0 && And(m, Pred(m)) == 0
  }

  predicate WordBit(w: bv64, q: nat)
    requires q < 64
  {
    And(w, Mask(q)) != 0
  }

  function Word(r: Row, i: nat): bv64
    requires i < 3
  {
    if i == 0 then r.w0 else if i == 1 then r.w1 else r.w2
  }

  function WithWord(r: Row, i: nat, w: bv64): (s: Row)
    requires i < 3
    ensures forall j: nat :: j < 3 ==> Word(s, j) == if j == i then w else Word(r, j)
  {
    if i == 0 then r.(w0 := w) else if i == 1 then r.(w1 := w) else r.(w2 := w)
  }

  predicate Bit(r: Row, p: nat)
    requires p < WIDTH
  {
    WordBit(Word(r, p / 64), p % 64)
  }

  function SetBit(r: Row, p: nat): Row
    requires p < WIDTH
  {
    WithWord(r, p / 64, Or(Word(r, p / 64), Mask(p % 64)))
  }

  function ClearBit(r: Row, p: nat): Row
    requires p < WIDTH
  {
    WithWord(r, p / 64, AndNot(Word(r, p / 64), Mask(p % 64)))
  }

  function Flip(r: Row, p: nat): Row
    requires p < WIDTH
  {
    WithWord(r, p / 64, XorWord(Word(r, p / 64), Mask(p % 64)))
  }

  function XorRow(a: Row, b: Row): Row {
    Row(XorWord(a.w0, b.w0), XorWord(a.w1, b.w1), XorWord(a.w2, b.w2))
  }

  // ---------- bit-vector facts, each about one operation ----------

  lemma OneHotShift(m: bv64)
    requires And(m, Pred(m)) == 0
    ensures And(Shl(m), Pred(Shl(m))) == 0
  {}

  lemma ShiftedDisjoint(a: bv64, b: bv64)
    requires And(a, b) == 0
    ensures And(Shl(a), Shl(b)) == 0
  {}

  lemma ShiftedIsEven(a: bv64)
    ensures And(Shl(a), 1) == 0
  {}

  lemma ShiftZero()
    ensures Shl(0) == 0
  {}

  lemma AndComm(a: bv64, b: bv64)
    ensures And(a, b) == And(b, a)
  {}

  lemma AndSelf(a: bv64)
    ensures And(a, a) == a
  {}

  lemma AndZero(a: bv64)
    ensures And(0, a) == 0
  {}

  lemma SetSame(w: bv64, m: bv64)
    ensures And(Or(w, m), m) == m
  {}

  lemma ClearSame(w: bv64, m: bv64)
    ensures And(AndNot(w, m), m) == 0
  {}

  lemma SetOther(w: bv64, m: bv64, o: bv64)
    requires And(m, o) == 0
    ensures And(Or(w, m), o) == And(w, o)
  {}

  lemma ClearOther(w: bv64, m: bv64, o: bv64)
    requires And(m, o) == 0
    ensures And(AndNot(w, m), o) == And(w, o)
  {}

  lemma XorNeither(v: bv64, w: bv64, m: bv64)
    requires And(v, m) == 0 && And(w, m) == 0
    ensures And(XorWord(v, w), m) == 0
  {}

  lemma XorLeft(v: bv64, w: bv64, m: bv64)
    requires And(v, m) == m && And(w, m) == 0
    ensures And(XorWord(v, w), m) == m
  {}

  lemma XorRight(v: bv64, w: bv64, m: bv64)
    requires And(v, m) == 0 && And(w, m) == m
    ensures And(XorWord(v, w), m) == m
  {}

  lemma XorBoth(v: bv64, w: bv64, m: bv64)
    requires And(v, m) == m && And(w, m) == m
    ensures And(XorWord(v, w), m) == 0
  {}

  lemma OneHotAnd(v: bv64, m: bv64)
    requires OneHot(m)
    ensures And(v, m) == 0 || And(v, m) == m
  {}

  lemma LowMaskStep(v: bv64, m: bv64)
    requires And(v, Pred(m)) == 0 && And(v, m) == 0 && OneHot(m)
    ensures And(v, Pred(Shl(m))) == 0
  {}

  lemma NothingBelowOne(v: bv64)
    ensures And(v, Pred(1)) == 0
  {}

  lemma TopMaskAll(v: bv64)
    requires And(v, Pred(0x8000_0000_0000_0000)) == 0
    requires And(v, 0x8000_0000_0000_0000) == 0
    ensures v == 0
  {}

  lemma ClearLowest(v: bv64, m: bv64)
    requires OneHot(m) && And(v, Pred(m)) == 0 && And(v, m) == m
    ensures And(v, Pred(v)) == XorWord(v, m)
  {}

  // ---------- the masks are one-hot and disjoint ----------

  lemma MaskTop()
    ensures Mask(0) == 0x8000_0000_0000_0000
  {
    assert Mask(56) == 0x80;
    assert Mask(48) == 0x8000;
    assert Mask(40) == 0x80_0000;
    assert Mask(32) == 0x8000_0000;
    assert Mask(24) == 0x80_0000_0000;
    assert Mask(16) == 0x8000_0000_0000;
    assert Mask(8) == 0x80_0000_0000_0000;
  }

  lemma {:induction false} MaskZeroSpreads(q: nat)
    requires q < 64 && Mask(q) == 0
    ensures Mask(0) == 0
  {
    hide Shl;
    if q == 0 {
    } else {
      ShiftZero();
      MaskZeroSpreads(q - 1);
    }
  }

  lemma {:induction false} MaskOneHot(q: nat)
    requires q < 64
    ensures OneHot(Mask(q))
    decreases 64 - q
  {
    hide Shl, And, Pred;
    MaskTop();
    if Mask(q) == 0 {
      MaskZeroSpreads(q);
    }
    if q < 63 {
      MaskOneHot(q + 1);
      OneHotShift(Mask(q + 1));
    } else {
      NothingBelowOne(1);
    }
  }

  lemma {:induction false} MasksDisjoint(p: nat, q: nat)
    requires p < 64 && q < 64 && p != q
    ensures And(Mask(p), Mask(q)) == 0
    decreases 64 - p
  {
    hide Shl, And;
    if p == 63 {
      ShiftedIsEven(Mask(q + 1));
      AndComm(Mask(p), Mask(q));
    } else if q == 63 {
      ShiftedIsEven(Mask(p + 1));
    } else {
      MasksDisjoint(p + 1, q + 1);
      ShiftedDisjoint(Mask(p + 1), Mask(q + 1));
    }
  }

  // ---------- the word operations on single bits ----------

  lemma WordSet(w: bv64, p: nat, q: nat)
    requires p < 64 && q < 64
    ensures WordBit(Or(w, Mask(p)), q) == (p == q || WordBit(w, q))
  {
    hide Mask, And, Or, Pred;
    if p == q {
      MaskOneHot(p);
      SetSame(w, Mask(p));
    } else {
      MasksDisjoint(p, q);
      SetOther(w, Mask(p), Mask(q));
    }
  }

  lemma WordClear(w: bv64, p: nat, q: nat)
    requires p < 64 && q < 64
    ensures WordBit(AndNot(w, Mask(p)), q) == (p != q && WordBit(w, q))
  {
    hide Mask, And, AndNot;
    if p == q {
      ClearSame(w, Mask(p));
    } else {
      MasksDisjoint(p, q);
      ClearOther(w, Mask(p), Mask(q));
    }
  }

  lemma WordXor(v: bv64, w: bv64, q: nat)
    requires q < 64
    ensures WordBit(XorWord(v, w), q) == (WordBit(v, q) != WordBit(w, q))
  {
    hide Mask, And, XorWord, Pred;
    var m := Mask(q);
    MaskOneHot(q);
    OneHotAnd(v, m);
    OneHotAnd(w, m);
    if And(v, m) == 0 {
      if And(w, m) == 0 { XorNeither(v, w, m); } else { XorRight(v, w, m); }
    } else {
      if And(w, m) == 0 { XorLeft(v, w, m); } else { XorBoth(v, w, m); }
    }
  }

  lemma MaskBits(p: nat, q: nat)
    requires p < 64 && q < 64
    ensures WordBit(Mask(p), q) == (p == q)
  {
    hide Mask, And, Pred;
    if p == q {
      MaskOneHot(p);
      AndSelf(Mask(p));
    } else {
      MasksDisjoint(p, q);
    }
  }

  lemma WordFlip(w: bv64, p: nat, q: nat)
    requires p < 64 && q < 64
    ensures WordBit(XorWord(w, Mask(p)), q) == ((p == q) != WordBit(w, q))
  {
    hide Mask, And, XorWord, WordBit;
    WordXor(w, Mask(p), q);
    MaskBits(p, q);
  }

  lemma WordEmpty(q: nat)
    requires q < 64
    ensures !WordBit(0, q)
  {
    hide Mask, And;
    AndZero(Mask(q));
  }

  // ---------- rows as bit vectors ----------

  /** The bit vector a row stands for. */
  function Bits(r: Row): (v: Vec)
    ensures |v| == WIDTH
  {
    seq(WIDTH, p requires 0 <= p < WIDTH => Bit(r, p))
  }

  lemma EmptyBits()
    ensures Bits(EMPTY) == Zero(WIDTH)
  {
    hide WordBit;
    forall p: nat | p < WIDTH
      ensures !Bit(EMPTY, p)
    {
      WordEmpty(p % 64);
    }
  }

  lemma SetBitBits(r: Row, p: nat)
    requires p < WIDTH
    ensures Bits(SetBit(r, p)) == Bits(r)[p := true]
  {
    hide WordBit, Mask, Or, Word, WithWord;
    forall q: nat | q < WIDTH
      ensures Bit(SetBit(r, p), q) == (p == q || Bit(r, q))
    {
      WordSet(Word(r, p / 64), p % 64, q % 64);
    }
  }

  lemma ClearBitBits(r: Row, p: nat)
    requires p < WIDTH
    ensures Bits(ClearBit(r, p)) == Bits(r)[p := false]
  {
    hide WordBit, Mask, AndNot, Word, WithWord;
    forall q: nat | q < WIDTH
      ensures Bit(ClearBit(r, p), q) == (p != q && Bit(r, q))
    {
      WordClear(Word(r, p / 64), p % 64, q % 64);
    }
  }

  lemma FlipBits(r: Row, p: nat)
    requires p < WIDTH
    ensures Bits(Flip(r, p)) == Bits(r)[p := !Bit(r, p)]
  {
    hide WordBit, Mask, XorWord, Word, WithWord;
    forall q: nat | q < WIDTH
      ensures Bit(Flip(r, p), q) == ((p == q) != Bit(r, q))
    {
      WordFlip(Word(r, p / 64), p % 64, q % 64);
    }
  }

  lemma XorRowBit(a: Row, b: Row, p: nat)
    requires p < WIDTH
    ensures Bit(XorRow(a, b), p) == (Bit(a, p) != Bit(b, p))
  {
    hide WordBit, XorWord;
    WordXor(Word(a, p / 64), Word(b, p / 64), p % 64);
  }

  lemma XorRowBits(a: Row, b: Row)
    ensures Bits(XorRow(a, b)) == Xor(Bits(a), Bits(b))
  {
    hide Bit, XorRow;
    forall p: nat | p < WIDTH
      ensures Bit(XorRow(a, b), p) == (Bit(a, p) != Bit(b, p))
    {
      XorRowBit(a, b, p);
    }
  }

  // ---------- popcount ----------

  function WordCount(w: bv64, upto: nat): (c: nat)
    requires upto <= 64
  {
    if upto == 0 then 0
    else WordCount(w, upto - 1) + if WordBit(w, upto - 1) then 1 else 0
  }

  lemma {:induction false} CountUnchanged(v: bv64, w: bv64, upto: nat)
    requires upto <= 64
    requires forall q: nat :: q < upto ==> WordBit(v, q) == WordBit(w, q)
    ensures WordCount(v, upto) == WordCount(w, upto)
  {
    hide WordBit;
    if upto == 0 {
    } else {
      CountUnchanged(v, w, upto - 1);
    }
  }

  lemma {:induction false} CountDropsOne(v: bv64, p: nat, upto: nat)
    requires p < upto <= 64 && WordBit(v, p)
    ensures WordCount(XorWord(v, Mask(p)), upto) == WordCount(v, upto) - 1
  {
    hide WordBit, XorWord, Mask;
    forall q: nat | q < 64
      ensures WordBit(XorWord(v, Mask(p)), q) == ((p == q) != WordBit(v, q))
    {
      WordFlip(v, p, q);
    }
    if p == upto - 1 {
      CountUnchanged(XorWord(v, Mask(p)), v, p);
    } else {
      CountDropsOne(v, p, upto - 1);
    }
  }

  lemma {:induction false} EmptyCount(upto: nat)
    requires upto <= 64
    ensures WordCount(0, upto) == 0
  {
    hide WordBit;
    if upto == 0 {
    } else {
      WordEmpty(upto - 1);
      EmptyCount(upto - 1);
    }
  }

  /** Clearing the lowest set bit, whose position is found from the bottom. */
  lemma {:induction false} LowestBit(v: bv64, q: nat) returns (p: nat)
    requires v != 0 && q < 64 && And(v, Pred(Mask(q))) == 0
    ensures p < 64 && WordBit(v, p) && And(v, Pred(v)) == XorWord(v, Mask(p))
    decreases q
  {
    hide And, Pred, XorWord, Shl;
    MaskOneHot(q);
    OneHotAnd(v, Mask(q));
    if And(v, Mask(q)) == Mask(q) {
      p := q;
      ClearLowest(v, Mask(q));
    } else if q == 0 {
      MaskTop();
      TopMaskAll(v);
      assert false;
    } else {
      LowMaskStep(v, Mask(q));
      p := LowestBit(v, q - 1);
    }
  }

  /** Kernighan's loop counts the set bits. */
  method PopCount(w: bv64) returns (n: nat)
    ensures n == WordCount(w, 64)
  {
    hide And, Pred, XorWord, WordBit;
    var v := w;
    n := 0;
    while v != 0
      invariant n + WordCount(v, 64) == WordCount(w, 64)
      decreases WordCount(v, 64)
    {
      NothingBelowOne(v);
      ghost var p := LowestBit(v, 63);
      CountDropsOne(v, p, 64);
      v := And(v, Pred(v));
      n := n + 1;
    }
    EmptyCount(64);
  }

  lemma {:induction false} CountIsWeight(w: bv64, v: Vec, base: nat, upto: nat)
    requires upto <= 64 && base + upto <= |v|
    requires forall q: nat :: q < upto ==> v[base + q] == WordBit(w, q)
    ensures Weight(v[..base + upto]) == Weight(v[..base]) + WordCount(w, upto)
  {
    hide WordBit;
    if upto > 0 {
      CountIsWeight(w, v, base, upto - 1);
      assert v[..base + upto][..base + upto - 1] == v[..base + upto - 1];
    } else {
      assert v[..base + 0] == v[..base];
    }
  }

  lemma NoWeight(v: Vec)
    ensures Weight(v[..0]) == 0
  {}

  lemma WordsOfBits(r: Row, q: nat)
    requires q < 64
    ensures |Bits(r)| == 192
    ensures Bits(r)[0 + q] == WordBit(r.w0, q)
    ensures Bits(r)[64 + q] == WordBit(r.w1, q)
    ensures Bits(r)[128 + q] == WordBit(r.w2, q)
  {
    hide WordBit;
  }

  lemma RowCountIsWeight(r: Row)
    ensures WordCount(r.w0, 64) + WordCount(r.w1, 64) + WordCount(r.w2, 64) == Weight(Bits(r))
  {
    hide *;
    var v := Bits(r);
    NoWeight(v);
    WordsOfBits(r, 0);
    assert v[..192] == v;
    forall q: nat | q < 64
      ensures v[0 + q] == WordBit(r.w0, q)
      ensures v[64 + q] == WordBit(r.w1, q)
      ensures v[128 + q] == WordBit(r.w2, q)
    {
      WordsOfBits(r, q);
    }
    CountIsWeight(r.w0, v, 0, 64);
    CountIsWeight(r.w1, v, 64, 64);
    CountIsWeight(r.w2, v, 128, 64);
  }

  /** Word-wise distance equals Hamming distance of the bit vectors. */
  method RowWeight(a: Row, b: Row) returns (n: nat)
    ensures n == Weight(Xor(Bits(a), Bits(b)))
  {
    hide Bits, XorRow;
    var x := XorRow(a, b);
    var c0 := PopCount(x.w0);
    var c1 := PopCount(x.w1);
    var c2 := PopCount(x.w2);
    n := c0 + c1 + c2;
    RowCountIsWeight(x);
    XorRowBits(a, b);
  }
}
