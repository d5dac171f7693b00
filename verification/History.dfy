/** Streams with endless zeros before them, and their newest samples. */
module History {
  function At<T>(zero: T, s: seq<T>, i: int): T
    requires i < |s|
  {
    if i < 0 then zero else s[i]
  }

  /** The last m samples of the zero-prefixed stream. */
  function Last<T>(zero: T, s: seq<T>, m: nat): (h: seq<T>)
    ensures |h| == m
  {
    seq(m, i requires 0 <= i < m => At(zero, s, |s| - m + i))
  }

  lemma AtConcat<T>(zero: T, s: seq<T>, t: seq<T>, i: int)
    requires i < |s + t|
    ensures At(zero, s + t, i) == if i < |s| then At(zero, s, i) else t[i - |s|]
  {}

  lemma LastAt<T>(zero: T, s: seq<T>, m: nat, i: nat)
    requires i < m
    ensures Last(zero, s, m)[i] == At(zero, s, |s| - m + i)
  {}

  /** Of a stream long enough the newest samples are its tail. */
  lemma LastIsTail<T>(zero: T, s: seq<T>, m: nat)
    requires m <= |s|
    ensures Last(zero, s, m) == s[|s| - m..]
  {
    forall i: nat | i < m
      ensures Last(zero, s, m)[i] == s[|s| - m..][i]
    {
      LastAt(zero, s, m, i);
    }
    hide Last;
  }

  /** How the newest samples move up when more come. */
  lemma LastShifts<T>(zero: T, s: seq<T>, t: seq<T>, m: nat, i: nat)
    requires i < m
    ensures Last(zero, s + t, m)[i] == if i < m - |t| then Last(zero, s, m)[|t| + i] else t[|t| - m + i]
  {
    LastAt(zero, s + t, m, i);
    AtConcat(zero, s, t, |s + t| - m + i);
    if i < m - |t| {
      LastAt(zero, s, m, |t| + i);
    }
    hide At, Last;
  }

  /** A stream from the blocks it came in. */
  function Concat<X>(blocks: seq<seq<X>>): (all: seq<X>) {
    if blocks == [] then [] else Concat(blocks[..|blocks| - 1]) + blocks[|blocks| - 1]
  }
}
