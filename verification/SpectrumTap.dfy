/** The ring behind the spectrum display: newest samples in, and out in order. */
module SpectrumTap {
  import opened Arith
  import opened Complex
  import opened History

  /** Where in a ring the k-th newest sample is, behind the head. */
  function Slot(size: nat, head: nat, k: nat): int {
    if head >= k then head - k else head - k + size
  }

  /** Behind the head lie the newest samples, and zeros where none have come. */
  ghost predicate Holds(b: seq<Cx>, head: nat, h: seq<Cx>) {
    head <= |b| && (|b| > 0 ==> head < |b|) && (|h| < |b| ==> head == |h|) &&
    forall k: nat :: 1 <= k <= |b| ==> HoldsAt(b, head, h, k)
  }

  ghost predicate HoldsAt(b: seq<Cx>, head: nat, h: seq<Cx>, k: nat)
    requires head <= |b| && 1 <= k <= |b|
  {
    b[Slot(|b|, head, k)] == At(ZERO, h, |h| - k)
  }

  /** A block shorter than the ring written from the head on, wrapping. */
  ghost predicate Written(b: seq<Cx>, b': seq<Cx>, head: nat, block: seq<Cx>) {
    |b'| == |b| && head < |b| && |block| < |b| && forall j: nat :: j < |b| ==> b'[j] == AfterWrite(b, head, block, j)
  }

  ghost function AfterWrite(b: seq<Cx>, head: nat, block: seq<Cx>, j: nat): Cx
    requires head < |b| && |block| < |b| && j < |b|
  {
    if head <= j < head + |block| then block[j - head]
    else if j + |b| < head + |block| then block[j + |b| - head]
    else b[j]
  }

  lemma Wrapped(head: nat, n: nat, size: nat)
    requires head < size && n < size
    ensures (head + n) % size == if head + n < size then head + n else head + n - size
  {
    if head + n >= size {
      assert head + n == size * 1 + (head + n - size);
      DivUnique(head + n, size, 1, head + n - size);
    }
  }

  lemma HoldsShortAt(b: seq<Cx>, b': seq<Cx>, head: nat, head': nat, h: seq<Cx>, block: seq<Cx>, k: nat)
    requires Holds(b, head, h) && Written(b, b', head, block)
    requires head' == if head + |block| < |b| then head + |block| else head + |block| - |b|
    requires 1 <= k <= |b|
    ensures HoldsAt(b', head', h + block, k)
  {
    var n, size := |block|, |b|;
    var j := Slot(size, head', k);
    assert b'[j] == AfterWrite(b, head, block, j);
    AtConcat(ZERO, h, block, |h + block| - k);
    if k > n {
      assert HoldsAt(b, head, h, k - n);
      assert j == Slot(size, head, k - n);
    }
  }

  lemma HoldsShort(b: seq<Cx>, b': seq<Cx>, head: nat, h: seq<Cx>, block: seq<Cx>)
    requires Holds(b, head, h) && Written(b, b', head, block)
    ensures Holds(b', (head + |block|) % |b|, h + block)
  {
    var head' := (head + |block|) % |b|;
    Wrapped(head, |block|, |b|);
    forall k: nat | 1 <= k <= |b|
      ensures HoldsAt(b', head', h + block, k)
    {
      HoldsShortAt(b, b', head, head', h, block, k);
    }
    hide HoldsAt, AfterWrite;
  }

  lemma HoldsLong(b: seq<Cx>, h: seq<Cx>, block: seq<Cx>)
    requires |block| >= |b| && b == block[|block| - |b|..]
    ensures Holds(b, 0, h + block)
  {}

  // ---------- reading ----------

  /** How many samples past the ring's length a snapshot writes too: its copies
      are bounded by the room in the destination, not by the ring's length. */
  function Spill(size: nat, head: nat, room: nat): (n: nat)
    requires head <= size
    ensures n > 0 ==> size + n <= room && n <= size
  {
    if room <= size || head == 0 then 0 else Min(room - size, size - head)
  }

  /** What a snapshot leaves at j of a destination that held d: the newest
      samples, the oldest of them again past the ring's length, then d. */
  ghost function Shown(h: seq<Cx>, size: nat, head: nat, d: seq<Cx>, j: nat): Cx
    requires head <= size && j < |d|
  {
    var front := Min(|d|, size);
    if j < front then At(ZERO, h, |h| - front + j)
    else if j - front < Spill(size, head, |d|) then At(ZERO, h, |h| - size + (j - front))
    else d[j]
  }

  /** What two bounded copies from a place in the ring leave at j: up to the
      ring's end, and from its start if that was not enough. */
  ghost function CopiedAt(b: seq<Cx>, d: seq<Cx>, pad: nat, start: nat, m: nat, j: nat): Cx
    requires start <= |b| && j < |d|
  {
    if j < pad then d[j]
    else if start + (j - pad) < |b| then b[start + (j - pad)]
    else if |b| - start < m && start + (j - pad) - |b| < |b| then b[start + (j - pad) - |b|]
    else d[j]
  }

  /** How many zeros come first, and how many samples after them. */
  function Padding(front: nat, total: nat, size: nat): (pad: nat)
    ensures pad <= front
  {
    var avail := Min(total, size);
    if front > avail then front - avail else 0
  }

  lemma CopiedIsShown(b: seq<Cx>, head: nat, h: seq<Cx>, d0: seq<Cx>, d: seq<Cx>, j: nat)
    requires Holds(b, head, h) && |d| == |d0| && j < |d|
    requires var pad := Padding(Min(|d|, |b|), |h|, |b|);
             pad < Min(|d|, |b|) && d[j] == if j < pad then ZERO else d0[j]
    ensures var front := Min(|d|, |b|);
            var pad := Padding(front, |h|, |b|);
            CopiedAt(b, d, pad, Slot(|b|, head, front - pad), front - pad, j) == Shown(h, |b|, head, d0, j)
  {
    var front := Min(|d|, |b|);
    if j < front {
      var k := front - j;
      assert HoldsAt(b, head, h, k);
    } else if j - front < Spill(|b|, head, |d|) {
      var k := |b| - (j - front);
      assert HoldsAt(b, head, h, k);
    }
  }

  lemma NothingIsShown(b: seq<Cx>, head: nat, h: seq<Cx>, d0: seq<Cx>, d: seq<Cx>, j: nat)
    requires Holds(b, head, h) && |d| == |d0| && j < |d|
    requires var front := Min(|d|, |b|);
             Padding(front, |h|, |b|) == front && d[j] == if j < front then ZERO else d0[j]
    ensures d[j] == Shown(h, |b|, head, d0, j)
  {}

  ghost predicate Padded(was: seq<Cx>, d: seq<Cx>, pad: nat) {
    |d| == |was| && forall j: nat :: j < |d| ==> d[j] == if j < pad then ZERO else was[j]
  }

  ghost predicate Copied(b: seq<Cx>, d: seq<Cx>, d': seq<Cx>, pad: nat, start: int, m: nat) {
    0 <= start <= |b| && |d'| == |d| && forall j: nat :: j < |d| ==> d'[j] == CopiedAt(b, d, pad, start, m, j)
  }

  /** Padding and then copying what there is leaves what a snapshot shows. */
  lemma SnapshotShown(b: seq<Cx>, head: nat, h: seq<Cx>, was: seq<Cx>, d: seq<Cx>, d': seq<Cx>)
    requires Holds(b, head, h) && |d'| == |d| && Padded(was, d, Padding(Min(|d|, |b|), |h|, |b|))
    requires var front := Min(|d|, |b|);
             var pad := Padding(front, |h|, |b|);
             if pad < front then Copied(b, d, d', pad, Slot(|b|, head, front - pad), front - pad) else d' == d
    ensures head <= |b| && forall j: nat :: j < |d'| ==> d'[j] == Shown(h, |b|, head, was, j)
  {
    hide HoldsAt, Shown, CopiedAt, Slot;
    var front := Min(|d|, |b|);
    forall j: nat | j < |d'|
      ensures d'[j] == Shown(h, |b|, head, was, j)
    {
      if Padding(front, |h|, |b|) < front {
        CopiedIsShown(b, head, h, was, d, j);
      } else {
        NothingIsShown(b, head, h, was, d, j);
      }
    }
  }

  class Tap {
    const buf: array<Cx>
    var head: nat
    var total: nat
    var gen: nat
    ghost var history: seq<Cx>

    ghost predicate Valid()
      reads this, buf
    {
      total == |history| && (gen == 0 <==> history == []) && Holds(buf[..], head, history)
    }

    constructor (n: nat)
      ensures Valid() && fresh(buf) && buf.Length == n && history == [] && gen == 0 && head == 0
    {
      buf := new Cx[n](_ => ZERO);
      head, total, gen, history := 0, 0, 0, [];
    }

    /** Records the newest samples of a block, which may be longer than the ring. */
    method Push(block: seq<Cx>)
      requires Valid()
      modifies this, buf
      ensures Valid() && history == old(history) + block
      ensures gen == if block == [] then old(gen) else old(gen) + 1
      ensures head == if block == [] then old(head)
                      else if |block| >= buf.Length then 0
                      else (old(head) + |block|) % buf.Length
    {
      hide Holds;
      var n := |block|;
      if n == 0 {
        assert history + block == history;
        return;
      }
      var size := buf.Length;
      if n >= size {
        forall i | 0 <= i < size {
          buf[i] := block[n - size + i];
        }
        head := 0;
        assert buf[..] == block[n - size..];
        HoldsLong(buf[..], history, block);
      } else {
        WriteFromHead(block);
        HoldsShort(old(buf[..]), buf[..], head, history, block);
        head := (head + n) % size;
      }
      total := total + n;
      gen := gen + 1;
      history := history + block;
    }

    /** Copies up to the ring's end, and the rest to its start. */
    method WriteFromHead(block: seq<Cx>)
      requires Holds(buf[..], head, history) && 0 < |block| < buf.Length
      modifies buf
      ensures Written(old(buf[..]), buf[..], head, block)
    {
      assert head < buf.Length;
      hide Holds;
      var n, size := |block|, buf.Length;
      var c := Min(size - head, n);
      forall i | 0 <= i < c {
        buf[head + i] := block[i];
      }
      label First:
      assert forall j :: head <= j < head + c ==> buf[j] == block[j - head];
      forall i | 0 <= i < n - c {
        buf[i] := block[c + i];
      }
      assert forall j :: n - c <= j < size ==> buf[j] == old@First(buf[j]);
    }

    /** Copies the newest samples into the front of `dst`, as many as fit both,
        oldest first, zeros before the first ever pushed.  A destination longer
        than the ring gets the oldest of them again behind, as many as lie
        between the head and the ring's end, and the rest is left alone. */
    method SnapshotN(dst: array<Cx>) returns (g: nat)
      requires Valid() && dst != buf
      modifies dst
      ensures Valid() && g == gen
      ensures forall j: nat :: j < dst.Length ==> dst[j] == Shown(history, buf.Length, head, old(dst[..]), j)
      ensures var m := Min(dst.Length, buf.Length);
              var n := Spill(buf.Length, head, dst.Length);
              dst[..m] == Last(ZERO, history, m) && dst[m..m + n] == Last(ZERO, history, m)[..n] &&
              dst[m + n..] == old(dst[m + n..])
    {
      hide Holds, Shown, CopiedAt, Spill, Slot, Padded, Copied, Last;
      ghost var b, was := buf[..], dst[..];
      var size := buf.Length;
      var m := dst.Length;
      if m > size {
        m := size;
      }
      ghost var front := m;
      var avail := total;
      if avail > size {
        avail := size;
      }
      var pad := 0;
      if m > avail {
        pad := m - avail;
        m := avail;
      }
      PadFront(dst, pad);
      ghost var d := dst[..];
      assert buf[..] == b;
      if m > 0 {
        CopyNewest(dst, pad, m);
      }
      SnapshotShown(b, head, history, was, d, dst[..]);
      ShownIs(dst[..], was, history, size, head);
      assert buf[..] == b;
      g := gen;
    }

    method PadFront(dst: array<Cx>, pad: nat)
      requires pad <= dst.Length
      modifies dst
      ensures Padded(old(dst[..]), dst[..], pad)
    {
      forall i | 0 <= i < pad {
        dst[i] := ZERO;
      }
    }

    method CopyNewest(dst: array<Cx>, pad: nat, m: nat)
      requires Holds(buf[..], head, history) && dst != buf && 0 < m <= buf.Length && pad + m <= dst.Length
      modifies dst
      ensures Copied(buf[..], old(dst[..]), dst[..], pad, Slot(buf.Length, head, m), m)
    {
      hide HoldsAt;
      var start := head - m;
      if start < 0 {
        start := start + buf.Length;
      }
      CopyOut(dst, pad, start, m);
    }

    /** Copies from a place in the ring on, as far as there is room, and if that
        gave fewer than m, from the ring's start. */
    method CopyOut(dst: array<Cx>, pad: nat, start: nat, m: nat)
      requires dst != buf && start <= buf.Length && m <= buf.Length && pad + m <= dst.Length
      modifies dst
      ensures Copied(buf[..], old(dst[..]), dst[..], pad, start, m)
    {
      var size := buf.Length;
      var c := Min(dst.Length - pad, size - start);
      forall i | 0 <= i < c {
        dst[pad + i] := buf[start + i];
      }
      if c < m {
        var e := Min(dst.Length - pad - c, size);
        forall i | 0 <= i < e {
          dst[pad + c + i] := buf[i];
        }
      }
    }
  }

  /** The three stretches of a snapshot. */
  lemma ShownIs(d: seq<Cx>, was: seq<Cx>, h: seq<Cx>, size: nat, head: nat)
    requires head <= size && |d| == |was| && forall j: nat :: j < |d| ==> d[j] == Shown(h, size, head, was, j)
    ensures var m := Min(|d|, size);
            var n := Spill(size, head, |d|);
            d[..m] == Last(ZERO, h, m) && d[m..m + n] == Last(ZERO, h, m)[..n] && d[m + n..] == was[m + n..]
  {
    var m := Min(|d|, size);
    var n := Spill(size, head, |d|);
    forall j: nat | j < m
      ensures d[j] == Last(ZERO, h, m)[j]
    {
      LastAt(ZERO, h, m, j);
    }
    forall t: nat | t < n
      ensures d[m + t] == Last(ZERO, h, m)[t]
    {
      LastAt(ZERO, h, m, t);
    }
    forall j: nat | m + n <= j < |d|
      ensures d[j] == was[j]
    {}
  }

  /** A ring of four that has heard six samples, read into room for six: the
      last two cells are written too, with the two oldest samples again. */
  method OverlongSnapshot(x: seq<Cx>) returns (seen: seq<Cx>)
    requires |x| == 6
    ensures seen == x[2..] + x[2..4]
  {
    hide Last, Holds, At;
    var tap := new Tap(4);
    tap.Push(x[..3]);
    assert tap.history == x[..3] && tap.head == 3;
    tap.Push(x[3..]);
    assert tap.history == x && tap.head == 2;
    var dst := new Cx[6](_ => ZERO);
    var g := tap.SnapshotN(dst);
    seen := dst[..];
    assert Spill(4, 2, 6) == 2;
    OverlongParts(seen, x);
  }

  lemma OverlongParts(seen: seq<Cx>, x: seq<Cx>)
    requires |x| == |seen| == 6 && seen[..4] == Last(ZERO, x, 4) && seen[4..6] == Last(ZERO, x, 4)[..2]
    ensures seen == x[2..] + x[2..4]
  {
    LastIsTail(ZERO, x, 4);
    assert x[2..][..2] == x[2..4];
    assert seen == seen[..4] + seen[4..6];
  }
}
