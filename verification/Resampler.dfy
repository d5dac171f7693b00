/** The 8000 to 3200 hertz resampler that feeds the neural Morse decoder. */
module Resampler {
  import opened Octets

  // ---------- the ideal sequence ----------

  /** Half away from zero. */
  function Round(x: real): int {
    if x >= 0.0 then (x + 0.5).Floor else -(0.5 - x).Floor
  }

  function Clip(s: int): (c: int)
    ensures -32768 <= c <= 32767
  {
    if s > 32767 then 32767 else if s < -32768 then -32768 else s
  }

  function Mix(a: real, b: real, f: real): real {
    a * (1.0 - f) + b * f
  }

  /** Which source sample the k-th output follows, and how far. */
  function Before(k: nat): nat {
    5 * k / 2
  }

  function Part(k: nat): real {
    if k % 2 == 0 then 0.0 else 0.5
  }

  /** How many outputs n samples determine: those with a sample on each side,
      one gap of 2.5 short of the end. */
  function Ready(n: nat): (k: nat)
  {
    if n == 0 then 0 else 2 * (n - 1) / 5
  }

  /** The k-th output of a stream: the line through its neighbours, at 2.5 k. */
  function Ideal(s: seq<real>, k: nat): (v: int)
    requires Before(k) + 1 < |s|
    ensures -32768 <= v <= 32767
  {
    Clip(Round(Mix(s[Before(k)], s[Before(k) + 1], Part(k)) * 32767.0))
  }

  /** Two bytes, the low one first. */
  function Bytes(v: int): (b: seq<byte>)
    ensures |b| == 2
  {
    [v % 256, v / 256 % 256]
  }

  /** The two bytes are the 16-bit two's complement of the output. */
  lemma BytesRoundTrip(v: int)
    requires -32768 <= v <= 32767
    ensures var b := Bytes(v);
            var u := b[1] as int * 256 + b[0];
            v == if u >= 0x8000 then u - 0x1_0000 else u
  {}

  /** The nearest whole number, halves away from zero. */
  lemma RoundIsNearest(x: real)
    ensures x >= 0.0 ==> -0.5 < Round(x) as real - x <= 0.5
    ensures x < 0.0 ==> -0.5 <= Round(x) as real - x < 0.5
  {}

  /** On a straight line output k is the line's value at 2.5 k, as a 16-bit sample. */
  lemma StraightLine(s: seq<real>, a: real, b: real, k: nat)
    requires Before(k) + 1 < |s| && forall i: nat :: i < |s| ==> s[i] == a + b * i as real
    ensures var v := Round((a + b * (2.5 * k as real)) * 32767.0);
            Ideal(s, k) == if v > 32767 then 32767 else if v < -32768 then -32768 else v
  {
    hide Mix, Round, Before, Part;
    MixOnLine(s, a, b, k);
    var m := Mix(s[Before(k)], s[Before(k) + 1], Part(k));
    assert Ideal(s, k) == Clip(Round(m * 32767.0)) && m == a + b * (2.5 * k as real);
  }

  lemma MixOnLine(s: seq<real>, a: real, b: real, k: nat)
    requires Before(k) + 1 < |s| && forall i: nat :: i < |s| ==> s[i] == a + b * i as real
    ensures Mix(s[Before(k)], s[Before(k) + 1], Part(k)) == a + b * (2.5 * k as real)
  {
    hide Mix, Before, Part;
    var i, x := Before(k), Before(k) as real;
    HalfSteps(k);
    OnTheLine(s[i], s[i + 1], a, b, x, (i + 1) as real, Part(k), 2.5 * k as real);
  }

  lemma HalfSteps(k: nat)
    ensures Before(k) as real + Part(k) == 2.5 * k as real
  {
    var h := k / 2;
    if k % 2 == 0 {
      assert 5 * k == 2 * (5 * h);
    } else {
      assert 5 * k == 2 * (5 * h + 2) + 1;
    }
  }

  lemma OnTheLine(p: real, q: real, a: real, b: real, x: real, y: real, f: real, z: real)
    requires p == a + b * x && q == a + b * y && y == x + 1.0 && z == x + f
    ensures Mix(p, q, f) == a + b * z
  {
    assert q == p + b;
    assert Mix(p, q, f) == p + b * f;
    assert b * z == b * x + b * f;
  }

  /** The first n outputs as bytes. */
  ghost function IdealBytes(s: seq<real>, n: nat): (b: seq<byte>)
    requires n == 0 || Before(n - 1) + 1 < |s|
    ensures |b| == 2 * n
  {
    if n == 0 then [] else IdealBytes(s, n - 1) + Bytes(Ideal(s, n - 1))
  }

  lemma {:induction false} IdealOfPrefix(s: seq<real>, more: seq<real>, n: nat)
    requires n == 0 || Before(n - 1) + 1 < |s|
    ensures IdealBytes(s + more, n) == IdealBytes(s, n)
  {
    hide Bytes, Mix, Round, Clip;
    if n == 0 {
    } else {
      IdealOfPrefix(s, more, n - 1);
    }
  }

  /** Each output's own two bytes. */
  lemma {:induction false} IdealBytesAt(s: seq<real>, n: nat, k: nat)
    requires k < n && Before(n - 1) + 1 < |s|
    ensures Before(k) + 1 < |s| && IdealBytes(s, n)[2 * k..2 * k + 2] == Bytes(Ideal(s, k))
    decreases n
  {
    hide Bytes, Ideal;
    if k == n - 1 {
    } else {
      IdealBytesAt(s, n - 1, k);
    }
  }

  // ---------- the engine ----------

  class Engine {
    var inBuf: seq<real>
    var pos: real
    var written: seq<byte>
    ghost var fed: seq<real>
    ghost var sent: nat

    /** The buffer is the stream from the next output's sample on. */
    ghost predicate Valid()
      reads this
    {
      |inBuf| <= |fed| && inBuf == fed[|fed| - |inBuf|..] &&
      |fed| - |inBuf| == Before(sent) && pos == Part(sent) &&
      (sent == 0 || Before(sent - 1) + 1 < |fed|) &&
      written == IdealBytes(fed, sent)
    }

    constructor ()
      ensures Valid() && fed == [] && sent == 0 && written == []
    {
      inBuf, pos, written := [], 0.0, [];
      fed, sent := [], 0;
    }

    /** Queues samples. */
    method Push(x: seq<real>)
      requires Valid()
      modifies this
      ensures Valid() && fed == old(fed) + x && sent == old(sent) && |inBuf| == old(|inBuf|) + |x|
    {
      IdealOfPrefix(fed, x, sent);
      hide IdealBytes, Before, Part;
      inBuf := inBuf + x;
      fed := fed + x;
    }

    /** Writes every output that the queued samples determine. */
    method Flush()
      requires Valid()
      modifies this
      ensures Valid() && fed == old(fed)
      ensures old(|inBuf|) < 4 ==> sent == old(sent) && inBuf == old(inBuf)
      ensures old(|inBuf|) >= 4 ==> sent == Ready(|fed|) && |inBuf| <= 3
    {
      hide IdealBytes, Before, Part, Ready;
      if |inBuf| < 4 {
        return;
      }
      var x := (|inBuf| as real - 1.0 - pos) / 2.5;
      var n: int := if x >= 0.0 then x.Floor else -(-x).Floor;
      ReadyCount(|inBuf|, sent, |fed|, x);
      if n <= 0 {
        return;
      }
      var pcm := Interpolate(n);
      pos := pos + n as real * 2.5;
      PlaceOf(sent, n, pos);
      var keep := pos.Floor;
      if keep > |inBuf| {
        keep := |inBuf|;
      }
      ReadyLeaves(|fed|);
      inBuf := inBuf[keep..];
      pos := pos - keep as real;
      sent := sent + n;
      written := written + pcm;
    }

    /** n outputs from the buffer's start. */
    method Interpolate(n: nat) returns (pcm: seq<byte>)
      requires Valid() && n >= 1 && sent + n == Ready(|fed|)
      ensures Before(sent + n - 1) + 1 < |fed|
      ensures written + pcm == IdealBytes(fed, sent + n)
    {
      hide IdealBytes, Bytes, Round, Clip, Mix, Part, Before, Ready;
      pcm := [];
      for i := 0 to n
        invariant sent + i == 0 || Before(sent + i - 1) + 1 < |fed|
        invariant written + pcm == IdealBytes(fed, sent + i)
      {
        var p := pos + i as real * 2.5;
        PlaceOf(sent, i, p);
        ReadyInside(|fed|, sent + i);
        BufferPlace(i);
        var i0 := p.Floor;
        var f := p - i0 as real;
        var v := Mix(inBuf[i0], inBuf[i0 + 1], f);
        var s := Round(v * 32767.0);
        if s > 32767 {
          s := 32767;
        }
        if s < -32768 {
          s := -32768;
        }
        ClipIs(Round(v * 32767.0));
        NextIdeal(fed, sent + i, s);
        pcm := pcm + Bytes(s);
      }
    }

    lemma BufferPlace(i: nat)
      requires Valid() && Before(sent + i) + 1 < |fed|
      ensures var j := Before(sent + i) - Before(sent);
              0 <= j && j + 1 < |inBuf| &&
              inBuf[j] == fed[Before(sent + i)] && inBuf[j + 1] == fed[Before(sent + i) + 1]
    {}
  }

  // ---------- places and counts ----------

  /** i outputs on from the k-th, measured from the k-th's sample. */
  lemma PlaceOf(k: nat, i: nat, p: real)
    requires p == Part(k) + i as real * 2.5
    ensures p.Floor == Before(k + i) - Before(k) && p - p.Floor as real == Part(k + i)
  {
    BeforeAndPart(k);
    BeforeAndPart(k + i);
    hide Before, Part;
    FloorOf(p, Before(k + i) - Before(k), Part(k + i));
  }

  lemma FloorOf(p: real, n: int, f: real)
    requires p == n as real + f && 0.0 <= f < 1.0
    ensures p.Floor == n
  {}

  lemma BeforeAndPart(k: nat)
    ensures Before(k) as real + Part(k) == 2.5 * k as real && 0.0 <= Part(k) < 1.0
  {
    if k % 2 == 0 {
      assert 5 * k / 2 * 2 == 5 * k;
    } else {
      assert 5 * k / 2 * 2 == 5 * k - 1;
    }
  }

  lemma ReadyCount(len: nat, k: nat, n: nat, x: real)
    requires 4 <= len <= n && n - len == Before(k) && x == (len as real - 1.0 - Part(k)) / 2.5
    ensures x >= 0.0 && x.Floor == Ready(n) - k && x.Floor >= 1
  {
    BeforeAndPart(k);
    assert x == (2 * (n - 1) - 5 * k) as real / 5.0;
  }

  lemma ReadyInside(n: nat, k: nat)
    requires k < Ready(n)
    ensures Before(k) + 1 < n
  {}

  lemma ReadyLeaves(n: nat)
    requires n >= 1
    ensures Before(Ready(n)) <= n && n - Before(Ready(n)) <= 3
  {}

  lemma ClipIs(s: int)
    ensures Clip(s) == if s > 32767 then 32767 else if s < -32768 then -32768 else s
  {}

  lemma NextIdeal(s: seq<real>, k: nat, v: int)
    requires Before(k) + 1 < |s| && (k == 0 || Before(k - 1) + 1 < |s|) && v == Ideal(s, k)
    ensures IdealBytes(s, k + 1) == IdealBytes(s, k) + Bytes(v)
  {
    hide Bytes, Ideal;
  }
}
