/** A clean Mode S transmission on the 2.4 MHz grid, and what the scan makes of
    it.  Time runs in fifths of a sample, twelve to a microsecond. */
module ModeSLink {
  import opened Options
  import opened Arith
  import opened Gf2
  import opened Octets
  import opened Crc24
  import opened ModeS
  import opened ModeSDemod

  // ---------- what is on the air ----------

  /** Four half-microsecond pulses, the preamble's. */
  predicate Pulse(f: int) {
    0 <= f < 6 || 12 <= f < 18 || 42 <= f < 48 || 54 <= f < 60
  }

  /** The transmission's level f fifths after its start: eight microseconds of
      preamble, then a microsecond a bit, high in its first half for a one and in
      its second for a zero. */
  predicate High(v: Vec, f: int) {
    Pulse(f) || (96 <= f < 96 + 12 * |v| && v[(f - 96) / 12] == ((f - 96) % 12 < 6))
  }

  function One(b: bool): nat {
    if b then 1 else 0
  }

  /** How many of the five fifths from f on are high. */
  function Fifths(v: Vec, f: int): nat {
    One(High(v, f)) + One(High(v, f + 1)) + One(High(v, f + 2)) + One(High(v, f + 3)) + One(High(v, f + 4))
  }

  /** Samples of a transmission of the bits v that starts s fifths in, of
      amplitude a a fifth, with quiet around it. */
  ghost predicate Clean(w: seq<nat>, v: Vec, s: int, a: nat) {
    a > 0 && forall i: nat :: i < |w| ==> w[i] == a * Fifths(v, 5 * i - s)
  }

  lemma CleanTail(w: seq<nat>, v: Vec, s: int, a: nat, r: nat, k: nat)
    requires Clean(w, v, s, a) && r + k <= |w|
    ensures Clean(w[r..r + k], v, s - 5 * r, a)
  {
    hide Fifths;
    forall i: nat | i < k
      ensures w[r..r + k][i] == a * Fifths(v, 5 * i - (s - 5 * r))
    {
      assert w[r + i] == a * Fifths(v, 5 * (r + i) - s);
      assert 5 * (r + i) - s == 5 * i - (s - 5 * r);
    }
  }

  // ---------- one bit ----------

  /** The level u fifths after a bit b began: what is left of the bit before,
      the bit, and the two halves of the next. */
  predicate Nearby(x: bool, b: bool, y: bool, z: bool, u: int) {
    if u < 0 then x else if u < 6 then b else if u < 12 then !b else if u < 18 then y else z
  }

  function NearFifths(x: bool, b: bool, y: bool, z: bool, u: int): nat {
    One(Nearby(x, b, y, z, u)) + One(Nearby(x, b, y, z, u + 1)) + One(Nearby(x, b, y, z, u + 2)) +
    One(Nearby(x, b, y, z, u + 3)) + One(Nearby(x, b, y, z, u + 4))
  }

  /** Four samples from u fifths after the start of a bit on. */
  function FourSamples(x: bool, b: bool, y: bool, z: bool, u: int): (m: seq<nat>)
    ensures |m| == 4
  {
    [NearFifths(x, b, y, z, u), NearFifths(x, b, y, z, u + 5), NearFifths(x, b, y, z, u + 10),
     NearFifths(x, b, y, z, u + 15)]
  }

  /** In every phase, up to two fifths early or late, and whatever the bits
      around it, the correlator is positive exactly for a one. */
  lemma CorrelatorDecides(p: nat, x: bool, b: bool, y: bool, z: bool, d: int)
    requires p < 5 && -2 <= d <= 2 && !(y && z)
    ensures Correlate(FourSamples(x, b, y, z, d - p), 0, p) > 0 <==> b
  {
    if
    case d == -2 =>
    case d == -1 =>
    case d == 0 =>
    case d == 1 =>
    case d == 2 =>
  }

  /** The levels around bit n. */
  lemma AroundBit(v: Vec, n: nat, u: int)
    requires n < |v| && -6 <= u < 24
    ensures High(v, 96 + 12 * n + u)
         == Nearby(n > 0 && !v[n - 1], v[n], n + 1 < |v| && v[n + 1], n + 1 < |v| && !v[n + 1], u)
  {
    var f := 12 * n + u;
    if u < 0 {
      if n > 0 {
        assert f / 12 == n - 1 && f % 12 == u + 12;
      }
    } else if u < 12 {
      assert f / 12 == n && f % 12 == u;
    } else {
      assert f / 12 == n + 1 && f % 12 == u - 12;
    }
  }

  lemma FifthsAround(v: Vec, n: nat, u: int)
    requires n < |v| && -6 <= u <= 19
    ensures Fifths(v, 96 + 12 * n + u)
         == NearFifths(n > 0 && !v[n - 1], v[n], n + 1 < |v| && v[n + 1], n + 1 < |v| && !v[n + 1], u)
  {
    hide High, Nearby;
    AroundBit(v, n, u);
    AroundBit(v, n, u + 1);
    AroundBit(v, n, u + 2);
    AroundBit(v, n, u + 3);
    AroundBit(v, n, u + 4);
  }

  lemma CorrelateScales(w: seq<nat>, i: nat, p: nat, a: nat, m: seq<nat>)
    requires i + 3 < |w| && |m| == 4 && forall k: nat :: k < 4 ==> w[i + k] == a * m[k]
    ensures Correlate(w, i, p) == a * Correlate(m, 0, p)
  {
    assert w[i] == w[i + 0] == a * m[0];
  }

  lemma SignScales(a: nat, c: int)
    requires a > 0
    ensures a * c > 0 <==> c > 0
  {}

  /** Read up to two fifths off its place, bit n of a transmission is itself. */
  lemma BitIsRead(w: seq<nat>, v: Vec, start: int, a: nat, t: nat, n: nat)
    requires Clean(w, v, start, a) && n < |v| && -2 <= t - start - 1 <= 2
    requires 22 + (t + 12 * n) / 5 < |w|
    ensures BitAt(w, t, n) == v[n]
  {
    hide Correlate, Fifths, NearFifths;
    var i, p, d := 19 + (t + 12 * n) / 5, (t + 12 * n) % 5, t - start - 1;
    var x, b, y, z := n > 0 && !v[n - 1], v[n], n + 1 < |v| && v[n + 1], n + 1 < |v| && !v[n + 1];
    var m := FourSamples(x, b, y, z, d - p);
    forall k: nat | k < 4
      ensures w[i + k] == a * m[k]
    {
      FifthsAround(v, n, d - p + 5 * k);
      assert w[i + k] == a * Fifths(v, 5 * (i + k) - start);
      assert 5 * (i + k) - start == 96 + 12 * n + (d - p + 5 * k);
    }
    CorrelateScales(w, i, p, a, m);
    CorrelatorDecides(p, x, b, y, z, d);
    SignScales(a, Correlate(m, 0, p));
  }

  // ---------- one message ----------

  lemma FirstOctets(msg: seq<byte>, n: nat)
    requires n <= |msg|
    ensures MsgBits(msg)[..8 * n] == MsgBits(msg[..n])
  {
    hide MsgBits;
    assert msg == msg[..n] + msg[n..];
    MsgBitsConcat(msg[..n], msg[n..]);
  }

  lemma OctetsAreRead(w: seq<nat>, msg: seq<byte>, start: int, a: nat, t: nat, n: nat)
    requires Clean(w, MsgBits(msg), start, a) && |w| > 290 && t <= 8 && n <= 14 && n <= |msg|
    requires -2 <= t - start - 1 <= 2
    ensures Message(w, t, n) == msg[..n]
  {
    hide *;
    var v := MsgBits(msg);
    SlicedAre(w, v, start, a, t, 8 * n);
    MessageBits(w, t, n);
    FirstOctets(msg, n);
    MsgBitsInjective(Message(w, t, n), msg[..n]);
  }

  lemma SlicedAre(w: seq<nat>, v: Vec, start: int, a: nat, t: nat, n: nat)
    requires Clean(w, v, start, a) && |w| > 290 && t <= 8 && n <= 112 && n <= |v|
    requires -2 <= t - start - 1 <= 2
    ensures SlicedBits(w, t, n) == v[..n]
  {
    hide BitAt, Clean;
    forall i | 0 <= i < n
      ensures BitAt(w, t, i) == v[i]
    {
      BitIsRead(w, v, start, a, t, i);
    }
  }

  /** A clean message is read whole at every try-phase up to two fifths off. */
  lemma MessageIsRead(w: seq<nat>, msg: seq<byte>, start: int, a: nat, t: nat)
    requires Clean(w, MsgBits(msg), start, a) && Good(msg) && |w| > 290 && t <= 8
    requires -2 <= t - start - 1 <= 2
    ensures Attempt(w, t) == Some(msg)
  {
    hide Clean, Message, Remainder, MsgBits;
    OctetsAreRead(w, msg, start, a, t, 1);
    OctetsAreRead(w, msg, start, a, t, |msg|);
    assert msg[..|msg|] == msg;
  }

  // ---------- the preamble ----------

  /** How much of sample i is high, for a preamble that starts `start` fifths in. */
  function Pulses(start: int, i: int): nat {
    One(Pulse(5 * i - start)) + One(Pulse(5 * i - start + 1)) + One(Pulse(5 * i - start + 2)) +
    One(Pulse(5 * i - start + 3)) + One(Pulse(5 * i - start + 4))
  }

  lemma BeforeTheBits(w: seq<nat>, v: Vec, start: int, a: nat, i: nat)
    requires Clean(w, v, start, a) && i < |w| && 5 * i + 4 < start + 96
    ensures w[i] == a * Pulses(start, i)
  {}

  /** The 19 samples of a preamble that starts within two samples. */
  ghost predicate Shaped(w: seq<nat>, start: int, a: nat) {
    |w| > 18 && forall i: nat :: i <= 18 ==> w[i] == a * Pulses(start, i)
  }

  lemma PreambleShaped(w: seq<nat>, v: Vec, start: int, a: nat)
    requires Clean(w, v, start, a) && |w| > 18 && start >= 0
    ensures Shaped(w, start, a)
  {
    hide Pulses;
    forall i: nat | i <= 18
      ensures w[i] == a * Pulses(start, i)
    {
      BeforeTheBits(w, v, start, a, i);
    }
  }

  /** The three scores of a preamble against its noise samples, in eighths. */
  function Scores(start: int): (c: (int, int, int)) {
    var sum := Pulses(start, 1) + Pulses(start, 4) + Pulses(start, 12);
    var falls: int := Pulses(start, 2) as int - Pulses(start, 3);
    var late: int := Pulses(start, 10) as int - Pulses(start, 11);
    var common := sum - falls + Pulses(start, 9);
    (common - late, common + late, sum + 2 * falls + late)
  }

  function Noise(start: int): nat {
    Pulses(start, 5) + Pulses(start, 8) + Pulses(start, 16) + Pulses(start, 17) + Pulses(start, 18)
  }

  /** How much of the five fifths from f on a pulse of six from p on covers. */
  function Overlap(f: int, p: int): nat {
    if f + 5 <= p || p + 6 <= f then 0 else if f <= p then f + 5 - p else if f <= p + 1 then 5 else p + 6 - f
  }

  lemma PulsesOverlap(start: int, i: int)
    ensures var f := 5 * i - start;
            Pulses(start, i) == Overlap(f, 0) + Overlap(f, 12) + Overlap(f, 42) + Overlap(f, 54)
  {}

  lemma PulsesStandOut(start: int)
    requires 3 <= start <= 9
    ensures Pulses(start, 1) > Pulses(start, 7)
    ensures Pulses(start, 12) > Pulses(start, 14) && Pulses(start, 12) > Pulses(start, 15)
  {
    hide Pulses;
    PulsesOverlap(start, 1);
    PulsesOverlap(start, 7);
    PulsesOverlap(start, 12);
    PulsesOverlap(start, 14);
    PulsesOverlap(start, 15);
  }

  lemma NoiseOf(start: int)
    requires 3 <= start <= 9
    ensures Noise(start) == if start <= 7 then 0 else start - 7
  {
    hide Pulses;
    PulsesOverlap(start, 5);
    PulsesOverlap(start, 8);
    PulsesOverlap(start, 16);
    PulsesOverlap(start, 17);
    PulsesOverlap(start, 18);
  }

  lemma ScoresSuffice(start: int)
    requires 3 <= start <= 9
    ensures start <= 8 ==> 8 * Scores(start).0 >= Noise(start)
    ensures 8 * Scores(start).1 >= Noise(start)
    ensures start >= 5 ==> 8 * Scores(start).2 >= Noise(start)
  {
    hide Pulses, Noise;
    NoiseOf(start);
    PulsesOverlap(start, 1);
    PulsesOverlap(start, 2);
    PulsesOverlap(start, 3);
    PulsesOverlap(start, 4);
    PulsesOverlap(start, 9);
    PulsesOverlap(start, 10);
    PulsesOverlap(start, 11);
    PulsesOverlap(start, 12);
    if
    case start == 3 =>
    case start == 4 =>
    case start == 5 =>
    case start == 6 =>
    case start == 7 =>
    case start == 8 =>
    case start == 9 =>
  }

  lemma ScaledRef(a: nat, n: nat, x: int)
    requires 8 * x >= n
    ensures a * n * 4 / 32 <= a * x
  {
    assert a * (8 * x - n) >= 0;
    assert a * n <= 8 * (a * x);
  }

  lemma SampleIs(w: seq<nat>, start: int, a: nat, i: nat)
    requires Shaped(w, start, a) && i <= 18
    ensures w[i] == a * Pulses(start, i)
  {}

  lemma FiveTimes(a: int, p: int, q: int, r: int, s: int, t: int)
    ensures a * (p + q + r + s + t) == a * p + a * q + a * r + a * s + a * t
  {}

  lemma ScoreTimes(a: int, sum: int, falls: int, mid: int, late: int)
    ensures a * (sum - falls + mid - late) == a * sum - a * falls + a * mid - a * late
    ensures a * (sum - falls + mid + late) == a * sum - a * falls + a * mid + a * late
    ensures a * (sum + 2 * falls + late) == a * sum + 2 * (a * falls) + a * late
  {}

  lemma NoiseScales(w: seq<nat>, start: int, a: nat)
    requires Shaped(w, start, a)
    ensures |w| > 18 && w[5] + w[8] + w[16] + w[17] + w[18] == a * Noise(start)
  {
    var p5, p8, p16 := Pulses(start, 5), Pulses(start, 8), Pulses(start, 16);
    var p17, p18 := Pulses(start, 17), Pulses(start, 18);
    assert |w| > 18 && Noise(start) == p5 + p8 + p16 + p17 + p18;
    hide *;
    FiveTimes(a, p5, p8, p16, p17, p18);
    SampleIs(w, start, a, 5);
    SampleIs(w, start, a, 8);
    SampleIs(w, start, a, 16);
    SampleIs(w, start, a, 17);
    SampleIs(w, start, a, 18);
  }

  lemma ThreeTimes(a: int, p: int, q: int, r: int)
    ensures a * (p + q + r) == a * p + a * q + a * r
  {}

  lemma LessTimes(a: int, p: int, q: int)
    ensures a * (p - q) == a * p - a * q
  {}

  lemma ShapedIsLong(w: seq<nat>, start: int, a: nat)
    requires Shaped(w, start, a)
    ensures |w| > 18
  {}

  lemma ScoresAre(start: int, sum: int, falls: int, mid: int, late: int)
    requires sum == Pulses(start, 1) + Pulses(start, 4) + Pulses(start, 12) && mid == Pulses(start, 9)
    requires falls == Pulses(start, 2) as int - Pulses(start, 3)
    requires late == Pulses(start, 10) as int - Pulses(start, 11)
    ensures Scores(start) == (sum - falls + mid - late, sum - falls + mid + late, sum + 2 * falls + late)
  {
    hide Pulses;
  }

  lemma ScoresScale(w: seq<nat>, start: int, a: nat)
    requires Shaped(w, start, a)
    ensures |w| > 18
    ensures var falls, late := w[2] as int - w[3], w[10] as int - w[11];
            a * Scores(start).0 == w[1] + w[4] + w[12] - falls + w[9] - late &&
            a * Scores(start).1 == w[1] + w[4] + w[12] - falls + w[9] + late &&
            a * Scores(start).2 == w[1] + w[4] + w[12] + 2 * falls + late
  {
    hide Shaped, Pulses, Scores;
    ShapedIsLong(w, start, a);
    var p1, p2, p3, p4 := Pulses(start, 1), Pulses(start, 2), Pulses(start, 3), Pulses(start, 4);
    var p9, p10, p11, p12 := Pulses(start, 9), Pulses(start, 10), Pulses(start, 11), Pulses(start, 12);
    var sum := p1 + p4 + p12;
    var falls: int := p2 as int - p3;
    var late: int := p10 as int - p11;
    ScoresAre(start, sum, falls, p9, late);
    ScoreTimes(a, sum, falls, p9, late);
    ThreeTimes(a, p1, p4, p12);
    LessTimes(a, p2, p3);
    LessTimes(a, p10, p11);
    SampleIs(w, start, a, 1);
    SampleIs(w, start, a, 2);
    SampleIs(w, start, a, 3);
    SampleIs(w, start, a, 4);
    SampleIs(w, start, a, 9);
    SampleIs(w, start, a, 10);
    SampleIs(w, start, a, 11);
    SampleIs(w, start, a, 12);
  }

  /** Try-phases by what the samples add up to, a a fifth. */
  lemma PhasesOfScores(w: seq<nat>, start: int, a: nat)
    requires Shaped(w, start, a)
    ensures |w| > 18
    ensures var n, c := a * Noise(start) * 4 / 32, Scores(start);
            TryPhases(w) == (if a * c.0 >= n then [4, 5] else []) + (if a * c.1 >= n then [6, 7] else []) +
                            (if a * c.2 >= n then [8] else [])
  {
    hide Shaped, Noise, Scores;
    NoiseScales(w, start, a);
    ScoresScale(w, start, a);
  }

  lemma HintScales(w: seq<nat>, start: int, a: nat)
    requires Shaped(w, start, a) && a > 0 && Pulses(start, 1) > Pulses(start, 7)
    requires Pulses(start, 12) > Pulses(start, 14) && Pulses(start, 12) > Pulses(start, 15)
    ensures Hint(w)
  {
    hide Pulses;
    assert w[1] == a * Pulses(start, 1) && w[7] == a * Pulses(start, 7) && w[12] == a * Pulses(start, 12);
    assert w[14] == a * Pulses(start, 14) && w[15] == a * Pulses(start, 15);
  }

  /** A preamble that starts in fifths 3 to 9 has the shape looked for, and
      calls for every try-phase up to two fifths off its place; one in fifths 3
      to 8 calls for phase 4 first. */
  lemma PreambleIsSeen(w: seq<nat>, start: int, a: nat)
    requires Shaped(w, start, a) && a > 0 && 3 <= start <= 9
    ensures Hint(w)
    ensures forall t: nat :: 4 <= t <= 8 && -2 <= t - start - 1 <= 2 ==> t in TryPhases(w)
    ensures start <= 8 ==> TryPhases(w) != [] && TryPhases(w)[0] == 4
  {
    hide Shaped, Pulses, Scores, Noise, Hint, TryPhases;
    PulsesStandOut(start);
    ScoresSuffice(start);
    HintScales(w, start, a);
    PhasesOfScores(w, start, a);
    var n, c := Noise(start), Scores(start);
    if start <= 8 {
      ScaledRef(a, n, c.0);
    }
    ScaledRef(a, n, c.1);
    if start >= 5 {
      ScaledRef(a, n, c.2);
    }
  }

  // ---------- the scan ----------

  /** More than two samples before a transmission there is nothing to look at. */
  lemma UnseenBefore(w: seq<nat>, v: Vec, start: int, a: nat)
    requires Clean(w, v, start, a) && |w| > 18 && start >= 10
    ensures !Hint(w)
  {
    assert w[1] == a * Fifths(v, 5 * 1 - start);
  }

  /** Nor is there when it ends within twelve samples. */
  lemma UnseenAfter(w: seq<nat>, v: Vec, start: int, a: nat)
    requires Clean(w, v, start, a) && |w| > 18 && start + 96 + 12 * |v| <= 60
    ensures !Hint(w)
  {
    assert w[12] == a * Fifths(v, 5 * 12 - start);
  }

  predicate HintAt(bins: seq<nat>, i: nat)
    requires i + WINDOW <= |bins|
  {
    Hint(bins[i..i + WINDOW])
  }

  /** Windows without the shape are passed over one by one. */
  lemma {:induction false} ScanPasses(bins: seq<nat>, s: Scanner, r: nat)
    requires s.at <= r && r + WINDOW <= |bins|
    requires forall i: nat :: s.at <= i < r ==> !HintAt(bins, i)
    ensures Scan(bins, s) == Scan(bins, s.(at := r))
    decreases r - s.at
  {
    hide Hint, FirstGood, TryPhases;
    if s.at == r {
    } else {
      assert !HintAt(bins, s.at);
      ScanPasses(bins, s.(at := s.at + 1), r);
    }
  }

  lemma QuietBefore(bins: seq<nat>, v: Vec, start: nat, a: nat, i: nat)
    requires Clean(bins, v, start, a) && i + WINDOW <= |bins| && 5 * i + 10 <= start
    ensures !HintAt(bins, i)
  {
    hide Clean, Hint;
    CleanTail(bins, v, start, a, i, WINDOW);
    UnseenBefore(bins[i..i + WINDOW], v, start - 5 * i, a);
  }

  lemma QuietAfter(bins: seq<nat>, v: Vec, start: nat, a: nat, i: nat)
    requires Clean(bins, v, start, a) && i + WINDOW <= |bins| && start + 96 + 12 * |v| <= 5 * i + 60
    ensures !HintAt(bins, i)
  {
    hide Clean, Hint;
    CleanTail(bins, v, start, a, i, WINDOW);
    UnseenAfter(bins[i..i + WINDOW], v, start - 5 * i, a);
  }

  lemma PhasesInRange(w: seq<nat>, t: nat)
    requires |w| > 18 && t in TryPhases(w)
    ensures 4 <= t <= 8
  {}

  /** The first success is some try-phase's, and there is one if any succeeds. */
  lemma {:induction false} FirstGoodIsOne(w: seq<nat>, phases: seq<nat>)
    requires |w| > 290 && forall i: nat :: i < |phases| ==> phases[i] <= 8
    ensures var r := FirstGood(w, phases);
            if r.1.Some? then exists t: nat :: t in phases && t <= 8 && Attempt(w, t) == r.1
            else forall t: nat :: t in phases ==> Attempt(w, t) == None
    decreases |phases|
  {
    hide Attempt, Good;
    if phases == [] {
    } else {
      assert phases == [phases[0]] + phases[1..];
      FirstGoodIsOne(w, phases[1..]);
    }
  }

  /** The try-phases more than two fifths before a transmission's own fail. */
  ghost predicate EarlyOnesFail(w: seq<nat>, t: nat) {
    |w| > 290 && forall u: nat :: 4 <= u < t && u <= 8 ==> Attempt(w, u) == None
  }

  /** A window whose second sample is the first that a transmission reaches: one
      message is found, and it is the one sent unless a try-phase three fifths or
      more too early happens to pass first. */
  lemma CleanWindow(w: seq<nat>, msg: seq<byte>, start: nat, a: nat)
    requires |w| == WINDOW && Clean(w, MsgBits(msg), start, a) && Good(msg) && 5 <= start <= 9
    ensures Hint(w) && TryPhases(w) != [] && FirstGood(w, TryPhases(w)).1.Some?
    ensures EarlyOnesFail(w, start - 1) ==> FirstGood(w, TryPhases(w)).1 == Some(msg)
  {
    hide Attempt, Good, Clean, Shaped, TryPhases, Hint, MsgBits;
    PreambleShaped(w, MsgBits(msg), start, a);
    CleanIsLoud(w, MsgBits(msg), start, a);
    PreambleIsSeen(w, start, a);
    var phases := TryPhases(w);
    assert 8 in phases;
    forall t: nat | start - 1 <= t <= 8
      ensures Attempt(w, t) == Some(msg)
    {
      MessageIsRead(w, msg, start, a, t);
    }
    FirstGoodIsOne(w, phases);
    forall t: nat | t in phases
      ensures 4 <= t <= 8
    {
      PhasesInRange(w, t);
    }
  }

  lemma CleanIsLoud(w: seq<nat>, v: Vec, start: int, a: nat)
    requires Clean(w, v, start, a)
    ensures a > 0
  {}

  /** Where the scan meets a transmission that starts `start` fifths in. */
  function FirstSeen(start: nat): (r: nat)
    requires start >= 5
    ensures 5 <= start - 5 * r <= 9
  {
    start / 5 - 1
  }

  /** In a quiet stream with one clean transmission the scan hands on exactly one
      message: the one sent, unless a try-phase three fifths or more too early
      passes by chance, which none can when the transmission starts on a sample. */
  lemma CleanIsHeard(bins: seq<nat>, msg: seq<byte>, start: nat, a: nat)
    requires Clean(bins, MsgBits(msg), start, a) && Good(msg) && start >= 5
    requires FirstSeen(start) + WINDOW < |bins|
    ensures var r := Scan(bins, START); var at := FirstSeen(start);
            r.preambles == 1 && r.decoded == 1 && |r.log| == 1 &&
            (start % 5 == 0 || EarlyOnesFail(bins[at..at + WINDOW], 4 + start % 5) ==> r.log == [msg])
  {
    hide Good, Clean, Hint, HintAt, MsgBits, Scan, Attempt, TryPhases, FirstGood, Examine, EarlyOnesFail, FirstSeen;
    hide High, Pulse, Fifths, Remainder;
    var v, at := MsgBits(msg), FirstSeen(start);
    var w, s := bins[at..at + WINDOW], START.(at := at);
    GoodIsShort(msg);
    QuietTill(bins, v, start, a, at);
    CleanTail(bins, v, start, a, at, WINDOW);
    CleanWindow(w, msg, start - 5 * at, a);
    OnASample(w, start, at);
    ExamineFinds(w, s);
    ScanOnce(bins, s);
    SkipIsEnough(start, at, |v|);
    AfterClean(bins, v, start, a, Examine(w, s));
  }

  lemma QuietTill(bins: seq<nat>, v: Vec, start: nat, a: nat, at: nat)
    requires Clean(bins, v, start, a) && at + WINDOW <= |bins| && start >= 5 && at == FirstSeen(start)
    ensures START.at == 0 && Scan(bins, START) == Scan(bins, START.(at := at))
  {
    hide Clean, HintAt, Scan;
    forall i: nat | i < at
      ensures !HintAt(bins, i)
    {
      QuietBefore(bins, v, start, a, i);
    }
    ScanPasses(bins, START, at);
  }

  lemma OnASample(w: seq<nat>, start: nat, at: nat)
    requires start >= 5 && at == FirstSeen(start) && |w| == WINDOW
    ensures start - 5 * at - 1 == 4 + start % 5
    ensures start % 5 == 0 ==> EarlyOnesFail(w, 4 + start % 5)
  {}

  lemma ExamineFinds(w: seq<nat>, s: Scanner)
    requires |w| == WINDOW && Hint(w) && TryPhases(w) != [] && FirstGood(w, TryPhases(w)).1.Some?
    ensures var tried := FirstGood(w, TryPhases(w));
            Examine(w, s) == Scanner(s.at + SKIP, s.preambles + 1, s.crcFails + tried.0, s.decoded + 1,
                                     s.log + [tried.1.value])
  {
    hide Hint, TryPhases, FirstGood;
  }

  lemma SkipIsEnough(start: nat, at: nat, n: nat)
    requires start >= 5 && at == FirstSeen(start) && n <= 112
    ensures start + 96 + 12 * n <= 5 * (at + SKIP) + 60
  {}

  lemma GoodIsShort(msg: seq<byte>)
    requires Good(msg)
    ensures |MsgBits(msg)| <= 112
  {
    hide Remainder, MsgBits;
  }

  lemma ScanOnce(bins: seq<nat>, s: Scanner)
    requires s.at + WINDOW < |bins|
    ensures Scan(bins, s) == Scan(bins, Examine(bins[s.at..s.at + WINDOW], s))
  {
    hide Examine;
  }

  lemma AfterClean(bins: seq<nat>, v: Vec, start: nat, a: nat, u: Scanner)
    requires Clean(bins, v, start, a) && start + 96 + 12 * |v| <= 5 * u.at + 60
    ensures Scan(bins, u) == u.(at := Scan(bins, u).at)
  {
    hide Clean, Hint;
    if u.at + WINDOW < |bins| {
      var r := |bins| - WINDOW;
      forall i: nat | u.at <= i < r
        ensures !HintAt(bins, i)
      {
        QuietAfter(bins, v, start, a, i);
      }
      ScanPasses(bins, u, r);
    }
  }

  /** So does a receiver fed such magnitudes at 2.4 million samples a second. */
  lemma CleanIsDelivered(d: Demod, msg: seq<byte>, start: nat, a: nat)
    requires d.Valid() && d.rate == 2400000.0 && Clean(d.fed, MsgBits(msg), start, a) && Good(msg)
    requires start >= 5 && FirstSeen(start) + WINDOW + 1 < |d.fed|
    ensures d.decoded == 1 && |d.delivered| == 1
    ensures var at := FirstSeen(start);
            start % 5 == 0 || EarlyOnesFail(d.fed[at..at + WINDOW], 4 + start % 5) ==> d.delivered == [msg]
  {
    hide Resampled, Table, Scan, Good, MsgBits, Clean, EarlyOnesFail, Examine;
    var v, n, at := MsgBits(msg), |d.fed| - 1, FirstSeen(start);
    NativeOutcome(d);
    CleanTail(d.fed, v, start, a, 0, n);
    assert d.fed[0..n] == d.fed[..n];
    CleanIsHeard(d.fed[..n], msg, start, a);
    assert d.fed[..n][at..at + WINDOW] == d.fed[at..at + WINDOW];
  }
}
