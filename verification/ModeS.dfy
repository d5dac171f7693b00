/** Mode S reception on the 2.4 MHz magnitude stream: which sample decides
    which bit, which candidates are tried, and what a whole-stream scan finds. */
module ModeS {
  import opened Options
  import opened Arith
  import opened Gf2
  import opened Octets
  import opened Crc24

  // ---------- the bit schedule ----------

  /** The correlator of a fifth-sample phase; positive means one. */
  function Correlate(m: seq<nat>, i: nat, phase: nat): (c: int)
    requires i + 3 < |m|
  {
    var m0: int, m1: int, m2: int := m[i], m[i + 1], m[i + 2];
    match phase
    case 0 => 18 * m0 - 15 * m1 - 3 * m2
    case 1 => 14 * m0 - 5 * m1 - 9 * m2
    case 2 => 16 * m0 + 5 * m1 - 20 * m2
    case 3 => 7 * m0 + 11 * m1 - 18 * m2
    case _ => 4 * m0 + 15 * m1 - 20 * m2 + m[i + 3]
  }

  /** 16-bit magnitudes keep every correlator inside 32 bits. */
  lemma CorrelateFits(m: seq<nat>, i: nat, phase: nat)
    requires i + 3 < |m| && forall k: nat :: k < |m| ==> m[k] < 0x10000
    ensures -0x8000_0000 <= Correlate(m, i, phase) < 0x8000_0000
  {
    assert m[i] < 0x10000 && m[i + 1] < 0x10000 && m[i + 2] < 0x10000 && m[i + 3] < 0x10000;
  }

  /** A bit is 12/5 samples: bit n of a try-phase t message starts
      (t + 12 n) fifths of a sample after sample 19. */
  function BitAt(w: seq<nat>, t: nat, n: nat): (b: bool)
    requires 22 + (t + 12 * n) / 5 < |w|
  {
    Correlate(w, 19 + (t + 12 * n) / 5, (t + 12 * n) % 5) > 0
  }

  /** The eight bits read from a place and phase on. */
  function EightBits(w: seq<nat>, off: nat, phase: nat): (v: Vec)
    requires phase < 5 && off + 20 < |w|
    ensures |v| == 8
  {
    seq(8, k requires 0 <= k < 8 => Correlate(w, off + (phase + 12 * k) / 5, (phase + 12 * k) % 5) > 0)
  }

  /** Per starting phase, the phase and sample offset of each of eight bits. */
  const SLICE_TABLES: seq<seq<(nat, nat)>> := [
    [(0, 0), (2, 2), (4, 4), (1, 7), (3, 9), (0, 12), (2, 14), (4, 16)],
    [(1, 0), (3, 2), (0, 5), (2, 7), (4, 9), (1, 12), (3, 14), (0, 17)],
    [(2, 0), (4, 2), (1, 5), (3, 7), (0, 10), (2, 12), (4, 14), (1, 17)],
    [(3, 0), (0, 3), (2, 5), (4, 7), (1, 10), (3, 12), (0, 15), (2, 17)],
    [(4, 0), (1, 3), (3, 5), (0, 8), (2, 10), (4, 12), (1, 15), (3, 17)]
  ]

  lemma TablesAreFifths(p: nat, k: nat)
    requires p < 5 && k < 8
    ensures |SLICE_TABLES| == 5 && |SLICE_TABLES[p]| == 8
    ensures SLICE_TABLES[p][k] == ((p + 12 * k) % 5, (p + 12 * k) / 5)
  {
    if
    case p == 0 => assert SLICE_TABLES[0][k] == ((0 + 12 * k) % 5, (0 + 12 * k) / 5);
    case p == 1 => assert SLICE_TABLES[1][k] == ((1 + 12 * k) % 5, (1 + 12 * k) / 5);
    case p == 2 => assert SLICE_TABLES[2][k] == ((2 + 12 * k) % 5, (2 + 12 * k) / 5);
    case p == 3 => assert SLICE_TABLES[3][k] == ((3 + 12 * k) % 5, (3 + 12 * k) / 5);
    case p == 4 => assert SLICE_TABLES[4][k] == ((4 + 12 * k) % 5, (4 + 12 * k) / 5);
  }

  /** Reading one more bit, with j still to come. */
  lemma AddPlace(v: Vec, b: bool, j: nat)
    ensures MsbValue(v + [b]) * Pow2(j) == MsbValue(v) * Pow2(j + 1) + if b then Pow2(j) else 0
  {
    assert (v + [b])[..|v|] == v;
    var x, p := MsbValue(v), Pow2(j);
    assert x * (2 * p) == (2 * x) * p;
    assert (2 * x + 1) * p == (2 * x) * p + p;
  }

  /** Eight bits on is 19 samples, or 20 when the phase starts over. */
  lemma PhaseOn(phase: nat)
    requires phase < 5
    ensures (phase + 96) % 5 == (phase + 1) % 5
    ensures (phase + 96) / 5 == if (phase + 1) % 5 == 0 then 20 else 19
  {}

  lemma NextPlace(bits: Vec, k: nat)
    requires k < |bits| == 8
    ensures MsbValue(bits[..k + 1]) * Pow2(8 - (k + 1))
         == MsbValue(bits[..k]) * Pow2(8 - k) + if bits[k] then Pow2(7 - k) else 0
  {
    hide *;
    assert bits[..k + 1] == bits[..k] + [bits[k]];
    AddPlace(bits[..k], bits[k], 7 - k);
  }

  lemma SlotBit(pa: seq<nat>, off: nat, phase: nat, k: nat)
    requires phase < 5 && off + 20 < |pa| && k < 8
    ensures |SLICE_TABLES| == 5 && |SLICE_TABLES[phase]| == 8
    ensures var slot := SLICE_TABLES[phase][k];
            off + slot.1 + 3 < |pa| && EightBits(pa, off, phase)[k] == (Correlate(pa, off + slot.1, slot.0) > 0)
  {
    TablesAreFifths(phase, k);
    hide SLICE_TABLES;
  }

  /** One byte, and where the next one starts. */
  method SliceByte(pa: seq<nat>, off: nat, phase: nat) returns (b: byte, off': nat, phase': nat)
    requires phase < 5 && off + 20 < |pa|
    ensures b == MsbValue(EightBits(pa, off, phase))
    ensures off' == off + (phase + 96) / 5 && phase' == (phase + 96) % 5
  {
    ghost var bits := EightBits(pa, off, phase);
    var acc := 0;
    assert bits[..0] == [] && MsbValue(bits[..0]) == 0;
    hide MsbValue, Correlate, Pow2, EightBits, SLICE_TABLES;
    for k := 0 to 8
      invariant acc == MsbValue(bits[..k]) * Pow2(8 - k)
    {
      SlotBit(pa, off, phase, k);
      var slot := SLICE_TABLES[phase][k];
      NextPlace(bits, k);
      if Correlate(pa, off + slot.1, slot.0) > 0 {
        acc := acc + Pow2(7 - k);
      }
    }
    assert bits[..8] == bits;
    PowersOfByte();
    b := acc;
    PhaseOn(phase);
    phase' := (phase + 1) % 5;
    off' := off + 19;
    if phase' == 0 {
      off' := off' + 1;
    }
  }

  lemma PowersOfByte()
    ensures Pow2(0) == 1 && Pow2(8) == 256
  {
    Pow2Of8();
  }

  // ---------- one candidate ----------

  /** The first n bits of a try-phase t message. */
  function SlicedBits(w: seq<nat>, t: nat, n: nat): (v: Vec)
    requires t <= 8 && n <= 112 && |w| > 290
    ensures |v| == n
  {
    seq(n, i requires 0 <= i < n => BitAt(w, t, i))
  }

  /** The first n bytes, packed high bit first. */
  function Message(w: seq<nat>, t: nat, n: nat): (msg: seq<byte>)
    requires t <= 8 && n <= 14 && |w| > 290
    ensures |msg| == n
  {
    if n == 0 then [] else
      Pow2Of8();
      Message(w, t, n - 1) + [MsbValue(SlicedBits(w, t, 8 * n)[8 * n - 8..])]
  }

  /** The running pointer and phase land on the closed-form schedule. */
  lemma EightBitsAreScheduled(w: seq<nat>, t: nat, i: nat)
    requires t <= 8 && i < 14 && |w| > 290
    ensures EightBits(w, 19 + (t + 96 * i) / 5, (t + 96 * i) % 5) == SlicedBits(w, t, 8 * i + 8)[8 * i..]
  {
    hide Correlate;
    var p, q := (t + 96 * i) % 5, (t + 96 * i) / 5;
    var bits := EightBits(w, 19 + q, p);
    forall k | 0 <= k < 8
      ensures bits[k] == SlicedBits(w, t, 8 * i + 8)[8 * i + k]
    {
      assert t + 12 * (8 * i + k) == 5 * q + (p + 12 * k);
    }
  }

  /** The packed bytes carry the sliced bits in order. */
  lemma {:induction false} MessageBits(w: seq<nat>, t: nat, n: nat)
    requires t <= 8 && n <= 14 && |w| > 290
    ensures MsgBits(Message(w, t, n)) == SlicedBits(w, t, 8 * n)
  {
    hide BitAt, MsbBits, MsbValue;
    if n == 0 {
    } else {
      MessageBits(w, t, n - 1);
      var all := SlicedBits(w, t, 8 * n);
      MsbRoundTrip(all[8 * n - 8..]);
      assert all[..8 * n - 8] == SlicedBits(w, t, 8 * n - 8);
      var msg := Message(w, t, n);
      assert msg[..n - 1] == Message(w, t, n - 1);
    }
  }

  predicate Short(df: nat) {
    df == 0 || df == 4 || df == 5 || df == 11
  }

  predicate Long(df: nat) {
    df == 16 || df == 17 || df == 18 || df == 20 || df == 21
  }

  /** What a receiver may hand on: a legal downlink format, its length, and a
      checksum that divides to nothing. */
  ghost predicate Good(msg: seq<byte>) {
    msg != [] &&
    ((Short(msg[0] / 8) && |msg| == 7) || (Long(msg[0] / 8) && |msg| == 14)) &&
    Remainder(MsgBits(msg)) == Zero(24)
  }

  /** Which formats are legal, by the length they have. */
  lemma GoodIff(msg: seq<byte>)
    ensures Good(msg) <==> (|msg| == 7 || |msg| == 14) && Remainder(MsgBits(msg)) == Zero(24) &&
                           msg[0] / 8 in if |msg| == 7 then {0, 4, 5, 11} else {16, 17, 18, 20, 21}
  {
    hide Remainder, MsgBits;
  }

  /** The message a window holds at one try-phase. */
  ghost function Attempt(w: seq<nat>, t: nat): (r: Option<seq<byte>>)
    requires t <= 8 && |w| > 290
    ensures r.Some? ==> Good(r.value)
  {
    hide Remainder, MsgBits;
    var df := Message(w, t, 1)[0] / 8;
    if !Short(df) && !Long(df) then
      None
    else
      var msg := Message(w, t, if Short(df) then 7 else 14);
      MessageStarts(w, t, |msg|);
      if Remainder(MsgBits(msg)) == Zero(24) then Some(msg) else None
  }

  lemma {:induction false} MessageStarts(w: seq<nat>, t: nat, n: nat)
    requires t <= 8 && 1 <= n <= 14 && |w| > 290
    ensures Message(w, t, n)[0] == Message(w, t, 1)[0]
  {
    hide MsbValue, SlicedBits;
    if n == 1 {
    } else {
      MessageStarts(w, t, n - 1);
    }
  }

  lemma BitLocal(w: seq<nat>, k: nat, t: nat, i: nat)
    requires t <= 8 && i < 112 && 290 < k <= |w|
    ensures BitAt(w, t, i) == BitAt(w[..k], t, i)
  {}

  lemma SlicedLocal(w: seq<nat>, k: nat, t: nat, n: nat)
    requires t <= 8 && n <= 112 && 290 < k <= |w|
    ensures SlicedBits(w, t, n) == SlicedBits(w[..k], t, n)
  {
    hide BitAt;
    forall i | 0 <= i < n
      ensures BitAt(w, t, i) == BitAt(w[..k], t, i)
    {
      BitLocal(w, k, t, i);
    }
  }

  /** Nothing past a window's first 291 samples is looked at. */
  lemma {:induction false} MessageLocal(w: seq<nat>, k: nat, t: nat, n: nat)
    requires t <= 8 && n <= 14 && 290 < k <= |w|
    ensures Message(w, t, n) == Message(w[..k], t, n)
    decreases n
  {
    hide SlicedBits, MsbValue;
    if n == 0 {
    } else {
      MessageLocal(w, k, t, n - 1);
      SlicedLocal(w, k, t, 8 * n);
    }
  }

  lemma AttemptLocal(w: seq<nat>, k: nat, t: nat)
    requires t <= 8 && 290 < k <= |w|
    ensures Attempt(w, t) == Attempt(w[..k], t)
  {
    hide Message, Remainder, MsgBits;
    MessageLocal(w, k, t, 1);
    MessageLocal(w, k, t, 7);
    MessageLocal(w, k, t, 14);
  }

  // ---------- one place ----------

  /** The cheap look at a preamble's shape. */
  predicate Hint(w: seq<nat>)
    requires |w| > 18
  {
    w[1] > w[7] && w[12] > w[14] && w[12] > w[15]
  }

  /** The try-phases a preamble makes plausible. */
  function TryPhases(w: seq<nat>): (p: seq<nat>)
    requires |w| > 18
    ensures |p| <= 5 && forall i: nat :: i < |p| ==> p[i] <= 8
  {
    var ref := (w[5] + w[8] + w[16] + w[17] + w[18]) * 4 / 32;
    var diff23: int := w[2] as int - w[3];
    var sum14 := w[1] + w[4];
    var diff1011: int := w[10] as int - w[11];
    var common := sum14 - diff23 + w[9] + w[12];
    (if common - diff1011 >= ref then [4, 5] else []) +
    (if common + diff1011 >= ref then [6, 7] else []) +
    (if sum14 + 2 * diff23 + diff1011 + w[12] >= ref then [8] else [])
  }

  /** How many phases fail before the first that succeeds, and its message. */
  ghost function FirstGood(w: seq<nat>, phases: seq<nat>): (r: (nat, Option<seq<byte>>))
    requires |w| > 290 && forall i: nat :: i < |phases| ==> phases[i] <= 8
    ensures r.1.Some? ==> Good(r.1.value)
  {
    if phases == [] then
      (0, None)
    else
      var a := Attempt(w, phases[0]);
      if a.Some? then
        (0, a)
      else
        var rest := FirstGood(w, phases[1..]);
        (rest.0 + 1, rest.1)
  }

  lemma {:induction false} FirstGoodLocal(w: seq<nat>, k: nat, phases: seq<nat>)
    requires 290 < k <= |w| && forall i: nat :: i < |phases| ==> phases[i] <= 8
    ensures FirstGood(w, phases) == FirstGood(w[..k], phases)
    decreases |phases|
  {
    hide Attempt, Good;
    if phases == [] {
    } else {
      AttemptLocal(w, k, phases[0]);
      FirstGoodLocal(w, k, phases[1..]);
    }
  }

  // ---------- the whole stream ----------

  /** A scanner's position, its three counters and what it has handed on. */
  datatype Scanner = Scanner(at: nat, preambles: nat, crcFails: nat, decoded: nat, log: seq<seq<byte>>)

  const START := Scanner(0, 0, 0, 0, [])

  const WINDOW := 320
  const SKIP := 288

  /** What becomes of the scanner at one position, seeing only a window. */
  ghost function Examine(w: seq<nat>, s: Scanner): (r: Scanner)
    requires |w| > 290
    ensures s.at < r.at <= s.at + SKIP
  {
    if !Hint(w) || TryPhases(w) == [] then
      s.(at := s.at + 1)
    else
      var tried := FirstGood(w, TryPhases(w));
      match tried.1
      case None =>
        Scanner(s.at + 1, s.preambles + 1, s.crcFails + tried.0, s.decoded, s.log)
      case Some(msg) =>
        Scanner(s.at + SKIP, s.preambles + 1, s.crcFails + tried.0, s.decoded + 1, s.log + [msg])
  }

  lemma ExamineLocal(w: seq<nat>, k: nat, s: Scanner)
    requires 290 < k <= |w|
    ensures Examine(w, s) == Examine(w[..k], s)
  {
    hide FirstGood, Attempt, Good;
    assert TryPhases(w) == TryPhases(w[..k]);
    FirstGoodLocal(w, k, TryPhases(w));
  }

  /** Scanning a stream from a position to where a window no longer fits. */
  ghost function Scan(bins: seq<nat>, s: Scanner): (r: Scanner)
    ensures s.at <= r.at && |bins| <= r.at + WINDOW
    decreases |bins| - s.at
  {
    if s.at + WINDOW < |bins| then
      Scan(bins, Examine(bins[s.at..s.at + WINDOW], s))
    else
      s
  }

  /** Pausing at the end of what has arrived changes nothing. */
  lemma {:induction false} ScanResumes(bins: seq<nat>, more: seq<nat>, s: Scanner)
    ensures Scan(bins + more, Scan(bins, s)) == Scan(bins + more, s)
    decreases |bins| - s.at
  {
    hide Examine;
    if s.at + WINDOW >= |bins| {
    } else {
      assert (bins + more)[s.at..s.at + WINDOW] == bins[s.at..s.at + WINDOW];
      ScanResumes(bins, more, Examine(bins[s.at..s.at + WINDOW], s));
    }
  }

  /** The scanner ends within the stream. */
  lemma {:induction false} ScanStaysInside(bins: seq<nat>, s: Scanner)
    requires s.at <= |bins|
    ensures Scan(bins, s).at <= |bins|
    decreases |bins| - s.at
  {
    hide Examine;
    if s.at + WINDOW >= |bins| {
    } else {
      ScanStaysInside(bins, Examine(bins[s.at..s.at + WINDOW], s));
    }
  }

  /** Every message handed on is good, one for each count. */
  lemma {:induction false} LogIsGood(bins: seq<nat>, s: Scanner)
    requires |s.log| == s.decoded && forall m :: m in s.log ==> Good(m)
    ensures var r := Scan(bins, s); |r.log| == r.decoded && forall m :: m in r.log ==> Good(m)
    decreases |bins| - s.at
  {
    hide FirstGood, Good, Hint, TryPhases;
    if s.at + WINDOW >= |bins| {
    } else {
      LogIsGood(bins, Examine(bins[s.at..s.at + WINDOW], s));
    }
  }
}
