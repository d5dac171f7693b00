/** What the AIS decoder makes of a burst, from reset and in either training phase. */
module AisLink {
  import opened Arith
  import opened Gf2
  import opened Octets
  import opened Crc16
  import H = Hdlc
  import opened HdlcLink
  import opened Ais

  /** Alternating bits, either way round. */
  ghost predicate Alternating(t: Vec) {
    forall i :: 0 <= i < |t| - 1 ==> t[i + 1] != t[i]
  }

  /** No prefix of the received bits makes the decoder give up. */
  ghost predicate Survives(bits: Vec) {
    forall n :: 0 <= n <= |bits| ==> !GivesUp(bits[..n])
  }

  /** The start of a closing flag, up to the bit that reveals it. */
  const LEAD: Vec := [false, true, true, true, true, true]

  /** The bits of a payload and its check octets. */
  function FrameData(payload: seq<byte>): (data: Vec)
    ensures |data| == 8 * |payload| + 16
  {
    AirBits(payload + FcsBytes(payload))
  }

  /** Training, flag, stuffed octets with FCS, flag. */
  function Burst(training: Vec, payload: seq<byte>): Vec {
    training + (H.FLAG + (H.Stuff(FrameData(payload), 0) + H.FLAG))
  }

  // ---------- bits instead of levels ----------

  function RunBits(s: Dec, bits: Vec): Dec
    decreases |bits|
  {
    if bits == [] then s else RunBits(Bit(s, bits[0]), bits[1..])
  }

  lemma PartsIgnorePrev(s: Dec, p: bool, b: bool)
    ensures TrainingBit(s.(prev := p), b) == TrainingBit(s, b).(prev := p)
    ensures FlagBit(s.(prev := p), b) == FlagBit(s, b).(prev := p)
    ensures Guarded(s.(prev := p)) == Guarded(s).(prev := p)
    ensures Reset(s.(prev := p)) == Reset(s).(prev := p)
  {
    hide CannotBeValid;
  }

  lemma BitIgnoresPrev(s: Dec, p: bool, b: bool)
    ensures Bit(s.(prev := p), b) == Bit(s, b).(prev := p)
  {
    hide TrainingBit, FlagBit, Guarded, Reset, Processed;
    PartsIgnorePrev(s, p, b);
    if s.phase == DataFcs {
      var t := s.(bits := s.bits + [b]);
      if b && s.oneSeq == 5 {
        PartsIgnorePrev(t.(out := t.out + Processed(t.bits, |t.bits| - 7)), p, b);
      } else if b {
        PartsIgnorePrev(t.(oneSeq := t.oneSeq + 1), p, b);
      } else {
        PartsIgnorePrev(t.(bits := if s.oneSeq == 5 then s.bits else t.bits, oneSeq := 0), p, b);
      }
    }
  }

  lemma {:induction false} RunBitsIgnoresPrev(s: Dec, p: bool, bits: Vec)
    ensures RunBits(s.(prev := p), bits) == RunBits(s, bits).(prev := p)
    decreases |bits|
  {
    hide Bit;
    if bits == [] {
    } else {
      BitIgnoresPrev(s, p, bits[0]);
      RunBitsIgnoresPrev(Bit(s, bits[0]), p, bits[1..]);
    }
  }

  /** The decoder sees the levels as bits relative to the last level it kept. */
  lemma {:induction false} LevelsAreBits(s: Dec, levels: Vec)
    ensures Run(s, levels).out == RunBits(s, FromTones(levels, s.prev)).out
    decreases |levels|
  {
    hide Bit;
    if levels == [] {
    } else {
      var b := levels[0] == s.prev;
      var t := Next(s, levels[0]);
      LevelsAreBits(t, levels[1..]);
      BitIgnoresPrev(s, levels[0], b);
      assert t == Bit(s, b).(prev := levels[0]);
      RunBitsIgnoresPrev(Bit(s, b), levels[0], FromTones(levels[1..], levels[0]));
      assert FromTones(levels, s.prev)[1..] == FromTones(levels[1..], levels[0]);
    }
  }

  lemma {:induction false} RunBitsConcat(s: Dec, a: Vec, b: Vec)
    ensures RunBits(s, a + b) == RunBits(RunBits(s, a), b)
    decreases |a|
  {
    hide Bit;
    if a == [] {
      assert a + b == b;
    } else {
      assert (a + b)[1..] == a[1..] + b;
      RunBitsConcat(Bit(s, a[0]), a[1..], b);
    }
  }

  lemma RunBitsCons(s: Dec, v: Vec)
    ensures v == [] ==> RunBits(s, v) == s
    ensures v != [] ==> RunBits(s, v) == RunBits(Bit(s, v[0]), v[1..])
  {
    hide Bit;
  }

  // ---------- training and the start flag ----------

  lemma {:induction false} TrainingCounts(s: Dec, t: Vec)
    requires s.phase == Training && Alternating(t) && (t != [] ==> t[0] != s.lastBit)
    ensures var u := RunBits(s, t);
            u.phase == Training && u.position == s.position + |t| && u.out == s.out
    decreases |t|
  {
    if t == [] {
    } else {
      forall i | 0 <= i < |t[1..]| - 1
        ensures t[1..][i + 1] != t[1..][i]
      {
        assert t[(i + 1) + 1] != t[i + 1];
      }
      assert |t| > 1 ==> t[0 + 1] != t[0];
      TrainingCounts(Bit(s, t[0]), t[1..]);
    }
  }

  /** Five alternations train the decoder and four do not: the next bit, a
      repetition, leads on to the flag or back to the start. */
  lemma TrainingNeedsFive(s: Dec, t: Vec)
    requires s.phase == Training && s.position == 0 && Alternating(t) && t != [] && t[0] != s.lastBit
    ensures var u := RunBits(s, t + [t[|t| - 1]]);
            u.phase == (if |t| >= 5 then StartFlag else Training) && (|t| < 5 ==> u.position == 0)
  {
    TrainingCounts(s, t);
    LastTrained(s, t);
    RunBitsConcat(s, t, [t[|t| - 1]]);
    RunBitsCons(RunBits(s, t), [t[|t| - 1]]);
    RunBitsCons(Bit(RunBits(s, t), t[|t| - 1]), []);
    assert [t[|t| - 1]][1..] == [];
    hide RunBits;
  }

  lemma {:induction false} LastTrained(s: Dec, t: Vec)
    requires s.phase == Training && Alternating(t) && t != [] && t[0] != s.lastBit
    ensures RunBits(s, t).lastBit == t[|t| - 1]
    decreases |t|
  {
    hide Bit;
    var m := |t| - 1;
    assert t == t[..m] + [t[m]];
    RunBitsConcat(s, t[..m], [t[m]]);
    RunBitsCons(RunBits(s, t[..m]), [t[m]]);
    TrainingPrefix(s, t);
    StepsTo(RunBits(s, t[..m]), t[m]);
    assert [t[m]][1..] == [];
    RunBitsCons(Bit(RunBits(s, t[..m]), t[m]), []);
  }

  lemma StepsTo(s: Dec, b: bool)
    requires s.phase == Training
    ensures Bit(s, b).lastBit == b
  {}

  lemma TrainingPrefix(s: Dec, t: Vec)
    requires s.phase == Training && Alternating(t) && t != [] && t[0] != s.lastBit
    ensures RunBits(s, t[..|t| - 1]).phase == Training
  {
    hide RunBits;
    var m := |t| - 1;
    forall i | 0 <= i < m - 1
      ensures t[..m][i + 1] != t[..m][i]
    {
      assert t[i + 1] != t[i];
    }
    TrainingCounts(s, t[..m]);
  }

  /** From reset the first bit may be anything; the alternations still add up. */
  lemma TrainingFromReset(s: Dec, first: bool, t: Vec)
    requires s.phase == Training && s.position == 0 && |t| >= 7 && Alternating(t)
    ensures var u := RunBits(s, [first] + t[1..]);
            u.phase == Training && u.position > MIN_TRAINING && u.out == s.out
  {
    var s1 := Bit(s, first);
    var s2 := Bit(s1, t[1]);
    assert s1.phase == Training && s1.position <= 1;
    assert s2.phase == Training && s2.lastBit == t[1] && s2.out == s.out;
    var rest := t[2..];
    forall i | 0 <= i < |rest| - 1
      ensures rest[i + 1] != rest[i]
    {
      assert t[(i + 2) + 1] != t[i + 2];
    }
    assert t[1 + 1] != t[1];
    TrainingCounts(s2, rest);
    hide Bit;
    assert [first] + t[1..] == [first, t[1]] + rest;
    RunBitsConcat(s, [first, t[1]], rest);
    RunBitsCons(s, [first, t[1]]);
    RunBitsCons(s1, [t[1]]);
    RunBitsCons(s2, []);
    assert [first, t[1]][1..] == [t[1]] && [t[1]][1..] == [];
  }

  lemma EightBits(s: Dec)
    ensures RunBits(s, H.FLAG)
         == Bit(Bit(Bit(Bit(Bit(Bit(Bit(Bit(s, false), true), true), true), true), true), true), false)
  {
    hide Bit;
    var a, b := [false, true, true, true], [true, true, true, false];
    assert H.FLAG == a + b;
    RunBitsConcat(s, a, b);
    FourBitsOf(s, false, true, true, true);
    FourBitsOf(RunBits(s, a), true, true, true, false);
  }

  lemma FourBitsOf(s: Dec, a: bool, b: bool, c: bool, d: bool)
    ensures RunBits(s, [a, b, c, d]) == Bit(Bit(Bit(Bit(s, a), b), c), d)
  {
    hide Bit;
    assert [a, b, c, d][1..] == [b, c, d] && [b, c, d][1..] == [c, d] && [c, d][1..] == [d] && [d][1..] == [];
    RunBitsCons(s, [a, b, c, d]);
    RunBitsCons(Bit(s, a), [b, c, d]);
    RunBitsCons(Bit(Bit(s, a), b), [c, d]);
    RunBitsCons(Bit(Bit(Bit(s, a), b), c), [d]);
    RunBitsCons(Bit(Bit(Bit(Bit(s, a), b), c), d), []);
  }

  /** Receiving data: what has been collected, and the run of ones at its end. */
  ghost predicate Tracking(s: Dec, data: Vec, ones: nat, out: seq<seq<byte>>) {
    s.phase == DataFcs && s.bits == data && s.oneSeq == ones <= 5 && s.out == out
  }

  ghost predicate InFlag(s: Dec, position: nat, out: seq<seq<byte>>) {
    s.phase == StartFlag && s.position == position && s.out == out
  }

  lemma TrainingStep(s: Dec, b: bool)
    requires s.phase == Training && s.position > MIN_TRAINING
    ensures var t := Bit(s, b);
            t.lastBit == b && t.out == s.out &&
            if b != s.lastBit then t.phase == Training && t.position == s.position + 1
            else InFlag(t, if b then 3 else 1, s.out)
  {
    hide CannotBeValid, Processed;
  }

  lemma FlagOne(s: Dec, position: nat, out: seq<seq<byte>>)
    requires InFlag(s, position, out) && position != 7
    ensures InFlag(Bit(s, true), position + 1, out)
  {
    hide CannotBeValid, Processed;
  }

  lemma FlagZero(s: Dec, out: seq<seq<byte>>)
    requires InFlag(s, 7, out)
    ensures Tracking(Bit(s, false), [], 0, out)
  {
    hide CannotBeValid, Processed;
  }

  /** Seven bits of a flag bring the decoder to the flag's last zero, whichever
      bit the training ended on. */
  lemma SevenOfFlag(s: Dec)
    requires s.phase == Training && s.position > MIN_TRAINING
    ensures InFlag(Bit(Bit(Bit(Bit(Bit(Bit(Bit(s, false), true), true), true), true), true), true), 7, s.out)
  {
    hide Bit, InFlag;
    var s1 := Bit(s, false);
    var s2 := Bit(s1, true);
    var s3 := Bit(s2, true);
    var s4 := Bit(s3, true);
    var s5 := Bit(s4, true);
    var s6 := Bit(s5, true);
    TrainingStep(s, false);
    if s.lastBit {
      TrainingStep(s1, true);
      TrainingStep(s2, true);
    } else {
      FlagOne(s1, 1, s.out);
      FlagOne(s2, 2, s.out);
    }
    FlagOne(s3, 3, s.out);
    FlagOne(s4, 4, s.out);
    FlagOne(s5, 5, s.out);
    FlagOne(s6, 6, s.out);
  }

  /** A flag after enough training starts an empty frame. */
  lemma FlagStarts(s: Dec)
    requires s.phase == Training && s.position > MIN_TRAINING
    ensures Tracking(RunBits(s, H.FLAG), [], 0, s.out)
  {
    hide Bit, InFlag, Tracking, RunBits;
    EightBits(s);
    SevenOfFlag(s);
    FlagZero(Bit(Bit(Bit(Bit(Bit(Bit(Bit(s, false), true), true), true), true), true), true), s.out);
  }

  // ---------- data ----------

  /** Having given up: looking for training again, or misled into a start flag
      by the run of ones that the line ends in. */
  ghost predicate Lost(s: Dec, ones: nat, out: seq<seq<byte>>) {
    s.out == out && ones <= 6 &&
    match s.phase
    case Training => (s.position > 0 ==> ones <= 1) && (s.lastBit <==> ones > 0)
    case StartFlag => s.position == ones + 1
    case DataFcs => false
  }

  /** Up to five ones in a row never start a frame. */
  lemma LostStep(s: Dec, ones: nat, out: seq<seq<byte>>, b: bool)
    requires Lost(s, ones, out) && ones <= 5
    ensures Lost(Bit(s, b), if b then ones + 1 else 0, out)
  {}

  lemma LostIsSilent(s: Dec, ones: nat, out: seq<seq<byte>>, b: bool)
    requires Lost(s, ones, out)
    ensures Bit(s, b).out == out
  {}

  /** Inside a frame: its bits are collected, or given up on for good. */
  ghost predicate Inside(s: Dec, data: Vec, ones: nat, out: seq<seq<byte>>) {
    if Survives(data) then Tracking(s, data, ones, out) else Lost(s, ones, out)
  }

  lemma SurvivesNext(data: Vec, b: bool)
    ensures Survives(data + [b]) <==> Survives(data) && !GivesUp(data + [b])
  {
    hide GivesUp;
    var all := data + [b];
    assert forall n :: 0 <= n <= |data| ==> all[..n] == data[..n];
    assert all[..|all|] == all;
  }

  lemma SurvivesNow(data: Vec)
    requires Survives(data)
    ensures !GivesUp(data)
  {
    hide GivesUp;
    assert data[..|data|] == data;
  }

  lemma DataStep(s: Dec, data: Vec, ones: nat, out: seq<seq<byte>>, b: bool)
    requires Tracking(s, data, ones, out) && ones < 5
    ensures var t := Bit(s, b);
            var n := if b then ones + 1 else 0;
            if GivesUp(data + [b]) then Lost(t, n, out) else Tracking(t, data + [b], n, out)
  {
    hide GivesUp, Processed;
  }

  lemma InsideStep(s: Dec, data: Vec, ones: nat, out: seq<seq<byte>>, b: bool)
    requires Inside(s, data, ones, out) && ones < 5
    ensures Inside(Bit(s, b), data + [b], if b then ones + 1 else 0, out)
  {
    hide Survives, GivesUp, Tracking, Lost, Bit;
    SurvivesNext(data, b);
    if Survives(data) {
      DataStep(s, data, ones, out, b);
    } else {
      LostStep(s, ones, out, b);
    }
  }

  lemma StuffStep(s: Dec, data: Vec, out: seq<seq<byte>>)
    requires Tracking(s, data, 5, out) && !GivesUp(data)
    ensures Tracking(Bit(s, false), data, 0, out)
  {
    hide GivesUp, Processed;
  }

  lemma InsideStuffed(s: Dec, data: Vec, out: seq<seq<byte>>)
    requires Inside(s, data, 5, out)
    ensures Inside(Bit(s, false), data, 0, out)
  {
    hide Survives, GivesUp, Tracking, Lost, Bit;
    if Survives(data) {
      SurvivesNow(data);
      StuffStep(s, data, out);
    } else {
      LostStep(s, 5, out, false);
    }
  }

  /** Stuffed bits are collected unstuffed until the decoder gives up, and after
      that they lead it nowhere. */
  lemma {:induction false} CollectStuffed(s: Dec, data: Vec, bits: Vec, ones: nat, out: seq<seq<byte>>)
    requires Inside(s, data, ones, out) && ones < 5
    ensures Inside(RunBits(s, H.Stuff(bits, ones)), data + bits, H.Trailing(bits, ones), out)
    decreases |bits|
  {
    hide *;
    H.StuffHead(bits, ones);
    var v := H.Stuff(bits, ones);
    RunBitsCons(s, v);
    if bits == [] {
      assert data + bits == data;
    } else {
      var b, d := bits[0], data + [bits[0]];
      assert d + bits[1..] == data + bits;
      InsideStep(s, data, ones, out, b);
      var t := Bit(s, b);
      if b && ones == 4 {
        InsideStuffed(t, d, out);
        RunBitsCons(t, v[1..]);
        var rest := H.Stuff(bits[1..], 0);
        assert v[1..] == [false] + rest;
        assert v[1..][0] == false && v[1..][1..] == rest;
        CollectStuffed(Bit(t, false), d, bits[1..], 0, out);
      } else {
        CollectStuffed(t, d, bits[1..], if b then ones + 1 else 0, out);
      }
    }
  }

  // ---------- the closing flag ----------

  lemma LeadStep(s: Dec, data: Vec, ones: nat, out: seq<seq<byte>>, b: bool, k: nat)
    requires k < 6 && Inside(s, data + LEAD[..k], ones, out) && ones < 5 && b == LEAD[k]
    ensures Inside(Bit(s, b), data + LEAD[..k + 1], if b then ones + 1 else 0, out)
  {
    hide Inside, Bit;
    assert data + LEAD[..k + 1] == (data + LEAD[..k]) + [b];
    InsideStep(s, data + LEAD[..k], ones, out, b);
  }

  lemma SixBits(s: Dec, data: Vec, ones: nat, out: seq<seq<byte>>)
    requires Inside(s, data, ones, out) && ones < 5
    ensures Inside(Bit(Bit(Bit(Bit(Bit(Bit(s, false), true), true), true), true), true), data + LEAD, 5, out)
  {
    hide Inside, Bit;
    assert data + LEAD[..0] == data && LEAD[..6] == LEAD;
    var s1 := Bit(s, false);
    var s2 := Bit(s1, true);
    var s3 := Bit(s2, true);
    var s4 := Bit(s3, true);
    var s5 := Bit(s4, true);
    LeadStep(s, data, ones, out, false, 0);
    LeadStep(s1, data, 0, out, true, 1);
    LeadStep(s2, data, 1, out, true, 2);
    LeadStep(s3, data, 2, out, true, 3);
    LeadStep(s4, data, 3, out, true, 4);
    LeadStep(s5, data, 4, out, true, 5);
  }

  lemma ProcessedLead(data: Vec)
    ensures var bits := data + LEAD + [true];
            |bits| - 7 == |data| && Processed(bits, |data|) == Processed(data, |data|)
  {
    hide PayloadOf, Register, BitsOf;
    var bits := data + LEAD + [true];
    assert bits[..|data|] == data && data[..|data|] == data;
    assert |data| >= 16 ==> bits[..|data| - 16] == data[..|data| - 16];
  }

  lemma SixthOfFlag(s: Dec, data: Vec, out: seq<seq<byte>>)
    requires Tracking(s, data + LEAD, 5, out)
    ensures var t := Bit(s, true); t.phase == Training && t.out == out + Processed(data, |data|)
  {
    hide CannotBeValid, Processed;
    ProcessedLead(data);
  }

  lemma TrainingIsSilent(s: Dec, b: bool)
    requires s.phase == Training
    ensures Bit(s, b).out == s.out
  {
    hide CannotBeValid, Processed;
  }

  /** What a closing flag brings out of the bits before it. */
  ghost function Closed(data: Vec): (emitted: seq<seq<byte>>) {
    if Survives(data + LEAD) then Processed(data, |data|) else []
  }

  /** The sixth one processes what came before the flag; its last zero is noise. */
  lemma SeventhBit(s: Dec, data: Vec, out: seq<seq<byte>>)
    requires Inside(s, data + LEAD, 5, out)
    ensures Bit(Bit(s, true), false).out == out + Closed(data)
  {
    hide Bit, Processed, Tracking, Survives, Lost;
    if Survives(data + LEAD) {
      SixthOfFlag(s, data, out);
      TrainingIsSilent(Bit(s, true), false);
    } else {
      LostStep(s, 5, out, true);
      LostIsSilent(Bit(s, true), 6, out, false);
    }
  }

  lemma FlagEnds(s: Dec, data: Vec, ones: nat, out: seq<seq<byte>>)
    requires Inside(s, data, ones, out) && ones < 5
    ensures RunBits(s, H.FLAG).out == out + Closed(data)
  {
    hide Inside, Bit, Closed;
    EightBits(s);
    SixBits(s, data, ones, out);
    SeventhBit(Bit(Bit(Bit(Bit(Bit(Bit(s, false), true), true), true), true), true), data, out);
  }

  // ---------- whole bursts ----------

  lemma {:induction false} PayloadOfAirBits(p: seq<byte>)
    ensures PayloadOf(AirBits(p)) == p
    decreases |p|
  {
    if p == [] {
    } else {
      var v := AirBits(p);
      assert v[..8] == BitsOf(p[0], 8) && v[8..] == AirBits(p[1..]);
      Pow2Of8();
      ValueOfBits(p[0], 8);
      PayloadOfAirBits(p[1..]);
    }
  }

  lemma ProcessedPayload(p: seq<byte>)
    ensures var data := AirBits(p + FcsBytes(p));
            Processed(data, |data|) == if |p| >= MIN_OCTETS then [p] else []
  {
    hide BitsOf, AirBits, FcsBytes, PayloadOf, Register;
    var all := p + FcsBytes(p);
    var data := AirBits(all);
    OwnFcsPasses(p);
    AirBitsConcat(p, FcsBytes(p));
    assert data[..|data|] == data && data[..|data| - 16] == AirBits(p);
    PayloadOfAirBits(p);
  }

  /** The payload, if it is long enough and the decoder does not give up. */
  ghost function Emitted(payload: seq<byte>): (emitted: seq<seq<byte>>) {
    if |payload| >= MIN_OCTETS && Survives(FrameData(payload) + LEAD) then [payload] else []
  }

  lemma ClosedPayload(payload: seq<byte>)
    ensures Closed(FrameData(payload)) == Emitted(payload)
  {
    hide Processed, Survives, FcsBytes, AirBits;
    ProcessedPayload(payload);
  }

  lemma EmptyInside(s: Dec, out: seq<seq<byte>>)
    requires Tracking(s, [], 0, out)
    ensures Inside(s, [], 0, out)
  {
    hide Tracking;
    var none: Vec := [];
    assert forall n :: 0 <= n <= |none| ==> none[..n] == none;
  }

  /** The burst after its training. */
  lemma FrameBits(s: Dec, payload: seq<byte>)
    requires s.phase == Training && s.position > MIN_TRAINING
    ensures RunBits(s, H.FLAG + (H.Stuff(FrameData(payload), 0) + H.FLAG)).out == s.out + Emitted(payload)
  {
    hide *;
    var data := FrameData(payload);
    var stuffed := H.Stuff(data, 0);
    RunBitsConcat(s, H.FLAG, stuffed + H.FLAG);
    FlagStarts(s);
    var t := RunBits(s, H.FLAG);
    EmptyInside(t, s.out);
    RunBitsConcat(t, stuffed, H.FLAG);
    CollectStuffed(t, [], data, 0, s.out);
    assert [] + data == data;
    FlagEnds(RunBits(t, stuffed), data, H.Trailing(data, 0), s.out);
    ClosedPayload(payload);
  }

  lemma AfterFirst(a: Vec, b: Vec, first: bool)
    requires a != []
    ensures [first] + (a + b)[1..] == ([first] + a[1..]) + b
  {}

  lemma BurstShape(training: Vec, payload: seq<byte>, first: bool)
    requires training != []
    ensures Burst(training, payload) != []
    ensures [first] + Burst(training, payload)[1..]
         == ([first] + training[1..]) + (H.FLAG + (H.Stuff(FrameData(payload), 0) + H.FLAG))
  {
    hide H.Stuff, H.FLAG, FrameData;
    AfterFirst(training, H.FLAG + (H.Stuff(FrameData(payload), 0) + H.FLAG), first);
  }

  /** Decoded bits of a burst, the first of them arbitrary. */
  lemma BurstBits(s: Dec, first: bool, training: Vec, payload: seq<byte>)
    requires s.phase == Training && s.position == 0 && |training| >= 7 && Alternating(training)
    ensures Burst(training, payload) != []
    ensures RunBits(s, [first] + Burst(training, payload)[1..]).out == s.out + Emitted(payload)
  {
    BurstShape(training, payload, first);
    hide *;
    var tail := H.FLAG + (H.Stuff(FrameData(payload), 0) + H.FLAG);
    RunBitsConcat(s, [first] + training[1..], tail);
    TrainingFromReset(s, first, training);
    FrameBits(RunBits(s, [first] + training[1..]), payload);
  }

  /** From reset, whatever level and bit the decoder remembers and whatever
      level the burst starts from, any payload comes out exactly once if it has
      21 octets and the decoder does not give up on it, and else not at all. */
  lemma BurstDecoded(s: Dec, training: Vec, payload: seq<byte>, level: bool)
    requires s.phase == Training && s.position == 0 && |training| >= 7 && Alternating(training)
    ensures Run(s, Tones(Burst(training, payload), level)).out == s.out + Emitted(payload)
  {
    hide *;
    var sent := Burst(training, payload);
    var levels := Tones(sent, level);
    BurstBits(s, true, training, payload);
    LevelsAreBits(s, levels);
    FirstBitOnly(sent, level, s.prev);
    var heard := FromTones(levels, s.prev);
    assert heard == [heard[0]] + sent[1..];
    BurstBits(s, heard[0], training, payload);
  }

  // ---------- what the decoder gives up on ----------

  /** The length at which a message type is cut off, 0 for none. */
  function CutAt(t: nat): (n: nat) {
    if t == 10 then 96
    else if t == 16 then 168
    else if t == 15 || t == 20 || t == 23 then 184
    else if t in {1, 2, 3, 4, 7, 9, 11, 18, 22, 24, 25, 27, 28} then 192
    else if t == 19 then 336
    else if t == 21 then 385
    else if t == 5 then 448
    else 0
  }

  /** A type there is, a station number of nine digits, and fewer bits than the
      type is cut off at, as far as bits in on-air order reach. */
  predicate Admits(bits: Vec, n: nat) {
    var t := Field(bits, 0, 6);
    (n >= 30 ==> 1 <= t <= 28) && (n >= 62 ==> Field(bits, 8, 30) <= 999999999) && (CutAt(t) > n || CutAt(t) == 0)
  }

  lemma {:induction false} FieldOfPrefix(bits: Vec, more: Vec, off: nat, n: nat)
    requires off + n <= |bits|
    ensures Field(bits + more, off, n) == Field(bits, off, n)
  {
    if n == 0 {
    } else {
      FieldOfPrefix(bits, more, off, n - 1);
    }
  }

  /** Giving up, for prefixes that hold both fields. */
  lemma GivesUpAt(bits: Vec, n: nat)
    requires n <= |bits|
    ensures GivesUp(bits[..n]) <==>
              n >= MAX_BITS || (n == 30 && !(1 <= Field(bits, 0, 6) <= 28)) ||
              (n == 62 && Field(bits, 8, 30) > 999999999) || (n > 62 && n == CutAt(Field(bits, 0, 6)))
  {
    assert bits == bits[..n] + bits[n..];
    if n >= 30 {
      FieldOfPrefix(bits[..n], bits[n..], 0, 6);
    }
    if n >= 62 {
      FieldOfPrefix(bits[..n], bits[n..], 8, 30);
    }
    hide Field;
  }

  /** The decoder keeps going through bits exactly if they are fewer than 1087
      and their type and station number admit their length. */
  lemma SurvivesIff(bits: Vec)
    requires |bits| >= 62
    ensures Survives(bits) <==> |bits| < MAX_BITS && Admits(bits, |bits|)
  {
    var t := Field(bits, 0, 6);
    GivesUpAt(bits, 30);
    GivesUpAt(bits, 62);
    if |bits| >= MAX_BITS {
      GivesUpAt(bits, MAX_BITS);
    }
    if 0 < CutAt(t) <= |bits| {
      GivesUpAt(bits, CutAt(t));
    }
    forall n | 0 <= n <= |bits| && |bits| < MAX_BITS && Admits(bits, |bits|)
      ensures !GivesUp(bits[..n])
    {
      GivesUpAt(bits, n);
      hide GivesUp, Field;
    }
    hide GivesUp, Field;
  }

  lemma AdmitsOfPrefix(air: Vec, more: Vec, n: nat)
    requires |air| >= 38
    ensures Admits(air + more, n) == Admits(air, n)
  {
    hide Field, CutAt;
    FieldOfPrefix(air, more, 0, 6);
    FieldOfPrefix(air, more, 8, 30);
  }

  lemma AirThenRest(payload: seq<byte>) returns (rest: Vec)
    ensures FrameData(payload) + LEAD == AirBits(payload) + rest && |rest| == 22
    ensures |rest| + 8 * |payload| < MAX_BITS <==> |payload| <= 133
  {
    hide AirBits, FcsBytes;
    AirBitsConcat(payload, FcsBytes(payload));
    rest := AirBits(FcsBytes(payload)) + LEAD;
  }

  lemma SurvivesAsAir(payload: seq<byte>)
    requires |payload| >= 21
    ensures Survives(FrameData(payload) + LEAD)
       <==> |payload| <= 133 && Admits(AirBits(payload), 8 * |payload| + 22)
  {
    hide *;
    var rest := AirThenRest(payload);
    SurvivesIff(FrameData(payload) + LEAD);
    AdmitsOfPrefix(AirBits(payload), rest, 8 * |payload| + 22);
  }

  /** A burst of any payload is emitted, once, if and only if the payload has 21
      to 133 octets and its first bits, read in on-air order, admit its length. */
  lemma EmittedIff(payload: seq<byte>)
    ensures Emitted(payload)
         == if 21 <= |payload| <= 133 && Admits(AirBits(payload), 8 * |payload| + 22) then [payload] else []
  {
    hide AirBits, Admits, Survives, FrameData, LEAD;
    if |payload| >= 21 {
      SurvivesAsAir(payload);
    }
  }

  /** A second octet of 0x6F reads as too high a station number: of such a
      payload nothing comes out, whatever its type and length. */
  lemma SecondOctetRefused(payload: seq<byte>)
    requires |payload| >= 2 && payload[1] == 0x6F
    ensures Emitted(payload) == []
  {
    hide Emitted, BitsOf, Field, CutAt;
    EmittedIff(payload);
    if |payload| >= 21 {
      SecondOctetBits(payload);
      HighOctet(AirBits(payload));
      hide AirBits;
    }
  }

  lemma SecondOctetBits(payload: seq<byte>)
    requires |payload| >= 2
    ensures AirBits(payload)[8..16] == BitsOf(payload[1], 8)
  {
    hide BitsOf;
    var air := AirBits(payload);
    assert air[8..] == AirBits(payload[1..]);
    assert air[8..][..8] == BitsOf(payload[1], 8);
  }

  lemma HighOctet(air: Vec)
    requires |air| >= 38 && air[8..16] == BitsOf(0x6F, 8)
    ensures Field(air, 8, 30) > 999999999
  {
    hide *;
    BitsOf6F();
    var octet := air[8..16];
    assert forall i :: 0 <= i < 8 ==> octet[i] == air[8 + i];
    FirstSeven(air);
    Pow2Of23();
    FieldGrows(air, 8, 7, 23);
  }

  lemma BitsOf6F()
    ensures BitsOf(0x6F, 8) == [true, true, true, true, false, true, true, false]
  {}

  lemma FirstSeven(air: Vec)
    requires |air| >= 15 && air[8] && air[9] && air[10] && air[11] && !air[12] && air[13] && air[14]
    ensures Field(air, 8, 7) == 123
  {
    assert Field(air, 8, 1) == 1;
    assert Field(air, 8, 2) == 3;
    assert Field(air, 8, 3) == 7;
    assert Field(air, 8, 4) == 15;
    assert Field(air, 8, 5) == 30;
    assert Field(air, 8, 6) == 61;
  }

  lemma Pow2Of23()
    ensures Pow2(23) == 0x80_0000
  {
    Pow2Of8();
    Pow2Add(8, 8);
    Pow2Add(16, 7);
  }

  lemma Doubled(x: nat, p: nat)
    ensures x * (2 * p) == 2 * (x * p)
  {}

  /** More bits make at least the same number with zeros after it. */
  lemma {:induction false} FieldGrows(bits: Vec, off: nat, n: nat, k: nat)
    requires off + n + k <= |bits|
    ensures Field(bits, off, n + k) >= Field(bits, off, n) * Pow2(k)
  {
    if k == 0 {
      assert Pow2(0) == 1;
    } else {
      FieldGrows(bits, off, n, k - 1);
      Doubled(Field(bits, off, n), Pow2(k - 1));
    }
  }
}
