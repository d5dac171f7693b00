/** The AIS frame decoder: training, start flag, destuffed data, FCS. */
module Ais {
  import opened Gf2
  import opened CrcTheory
  import opened Octets
  import opened Crc16

  const MIN_TRAINING: nat := 4
  const MAX_BITS: nat := 1064 + 16 + 7
  const MIN_OCTETS: nat := 21

  datatype Phase = Training | StartFlag | DataFcs

  /** The decoder's state; `out` collects what it emits. */
  datatype Dec = Dec(prev: bool, lastBit: bool, phase: Phase, position: nat, oneSeq: nat, bits: Vec,
                     out: seq<seq<byte>>)

  // ---------- plausibility ----------

  /** Bits off..off+n as a number, first bit highest, short at the end. */
  function Field(bits: Vec, off: nat, n: nat): nat {
    if n == 0 then 0
    else if off + n - 1 < |bits| then 2 * Field(bits, off, n - 1) + if bits[off + n - 1] then 1 else 0
    else Field(bits, off, n - 1)
  }

  /** Type and length rule each other out; the lengths carry 24 bits of trailer. */
  predicate CannotBeValid(bits: Vec) {
    var n := |bits|;
    var t := Field(bits, 0, 6);
    if n < 30 then false
    else if n == 30 then t > 28 || t == 0
    else if n == 62 then Field(bits, 8, 30) > 999999999
    else if n == 96 then t == 10
    else if n == 168 then t == 16
    else if n == 184 then t == 15 || t == 20 || t == 23
    else if n == 192 then t in {1, 2, 3, 4, 7, 9, 11, 18, 22, 24, 25, 27, 28}
    else if n == 336 then t == 19
    else if n == 385 then t == 21
    else if n == 448 then t == 5
    else false
  }

  // ---------- one received bit ----------

  function Reset(s: Dec): Dec {
    s.(phase := Training, position := 0, oneSeq := 0, bits := [])
  }

  /** The payload of n checked bits: whole octets, lowest bit first. */
  function PayloadOf(bits: Vec): (p: seq<byte>)
    requires |bits| % 8 == 0
    ensures |p| == |bits| / 8
    decreases |bits|
  {
    Pow2Of8();
    if bits == [] then [] else [ValueOf(bits[..8])] + PayloadOf(bits[8..])
  }

  /** The payload emitted for n bits of data and FCS, if any. */
  function Processed(bits: Vec, n: int): seq<seq<byte>> {
    hide BitsOf;
    if n < 16 || n > |bits| then []
    else if Register(bits[..n]) != RESIDUE then []
    else if (n - 16) % 8 != 0 || (n - 16) / 8 < MIN_OCTETS then []
    else [PayloadOf(bits[..n - 16])]
  }

  /** The training phase counts alternations. */
  function TrainingBit(s: Dec, nrzi: bool): Dec {
    if nrzi != s.lastBit then s.(position := s.position + 1)
    else if s.position > MIN_TRAINING then s.(phase := StartFlag, position := if nrzi then 3 else 1, oneSeq := 0)
    else s.(position := 0)
  }

  function FlagBit(s: Dec, nrzi: bool): Dec {
    if s.position == 7 then
      if !nrzi then s.(phase := DataFcs, position := 0, oneSeq := 0, bits := []) else Reset(s)
    else if nrzi then s.(position := s.position + 1)
    else Reset(s)
  }

  /** Too many bits, or bits no message starts with. */
  predicate GivesUp(bits: Vec) {
    |bits| >= MAX_BITS || CannotBeValid(bits)
  }

  /** The early exits after a data bit. */
  function Guarded(s: Dec): Dec {
    if GivesUp(s.bits) then Reset(s) else s
  }

  function DataBit(s: Dec, nrzi: bool): Dec {
    var t := s.(bits := s.bits + [nrzi]);
    if nrzi && s.oneSeq == 5 then
      // the last seven bits are the start of the closing flag; lastBit stays
      Reset(t.(out := t.out + Processed(t.bits, |t.bits| - 7)))
    else if nrzi then Guarded(t.(oneSeq := t.oneSeq + 1)).(lastBit := nrzi)
    else Guarded(t.(bits := if s.oneSeq == 5 then s.bits else t.bits, oneSeq := 0)).(lastBit := nrzi)
  }

  /** One decoded bit. */
  function Bit(s: Dec, nrzi: bool): Dec {
    match s.phase
    case Training => TrainingBit(s, nrzi).(lastBit := nrzi)
    case StartFlag => FlagBit(s, nrzi).(lastBit := nrzi)
    case DataFcs => DataBit(s, nrzi)
  }

  /** One line level: no change since the last is a one. */
  function Next(s: Dec, level: bool): Dec {
    Bit(s.(prev := level), level == s.prev)
  }

  function Run(s: Dec, levels: Vec): Dec
    decreases |levels|
  {
    if levels == [] then s else Run(Next(s, levels[0]), levels[1..])
  }

  class FrameDecoder {
    var prev: bool
    var lastBit: bool
    var phase: Phase
    var position: nat
    var oneSeq: nat
    var bits: Vec
    var out: seq<seq<byte>>

    function State(): Dec
      reads this
    {
      Dec(prev, lastBit, phase, position, oneSeq, bits, out)
    }

    constructor ()
      ensures State() == Dec(false, false, Training, 0, 0, [], [])
    {
      prev, lastBit, phase, position, oneSeq, bits, out := false, false, Training, 0, 0, [], [];
    }

    method DoReset()
      modifies this
      ensures State() == Reset(old(State()))
    {
      phase := Training;
      position := 0;
      oneSeq := 0;
      bits := [];
    }

    method Receive(level: bool)
      modifies this
      ensures State() == Next(old(State()), level)
    {
      hide DataBit;
      var nrzi := true;
      if level != prev {
        nrzi := false;
      }
      prev := level;
      match phase
      case Training =>
        if nrzi != lastBit {
          position := position + 1;
        } else if position > MIN_TRAINING {
          phase := StartFlag;
          position := 1;
          if nrzi {
            position := 3;
          }
          oneSeq := 0;
        } else {
          position := 0;
        }
        lastBit := nrzi;
      case StartFlag =>
        if position == 7 {
          if !nrzi {
            phase := DataFcs;
            position := 0;
            oneSeq := 0;
            bits := [];
          } else {
            DoReset();
          }
        } else if nrzi {
          position := position + 1;
        } else {
          DoReset();
        }
        lastBit := nrzi;
      case DataFcs =>
        ReceiveData(nrzi);
    }

    /** One bit between the flags. */
    method ReceiveData(nrzi: bool)
      modifies this
      ensures State() == DataBit(old(State()), nrzi)
    {
      hide CannotBeValid, Processed;
      ghost var before := bits;
      bits := bits + [nrzi];
      if nrzi {
        if oneSeq == 5 {
          var emitted := Process(|bits| - 7);
          out := out + emitted;
          DoReset();
          return;
        }
        oneSeq := oneSeq + 1;
      } else {
        if oneSeq == 5 {
          bits := bits[..|bits| - 1];
          assert bits == before;
        }
        oneSeq := 0;
      }
      var hopeless := CheckPlausible();
      if |bits| >= MAX_BITS || hopeless {
        DoReset();
      }
      lastBit := nrzi;
    }

    /** The unsigned field of n bits at off. */
    method ReadField(off: nat, n: nat) returns (v: nat)
      ensures v == Field(bits, off, n)
    {
      v := 0;
      var i := 0;
      while i < n && off + i < |bits|
        invariant i <= n && v == Field(bits, off, i)
      {
        v := 2 * v + if bits[off + i] then 1 else 0;
        i := i + 1;
      }
      FieldShort(bits, off, i, n);
    }

    method CheckPlausible() returns (hopeless: bool)
      ensures hopeless == CannotBeValid(bits)
    {
      var n := |bits|;
      if n < 30 {
        return false;
      }
      var t := ReadField(0, 6);
      match n
      case 30 => return t > 28 || t == 0;
      case 62 =>
        var mmsi := ReadField(8, 30);
        return mmsi > 999999999;
      case 96 => return t == 10;
      case 168 => return t == 16;
      case 184 => return t == 15 || t == 20 || t == 23;
      case 192 =>
        return t == 1 || t == 2 || t == 3 || t == 4 || t == 7 || t == 9 || t == 11 || t == 18 || t == 22 || t == 24
            || t == 25 || t == 27 || t == 28;
      case 336 => return t == 19;
      case 385 => return t == 21;
      case 448 => return t == 5;
      case _ => return false;
    }

    /** The FCS register over the first n bits. */
    method ComputeRegister(n: nat) returns (crc: Vec)
      requires n <= |bits|
      ensures crc == Register(bits[..n])
    {
      hide Feed, Step, BitsOf;
      crc := Ones(16);
      FeedNone(crc);
      for i := 0 to n
        invariant |crc| == 16 && crc == Register(bits[..i])
      {
        RegisterStep(bits, i);
        crc := Step(POLY16, crc, bits[i]);
      }
    }

    /** The first n octets, lowest bit first. */
    method PackPayload(n: nat) returns (payload: seq<byte>)
      requires 8 * n <= |bits|
      ensures payload == PayloadOf(bits[..8 * n])
    {
      hide PayloadOf, ValueOf;
      payload := [];
      PayloadNone(bits);
      for i := 0 to n
        invariant payload == PayloadOf(bits[..8 * i])
      {
        PayloadStep(bits, i);
        payload := payload + [ValueOf(bits[8 * i..8 * i + 8])];
      }
    }

    /** Checks n bits of data and FCS; returns the payload to emit. */
    method Process(n: int) returns (emitted: seq<seq<byte>>)
      ensures emitted == Processed(bits, n)
    {
      hide BitsOf, Register, PayloadOf;
      if n < 16 || n > |bits| {
        return [];
      }
      var crc := ComputeRegister(n);
      if crc != RESIDUE {
        return [];
      }
      var nBits := n - 16;
      if nBits % 8 != 0 || nBits / 8 < MIN_OCTETS {
        return [];
      }
      var payload := PackPayload(nBits / 8);
      emitted := [payload];
    }
  }

  lemma {:induction false} FieldShort(bits: Vec, off: nat, i: nat, n: nat)
    requires i <= n && (i < n ==> off + i >= |bits|)
    ensures Field(bits, off, n) == Field(bits, off, i)
    decreases n
  {
    if i == n {
    } else {
      FieldShort(bits, off, i, n - 1);
    }
  }

  lemma RegisterStep(bits: Vec, i: nat)
    requires i < |bits|
    ensures Register(bits[..i + 1]) == Step(POLY16, Register(bits[..i]), bits[i])
  {
    hide Step;
    assert bits[..i + 1] == bits[..i] + [bits[i]];
    FeedSplit(POLY16, Ones(16), bits[..i], [bits[i]]);
    FeedOne(POLY16, Register(bits[..i]), bits[i]);
  }

  lemma PayloadNone(bits: Vec)
    ensures PayloadOf(bits[..0]) == []
  {}

  lemma {:induction false} PayloadGrows(bits: Vec, n: nat)
    requires n % 8 == 0 && n + 8 <= |bits|
    ensures ValueOf(bits[n..n + 8]) < 256
    ensures PayloadOf(bits[..n + 8]) == PayloadOf(bits[..n]) + [ValueOf(bits[n..n + 8])]
    decreases n
  {
    hide *;
    OctetValue(bits[n..n + 8]);
    FirstOctet(bits[..n + 8]);
    if n == 0 {
      PayloadNone(bits);
      assert bits[..8][..8] == bits[..8] == bits[0..8];
    } else {
      var rest := bits[8..];
      PayloadGrows(rest, n - 8);
      EightOff(bits, n);
      EightOff(bits, n + 8);
      FirstOctet(bits[..n]);
      assert rest[n - 8..n] == bits[n..n + 8];
    }
  }

  lemma PayloadStep(bits: Vec, i: nat)
    requires 8 * i + 8 <= |bits|
    ensures ValueOf(bits[8 * i..8 * i + 8]) < 256
    ensures PayloadOf(bits[..8 * (i + 1)]) == PayloadOf(bits[..8 * i]) + [ValueOf(bits[8 * i..8 * i + 8])]
  {
    hide *;
    PayloadGrows(bits, 8 * i);
    assert 8 * (i + 1) == 8 * i + 8;
  }

  lemma OctetValue(v: Vec)
    requires |v| == 8
    ensures ValueOf(v) < 256
  {
    Pow2Of8();
  }

  lemma FirstOctet(v: Vec)
    requires |v| >= 8 && |v| % 8 == 0
    ensures ValueOf(v[..8]) < 256 && PayloadOf(v) == [ValueOf(v[..8])] + PayloadOf(v[8..])
    ensures |v| == 8 ==> PayloadOf(v) == [ValueOf(v[..8])]
  {
    Pow2Of8();
    hide ValueOf;
  }

  lemma EightOff(bits: Vec, n: nat)
    requires 8 <= n <= |bits|
    ensures bits[..n][..8] == bits[..8] && bits[..n][8..] == bits[8..][..n - 8]
  {}
}
