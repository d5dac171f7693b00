/** The AX.25 link over AFSK: flags, bit stuffing and FCS on transmit, and the
    self-synchronising bit-by-bit deframer on receive. */
module Hdlc {
  import opened Arith
  import opened Gf2
  import opened Octets
  import opened Crc16

  /** 0x7E in transmission order. */
  const FLAG: Vec := [false, true, true, true, true, true, true, false]

  const MIN_FRAME: nat := 17
  const MAX_FRAME: nat := 330

  // ---------- transmit ----------

  /** A zero after every run of five ones; `ones` have just been sent. */
  function Stuff(bits: Vec, ones: nat): (v: Vec)
    requires ones < 5
  {
    if bits == [] then []
    else if !bits[0] then [false] + Stuff(bits[1..], 0)
    else if ones == 4 then [true, false] + Stuff(bits[1..], 0)
    else [true] + Stuff(bits[1..], ones + 1)
  }

  /** The run of ones at the end of the stuffed bits. */
  function Trailing(bits: Vec, ones: nat): (t: nat)
    requires ones < 5
    ensures t < 5
  {
    if bits == [] then ones
    else if !bits[0] || ones == 4 then Trailing(bits[1..], 0)
    else Trailing(bits[1..], ones + 1)
  }

  function Flags(n: nat): (v: Vec) {
    if n == 0 then [] else Flags(n - 1) + FLAG
  }

  /** Everything sent for one body. */
  function Transmission(body: seq<byte>, preambleFlags: nat): Vec {
    Flags(preambleFlags) + Stuff(AirBits(body + FcsBytes(body)), 0) + FLAG
  }

  lemma StuffHead(bits: Vec, ones: nat)
    requires ones < 5
    ensures bits == [] ==> Stuff(bits, ones) == [] && Trailing(bits, ones) == ones
    ensures bits != [] ==> Stuff(bits, ones) != [] && Stuff(bits, ones)[0] == bits[0]
    ensures bits != [] && bits[0] && ones == 4 ==>
      Stuff(bits, ones)[1..] == [false] + Stuff(bits[1..], 0) && Trailing(bits, ones) == Trailing(bits[1..], 0)
    ensures bits != [] && !(bits[0] && ones == 4) ==>
      var o := if bits[0] then ones + 1 else 0;
      Stuff(bits, ones)[1..] == Stuff(bits[1..], o) && Trailing(bits, ones) == Trailing(bits[1..], o)
  {}

  lemma StuffOne(b: bool, ones: nat)
    requires ones < 5
    ensures Stuff([b], ones) == if !b then [false] else if ones == 4 then [true, false] else [true]
    ensures Trailing([b], ones) == if !b || ones == 4 then 0 else ones + 1
  {
    assert [b][1..] == [];
  }

  lemma {:induction false} StuffAppend(bits: Vec, b: bool, ones: nat)
    requires ones < 5
    ensures Stuff(bits + [b], ones)
         == Stuff(bits, ones) + if !b then [false] else if Trailing(bits, ones) == 4 then [true, false] else [true]
    ensures Trailing(bits + [b], ones)
         == if !b || Trailing(bits, ones) == 4 then 0 else Trailing(bits, ones) + 1
    decreases |bits|
  {
    if bits == [] {
      StuffOne(b, ones);
      assert bits + [b] == [b];
    } else {
      StuffHead(bits, ones);
      StuffHead(bits + [b], ones);
      hide Stuff, Trailing;
      assert (bits + [b])[1..] == bits[1..] + [b];
      StuffAppend(bits[1..], b, if !bits[0] || ones == 4 then 0 else ones + 1);
    }
  }

  /** The bit assembly of the modulator. */
  method Assemble(body: seq<byte>, preambleFlags: nat) returns (bits: Vec)
    ensures bits == Transmission(body, preambleFlags)
  {
    hide BitsOf, AirBits;
    var stuffed := body + FcsBytes(body);
    bits := [];
    for i := 0 to preambleFlags
      invariant bits == Flags(i)
    {
      bits := bits + FLAG;
    }
    ghost var lead := bits;
    var ones := 0;
    AirBitsNone();
    assert stuffed[..0] == [];
    for k := 0 to |stuffed|
      invariant ones < 5 && ones == Trailing(AirBits(stuffed[..k]), 0)
      invariant bits == lead + Stuff(AirBits(stuffed[..k]), 0)
    {
      bits, ones := StuffByte(bits, ones, stuffed[k], AirBits(stuffed[..k]), lead);
      assert stuffed[..k + 1] == stuffed[..k] + [stuffed[k]];
      AirBitsConcat(stuffed[..k], [stuffed[k]]);
      AirBitsOne(stuffed[k]);
    }
    assert stuffed[..|stuffed|] == stuffed;
    bits := bits + FLAG;
  }

  /** The eight bits of one byte, stuffed. */
  method StuffByte(bits0: Vec, ones0: nat, b: byte, ghost sent: Vec, ghost lead: Vec)
    returns (bits: Vec, ones: nat)
    requires ones0 < 5 && ones0 == Trailing(sent, 0) && bits0 == lead + Stuff(sent, 0)
    ensures ones < 5 && ones == Trailing(sent + BitsOf(b, 8), 0)
    ensures bits == lead + Stuff(sent + BitsOf(b, 8), 0)
  {
    hide Stuff, Trailing, BitsOf;
    bits, ones := bits0, ones0;
    ghost var v := BitsOf(b, 8);
    assert sent + v[..0] == sent;
    for i := 0 to 8
      invariant ones < 5 && ones == Trailing(sent + v[..i], 0)
      invariant bits == lead + Stuff(sent + v[..i], 0)
    {
      var bit := BitsOf(b, 8)[i];
      StuffAppend(sent + v[..i], bit, 0);
      assert sent + v[..i + 1] == (sent + v[..i]) + [bit];
      bits := bits + [bit];
      if bit {
        ones := ones + 1;
        if ones == 5 {
          bits := bits + [false];
          ones := 0;
        }
      } else {
        ones := 0;
      }
    }
    assert sent + v[..8] == sent + v;
  }

  lemma FlagIs7E()
    ensures AirBits([0x7E]) == FLAG
  {
    AirBitsOne(0x7E);
  }

  // ---------- receive ----------

  /** The deframer's state; the shift register is its eight bits, oldest first. */
  datatype Rx = Rx(shift: Vec, onesR: nat, inFlag: bool, frame: seq<byte>, cur: nat, curN: nat, stuff1: nat,
                   frames: seq<seq<byte>>)

  predicate Valid(s: Rx) {
    |s.shift| == 8 && s.curN < 8 && s.cur < Pow2(s.curN) && |s.frames| <= 17
  }

  /** The queue keeps the newest 17 frames. */
  function Enqueue(frames: seq<seq<byte>>, body: seq<byte>): (q: seq<seq<byte>>)
    ensures q != [] && q[|q| - 1] == body
  {
    (if |frames| > 16 then frames[1..] else frames) + [body]
  }

  predicate Complete(s: Rx) {
    s.inFlag && |s.frame| >= MIN_FRAME && ValidFcs(s.frame)
  }

  function CloseFrame(s: Rx): Rx {
    s.(frames := if Complete(s) then Enqueue(s.frames, s.frame[..|s.frame| - 2]) else s.frames,
       frame := [], cur := 0, curN := 0, stuff1 := 0)
  }

  /** One destuffed bit into the collector. */
  function Collect(s: Rx, bit: bool): Rx
    requires Valid(s)
  {
    Pow2Of8();
    Pow2Order(s.curN + 1, 8);
    var cur := s.cur + if bit then Pow2(s.curN) else 0;
    var t := s.(stuff1 := if bit then s.stuff1 + 1 else 0);
    if s.curN + 1 < 8 then t.(cur := cur, curN := s.curN + 1)
    else if |s.frame| + 1 > MAX_FRAME then t.(cur := 0, curN := 0, inFlag := false, frame := [])
    else t.(cur := 0, curN := 0, frame := s.frame + [cur])
  }

  lemma OctetFits(n: nat)
    requires n < 8
    ensures Pow2(n + 1) == 2 * Pow2(n) <= 256
  {
    Pow2Of8();
    Pow2Order(n + 1, 8);
  }

  /** The effect of one received bit. */
  function Next(s: Rx, bit: bool): (t: Rx)
    requires Valid(s)
    ensures Valid(t)
  {
    var u := s.(shift := s.shift[1..] + [bit], onesR := if bit then s.onesR + 1 else 0);
    if u.shift == FLAG || u.onesR == 6 then CloseFrame(u).(inFlag := true)
    else if u.onesR > 6 then u.(inFlag := false)
    else if !u.inFlag then u
    else if u.stuff1 == 5 && !bit then u.(stuff1 := 0)
    else Collect(u, bit)
  }

  function Run(s: Rx, bits: Vec): (t: Rx)
    requires Valid(s)
    ensures Valid(t)
    decreases |bits|
  {
    if bits == [] then s else Run(Next(s, bits[0]), bits[1..])
  }

  class Deframer {
    var shift: Vec
    var onesR: nat
    var inFlag: bool
    var frame: seq<byte>
    var cur: nat
    var curN: nat
    var stuff1: nat
    var frames: seq<seq<byte>>

    function State(): Rx
      reads this
    {
      Rx(shift, onesR, inFlag, frame, cur, curN, stuff1, frames)
    }

    constructor ()
      ensures Valid(State()) && State() == Rx(Zero(8), 0, false, [], 0, 0, 0, [])
    {
      shift, onesR, inFlag, frame, cur, curN, stuff1, frames := Zero(8), 0, false, [], 0, 0, 0, [];
    }

    method StepBit(bit: bool)
      requires Valid(State())
      modifies this
      ensures State() == Next(old(State()), bit)
    {
      hide ValidFcs, CloseFrame, Collect, Pow2, FLAG;
      shift := shift[1..] + [bit];
      if bit {
        onesR := onesR + 1;
      } else {
        onesR := 0;
      }
      if shift == FLAG {
        Close();
        inFlag := true;
        return;
      }
      if onesR == 6 {
        Close();
        inFlag := true;
        return;
      }
      if onesR > 6 {
        inFlag := false;
        return;
      }
      if !inFlag {
        return;
      }
      if stuff1 == 5 && !bit {
        stuff1 := 0;
        return;
      }
      KeepBit(bit);
    }

    /** One destuffed bit: whole octets go to the frame, too long a frame is dropped. */
    method KeepBit(bit: bool)
      requires Valid(State())
      modifies this
      ensures State() == Collect(old(State()), bit)
    {
      hide Pow2;
      OctetFits(curN);
      if bit {
        stuff1 := stuff1 + 1;
        cur := cur + Pow2(curN);
      } else {
        stuff1 := 0;
      }
      curN := curN + 1;
      if curN == 8 {
        frame := frame + [cur];
        cur, curN := 0, 0;
        if |frame| > MAX_FRAME {
          inFlag := false;
          frame := [];
        }
      }
    }

    method Close()
      modifies this
      ensures State() == CloseFrame(old(State()))
    {
      hide ValidFcs;
      var crc := CheckFcs(frame);
      if inFlag && |frame| >= MIN_FRAME && crc {
        var body := frame[..|frame| - 2];
        if |frames| > 16 {
          frames := frames[1..];
        }
        frames := frames + [body];
      }
      frame := [];
      cur, curN := 0, 0;
      stuff1 := 0;
    }

    /** The queued bodies, which the queue gives up. */
    method TakeFrames() returns (taken: seq<seq<byte>>)
      modifies this`frames
      ensures taken == old(frames) && State() == old(State()).(frames := [])
    {
      taken := frames;
      frames := [];
    }

    method Feed(bits: Vec)
      requires Valid(State())
      modifies this
      ensures State() == Run(old(State()), bits)
    {
      hide Next;
      ghost var s := State();
      RunNone(s, bits);
      for i := 0 to |bits|
        invariant Valid(State()) && State() == Run(s, bits[..i])
      {
        RunAppend(s, bits[..i], bits[i]);
        assert bits[..i + 1] == bits[..i] + [bits[i]];
        StepBit(bits[i]);
      }
      assert bits[..|bits|] == bits;
    }
  }

  method CheckFcs(all: seq<byte>) returns (ok: bool)
    ensures ok == ValidFcs(all)
  {
    if |all| < 2 {
      return false;
    }
    var crc := ComputeCrc16(all);
    return crc == RESIDUE;
  }

  lemma RunNone(s: Rx, bits: Vec)
    requires Valid(s)
    ensures Run(s, bits[..0]) == s
  {}

  lemma {:induction false} RunConcat(s: Rx, a: Vec, b: Vec)
    requires Valid(s)
    ensures Run(s, a + b) == Run(Run(s, a), b)
    decreases |a|
  {
    hide Next;
    if a == [] {
      assert a + b == b;
    } else {
      assert (a + b)[1..] == a[1..] + b;
      RunConcat(Next(s, a[0]), a[1..], b);
    }
  }

  lemma RunAppend(s: Rx, a: Vec, b: bool)
    requires Valid(s)
    ensures Run(s, a + [b]) == Next(Run(s, a), b)
  {
    hide Next;
    RunConcat(s, a, [b]);
    RunOne(Run(s, a), b);
  }

  lemma RunOne(s: Rx, b: bool)
    requires Valid(s)
    ensures Run(s, [b]) == Next(s, b)
  {
    hide Next;
    assert [b][1..] == [];
  }
}
