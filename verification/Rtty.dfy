/** The radioteletype receiver after the tones: one mark-or-space decision a
    quarter bit, framed into five-bit codes, gated by runs, and typed out. */
module Rtty {
  import opened Options
  import opened Arith
  import opened Gf2

  // ---------- typing ----------

  const LETTERS: seq<string> := [
    "", "E", "\n", "A", " ", "S", "I", "U", "\r", "D", "R", "J", "N", "F", "C", "K",
    "T", "Z", "L", "W", "H", "Y", "P", "Q", "O", "B", "G", "\U{1b}", "M", "X", "V", "\U{1f}"]

  const FIGURES: seq<string> := [
    "", "3", "\n", "-", " ", "'", "8", "7", "\r", "", "4", "", ",", "!", ":", "(",
    "5", "\"", ")", "2", "#", "6", "0", "1", "9", "?", "&", "\U{1b}", ".", "/", ";", "\U{1f}"]

  const LTRS := 0x1f
  const FIGS := 0x1b
  const SPACE := 0x04

  type Code = c: int | 0 <= c < 32

  function Symbol(figs: bool, code: Code): string {
    assert |LETTERS| == 32 && |FIGURES| == 32;
    if figs then FIGURES[code] else LETTERS[code]
  }

  /** The letters of ITA2 by their codes. */
  lemma LettersAreIta2()
    ensures Symbol(false, 3) == "A" && Symbol(false, 25) == "B" && Symbol(false, 14) == "C"
    ensures Symbol(false, 9) == "D" && Symbol(false, 1) == "E" && Symbol(false, 13) == "F"
    ensures Symbol(false, 26) == "G" && Symbol(false, 20) == "H" && Symbol(false, 6) == "I"
    ensures Symbol(false, 11) == "J" && Symbol(false, 15) == "K" && Symbol(false, 18) == "L"
    ensures Symbol(false, 28) == "M"
  {}

  lemma MoreLettersAreIta2()
    ensures Symbol(false, 12) == "N" && Symbol(false, 24) == "O" && Symbol(false, 22) == "P"
    ensures Symbol(false, 23) == "Q" && Symbol(false, 10) == "R" && Symbol(false, 5) == "S"
    ensures Symbol(false, 16) == "T" && Symbol(false, 7) == "U" && Symbol(false, 30) == "V"
    ensures Symbol(false, 19) == "W" && Symbol(false, 29) == "X" && Symbol(false, 21) == "Y"
    ensures Symbol(false, 17) == "Z"
  {}

  /** The digits in the figures shift. */
  lemma DigitsAreIta2()
    ensures Symbol(true, 22) == "0" && Symbol(true, 23) == "1" && Symbol(true, 19) == "2"
    ensures Symbol(true, 1) == "3" && Symbol(true, 10) == "4" && Symbol(true, 16) == "5"
    ensures Symbol(true, 21) == "6" && Symbol(true, 7) == "7" && Symbol(true, 6) == "8"
    ensures Symbol(true, 24) == "9"
  {}

  /** Space and the two line ends are the same in both shifts. */
  lemma ControlsAreIta2(figs: bool)
    ensures Symbol(figs, 4) == " " && Symbol(figs, 8) == "\r" && Symbol(figs, 2) == "\n"
    ensures Symbol(figs, 0) == ""
  {}

  /** The shift, the line being typed, and the finished lines. */
  datatype Text = Text(figs: bool, cur: string, lines: seq<string>)

  function Finished(lines: seq<string>, line: string): (r: seq<string>) {
    var all := lines + [line];
    if |all| > 200 then all[|all| - 200..] else all
  }

  function Type(t: Text, code: Code, usos: bool): (r: Text) {
    if code == LTRS then t.(figs := false)
    else if code == FIGS then t.(figs := true)
    else
      var s := Symbol(t.figs, code);
      var u := if usos && code == SPACE then t.(figs := false) else t;
      if s == "" || s == "\n" then u
      else if s == "\r" then u.(cur := "", lines := Finished(t.lines, t.cur))
      else u.(cur := t.cur + s)
  }

  function TypeAll(t: Text, codes: seq<Code>, usos: bool): (r: Text)
    decreases |codes|
  {
    if codes == [] then t else TypeAll(Type(t, codes[0], usos), codes[1..], usos)
  }

  lemma {:induction false} TypeAllConcat(t: Text, a: seq<Code>, b: seq<Code>, usos: bool)
    ensures TypeAll(t, a + b, usos) == TypeAll(TypeAll(t, a, usos), b, usos)
    decreases |a|
  {
    hide Type;
    if a == [] {
      assert a + b == b;
    } else {
      assert (a + b)[1..] == a[1..] + b;
      TypeAllConcat(Type(t, a[0], usos), a[1..], b, usos);
    }
  }

  lemma TypeOne(t: Text, c: Code, usos: bool)
    ensures TypeAll(t, [c], usos) == Type(t, c, usos)
  {
    hide Type;
    assert [c][1..] == [];
  }

  lemma TypedNothing(t: Text, log: seq<Code>, usos: bool)
    ensures TypeAll(t, log[|log|..], usos) == t
  {}

  /** From one text and log to another by typing just the codes logged between. */
  ghost predicate Advanced(t: Text, log: seq<Code>, t': Text, log': seq<Code>, usos: bool) {
    log <= log' && t' == TypeAll(t, log'[|log|..], usos)
  }

  lemma AdvancedNone(t: Text, log: seq<Code>, usos: bool)
    ensures Advanced(t, log, t, log, usos)
  {}

  // ---------- framing ----------

  /** The framer between two quarters.  `mid` is there from the quarter at a
      sampling centre to the vote one quarter later; `log` is every code that
      has been passed on. */
  datatype Framer = Framer(
    sampling: bool, lastBit: bool, collect: int, mid: Option<bool>, prev: bool, bits: nat, nBits: nat,
    qTotal: nat, lastMark: nat, lastSpace: nat, lastStop: nat, runGood: nat,
    pending: seq<Code>, log: seq<Code>)

  const START := Framer(false, false, 0, None, false, 0, 0, 0, 0, 0, 0, 0, [], [])

  ghost predicate Valid(s: Framer) {
    Sound(s) &&
    (if s.mid.Some? then s.sampling && s.collect == 1 else s.sampling ==> 1 <= s.collect <= 6) &&
    (s.lastBit ==> s.lastMark + 1 == s.qTotal) &&
    s.lastMark <= s.qTotal && s.lastSpace <= s.qTotal && s.lastStop <= s.qTotal &&
    |s.pending| == if s.runGood < 4 then s.runGood else 0
  }

  predicate Sound(s: Framer) {
    s.nBits <= 5 && s.bits < Pow2(s.nBits)
  }

  predicate Vote(a: bool, b: bool, c: bool) {
    (a && b) || (a && c) || (b && c)
  }

  predicate InStep(s: Framer) {
    s.lastStop > 0 && 27 <= s.qTotal - s.lastStop <= 33
  }

  /** A finished frame, counted and held. */
  function Hold(s: Framer): (t: Framer)
    requires s.bits < 32
  {
    var kept := if InStep(s) then s.pending else [];
    s.(runGood := if InStep(s) then s.runGood + 1 else 1,
       pending := if |kept| < 4 then kept + [s.bits] else kept,
       lastStop := s.qTotal)
  }

  /** A finished frame: counted, held, and let go with its run. */
  function Accept(s: Framer): (t: Framer)
    requires s.bits < 32
  {
    var t := Hold(s);
    if t.runGood >= 4 then t.(pending := [], log := t.log + t.pending) else t
  }

  function CloseFrame(s: Framer, v: bool): (t: Framer)
    requires s.bits < 32
  {
    if v && s.qTotal - s.lastMark < 300 && s.qTotal - s.lastSpace < 300 then
      Accept(s).(sampling := false)
    else
      s.(runGood := 0, pending := [], sampling := false)
  }

  lemma BitsFit(n: nat)
    requires n <= 5
    ensures Pow2(n) <= 32 && Pow2(5) == 32 && Pow2(n + 1) == 2 * Pow2(n)
  {
    assert Pow2(5) == 32;
    Pow2Order(n, 5);
  }

  /** A vote is due: the centre has been looked at and this is the quarter
      after it. */
  predicate Due(s: Framer) {
    s.sampling && s.collect <= 1 && !(s.collect == 1 && s.mid.None?)
  }

  function Hunt(s: Framer, bit: bool): (t: Framer) {
    if s.lastBit && !bit then s.(sampling := true, bits := 0, nBits := 0, collect := 6, lastBit := bit)
    else s.(lastBit := bit)
  }

  /** Hunting for a start edge, or waiting for a sampling centre. */
  function Wait(s: Framer, bit: bool): (t: Framer) {
    if !s.sampling then Hunt(s, bit)
    else if s.collect > 1 then
      s.(collect := s.collect - 1, lastBit := bit)
    else
      s.(prev := s.lastBit, mid := Some(bit), collect := 1, lastBit := bit)
  }

  /** One more data bit, above those there. */
  function KeepBit(s: Framer, v: bool): (t: Framer) {
    s.(bits := s.bits + (if v then Pow2(s.nBits) else 0), nBits := s.nBits + 1, collect := 3)
  }

  /** A vote taken: another data bit, or the stop bit after five. */
  function Voted(s: Framer, v: bool): (t: Framer)
    requires Sound(s)
  {
    BitsFit(s.nBits);
    if s.nBits < 5 then KeepBit(s, v) else CloseFrame(s.(collect := s.collect - 1), v)
  }

  /** The majority of three looks, as a data bit or as the stop bit. */
  function Sample(s: Framer, bit: bool): (t: Framer)
    requires Sound(s)
  {
    BitsFit(s.nBits);
    var v := Vote(s.prev, if s.mid.Some? then s.mid.value else false, bit);
    Voted(s.(mid := None), v).(lastBit := bit)
  }

  /** One quarter bit through the framer proper. */
  function StepBit(s: Framer, bit: bool): (t: Framer)
    requires Sound(s)
  {
    if Due(s) then Sample(s, bit) else Wait(s, bit)
  }

  /** When each tone was last seen, and one quarter more. */
  function Note(s: Framer, bit: bool): (t: Framer) {
    s.(lastMark := if bit then s.qTotal else s.lastMark,
       lastSpace := if bit then s.lastSpace else s.qTotal,
       qTotal := s.qTotal + 1)
  }

  /** One quarter-bit decision: noted, counted, and framed. */
  function Next(s: Framer, bit: bool): (t: Framer)
    requires Sound(s)
  {
    StepBit(Note(s, bit), bit)
  }

  /** Valid but for the last bit, which is about to be this one. */
  ghost predicate Noted(s: Framer, bit: bool) {
    Valid(s.(lastBit := bit))
  }

  lemma CloseKeepsValid(s: Framer, v: bool, bit: bool)
    requires s.mid.None? && Noted(s.(sampling := false), bit) && s.bits < 32
    ensures Valid(CloseFrame(s, v).(lastBit := bit)) && s.log <= CloseFrame(s, v).log
  {
    hide Pow2;
  }

  lemma KeepBitValid(s: Framer, v: bool, bit: bool)
    requires s.mid.None? && Noted(s.(sampling := false), bit) && s.nBits < 5 && s.sampling
    ensures Valid(KeepBit(s, v).(lastBit := bit)) && KeepBit(s, v).log == s.log
  {
    BitsFit(s.nBits);
    hide Pow2;
  }

  lemma SampleKeepsValid(s: Framer, bit: bool)
    requires Noted(s, bit) && s.sampling
    ensures Valid(Sample(s, bit)) && s.log <= Sample(s, bit).log
  {
    hide Pow2, Vote, Noted, Valid, Voted;
    CentreLeft(s, bit);
    VotedKeepsValid(s.(mid := None), Vote(s.prev, if s.mid.Some? then s.mid.value else false, bit), bit);
  }

  lemma CentreLeft(s: Framer, bit: bool)
    requires Noted(s, bit)
    ensures Noted(s.(mid := None, sampling := false), bit) && Sound(s)
    ensures Noted(s.(mid := None, collect := s.collect - 1, sampling := false), bit)
  {
    hide Pow2;
  }

  lemma VotedKeepsValid(s: Framer, v: bool, bit: bool)
    requires s.mid.None? && s.sampling && Sound(s) && Noted(s.(sampling := false), bit)
    requires Noted(s.(collect := s.collect - 1, sampling := false), bit)
    ensures Valid(Voted(s, v).(lastBit := bit)) && s.log <= Voted(s, v).log
  {
    hide Pow2, CloseFrame, KeepBit, Valid, Noted, Sound;
    if s.nBits < 5 {
      KeepBitValid(s, v, bit);
    } else {
      StopFits(s);
      CloseKeepsValid(s.(collect := s.collect - 1), v, bit);
    }
  }

  lemma StopFits(s: Framer)
    requires Sound(s) && s.nBits >= 5
    ensures s.bits < 32
  {
    BitsFit(5);
  }

  lemma WaitKeepsValid(s: Framer, bit: bool)
    requires Noted(s, bit) && !Due(s)
    ensures Valid(Wait(s, bit)) && s.log == Wait(s, bit).log
  {
    BitsFit(0);
  }

  /** What every quarter keeps: in particular that the frames held back are
      just those of the run so far, and fewer than four. */
  lemma NextKeepsValid(s: Framer, bit: bool)
    requires Valid(s)
    ensures Valid(Next(s, bit)) && s.log <= Next(s, bit).log
  {
    hide Pow2, Sample, Wait;
    var u := Note(s, bit);
    assert Noted(u, bit);
    if Due(u) {
      SampleKeepsValid(u, bit);
    } else {
      WaitKeepsValid(u, bit);
    }
  }

  function Run(s: Framer, bits: Vec): (t: Framer)
    requires Valid(s)
    ensures Valid(t) && s.log <= t.log
    decreases |bits|
  {
    if bits == [] then s
    else
      NextKeepsValid(s, bits[0]);
      Run(Next(s, bits[0]), bits[1..])
  }

  lemma {:induction false} RunConcat(s: Framer, a: Vec, b: Vec)
    requires Valid(s)
    ensures Run(s, a + b) == Run(Run(s, a), b)
    decreases |a|
  {
    hide Next;
    if a == [] {
      assert a + b == b;
    } else {
      assert (a + b)[1..] == a[1..] + b;
      NextKeepsValid(s, a[0]);
      hide Valid, Sound;
      RunConcat(Next(s, a[0]), a[1..], b);
    }
  }

  lemma RunOne(s: Framer, b: bool)
    requires Valid(s)
    ensures Run(s, [b]) == Next(s, b)
  {
    hide Next;
    NextKeepsValid(s, b);
    assert [b][1..] == [];
  }

  // ---------- the receiver ----------

  class Decoder {
    const usos: bool
    var rev: bool
    var sampling: bool
    var lastBit: bool
    var collect: int
    var mid: Option<bool>
    var prev: bool
    var bits: nat
    var nBits: nat
    var qTotal: nat
    var lastMark: nat
    var lastSpace: nat
    var lastStop: nat
    var runGood: nat
    var pending: seq<Code>
    var shiftFigs: bool
    var cur: string
    var lines: seq<string>
    ghost var log: seq<Code>

    ghost function State(): Framer
      reads this
    {
      Framer(sampling, lastBit, collect, mid, prev, bits, nBits, qTotal, lastMark, lastSpace, lastStop, runGood,
             pending, log)
    }

    ghost function Typed(): Text
      reads this
    {
      Text(shiftFigs, cur, lines)
    }

    constructor ()
      ensures State() == START && Valid(State()) && Typed() == Text(false, "", []) && usos && !rev
    {
      usos, rev := true, false;
      sampling, lastBit, collect, mid, prev, bits, nBits := false, false, 0, None, false, 0, 0;
      qTotal, lastMark, lastSpace, lastStop, runGood, pending := 0, 0, 0, 0, 0, [];
      shiftFigs, cur, lines, log := false, "", [], [];
    }

    /** One quarter whose tone fell below the centre or not. */
    method Quarter(below: bool)
      requires Valid(State())
      modifies this
      ensures rev == old(rev) && Valid(State()) && State() == Next(old(State()), below != rev)
      ensures Advanced(old(Typed()), old(log), Typed(), log, usos)
    {
      NextKeepsValid(State(), below != rev);
      hide Advanced, StepBit, Sound, Note, Valid;
      var bit := below;
      if rev {
        bit := !bit;
      }
      NoteTone(bit);
      Step(bit);
    }

    method NoteTone(bit: bool)
      modifies this`lastMark, this`lastSpace, this`qTotal
      ensures State() == Note(old(State()), bit)
      ensures Sound(old(State())) ==> Sound(State())
    {
      hide Pow2;
      if bit {
        lastMark := qTotal;
      } else {
        lastSpace := qTotal;
      }
      qTotal := qTotal + 1;
    }

    /** Advances the framer by one decision. */
    method Step(bit: bool)
      requires Sound(State())
      modifies this
      ensures rev == old(rev) && State() == StepBit(old(State()), bit)
      ensures Advanced(old(Typed()), old(log), Typed(), log, usos)
    {
      hide Advanced, Sample, Hunt, Sound;
      AdvancedNone(Typed(), log, usos);
      if !sampling {
        HuntEdge(bit);
      } else if collect - 1 > 0 {
        collect := collect - 1;
        lastBit := bit;
      } else if collect - 1 == 0 && mid.None? {
        prev, mid, collect := lastBit, Some(bit), 1;
        lastBit := bit;
      } else {
        TakeVote(bit);
      }
    }

    method HuntEdge(bit: bool)
      modifies this`sampling, this`bits, this`nBits, this`collect, this`lastBit
      ensures State() == Hunt(old(State()), bit)
    {
      if lastBit && !bit {
        sampling, bits, nBits, collect := true, 0, 0, 6;
      }
      lastBit := bit;
    }

    /** The vote quarter: majority of the looks before, at and after the centre. */
    method TakeVote(bit: bool)
      requires Sound(State())
      modifies this
      ensures rev == old(rev) && State() == Sample(old(State()), bit)
      ensures Advanced(old(Typed()), old(log), Typed(), log, usos)
    {
      hide Advanced, Voted, Pow2, Vote;
      var v := Vote(prev, if mid.Some? then mid.value else false, bit);
      mid := None;
      CountVote(v);
      lastBit := bit;
    }

    method CountVote(v: bool)
      requires Sound(State())
      modifies this
      ensures rev == old(rev) && State() == Voted(old(State()), v)
      ensures Advanced(old(Typed()), old(log), Typed(), log, usos)
    {
      hide Advanced, CloseFrame, Pow2, KeepBit;
      BitsFit(nBits);
      AdvancedNone(Typed(), log, usos);
      if nBits < 5 {
        DataBit(v);
      } else {
        collect := collect - 1;
        StopBit(v);
      }
    }

    method DataBit(v: bool)
      requires Sound(State()) && nBits < 5
      modifies this`bits, this`nBits, this`collect
      ensures State() == KeepBit(old(State()), v)
    {
      hide Pow2;
      if v {
        bits := bits + Pow2(nBits);
      }
      nBits := nBits + 1;
      collect := 3;
    }

    /** The stop vote ends a frame. */
    method StopBit(v: bool)
      requires bits < 32
      modifies this
      ensures rev == old(rev) && State() == CloseFrame(old(State()), v)
      ensures Advanced(old(Typed()), old(log), Typed(), log, usos)
    {
      hide Advanced, Accept;
      if v && qTotal - lastMark < 300 && qTotal - lastSpace < 300 {
        Run();
      } else {
        AdvancedNone(Typed(), log, usos);
        runGood := 0;
        pending := [];
      }
      sampling := false;
    }

    /** The run gate: in step or a new run, held or let go. */
    method Run()
      requires bits < 32
      modifies this`runGood, this`pending, this`lastStop, this`shiftFigs, this`cur, this`lines, this`log
      ensures State() == Accept(old(State()))
      ensures Advanced(old(Typed()), old(log), Typed(), log, usos)
    {
      hide Advanced, Hold;
      AdvancedNone(Typed(), log, usos);
      Keep();
      if runGood >= 4 {
        Release();
      }
    }

    method Keep()
      requires bits < 32
      modifies this`runGood, this`pending, this`lastStop
      ensures State() == Hold(old(State()))
    {
      if lastStop > 0 && qTotal - lastStop >= 27 && qTotal - lastStop <= 33 {
        runGood := runGood + 1;
      } else {
        runGood := 1;
        pending := [];
      }
      lastStop := qTotal;
      if |pending| < 4 {
        pending := pending + [bits];
      }
    }

    /** Types the frames held back. */
    method Release()
      modifies this`shiftFigs, this`cur, this`lines, this`pending, this`log
      ensures pending == [] && log == old(log) + old(pending)
      ensures Advanced(old(Typed()), old(log), Typed(), log, usos)
    {
      hide TypeAll, Type;
      TypedNothing(Typed(), log, usos);
      ghost var was, text := log, Typed();
      for i := 0 to |pending|
        invariant pending == old(pending) && log == was + pending[..i]
        invariant Typed() == TypeAll(text, log[|was|..], usos)
      {
        assert (log + [pending[i]])[|was|..] == log[|was|..] + [pending[i]];
        TypeAllConcat(text, log[|was|..], [pending[i]], usos);
        TypeOne(Typed(), pending[i], usos);
        Decode(pending[i]);
        log := log + [pending[i]];
      }
      pending := [];
    }

    method EndLine()
      modifies this`cur, this`lines
      ensures cur == "" && lines == Finished(old(lines), old(cur))
    {
      var line := cur;
      cur := "";
      lines := lines + [line];
      if |lines| > 200 {
        lines := lines[|lines| - 200..];
      }
    }

    /** Types one code. */
    method Decode(code: Code)
      modifies this`shiftFigs, this`cur, this`lines
      ensures Typed() == Type(old(Typed()), code, usos)
    {
      hide Symbol, Finished;
      if code == 0x1f {
        shiftFigs := false;
        return;
      }
      if code == 0x1b {
        shiftFigs := true;
        return;
      }
      var s := Symbol(shiftFigs, code);
      if usos && code == 0x04 {
        shiftFigs := false;
      }
      if s == "" {
        return;
      } else if s == "\r" {
        EndLine();
        return;
      } else if s == "\n" {
        return;
      }
      cur := cur + s;
    }

    /** The finished lines, which the decoder gives up. */
    method TakeLines() returns (taken: seq<string>)
      modifies this`lines
      ensures taken == old(lines) && Typed() == old(Typed()).(lines := []) && State() == old(State())
    {
      taken := lines;
      lines := [];
    }
  }
}
