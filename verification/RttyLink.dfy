/** Codes sent back to back after idle mark, as the receiver sees them. */
module RttyLink {
  import opened Options
  import opened Arith
  import opened Gf2
  import opened History
  import opened Octets
  import opened Rtty

  // ---------- what is on the air ----------

  /** The five data bits, lowest first. */
  function DataBits(code: Code): (v: Vec)
    ensures |v| == 5
  {
    BitsOf(code, 5)
  }

  /** Seven and a half bits in quarters: start, five data bits low first, stop. */
  function CleanQuarter(code: Code, i: nat): bool {
    if i < 4 then false else if i < 24 then DataBits(code)[(i - 4) / 4] else true
  }

  function Clean(code: Code): (r: Vec)
    ensures |r| == 30
  {
    seq(30, i requires 0 <= i < 30 => CleanQuarter(code, i))
  }

  /** All that matters of thirty received quarters: the start edge, five votes,
      the stop vote, and mark before the next start. */
  ghost predicate Reads(r: Vec, code: Code) {
    |r| == 30 && !r[0] && r[28] && r[29] &&
    (forall k: nat :: k < 5 ==> VoteAt(r, 4 * k + 5) == DataBits(code)[k]) && VoteAt(r, 25)
  }

  predicate VoteAt(r: Vec, i: nat)
    requires i + 2 < |r|
  {
    Vote(r[i], r[i + 1], r[i + 2])
  }

  /** One look of the three at i differs at most. */
  predicate OneOff(r: Vec, c: Vec, i: nat)
    requires i + 2 < |r| == |c|
  {
    (r[i] == c[i] && r[i + 1] == c[i + 1]) || (r[i] == c[i] && r[i + 2] == c[i + 2]) ||
    (r[i + 1] == c[i + 1] && r[i + 2] == c[i + 2])
  }

  /** At most one look flipped in each vote window, and anything at all in the
      quarters nobody looks at. */
  ghost predicate NearlyClean(r: Vec, code: Code) {
    |r| == 30 && !r[0] && r[28] && r[29] &&
    forall k: nat :: k < 6 ==> OneOff(r, Clean(code), 4 * k + 5)
  }

  lemma OutvotesOneFlip(r: Vec, c: Vec, i: nat, b: bool)
    requires i + 2 < |r| == |c| && OneOff(r, c, i) && c[i] == c[i + 1] == c[i + 2] == b
    ensures VoteAt(r, i) == b
  {}

  lemma CleanWindow(code: Code, k: nat)
    requires k < 6
    ensures var c := Clean(code);
            c[4 * k + 5] == c[4 * k + 6] == c[4 * k + 7] == if k < 5 then DataBits(code)[k] else true
  {
    hide DataBits;
  }

  lemma WindowReads(r: Vec, code: Code, k: nat)
    requires k < 6 && NearlyClean(r, code)
    ensures VoteAt(r, 4 * k + 5) == if k < 5 then DataBits(code)[k] else true
  {
    hide DataBits, VoteAt, OneOff, Clean;
    CleanWindow(code, k);
    OutvotesOneFlip(r, Clean(code), 4 * k + 5, if k < 5 then DataBits(code)[k] else true);
  }

  lemma NearlyCleanReads(r: Vec, code: Code)
    requires NearlyClean(r, code)
    ensures Reads(r, code)
  {
    WindowReads(r, code, 5);
    forall k: nat | k < 5
      ensures VoteAt(r, 4 * k + 5) == DataBits(code)[k]
    {
      WindowReads(r, code, k);
    }
    hide DataBits, VoteAt, OneOff, Clean;
  }

  // ---------- one frame ----------

  /** The run gate's part of the state. */
  datatype Gate = Gate(lastStop: nat, runGood: nat, pending: seq<Code>, log: seq<Code>)

  ghost function GateOf(s: Framer): Gate {
    Gate(s.lastStop, s.runGood, s.pending, s.log)
  }

  /** A frame whose stop vote falls at quarter q goes through the gate. */
  ghost function Count(g: Gate, q: nat, code: Code): (h: Gate) {
    var inStep := g.lastStop > 0 && 27 <= q - g.lastStop <= 33;
    var run := if inStep then g.runGood + 1 else 1;
    var kept := if inStep then g.pending else [];
    var held := if |kept| < 4 then kept + [code] else kept;
    if run >= 4 then Gate(q, run, [], g.log + held) else Gate(q, run, held, g.log)
  }

  /** Neither tone's last sighting goes back. */
  ghost predicate Seen(s: Framer, t: Framer) {
    t.lastMark >= s.lastMark && t.lastSpace >= s.lastSpace
  }

  /** Some quarters later the same frame is still being read. */
  ghost predicate Onward(s: Framer, t: Framer, n: nat) {
    Valid(t) && t.sampling && GateOf(t) == GateOf(s) && t.qTotal == s.qTotal + n && Seen(s, t)
  }

  lemma WaitingQuarter(s: Framer, bit: bool)
    requires Valid(s) && s.sampling && s.mid.None? && s.collect > 1
    ensures Onward(s, Next(s, bit), 1) && Next(s, bit) == Note(s, bit).(collect := s.collect - 1, lastBit := bit)
  {
    NextKeepsValid(s, bit);
    hide Pow2, Sample;
  }

  /** Quarters that only count down to the next centre. */
  lemma {:induction false} CountDown(s: Framer, w: Vec)
    requires Valid(s) && s.sampling && s.mid.None? && |w| < s.collect
    ensures var t := Run(s, w);
            Onward(s, t, |w|) && t.mid.None? && t.collect == s.collect - |w| && t.bits == s.bits &&
            t.nBits == s.nBits && t.lastBit == if w == [] then s.lastBit else w[|w| - 1]
    decreases |w|
  {
    if w == [] {
    } else {
      WaitingQuarter(s, w[0]);
      hide Pow2, Sound, Sample, Wait;
      CountDown(Next(s, w[0]), w[1..]);
    }
  }

  lemma CentreQuarter(s: Framer, bit: bool)
    requires Valid(s) && s.sampling && s.mid.None? && s.collect == 1
    ensures Onward(s, Next(s, bit), 1)
    ensures Next(s, bit) == Note(s, bit).(prev := s.lastBit, mid := Some(bit), collect := 1, lastBit := bit)
  {
    NextKeepsValid(s, bit);
    hide Pow2, Sample;
  }

  lemma VoteQuarter(s: Framer, bit: bool)
    requires Valid(s) && s.sampling && s.mid.Some?
    ensures Sound(Note(s, bit)) && Next(s, bit) == Sample(Note(s, bit), bit)
  {
    hide Pow2, Sample, Wait;
  }

  /** A run of quarters up to a vote: the vote weighs the last three. */
  lemma ToVote(s: Framer, w: Vec) returns (u: Framer)
    requires Valid(s) && s.sampling && s.mid.None? && s.collect >= 2 && |w| == s.collect + 1
    ensures var m := |w| - 1;
            u.prev == w[m - 2] && u.mid == Some(w[m - 1]) && Sound(u) && Run(s, w) == Sample(u, w[m])
    ensures u.sampling && u.collect == 1 && u.bits == s.bits && u.nBits == s.nBits
    ensures GateOf(u) == GateOf(s) && u.qTotal == s.qTotal + |w| && Seen(s, u)
  {
    var m := |w| - 1;
    var a, b, c := w[..m - 1], w[m - 1], w[m];
    assert w == a + [b] + [c];
    CountDown(s, a);
    var t := Run(s, a);
    CentreQuarter(t, b);
    var t' := Next(t, b);
    VoteQuarter(t', c);
    u := Note(t', c);
    TwoMore(s, a, b, c);
    hide Sample, Run, Next, Pow2, Sound;
  }

  lemma TwoMore(s: Framer, a: Vec, b: bool, c: bool)
    requires Valid(s) && Sound(Run(s, a)) && Valid(Next(Run(s, a), b)) && Sound(Next(Run(s, a), b))
    ensures Run(s, a + [b] + [c]) == Next(Next(Run(s, a), b), c)
  {
    hide *;
    RunConcat(s, a + [b], [c]);
    RunConcat(s, a, [b]);
    RunOne(Run(s, a), b);
    RunOne(Next(Run(s, a), b), c);
  }

  /** Where the k-th data bit's quarters begin in a frame. */
  function BitStart(k: nat): nat {
    if k == 0 then 1 else 4 * k + 4
  }

  /** The frame read so far: k data bits. */
  ghost predicate Reading(s: Framer, t: Framer, code: Code, k: nat)
    requires k <= 5
  {
    Onward(s, t, BitStart(k)) && t.mid.None? && t.collect == (if k == 0 then 6 else 3) && t.nBits == k &&
    t.bits == ValueOf(DataBits(code)[..k]) && t.lastSpace >= s.qTotal
  }

  ghost predicate Idle(s: Framer) {
    Valid(s) && !s.sampling && s.lastBit
  }

  lemma EdgeQuarter(s: Framer, code: Code)
    requires Idle(s)
    ensures Reading(s, Next(s, false), code, 0)
  {
    NextKeepsValid(s, false);
    assert DataBits(code)[..0] == [];
    hide Pow2, Sample, DataBits;
  }

  /** A data bit's vote, with the frame's earlier bits in place. */
  lemma BitKept(s: Framer, t: Framer, u: Framer, bit: bool, code: Code, k: nat)
    requires k < 5 && Reading(s, t, code, k) && Sound(u) && Valid(Sample(u, bit))
    requires u.sampling && u.collect == 1 && u.bits == t.bits && u.nBits == t.nBits && u.mid.Some?
    requires GateOf(u) == GateOf(t) && u.qTotal == t.qTotal + t.collect + 1 && Seen(t, u)
    requires Vote(u.prev, u.mid.value, bit) == DataBits(code)[k]
    ensures Reading(s, Sample(u, bit), code, k + 1)
  {
    hide Pow2, Vote, Valid, DataBits, ValueOf, CloseFrame;
    var v := DataBits(code);
    assert v[..k + 1] == v[..k] + [v[k]];
    ValueAppend(v[..k], v[k]);
  }

  /** The next data bit's quarters add its bit. */
  lemma NextBit(s: Framer, t: Framer, w: Vec, code: Code, k: nat)
    requires k < 5 && Reading(s, t, code, k) && |w| == t.collect + 1
    requires Vote(w[|w| - 3], w[|w| - 2], w[|w| - 1]) == DataBits(code)[k]
    ensures Reading(s, Run(t, w), code, k + 1)
  {
    ReadingIsOn(s, t, code, k);
    hide *;
    var u := ToVote(t, w);
    BitKept(s, t, u, w[|w| - 1], code, k);
  }

  lemma ReadingIsOn(s: Framer, t: Framer, code: Code, k: nat)
    requires k <= 5 && Reading(s, t, code, k)
    ensures Valid(t) && t.sampling && t.mid.None? && t.collect == if k == 0 then 6 else 3
  {}

  /** The quarters of the k-th data bit. */
  function BitQuarters(r: Vec, k: nat): (w: Vec)
    requires |r| == 30 && k < 5
    ensures |w| == if k == 0 then 7 else 4
  {
    r[BitStart(k)..BitStart(k + 1)]
  }

  lemma BitQuartersRead(r: Vec, code: Code, k: nat)
    requires Reads(r, code) && k < 5
    ensures var w := BitQuarters(r, k);
            Vote(w[|w| - 3], w[|w| - 2], w[|w| - 1]) == DataBits(code)[k] &&
            r[..BitStart(k + 1)] == r[..BitStart(k)] + w
  {
    hide DataBits, Vote;
    assert VoteAt(r, 4 * k + 5) == DataBits(code)[k];
  }

  lemma OneBitOn(s: Framer, r: Vec, code: Code, k: nat)
    requires Valid(s) && Reads(r, code) && k < 5 && Reading(s, Run(s, r[..BitStart(k)]), code, k)
    ensures Reading(s, Run(s, r[..BitStart(k + 1)]), code, k + 1)
  {
    hide Next, Run, Valid, Sound, Reading, Vote, VoteAt, DataBits;
    BitQuartersRead(r, code, k);
    var a, w := r[..BitStart(k)], BitQuarters(r, k);
    ReadingIsOn(s, Run(s, a), code, k);
    hide *;
    RunConcat(s, a, w);
    NextBit(s, Run(s, a), w, code, k);
  }

  /** After k data bits of a frame. */
  lemma {:induction false} AfterBits(s: Framer, r: Vec, code: Code, k: nat)
    requires Idle(s) && Reads(r, code) && k <= 5
    ensures Reading(s, Run(s, r[..BitStart(k)]), code, k)
    decreases k
  {
    IdleIsValid(s);
    hide Reading, Idle, Vote, Next, Valid, DataBits;
    if k == 0 {
      EdgeQuarter(s, code);
      assert r[..1] == [false];
      RunOne(s, false);
    } else {
      AfterBits(s, r, code, k - 1);
      OneBitOn(s, r, code, k - 1);
    }
  }

  lemma IdleIsValid(s: Framer)
    requires Idle(s)
    ensures Valid(s)
  {}

  lemma AcceptCounts(s: Framer)
    requires s.bits < 32
    ensures GateOf(Accept(s)) == Count(GateOf(s), s.qTotal, s.bits)
  {}

  /** The stop quarters close the frame through the gate. */
  lemma StopQuarters(s: Framer, t: Framer, w: Vec, code: Code)
    requires Idle(s) && Reading(s, t, code, 5) && |w| == 4 && Vote(w[1], w[2], w[3])
    ensures var f := Run(t, w);
            Valid(f) && !f.sampling && f.qTotal == s.qTotal + 28 && f.lastBit == w[3] &&
            GateOf(f) == Count(GateOf(s), s.qTotal + 28, code)
  {
    var u := ToVote(t, w);
    assert DataBits(code)[..5] == DataBits(code);
    BitsFit(5);
    ValueOfBits(code, 5);
    AcceptCounts(u.(mid := None, collect := u.collect - 1));
    hide Pow2, Vote, Run, Accept, Count, DataBits, ValueOf, Sound;
  }

  lemma MarkWhileHunting(s: Framer)
    requires Valid(s) && !s.sampling
    ensures var t := Next(s, true); Idle(t) && GateOf(t) == GateOf(s) && t.qTotal == s.qTotal + 1
  {
    NextKeepsValid(s, true);
    hide Pow2, Sample;
  }

  /** A whole character read from idle. */
  lemma CharacterCounted(s: Framer, r: Vec, code: Code)
    requires Idle(s) && Reads(r, code)
    ensures var t := Run(s, r);
            Idle(t) && t.qTotal == s.qTotal + 30 && GateOf(t) == Count(GateOf(s), s.qTotal + 28, code)
  {
    AfterBits(s, r, code, 5);
    var t := Run(s, r[..24]);
    ReadingIsOn(s, t, code, 5);
    assert VoteAt(r, 25);
    IdleIsValid(s);
    var a, w := r[..24], r[24..28];
    assert r == a + w + [r[28]] + [r[29]];
    StopQuarters(s, t, w, code);
    var f := Run(t, w);
    MarkWhileHunting(f);
    var g := Next(f, true);
    IdleIsValid(g);
    MarkWhileHunting(g);
    RunConcat(s, a + w + [r[28]], [r[29]]);
    RunConcat(s, a + w, [r[28]]);
    RunConcat(s, a, w);
    RunOne(f, true);
    RunOne(g, true);
    hide Idle, Reading, Valid, Vote, Next, Run, DataBits, Count;
  }

  // ---------- a burst ----------

  ghost predicate AllRead(rs: seq<Vec>, codes: seq<Code>) {
    |rs| == |codes| && forall i: nat :: i < |rs| ==> Reads(rs[i], codes[i])
  }

  /** The next stop vote would fall too late to be in step with the last. */
  ghost predicate Cold(s: Framer) {
    s.lastStop == 0 || s.qTotal + 28 - s.lastStop > 33
  }

  /** The state after a burst of codes from a cold idle state. */
  ghost predicate AfterBurst(s: Framer, t: Framer, codes: seq<Code>) {
    Idle(t) && t.qTotal == s.qTotal + 30 * |codes| &&
    (codes == [] ==> t == s) &&
    (codes != [] ==>
       t.lastStop == t.qTotal - 2 && t.runGood == |codes| &&
       t.pending == (if |codes| < 4 then codes else []) &&
       t.log == s.log + if |codes| < 4 then [] else codes)
  }

  lemma OneMore(s: Framer, t: Framer, r: Vec, codes: seq<Code>, code: Code)
    requires Idle(s) && Cold(s) && AfterBurst(s, t, codes) && Reads(r, code)
    ensures AfterBurst(s, Run(t, r), codes + [code])
  {
    CharacterCounted(t, r, code);
    IdleIsValid(t);
    hide Idle, Valid, Run, Reads;
    assert codes == [] ==> codes + [code] == [code];
  }

  lemma NothingCounted(s: Framer)
    requires Idle(s)
    ensures AfterBurst(s, s, [])
  {}

  /** From a cold idle state a burst goes through the gate whole: kept back
      below four codes, and passed on exactly from four on. */
  lemma {:induction false} BurstCounted(s: Framer, rs: seq<Vec>, codes: seq<Code>)
    requires Idle(s) && Cold(s) && AllRead(rs, codes)
    ensures AfterBurst(s, Run(s, Concat(rs)), codes)
    decreases |rs|
  {
    IdleIsValid(s);
    hide Idle, Valid, Reads, Cold, AfterBurst, Next;
    if rs == [] {
      NothingCounted(s);
    } else {
      var m := |rs| - 1;
      BurstCounted(s, rs[..m], codes[..m]);
      RunConcat(s, Concat(rs[..m]), rs[m]);
      OneMore(s, Run(s, Concat(rs[..m])), rs[m], codes[..m], codes[m]);
      assert codes == codes[..m] + [codes[m]];
    }
  }

  // ---------- idle mark ----------

  /** Quarters until a frame under way has ended. */
  ghost function Remaining(s: Framer): (n: nat)
    requires Valid(s)
    ensures n <= 27
  {
    if !s.sampling then 0
    else if s.mid.None? then s.collect + 1 + 4 * (5 - s.nBits)
    else 1 + 4 * (5 - s.nBits)
  }

  lemma MarkQuarter(s: Framer)
    requires Valid(s)
    ensures var t := Next(s, true);
            Valid(t) && t.lastBit && t.qTotal == s.qTotal + 1 &&
            Remaining(t) == (if s.sampling then Remaining(s) - 1 else 0) &&
            s.lastStop <= s.qTotal && (t.lastStop == s.lastStop || (t.lastStop == t.qTotal && Remaining(s) == 1))
  {
    NextKeepsValid(s, true);
    hide Pow2, Vote;
  }

  lemma {:induction false} MarkQuarters(s: Framer, n: nat)
    requires Valid(s)
    ensures var t := Run(s, Marks(n));
            t.qTotal == s.qTotal + n && (n > 0 ==> t.lastBit) && t.lastStop <= s.qTotal + Remaining(s) &&
            (Remaining(s) == 0 ==> t.lastStop == s.lastStop) &&
            Remaining(t) == if n < Remaining(s) then Remaining(s) - n else 0
    decreases n
  {
    if n == 0 {
    } else {
      MarkQuarter(s);
      assert Marks(n)[1..] == Marks(n - 1) && Marks(n)[0];
      hide Valid, Next;
      MarkQuarters(Next(s, true), n - 1);
    }
  }

  /** Idle: n quarters of mark. */
  function Marks(n: nat): (v: Vec)
    ensures |v| == n
  {
    seq(n, _ => true)
  }

  lemma NoneRemaining(s: Framer)
    requires Valid(s) && Remaining(s) == 0
    ensures !s.sampling
  {}

  /** Whatever came before, 33 quarters of mark leave a cold idle state. */
  lemma IdleSettles(s: Framer, n: nat)
    requires Valid(s) && n >= 33
    ensures Idle(Run(s, Marks(n))) && Cold(Run(s, Marks(n)))
  {
    MarkQuarters(s, n);
    hide Run;
    NoneRemaining(Run(s, Marks(n)));
  }

  /** Any burst of codes after idle mark reaches the typist exactly: none lost,
      none doubled, in order, once there are four. */
  lemma BurstReceived(s: Framer, n: nat, rs: seq<Vec>, codes: seq<Code>)
    requires Valid(s) && n >= 33 && |rs| == |codes| && forall i: nat :: i < |rs| ==> NearlyClean(rs[i], codes[i])
    ensures Run(s, Marks(n) + Concat(rs)).log == Run(s, Marks(n)).log + if |codes| < 4 then [] else codes
  {
    IdleSettles(s, n);
    var t := Run(s, Marks(n));
    forall i: nat | i < |rs|
      ensures Reads(rs[i], codes[i])
    {
      NearlyCleanReads(rs[i], codes[i]);
    }
    hide NearlyClean, Reads;
    BurstCounted(t, rs, codes);
    RunConcat(s, Marks(n), Concat(rs));
    hide Run, Idle, Valid;
  }

  // ---------- text ----------

  /** A key that prints a character in one shift. */
  ghost predicate Prints(figs: bool, code: Code, ch: char) {
    Symbol(figs, code) == [ch] && code != LTRS && code != FIGS && ch != '\r' && ch != '\n' &&
    (code == SPACE <==> ch == ' ')
  }

  ghost predicate HasKey(figs: bool, ch: char) {
    exists c: Code :: Prints(figs, c, ch)
  }

  ghost function KeyOf(figs: bool, ch: char): (c: Code)
    requires HasKey(figs, ch)
    ensures Prints(figs, c, ch)
  {
    var c: Code :| Prints(figs, c, ch);
    c
  }

  /** The line end, carriage return. */
  const LINE_END: Code := 8

  /** The codes of a text for a typist that unshifts on space, with shifts put
      in only where the character needs one, and the shift it ends in. */
  ghost function Encoded(figs: bool, text: string): (r: (seq<Code>, bool))
    requires forall i :: 0 <= i < |text| ==> HasKey(false, text[i]) || HasKey(true, text[i])
    decreases |text|
  {
    if text == [] then
      ([], figs)
    else
      assert HasKey(false, text[0]) || HasKey(true, text[0]);
      var rest := Encoded(ShiftAfter(figs, text[0]), text[1..]);
      (CharCodes(figs, text[0]) + rest.0, rest.1)
  }

  /** The shift the typist is in once a character is typed. */
  ghost function ShiftAfter(figs: bool, ch: char): bool {
    if ch == ' ' then false else figs == HasKey(figs, ch)
  }

  ghost function CharCodes(figs: bool, ch: char): (r: seq<Code>)
    requires HasKey(false, ch) || HasKey(true, ch)
  {
    if HasKey(figs, ch) then [KeyOf(figs, ch)] else [if figs then LTRS else FIGS, KeyOf(!figs, ch)]
  }

  lemma TypesShift(t: Text)
    ensures Type(t, if t.figs then LTRS else FIGS, true) == t.(figs := !t.figs)
  {
    hide Symbol;
  }

  lemma TypesKey(t: Text, code: Code, ch: char)
    requires Prints(t.figs, code, ch)
    ensures Type(t, code, true) == Text(if ch == ' ' then false else t.figs, t.cur + [ch], t.lines)
  {
    hide Symbol;
  }

  lemma CharTyped(t: Text, ch: char)
    requires HasKey(false, ch) || HasKey(true, ch)
    ensures TypeAll(t, CharCodes(t.figs, ch), true)
         == Text(ShiftAfter(t.figs, ch), t.cur + [ch], t.lines)
  {
    hide Type, TypeAll, Prints, HasKey, KeyOf, Symbol;
    var codes := CharCodes(t.figs, ch);
    if HasKey(t.figs, ch) {
      TypeOne(t, codes[0], true);
      TypesKey(t, codes[0], ch);
    } else {
      var u := t.(figs := !t.figs);
      TypeOne(t, codes[0], true);
      TypesShift(t);
      TypeOne(u, codes[1], true);
      TypesKey(u, codes[1], ch);
      TypeAllConcat(t, [codes[0]], [codes[1]], true);
      assert codes == [codes[0]] + [codes[1]];
    }
  }

  /** What is typed from the codes of a text is the text. */
  lemma {:induction false} TextRoundTrip(t: Text, text: string)
    requires forall i :: 0 <= i < |text| ==> HasKey(false, text[i]) || HasKey(true, text[i])
    ensures var e := Encoded(t.figs, text);
            TypeAll(t, e.0, true) == Text(e.1, t.cur + text, t.lines)
    decreases |text|
  {
    hide Type, HasKey, CharCodes, ShiftAfter;
    if text == [] {
      assert t.cur + text == t.cur;
    } else {
      var ch, rest := text[0], text[1..];
      assert HasKey(false, text[0]) || HasKey(true, text[0]);
      var u := Text(ShiftAfter(t.figs, ch), t.cur + [ch], t.lines);
      CharTyped(t, ch);
      TextRoundTrip(u, rest);
      TypeAllConcat(t, CharCodes(t.figs, ch), Encoded(u.figs, rest).0, true);
      assert t.cur + [ch] + rest == t.cur + text;
    }
  }

  lemma TypesLineEnd(t: Text)
    ensures Type(t, LINE_END, true) == Text(t.figs, "", Finished(t.lines, t.cur))
  {
    ControlsAreIta2(t.figs);
    hide Symbol, Finished;
  }

  /** A text and a line end: the text is the last finished line, behind those
      there were, of which only the oldest give way past 200. */
  lemma LineRoundTrip(t: Text, text: string)
    requires forall i :: 0 <= i < |text| ==> HasKey(false, text[i]) || HasKey(true, text[i])
    ensures var r := TypeAll(t, Encoded(t.figs, text).0 + [LINE_END], true);
            var kept := if |t.lines| < 200 then |t.lines| else 199;
            r.cur == "" && r.lines == t.lines[|t.lines| - kept..] + [t.cur + text]
  {
    hide Type, TypeAll, HasKey, Encoded;
    var e := Encoded(t.figs, text);
    TextRoundTrip(t, text);
    TypeAllConcat(t, e.0, [LINE_END], true);
    var u := Text(e.1, t.cur + text, t.lines);
    TypeOne(u, LINE_END, true);
    TypesLineEnd(u);
  }

  // ---------- the tone gate ----------

  /** While a frame is read, its start bit was not long ago; and the look at a
      centre is the last bit. */
  ghost predicate StartIsRecent(s: Framer)
    requires Valid(s)
  {
    (s.mid.Some? ==> s.lastBit == s.mid.value) && (s.sampling ==> s.qTotal - s.lastSpace <= 28 - Remaining(s))
  }

  lemma QuarterKeepsRecent(s: Framer, bit: bool)
    requires Valid(s) && StartIsRecent(s)
    ensures Valid(Next(s, bit)) && StartIsRecent(Next(s, bit))
  {
    NextKeepsValid(s, bit);
    hide Pow2, Vote, Accept;
  }

  lemma {:induction false} RunKeepsRecent(s: Framer, bits: Vec)
    requires Valid(s) && StartIsRecent(s)
    ensures StartIsRecent(Run(s, bits))
    decreases |bits|
  {
    hide Next, StartIsRecent;
    if bits == [] {
    } else {
      QuarterKeepsRecent(s, bits[0]);
      RunKeepsRecent(Next(s, bits[0]), bits[1..]);
    }
  }

  /** Whatever is received, a stop vote that reads mark always finds both tones
      recent: the gate on the tones never closes. */
  lemma ToneGateIsOpen(bits: Vec, bit: bool)
    ensures Valid(START)
    ensures var s := Run(START, bits); var u := Note(s, bit);
            Due(u) && u.nBits == 5 && Vote(u.prev, if u.mid.Some? then u.mid.value else false, bit) ==>
              u.qTotal - u.lastMark < 300 && u.qTotal - u.lastSpace < 300
  {
    hide Run;
    RunKeepsRecent(START, bits);
    hide Pow2;
  }
}
