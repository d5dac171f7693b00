/** What the deframer makes of a transmission, from any state it may be in. */
module HdlcLink {
  import opened Arith
  import opened Gf2
  import opened Octets
  import opened Crc16
  import opened Hdlc

  /** Inside a frame: data has been collected, the last ones bits were ones. */
  ghost predicate Receiving(s: Rx, data: Vec, ones: nat, frames: seq<seq<byte>>) {
    && Valid(s) && s.inFlag && s.frames == frames
    && s.onesR == s.stuff1 == ones <= 5 && !s.shift[7 - ones]
    && |s.frame| == |data| / 8 && s.curN == |data| % 8
    && data == AirBits(s.frame) + BitsOf(s.cur, s.curN)
  }

  /** Outside any frame, and staying there. */
  ghost predicate Idle(s: Rx, ones: nat, frames: seq<seq<byte>>) {
    Valid(s) && !s.inFlag && s.frames == frames && s.onesR == ones <= 5 && !s.shift[7 - ones]
  }

  lemma FlagShape(v: Vec)
    requires |v| == 8
    ensures v == FLAG <==> !v[0] && v[1] && v[2] && v[3] && v[4] && v[5] && v[6] && !v[7]
  {}

  /** A register whose run of ones is shorter than six is not on a flag. */
  lemma NotFlag(shift: Vec, ones: nat, b: bool)
    requires |shift| == 8 && ones <= 5 && !shift[7 - ones]
    ensures shift[1..] + [b] != FLAG
    ensures ones < 5 && b ==> !(shift[1..] + [b])[7 - (ones + 1)]
    ensures !b ==> !(shift[1..] + [b])[7]
  {
    FlagShape(shift[1..] + [b]);
  }

  lemma CollectedByte(cur: nat, n: nat, b: bool)
    requires cur < Pow2(n)
    ensures BitsOf(cur + if b then Pow2(n) else 0, n + 1) == BitsOf(cur, n) + [b]
  {
    hide BitsOf, ValueOf;
    ValueOfBits(cur, n);
    ValueAppend(BitsOf(cur, n), b);
    BitsOfValue(BitsOf(cur, n) + [b]);
  }

  lemma NextEight(n: nat)
    ensures n % 8 < 7 ==> (n + 1) / 8 == n / 8 && (n + 1) % 8 == n % 8 + 1
    ensures n % 8 == 7 ==> (n + 1) / 8 == n / 8 + 1 && (n + 1) % 8 == 0
  {}

  lemma CollectData(s: Rx, data: Vec, b: bool)
    requires Valid(s) && |s.frame| == |data| / 8 && s.curN == |data| % 8
    requires data == AirBits(s.frame) + BitsOf(s.cur, s.curN)
    requires (|data| + 1) / 8 <= MAX_FRAME
    ensures var t := Collect(s, b);
            |t.frame| == (|data| + 1) / 8 && t.curN == (|data| + 1) % 8
            && data + [b] == AirBits(t.frame) + BitsOf(t.cur, t.curN)
  {
    hide BitsOf, AirBits;
    NextEight(|data|);
    CollectedByte(s.cur, s.curN, b);
    Pow2Of8();
    Pow2Order(s.curN + 1, 8);
    var v := BitsOf(s.cur, s.curN) + [b];
    assert data + [b] == AirBits(s.frame) + v;
    if s.curN == 7 {
      var c := s.cur + if b then Pow2(s.curN) else 0;
      AirBitsConcat(s.frame, [c]);
      AirBitsOne(c);
      NoBits();
      assert AirBits(s.frame + [c]) + [] == AirBits(s.frame + [c]);
    }
  }

  lemma NoBits()
    ensures BitsOf(0, 0) == []
  {}

  /** A data bit is collected. */
  lemma DataBit(s: Rx, data: Vec, ones: nat, frames: seq<seq<byte>>, b: bool)
    requires Receiving(s, data, ones, frames) && ones < 5 && (|data| + 1) / 8 <= MAX_FRAME
    ensures Receiving(Next(s, b), data + [b], if b then ones + 1 else 0, frames)
  {
    hide BitsOf, AirBits;
    NotFlag(s.shift, ones, b);
    var u := s.(shift := s.shift[1..] + [b], onesR := if b then s.onesR + 1 else 0);
    assert Next(s, b) == Collect(u, b);
    CollectData(u, data, b);
    var t := Collect(u, b);
    assert t.shift == u.shift && t.onesR == u.onesR && t.inFlag && t.frames == frames by {
      NextEight(|data|);
    }
  }

  /** The zero after five ones is dropped. */
  lemma StuffedBit(s: Rx, data: Vec, frames: seq<seq<byte>>)
    requires Receiving(s, data, 5, frames)
    ensures Receiving(Next(s, false), data, 0, frames)
  {
    hide BitsOf, AirBits;
    NotFlag(s.shift, 5, false);
  }

  lemma IdleBit(s: Rx, ones: nat, frames: seq<seq<byte>>, b: bool)
    requires Idle(s, ones, frames) && (b ==> ones < 5)
    ensures Idle(Next(s, b), if b then ones + 1 else 0, frames)
  {
    NotFlag(s.shift, ones, b);
  }

  /** The byte that makes a frame too long ends the collection. */
  lemma OverflowBit(s: Rx, data: Vec, ones: nat, frames: seq<seq<byte>>, b: bool)
    requires Receiving(s, data, ones, frames) && ones < 5 && (|data| + 1) / 8 > MAX_FRAME && |data| / 8 <= MAX_FRAME
    ensures Idle(Next(s, b), if b then ones + 1 else 0, frames)
  {
    hide BitsOf, AirBits;
    NotFlag(s.shift, ones, b);
    NextEight(|data|);
    var u := s.(shift := s.shift[1..] + [b], onesR := if b then s.onesR + 1 else 0);
    assert Next(s, b) == Collect(u, b);
  }

  /** Either still collecting everything, or given up on an overlong frame. */
  ghost predicate Following(s: Rx, data: Vec, ones: nat, frames: seq<seq<byte>>) {
    if |data| / 8 <= MAX_FRAME then Receiving(s, data, ones, frames) else Idle(s, ones, frames)
  }

  lemma FollowBit(s: Rx, data: Vec, ones: nat, frames: seq<seq<byte>>, b: bool)
    requires Following(s, data, ones, frames) && ones < 5
    ensures Following(Next(s, b), data + [b], if b then ones + 1 else 0, frames)
  {
    hide Receiving, Idle, Next;
    NextEight(|data|);
    if |data| / 8 > MAX_FRAME {
      IdleBit(s, ones, frames, b);
    } else if (|data| + 1) / 8 > MAX_FRAME {
      OverflowBit(s, data, ones, frames, b);
    } else {
      DataBit(s, data, ones, frames, b);
    }
  }

  lemma FollowStuffed(s: Rx, data: Vec, frames: seq<seq<byte>>)
    requires Following(s, data, 5, frames)
    ensures Following(Next(s, false), data, 0, frames)
  {
    if |data| / 8 > MAX_FRAME {
      IdleBit(s, 5, frames, false);
    } else {
      StuffedBit(s, data, frames);
    }
  }

  lemma FollowingIsValid(s: Rx, data: Vec, ones: nat, frames: seq<seq<byte>>)
    requires Following(s, data, ones, frames)
    ensures Valid(s) && s.frames == frames
  {}

  lemma RunCons(s: Rx, v: Vec)
    requires Valid(s)
    ensures v == [] ==> Run(s, v) == s
    ensures v != [] ==> Run(s, v) == Run(Next(s, v[0]), v[1..])
  {
    hide Next;
  }

  /** Stuffed data goes into the collector unstuffed. */
  lemma {:induction false} FollowStuffing(s: Rx, data: Vec, bits: Vec, ones: nat, frames: seq<seq<byte>>)
    requires Following(s, data, ones, frames) && ones < 5
    ensures Valid(s) && Following(Run(s, Stuff(bits, ones)), data + bits, Trailing(bits, ones), frames)
    decreases |bits|
  {
    hide *;
    FollowingIsValid(s, data, ones, frames);
    StuffHead(bits, ones);
    var v := Stuff(bits, ones);
    RunCons(s, v);
    if bits == [] {
      assert data + bits == data;
    } else {
      var b, d := bits[0], data + [bits[0]];
      var t := Next(s, b);
      FollowBit(s, data, ones, frames, b);
      assert d + bits[1..] == data + bits;
      if b && ones == 4 {
        FollowingIsValid(t, d, 5, frames);
        FollowStuffed(t, d, frames);
        RunCons(t, v[1..]);
        var rest := Stuff(bits[1..], 0);
        assert v[1..] == [false] + rest;
        assert v[1..][0] == false && v[1..][1..] == rest;
        FollowStuffing(Next(t, false), d, bits[1..], 0, frames);
      } else {
        FollowStuffing(t, d, bits[1..], if b then ones + 1 else 0, frames);
      }
    }
  }

  // ---------- flags ----------

  lemma NextShift(s: Rx, b: bool)
    requires Valid(s)
    ensures Next(s, b).shift == s.shift[1..] + [b] && Next(s, b).onesR == if b then s.onesR + 1 else 0
  {
    hide ValidFcs, Pow2;
  }

  lemma {:induction false} ShiftAfter(s: Rx, bits: Vec)
    requires Valid(s)
    ensures Run(s, bits).shift == (s.shift + bits)[|bits|..]
    decreases |bits|
  {
    hide Next;
    if bits == [] {
    } else {
      NextShift(s, bits[0]);
      var t := Next(s, bits[0]);
      ShiftAfter(t, bits[1..]);
      assert (t.shift + bits[1..])[|bits| - 1..] == (s.shift + bits)[|bits|..];
    }
  }

  lemma OnFlag(s: Rx)
    requires Valid(s) && s.shift[1..] + [false] == FLAG
    ensures var u := Next(s, false);
            u.shift == FLAG && u.onesR == 0 && u.inFlag && u.frame == [] && u.cur == u.curN == u.stuff1 == 0
  {
    hide ValidFcs, Pow2;
  }

  /** Whatever came before, a whole flag opens an empty frame. */
  lemma FlagOpens(s: Rx)
    requires Valid(s)
    ensures Receiving(Run(s, FLAG), [], 0, Run(s, FLAG).frames)
  {
    var lead := FLAG[..7];
    assert FLAG == lead + [false];
    assert (s.shift + FLAG)[8..] == FLAG && |FLAG| == 8;
    hide *;
    var t := Run(s, lead);
    RunAppend(s, lead, false);
    ShiftAfter(s, FLAG);
    NextShift(t, false);
    OnFlag(t);
    EmptyReceiving(Next(t, false));
  }

  lemma EmptyReceiving(u: Rx)
    requires Valid(u) && u.shift == FLAG && u.onesR == 0 && u.inFlag && u.frame == []
    requires u.cur == u.curN == u.stuff1 == 0
    ensures Receiving(u, [], 0, u.frames)
  {
    hide AirBits, BitsOf;
    NoBits();
    AirBitsNone();
  }

  lemma FlagHalves()
    ensures FLAG == [false, true, true, true] + [true, true, true, false]
  {}

  lemma FlagBits(s: Rx)
    requires Valid(s)
    ensures Run(s, FLAG)
         == Next(Next(Next(Next(Next(Next(Next(Next(s, false), true), true), true), true), true), true), false)
  {
    FlagHalves();
    hide *;
    var a, b := [false, true, true, true], [true, true, true, false];
    RunConcat(s, a, b);
    FourBits(s, false, true, true, true);
    FourBits(Run(s, a), true, true, true, false);
  }

  lemma FourBits(s: Rx, a: bool, b: bool, c: bool, d: bool)
    requires Valid(s)
    ensures Run(s, [a, b, c, d]) == Next(Next(Next(Next(s, a), b), c), d)
  {
    hide Next;
    RunAppend(s, [a, b, c], d);
    RunAppend(s, [a, b], c);
    RunAppend(s, [a], b);
    RunOne(s, a);
    assert [a, b, c] + [d] == [a, b, c, d] && [a, b] + [c] == [a, b, c] && [a] + [b] == [a, b];
  }

  /** The sixth one of a closing flag closes the frame. */
  lemma SixthOne(s: Rx)
    requires Valid(s) && s.onesR == 5 && !s.shift[2]
    ensures Next(s, true) == CloseFrame(s.(shift := s.shift[1..] + [true], onesR := 6)).(inFlag := true)
  {
    hide ValidFcs;
  }

  /** The last bit of that flag then finds nothing to close. */
  lemma LastZero(s: Rx)
    requires Valid(s) && s.inFlag && s.frame == [] && s.shift[1..] + [false] == FLAG
    ensures Next(s, false).frames == s.frames
  {
    hide ValidFcs;
  }

  /** The first six bits of a flag look like data. */
  lemma FlagLeads(s: Rx, data: Vec, ones: nat, frames: seq<seq<byte>>)
    requires Following(s, data, ones, frames) && ones < 5 && |data| % 8 == 0
    ensures Valid(s)
    ensures var t := Next(Next(Next(Next(Next(Next(s, false), true), true), true), true), true);
            Following(t, data + [false, true, true, true, true, true], 5, frames)
  {
    hide Following, Next;
    FollowingIsValid(s, data, ones, frames);
    FollowBit(s, data, ones, frames, false);
    var t1 := Next(s, false);
    var d1 := data + [false];
    FollowingIsValid(t1, d1, 0, frames);
    FollowBit(t1, d1, 0, frames, true);
    var t2 := Next(t1, true);
    var d2 := d1 + [true];
    FollowBit(t2, d2, 1, frames, true);
    var t3 := Next(t2, true);
    var d3 := d2 + [true];
    FollowBit(t3, d3, 2, frames, true);
    var t4 := Next(t3, true);
    var d4 := d3 + [true];
    FollowBit(t4, d4, 3, frames, true);
    var t5 := Next(t4, true);
    var d5 := d4 + [true];
    FollowBit(t5, d5, 4, frames, true);
    assert d5 + [true] == data + [false, true, true, true, true, true];
  }

  /** What a closing flag does with the bytes collected. */
  function Delivered(all: seq<byte>, frames: seq<seq<byte>>): seq<seq<byte>> {
    if MIN_FRAME <= |all| <= MAX_FRAME && ValidFcs(all) then Enqueue(frames, all[..|all| - 2]) else frames
  }

  lemma BytesOfPartial(s: Rx, all: seq<byte>, ones: nat, frames: seq<seq<byte>>)
    requires Receiving(s, AirBits(all) + [false, true, true, true, true, true], ones, frames)
    ensures s.frame == all
  {
    var data := AirBits(all) + [false, true, true, true, true, true];
    assert |s.frame| == |all| && s.curN == 6;
    assert data[..8 * |all|] == AirBits(all);
    assert data[..8 * |all|] == AirBits(s.frame);
    AirBitsInjective(s.frame, all);
  }

  /** The collector's content when the sixth one of the flag arrives. */
  lemma AtSixthOne(t: Rx, all: seq<byte>, frames: seq<seq<byte>>)
    requires Following(t, AirBits(all) + [false, true, true, true, true, true], 5, frames)
    ensures Valid(t) && t.onesR == 5 && !t.shift[2] && t.frames == frames
    ensures if |all| <= MAX_FRAME then t.inFlag && t.frame == all else !t.inFlag
  {
    hide AirBits, BitsOf;
    if |all| <= MAX_FRAME {
      BytesOfPartial(t, all, 5, frames);
    }
  }

  lemma ClosesWith(t: Rx, all: seq<byte>, frames: seq<seq<byte>>)
    requires Valid(t) && t.onesR == 5 && !t.shift[2] && t.frames == frames
    requires if |all| <= MAX_FRAME then t.inFlag && t.frame == all else !t.inFlag
    ensures var u := Next(t, true); u.frames == Delivered(all, frames) && u.inFlag && u.frame == []
  {
    hide ValidFcs, Next;
    SixthOne(t);
  }

  lemma FlagShiftedIn(s: Rx)
    requires Valid(s)
    ensures Run(s, FLAG).shift == FLAG
  {
    hide Run;
    ShiftAfter(s, FLAG);
    assert (s.shift + FLAG)[8..] == FLAG;
  }

  /** A flag after whole bytes delivers them, if they are a frame. */
  lemma FlagCloses(s: Rx, all: seq<byte>, ones: nat, frames: seq<seq<byte>>)
    requires Following(s, AirBits(all), ones, frames) && ones < 5
    ensures Valid(s) && Run(s, FLAG).frames == Delivered(all, frames)
  {
    hide *;
    FlagLeads(s, AirBits(all), ones, frames);
    FlagBits(s);
    FlagOpens(s);
    var t := Next(Next(Next(Next(Next(Next(s, false), true), true), true), true), true);
    AtSixthOne(t, all, frames);
    ClosesWith(t, all, frames);
    var u := Next(t, true);
    FlagShiftedIn(s);
    NextShift(u, false);
    LastZero(u);
  }

  // ---------- whole transmissions ----------

  lemma EmptyFollowing(s: Rx)
    requires Valid(s)
    ensures Following(Run(s, FLAG), [], 0, Run(s, FLAG).frames)
  {
    FlagOpens(s);
  }

  lemma {:induction false} FlagsSplit(p: nat)
    requires p > 0
    ensures Flags(p) == FLAG + Flags(p - 1)
  {
    if p > 1 {
      FlagsSplit(p - 1);
      assert (FLAG + Flags(p - 2)) + FLAG == FLAG + (Flags(p - 2) + FLAG);
    } else {
      assert Flags(0) + FLAG == FLAG + Flags(0);
    }
  }

  /** From any state, one flag, the stuffed bytes and a closing flag deliver
      exactly those bytes, if they are a frame. */
  lemma BytesDelivered(s: Rx, all: seq<byte>)
    requires Valid(s)
    ensures Run(s, FLAG + Stuff(AirBits(all), 0) + FLAG).frames == Delivered(all, Run(s, FLAG).frames)
  {
    var start := Run(s, FLAG);
    var f := start.frames;
    EmptyFollowing(s);
    hide Following, Next, AirBits, Delivered, Stuff, Trailing;
    FollowStuffing(start, [], AirBits(all), 0, f);
    assert [] + AirBits(all) == AirBits(all);
    RunConcat(s, FLAG + Stuff(AirBits(all), 0), FLAG);
    RunConcat(s, FLAG, Stuff(AirBits(all), 0));
    FlagCloses(Run(start, Stuff(AirBits(all), 0)), all, Trailing(AirBits(all), 0), f);
  }

  lemma TransmissionSplit(body: seq<byte>, preambleFlags: nat)
    requires preambleFlags > 0
    ensures Transmission(body, preambleFlags)
         == Flags(preambleFlags - 1) + (FLAG + Stuff(AirBits(body + FcsBytes(body)), 0) + FLAG)
    ensures Flags(preambleFlags) == Flags(preambleFlags - 1) + FLAG
  {
    hide AirBits, Stuff, FcsBytes;
    var tail := Stuff(AirBits(body + FcsBytes(body)), 0);
    assert ((Flags(preambleFlags - 1) + FLAG) + tail) + FLAG == Flags(preambleFlags - 1) + (FLAG + tail + FLAG);
  }

  lemma DeliveredBody(body: seq<byte>, frames: seq<seq<byte>>)
    ensures Delivered(body + FcsBytes(body), frames)
         == if 15 <= |body| <= 328 then Enqueue(frames, body) else frames
  {
    hide ValidFcs, FcsBytes, Enqueue;
    var all := body + FcsBytes(body);
    OwnFcsPasses(body);
    assert all[..|all| - 2] == body;
  }

  /** The newest 17 of a queue. */
  function Newest(q: seq<seq<byte>>): (r: seq<seq<byte>>)
    ensures |r| <= 17
  {
    if |q| > 17 then q[|q| - 17..] else q
  }

  lemma EnqueueIsNewest(frames: seq<seq<byte>>, body: seq<byte>)
    requires |frames| <= 17
    ensures Enqueue(frames, body) == Newest(frames + [body])
  {}

  /** Cutting the front off leaves the newest 17 if that many stay. */
  lemma NewestOfTail(q: seq<seq<byte>>, n: nat)
    requires n <= |q| && (n == 0 || |q| - n >= 17)
    ensures Newest(q[n..]) == Newest(q)
  {
    var m := |q| - n;
    assert m > 17 ==> q[n..][m - 17..] == q[|q| - 17..];
  }

  lemma NewestGrows(q: seq<seq<byte>>, a: seq<seq<byte>>, b: seq<seq<byte>>, c: seq<seq<byte>>)
    requires c == a + b
    ensures Newest(Newest(q + a) + b) == Newest(q + c)
  {
    var x := q + a;
    var n := if |x| > 17 then |x| - 17 else 0;
    assert Newest(x) == x[n..];
    hide Newest;
    assert x[n..] + b == (x + b)[n..];
    assert x + b == q + c;
    NewestOfTail(q + c, n);
  }

  /** The bodies long enough to be frames and short enough to be kept. */
  function Admitted(bodies: seq<seq<byte>>): (q: seq<seq<byte>>) {
    if bodies == [] then []
    else
      var last := bodies[|bodies| - 1];
      Admitted(bodies[..|bodies| - 1]) + if 15 <= |last| <= 328 then [last] else []
  }

  lemma AdmittedOne(body: seq<byte>)
    ensures Admitted([body]) == if 15 <= |body| <= 328 then [body] else []
  {
    assert [body][..0] == [];
  }

  lemma ValidQueue(s: Rx)
    requires Valid(s)
    ensures |s.frames| <= 17 && Newest(s.frames) == s.frames
  {}

  /** A transmission with at least one flag in front queues its body, behind
      what was there, exactly when the body has 15 to 328 bytes; nothing else is
      queued, and of more than 17 the newest stay. */
  lemma BodyQueued(s: Rx, body: seq<byte>, preambleFlags: nat)
    requires Valid(s) && preambleFlags > 0
    ensures Run(s, Transmission(body, preambleFlags)).frames
         == Newest(Run(s, Flags(preambleFlags)).frames + Admitted([body]))
  {
    hide *;
    var all := body + FcsBytes(body);
    var lead := Flags(preambleFlags - 1);
    TransmissionSplit(body, preambleFlags);
    RunConcat(s, lead, FLAG + Stuff(AirBits(all), 0) + FLAG);
    RunConcat(s, lead, FLAG);
    BytesDelivered(Run(s, lead), all);
    var frames := Run(s, Flags(preambleFlags)).frames;
    DeliveredBody(body, frames);
    ValidQueue(Run(s, Flags(preambleFlags)));
    EnqueueIsNewest(frames, body);
    AdmittedOne(body);
    assert frames + [] == frames;
  }

  // ---------- an abort ----------

  /** Ones only, n of them. */
  function Marks(n: nat): (v: Vec)
    ensures |v| == n
  {
    seq(n, _ => true)
  }

  lemma MoreOnes(s: Rx)
    requires Valid(s) && s.onesR >= 6 && s.shift[7]
    ensures var t := Next(s, true); t.onesR >= 7 && t.shift[7] && !t.inFlag && t.frames == s.frames
  {
    FlagShape(s.shift[1..] + [true]);
  }

  lemma {:induction false} AfterOnes(s: Rx, n: nat)
    requires Valid(s)
    ensures var t := Run(s, Marks(n));
            t.onesR >= n && (n > 0 ==> t.shift[7]) && (n >= 7 ==> !t.inFlag)
  {
    hide Next;
    if n == 0 {
    } else {
      var t := Run(s, Marks(n - 1));
      AfterOnes(s, n - 1);
      assert Marks(n) == Marks(n - 1) + [true];
      RunAppend(s, Marks(n - 1), true);
      NextShift(t, true);
      if n >= 7 {
        MoreOnes(t);
      }
      hide Run;
    }
  }

  lemma ZeroAfterOnes(s: Rx)
    requires Valid(s) && s.onesR >= 7 && !s.inFlag && s.shift[1]
    ensures Idle(Next(s, false), 0, s.frames)
  {
    FlagShape(s.shift[1..] + [false]);
    hide Pow2;
  }

  lemma SeventhLast(s: Rx, n: nat)
    requires Valid(s) && n >= 7
    ensures Run(s, Marks(n)).shift[1]
  {
    hide Run, Next;
    ShiftAfter(s, Marks(n));
    assert (s.shift + Marks(n))[n..][1] == (s.shift + Marks(n))[n + 1];
  }

  /** Seven ones or more, and the zero that ends them, leave the frame aborted. */
  lemma AbortIsIdle(s: Rx, n: nat)
    requires Valid(s) && n >= 7
    ensures Idle(Run(s, Marks(n) + [false]), 0, Run(s, Marks(n)).frames)
  {
    hide *;
    AfterOnes(s, n);
    RunAppend(s, Marks(n), false);
    SeventhLast(s, n);
    ZeroAfterOnes(Run(s, Marks(n)));
  }

  /** What follows an abort up to the next flag is not taken for a frame. */
  lemma AbortSilences(s: Rx, n: nat, all: seq<byte>)
    requires Valid(s) && n >= 7
    ensures Run(s, (Marks(n) + [false]) + Stuff(AirBits(all), 0) + FLAG).frames == Run(s, Marks(n)).frames
  {
    var long: seq<byte> := seq(331, _ => 0);
    var frames := Run(s, Marks(n)).frames;
    var u := Run(s, Marks(n) + [false]);
    AbortIsIdle(s, n);
    assert Following(u, AirBits(long), 0, frames) && Delivered(long + all, frames) == frames;
    AirBitsConcat(long, all);
    hide *;
    var bits := Stuff(AirBits(all), 0);
    FollowStuffing(u, AirBits(long), AirBits(all), 0, frames);
    RunConcat(s, (Marks(n) + [false]) + bits, FLAG);
    RunConcat(s, Marks(n) + [false], bits);
    FlagCloses(Run(u, bits), long + all, Trailing(AirBits(all), 0), frames);
  }

  // ---------- one transmission after another ----------

  lemma NothingBetweenFlags(frames: seq<seq<byte>>)
    ensures AirBits([]) == [] && Stuff([], 0) == [] && Delivered([], frames) == frames
  {}

  lemma NothingRun(s: Rx)
    requires Valid(s)
    ensures Run(s, []) == s && Flags(0) == []
  {}

  /** A flag after a flag queues nothing. */
  lemma FlagAgain(s: Rx)
    requires Valid(s)
    ensures Run(Run(s, FLAG), FLAG).frames == Run(s, FLAG).frames
  {
    hide *;
    NothingBetweenFlags(Run(s, FLAG).frames);
    assert FLAG + [] + FLAG == FLAG + FLAG;
    BytesDelivered(s, []);
    RunConcat(s, FLAG, FLAG);
  }

  lemma {:induction false} FlagsAgain(s: Rx, p: nat)
    requires Valid(s)
    ensures Run(Run(s, FLAG), Flags(p)).frames == Run(s, FLAG).frames
    decreases p
  {
    hide *;
    if p == 0 {
      NothingRun(Run(s, FLAG));
    } else {
      FlagsSplit(p);
      RunConcat(Run(s, FLAG), FLAG, Flags(p - 1));
      FlagAgain(s);
      FlagsAgain(Run(s, FLAG), p - 1);
    }
  }

  lemma TransmissionEnds(s: Rx, body: seq<byte>, preambleFlags: nat, p: nat)
    requires Valid(s)
    ensures Run(Run(s, Transmission(body, preambleFlags)), Flags(p)).frames
         == Run(s, Transmission(body, preambleFlags)).frames
  {
    hide AirBits, FcsBytes, Stuff, Run, Flags, Valid;
    var front := Flags(preambleFlags) + Stuff(AirBits(body + FcsBytes(body)), 0);
    assert Transmission(body, preambleFlags) == front + FLAG;
    hide *;
    RunConcat(s, front, FLAG);
    FlagsAgain(Run(s, front), p);
  }

  /** Transmissions one after the other, each with its own number of flags in front. */
  function Transmissions(bodies: seq<seq<byte>>, flags: seq<nat>): Vec
    requires |flags| == |bodies|
  {
    if bodies == [] then []
    else
      var m := |bodies| - 1;
      Transmissions(bodies[..m], flags[..m]) + Transmission(bodies[m], flags[m])
  }

  ghost predicate Flagged(flags: seq<nat>) {
    forall i :: 0 <= i < |flags| ==> flags[i] > 0
  }

  lemma LastOfMany(bodies: seq<seq<byte>>, flags: seq<nat>)
    requires |flags| == |bodies| > 0
    ensures var m := |bodies| - 1;
            Transmissions(bodies, flags)
              == Transmissions(bodies[..m], flags[..m]) + Transmission(bodies[m], flags[m]) &&
            Admitted(bodies) == Admitted(bodies[..m]) + Admitted([bodies[m]])
  {
    hide Transmission;
    AdmittedOne(bodies[|bodies| - 1]);
  }

  lemma NoneSent()
    ensures Transmissions([], []) == [] && Admitted([]) == []
  {}

  /** Between transmissions the flags change nothing in the queue. */
  lemma BetweenTransmissions(s: Rx, bodies: seq<seq<byte>>, flags: seq<nat>, p: nat)
    requires Valid(s) && |flags| == |bodies| > 0
    ensures Run(Run(s, Transmissions(bodies, flags)), Flags(p)).frames == Run(s, Transmissions(bodies, flags)).frames
  {
    hide *;
    var m := |bodies| - 1;
    LastOfMany(bodies, flags);
    FlagsAfter(s, Transmissions(bodies, flags), Transmissions(bodies[..m], flags[..m]), bodies[m], flags[m], p);
  }

  lemma FlagsAfter(s: Rx, sent: Vec, before: Vec, body: seq<byte>, preambleFlags: nat, p: nat)
    requires Valid(s) && sent == before + Transmission(body, preambleFlags)
    ensures Run(Run(s, sent), Flags(p)).frames == Run(s, sent).frames
  {
    hide *;
    RunConcat(s, before, Transmission(body, preambleFlags));
    TransmissionEnds(Run(s, before), body, preambleFlags, p);
  }

  lemma QueuedBehind(s: Rx, sent: Vec, before: Vec, body: seq<byte>, preambleFlags: nat)
    requires Valid(s) && preambleFlags > 0 && sent == before + Transmission(body, preambleFlags)
    ensures Run(s, sent).frames
         == Newest(Run(Run(s, before), Flags(preambleFlags)).frames + Admitted([body]))
  {
    hide *;
    RunConcat(s, before, Transmission(body, preambleFlags));
    BodyQueued(Run(s, before), body, preambleFlags);
  }

  /** Bodies sent one after the other are all queued, in order and behind what
      was there after the first flags, the newest 17 of them. */
  lemma {:induction false} BodiesQueued(s: Rx, bodies: seq<seq<byte>>, flags: seq<nat>)
    requires Valid(s) && |flags| == |bodies| > 0 && Flagged(flags)
    ensures Run(s, Transmissions(bodies, flags)).frames
         == Newest(Run(s, Flags(flags[0])).frames + Admitted(bodies))
    decreases |bodies|
  {
    var m := |bodies| - 1;
    assert Flagged(flags[..m]) && flags[m] > 0;
    hide *;
    var front, base := Transmissions(bodies[..m], flags[..m]), Run(s, Flags(flags[0])).frames;
    LastOfMany(bodies, flags);
    QueuedBehind(s, Transmissions(bodies, flags), front, bodies[m], flags[m]);
    if m == 0 {
      NoneSent();
      NothingRun(s);
      assert bodies[..m] == [] && flags[..m] == [] && [] + Admitted([bodies[m]]) == Admitted([bodies[m]]);
    } else {
      BodiesQueued(s, bodies[..m], flags[..m]);
      BetweenTransmissions(s, bodies[..m], flags[..m], flags[m]);
      NewestGrows(base, Admitted(bodies[..m]), Admitted([bodies[m]]), Admitted(bodies));
    }
  }

  /** Nothing is emitted while the frame's own bits come in, and a frame short
      enough to be kept is not given up. */
  lemma {:induction false} QuietInside(s: Rx, data: Vec, bits: Vec, ones: nat, frames: seq<seq<byte>>, k: nat)
    requires Following(s, data, ones, frames) && ones < 5 && k <= |Stuff(bits, ones)|
    ensures Valid(s) && Run(s, Stuff(bits, ones)[..k]).frames == frames
    ensures (|data| + |bits|) / 8 <= MAX_FRAME ==> Run(s, Stuff(bits, ones)[..k]).inFlag
    decreases |bits|
  {
    hide *;
    FollowingIsValid(s, data, ones, frames);
    QuietNow(s, data, ones, frames);
    StuffHead(bits, ones);
    var v := Stuff(bits, ones)[..k];
    RunCons(s, v);
    if k == 0 {
    } else {
      var b, d := bits[0], data + [bits[0]];
      var t := Next(s, b);
      FollowBit(s, data, ones, frames, b);
      assert |d| + |bits[1..]| == |data| + |bits|;
      PrefixTail(Stuff(bits, ones), k);
      if b && ones == 4 {
        FollowingIsValid(t, d, 5, frames);
        QuietNow(t, d, 5, frames);
        FollowStuffed(t, d, frames);
        RunCons(t, v[1..]);
        if k > 1 {
          var rest, w := Stuff(bits[1..], 0), v[1..];
          StuffedPrefix(rest, w, k - 1);
          QuietInside(Next(t, false), d, bits[1..], 0, frames, k - 2);
        }
      } else {
        QuietInside(t, d, bits[1..], if b then ones + 1 else 0, frames, k - 1);
      }
    }
  }

  lemma PrefixTail(v: Vec, k: nat)
    requires 0 < k <= |v|
    ensures v[..k][0] == v[0] && v[..k][1..] == v[1..][..k - 1]
  {}

  lemma StuffedPrefix(rest: Vec, w: Vec, k: nat)
    requires 0 < k <= |rest| + 1 && w == ([false] + rest)[..k]
    ensures w[0] == false && w[1..] == rest[..k - 1]
  {}

  lemma QuietNow(s: Rx, data: Vec, ones: nat, frames: seq<seq<byte>>)
    requires Following(s, data, ones, frames)
    ensures s.frames == frames
    ensures forall n: nat :: |data| <= n && n / 8 <= MAX_FRAME ==> s.inFlag
  {}

  // ---------- over the tones ----------

  /** NRZI: a zero changes the tone, a one keeps it. */
  function Tones(bits: Vec, tone: bool): (v: Vec)
    ensures |v| == |bits|
  {
    if bits == [] then []
    else var t := if bits[0] then tone else !tone; [t] + Tones(bits[1..], t)
  }

  /** The receiver's reading: a bit is one when the tone did not change. */
  function FromTones(tones: Vec, last: bool): (v: Vec)
    ensures |v| == |tones|
  {
    if tones == [] then [] else [tones[0] == last] + FromTones(tones[1..], tones[0])
  }

  /** The tone changes just at the zeros. */
  lemma {:induction false} ToneChanges(bits: Vec, tone: bool, i: nat)
    requires i < |bits|
    ensures var v := Tones(bits, tone);
            v[i] == (if i == 0 then tone else v[i - 1]) <==> bits[i]
    decreases i
  {
    var t := if bits[0] then tone else !tone;
    assert Tones(bits, tone)[1..] == Tones(bits[1..], t);
    if i == 0 {
    } else {
      ToneChanges(bits[1..], t, i - 1);
    }
  }

  lemma {:induction false} TonesRoundTrip(bits: Vec, tone: bool)
    ensures FromTones(Tones(bits, tone), tone) == bits
    decreases |bits|
  {
    if bits == [] {
    } else {
      var t := if bits[0] then tone else !tone;
      TonesRoundTrip(bits[1..], t);
      assert Tones(bits, tone)[1..] == Tones(bits[1..], t);
    }
  }

  /** Whatever tone the receiver last heard, only the first bit can differ. */
  lemma FirstBitOnly(bits: Vec, tone: bool, last: bool)
    requires bits != []
    ensures FromTones(Tones(bits, tone), last)[1..] == bits[1..]
  {
    var t := if bits[0] then tone else !tone;
    TonesRoundTrip(bits[1..], t);
    assert Tones(bits, tone)[1..] == Tones(bits[1..], t);
  }

  lemma JunkThenRest(body: seq<byte>, preambleFlags: nat, first: bool)
    requires preambleFlags >= 2
    ensures Transmission(body, preambleFlags) != []
    ensures [first] + Transmission(body, preambleFlags)[1..]
         == ([first] + FLAG[1..]) + Transmission(body, preambleFlags - 1)
  {
    hide AirBits, Stuff, FcsBytes;
    FlagsSplit(preambleFlags);
    var tail := Stuff(AirBits(body + FcsBytes(body)), 0);
    assert ((FLAG + Flags(preambleFlags - 1)) + tail) + FLAG == FLAG + ((Flags(preambleFlags - 1) + tail) + FLAG);
    assert Transmission(body, preambleFlags) == FLAG + Transmission(body, preambleFlags - 1);
  }

  /** What the receiver hears of a transmission: its first bit aside, the bits sent. */
  function Heard(body: seq<byte>, preambleFlags: nat, tone: bool, last: bool, first: bool): Vec {
    var v := FromTones(Tones(Transmission(body, preambleFlags), tone), last);
    if v == [] then [] else [first] + v[1..]
  }

  lemma HeardIs(body: seq<byte>, preambleFlags: nat, tone: bool, last: bool, first: bool) returns (junk: Vec)
    requires preambleFlags >= 2
    ensures Heard(body, preambleFlags, tone, last, first) == junk + Transmission(body, preambleFlags - 1)
  {
    JunkThenRest(body, preambleFlags, first);
    hide Transmission;
    junk := [first] + FLAG[1..];
    FirstBitOnly(Transmission(body, preambleFlags), tone, last);
  }

  /** What is heard of some bits over the tones, the first of them aside. */
  function HeardBits(bits: Vec, tone: bool, last: bool, first: bool): Vec {
    var v := FromTones(Tones(bits, tone), last);
    if v == [] then [] else [first] + v[1..]
  }

  /** What is heard of one flag, the first bit aside. */
  function FirstFlag(first: bool): Vec {
    [first] + FLAG[1..]
  }

  lemma HeardAfterFlag(bits: Vec, rest: Vec, tone: bool, last: bool, first: bool)
    requires bits == FLAG + rest
    ensures HeardBits(bits, tone, last, first) == FirstFlag(first) + rest
  {
    FirstBitOnly(FLAG + rest, tone, last);
    assert (FLAG + rest)[1..] == FLAG[1..] + rest;
    hide Tones, FromTones;
  }

  /** The same over the tones, with one flag more in front of all: whatever the
      receiver's state, the tones before and the first bit heard, the queue gets
      all that were sent. */
  lemma AllReceivedOverTones(s: Rx, bodies: seq<seq<byte>>, flags: seq<nat>, tone: bool, last: bool, first: bool)
    requires Valid(s) && |flags| == |bodies| > 0 && Flagged(flags)
    ensures Run(s, HeardBits(FLAG + Transmissions(bodies, flags), tone, last, first)).frames
         == Newest(Run(Run(s, FirstFlag(first)), Flags(flags[0])).frames + Admitted(bodies))
  {
    hide *;
    RunHeard(s, Transmissions(bodies, flags), tone, last, first);
    BodiesQueued(Run(s, FirstFlag(first)), bodies, flags);
  }

  lemma RunHeard(s: Rx, rest: Vec, tone: bool, last: bool, first: bool)
    requires Valid(s)
    ensures Run(s, HeardBits(FLAG + rest, tone, last, first)) == Run(Run(s, FirstFlag(first)), rest)
  {
    hide Run, HeardBits, Valid;
    HeardAfterFlag(FLAG + rest, rest, tone, last, first);
    RunConcat(s, FirstFlag(first), rest);
  }

  /** The newest queued frame is this body. */
  predicate LastIs(s: Rx, body: seq<byte>) {
    s.frames != [] && s.frames[|s.frames| - 1] == body
  }

  lemma JunkThenBody(s: Rx, junk: Vec, body: seq<byte>, preambleFlags: nat)
    requires Valid(s) && preambleFlags >= 1 && 15 <= |body| <= 328
    ensures LastIs(Run(s, junk + Transmission(body, preambleFlags)), body)
  {
    hide Transmission, Run, Valid, Flags, Admitted;
    RunConcat(s, junk, Transmission(body, preambleFlags));
    BodyQueued(Run(s, junk), body, preambleFlags);
    AdmittedOne(body);
  }

  /** End to end with two flags in front: the first received bit may be
      anything, the deframer and both tone memories may be in any state. */
  lemma ReceivedOverTones(s: Rx, body: seq<byte>, preambleFlags: nat, tone: bool, last: bool, first: bool)
    requires Valid(s) && preambleFlags >= 2 && 15 <= |body| <= 328
    ensures LastIs(Run(s, Heard(body, preambleFlags, tone, last, first)), body)
  {
    hide *;
    var junk := HeardIs(body, preambleFlags, tone, last, first);
    JunkThenBody(s, junk, body, preambleFlags - 1);
  }
}
