/** The Mode S demodulator fed block by block: resampling onto the 2.4 MHz
    grid, and a scan of a buffer whose scanned part is dropped. */
module ModeSDemod {
  import opened Gf2
  import opened History
  import opened Octets
  import opened Crc24
  import opened ModeS

  const GRID_RATE := 2400000.0
  const RING := 4096

  // ---------- the whole stream ----------

  /** Where on the source the k-th sample of the grid lies. */
  function Position(k: nat, sps: real): real {
    k as real * sps
  }

  function Truncate(x: real): int {
    if x >= 0.0 then x.Floor else -(-x).Floor
  }

  lemma ShareOfPositive(g: real, f: real)
    requires 0.0 <= f < 1.0 && g >= 0.0
    ensures 0.0 <= g * f <= g
  {
    assert g * (1.0 - f) >= 0.0;
  }

  lemma TruncateWithin(x: real, g: int)
    ensures 0.0 <= x <= g as real ==> 0 <= Truncate(x) <= g
    ensures g as real <= x <= 0.0 ==> g <= Truncate(x) <= 0
  {}

  function Part(gap: int, f: real): real {
    gap as real * f
  }

  lemma PartWithin(gap: int, f: real)
    requires 0.0 <= f < 1.0
    ensures 0 <= gap ==> 0.0 <= Part(gap, f) <= gap as real
    ensures gap <= 0 ==> gap as real <= Part(gap, f) <= 0.0
  {
    var g := gap as real;
    if gap >= 0 {
      ShareOfPositive(g, f);
    } else {
      ShareOfPositive(-g, f);
      assert -g * f == -(g * f);
    }
  }

  /** Part of the way from one magnitude to the next, never beyond either. */
  function Mix(m0: nat, m1: nat, f: real): (m: nat)
    requires 0.0 <= f < 1.0
    ensures m0 <= m <= m1 || m1 <= m <= m0
  {
    var gap: int := m1 - m0;
    PartWithin(gap, f);
    TruncateWithin(Part(gap, f), gap);
    m0 + Truncate(Part(gap, f))
  }

  /** The straight line between the two samples either side of a position. */
  function Between(mags: seq<nat>, pos: real): (m: nat)
    requires 0.0 <= pos && pos.Floor + 1 < |mags|
  {
    Mix(mags[pos.Floor], mags[pos.Floor + 1], pos - pos.Floor as real)
  }

  /** On a straight line the grid follows the line, short of a whole number. */
  lemma LineIsFollowed(mags: seq<nat>, a: int, b: int, pos: real)
    requires 0.0 <= pos && pos.Floor + 1 < |mags| && forall i: nat :: i < |mags| ==> mags[i] == a + b * i
    ensures -1.0 < Between(mags, pos) as real - (a as real + b as real * pos) < 1.0
  {
    var i, f := pos.Floor, pos - pos.Floor as real;
    assert mags[i] == a + b * i && mags[i + 1] == a + b * (i + 1);
    Steps(a, b, i);
    TruncateNear(Part(b, f));
    assert b as real * pos == (b * i) as real + Part(b, f) by {
      Shares(b, i, f);
    }
  }

  lemma Steps(a: int, b: int, i: int)
    ensures a + b * (i + 1) - (a + b * i) == b
  {}

  lemma Shares(b: int, i: int, f: real)
    ensures b as real * (i as real + f) == (b * i) as real + Part(b, f)
  {}

  lemma TruncateNear(x: real)
    ensures -1.0 < Truncate(x) as real - x < 1.0
  {}

  /** The grid samples that a source stream determines, all of them. */
  ghost predicate Resampled(bins: seq<nat>, mags: seq<nat>, sps: real) {
    sps >= 0.0 &&
    (forall k: nat :: k < |bins| ==> Determined(bins, mags, sps, k)) &&
    Position(|bins|, sps).Floor + 1 >= |mags|
  }

  ghost predicate Determined(bins: seq<nat>, mags: seq<nat>, sps: real, k: nat)
    requires sps >= 0.0 && k < |bins|
  {
    Position(k, sps).Floor + 1 < |mags| && bins[k] == Between(mags, Position(k, sps))
  }

  lemma GridFits(bins: seq<nat>, mags: seq<nat>, sps: real, k: nat)
    requires Resampled(bins, mags, sps)
    ensures k < |bins| ==> Position(k, sps).Floor + 1 < |mags|
  {
    if k < |bins| {
      assert Determined(bins, mags, sps, k);
    }
  }

  /** A stream determines its grid samples uniquely. */
  lemma ResampledUnique(a: seq<nat>, b: seq<nat>, mags: seq<nat>, sps: real)
    requires Resampled(a, mags, sps) && Resampled(b, mags, sps)
    ensures a == b
  {
    hide Between, Position;
    GridFits(a, mags, sps, |b|);
    GridFits(b, mags, sps, |a|);
    forall k: nat | k < |a|
      ensures a[k] == b[k]
    {
      assert Determined(a, mags, sps, k) && Determined(b, mags, sps, k);
    }
  }

  /** At 2.4 million samples a second the grid is the source, short of its
      newest sample. */
  lemma NativeRate(bins: seq<nat>, mags: seq<nat>)
    requires Resampled(bins, mags, GRID_RATE / GRID_RATE)
    ensures bins == if mags == [] then [] else mags[..|mags| - 1]
  {
    assert GRID_RATE / GRID_RATE == 1.0;
    forall k: nat
      ensures Position(k, 1.0).Floor == k && Position(k, 1.0) == k as real
    {}
    forall k: nat | k < |bins|
      ensures k + 1 < |mags| && bins[k] == mags[k]
    {
      assert Determined(bins, mags, 1.0, k);
    }
    if |bins| > 0 {
      assert Determined(bins, mags, 1.0, |bins| - 1);
    }
  }

  function PairIndex(re: byte, im: byte): (i: nat)
    ensures i < 0x10000
  {
    var r: int := re;
    r * 256 + im
  }

  /** The magnitudes of interleaved pairs; an odd byte at the end is dropped. */
  function Mags(lut: seq<nat>, buf: seq<byte>): (m: seq<nat>)
    requires |lut| == 0x10000
    ensures |m| == |buf| / 2
  {
    seq(|buf| / 2, i requires 0 <= i < |buf| / 2 => lut[PairIndex(buf[2 * i], buf[2 * i + 1])])
  }

  lemma MagAt(lut: seq<nat>, buf: seq<byte>, i: nat)
    requires |lut| == 0x10000 && i < |buf| / 2
    ensures Mags(lut, buf)[..i + 1] == Mags(lut, buf)[..i] + [lut[PairIndex(buf[2 * i], buf[2 * i + 1])]]
  {
    hide PairIndex;
  }

  lemma ScanGoesOn(was: seq<nat>, bins: seq<nat>)
    requires was <= bins
    ensures Scan(bins, Scan(was, START)) == Scan(bins, START)
  {
    hide Scan;
    assert bins == was + bins[|was|..];
    ScanResumes(was, bins[|was|..], START);
  }

  /** Blocks of whole pairs may be cut anywhere. */
  lemma MagsConcat(lut: seq<nat>, a: seq<byte>, b: seq<byte>)
    requires |lut| == 0x10000 && |a| % 2 == 0
    ensures Mags(lut, a + b) == Mags(lut, a) + Mags(lut, b)
  {
    var h := |a| / 2;
    forall i | h <= i < |a + b| / 2
      ensures (a + b)[2 * i] == b[2 * (i - h)] && (a + b)[2 * i + 1] == b[2 * (i - h) + 1]
    {}
  }

  lemma NextPosition(k: nat, sps: real)
    ensures Position(k + 1, sps) == Position(k, sps) + sps
    ensures sps >= 0.0 ==> Position(k, sps) >= 0.0
  {}

  lemma FloorsPart(x: real, y: real)
    requires x + 1.0 <= y
    ensures x.Floor + 1 <= y.Floor
  {}

  /** A longer stream leaves the earlier grid samples as they were. */
  lemma DeterminedKept(bins: seq<nat>, mags: seq<nat>, m: nat, sps: real, k: nat)
    requires sps >= 0.0 && k < |bins| && Determined(bins, mags, sps, k)
    ensures Determined(bins, mags + [m], sps, k)
  {
    NextPosition(k, sps);
    hide Position;
  }

  lemma SamplesKept(bins: seq<nat>, mags: seq<nat>, m: nat, sps: real)
    requires sps >= 0.0 && forall k: nat :: k < |bins| ==> Determined(bins, mags, sps, k)
    ensures forall k: nat :: k < |bins| ==> Determined(bins, mags + [m], sps, k)
  {
    hide Determined;
    forall k: nat | k < |bins|
      ensures Determined(bins, mags + [m], sps, k)
    {
      DeterminedKept(bins, mags, m, sps, k);
    }
  }

  lemma SampleAdded(bins: seq<nat>, v: nat, mags: seq<nat>, sps: real)
    requires sps >= 0.0 && forall k: nat :: k < |bins| ==> Determined(bins, mags, sps, k)
    requires Position(|bins|, sps).Floor + 1 < |mags| && v == Between(mags, Position(|bins|, sps))
    ensures forall k: nat :: k < |bins| + 1 ==> Determined(bins + [v], mags, sps, k)
  {
    hide Between, Position;
    forall k: nat | k < |bins| + 1
      ensures Determined(bins + [v], mags, sps, k)
    {
      if k < |bins| {
        assert Determined(bins, mags, sps, k);
      }
    }
  }

  lemma NextByte(w: seq<nat>, t: nat, i: nat, off: nat, phase: nat)
    requires t <= 8 && i < 14 && |w| > 290
    requires off == 19 + (t + 96 * i) / 5 && phase == (t + 96 * i) % 5
    ensures off + 20 < |w| && Message(w, t, i + 1) == Message(w, t, i) + [MsbValue(EightBits(w, off, phase))]
  {
    hide MsbValue, EightBits;
    EightBitsAreScheduled(w, t, i);
  }

  // ---------- the demodulator ----------

  /** A stream with one more block. */
  function Grown(rate: real, lut: seq<nat>, fed: seq<nat>, buf: seq<byte>): (r: seq<nat>)
    requires |lut| == 0x10000
  {
    if rate < GRID_RATE then fed else fed + Mags(lut, buf)
  }

  class Demod {
    const rate: real
    const lut: seq<nat>
    const table: seq<Vec>
    const src: array<nat>
    var count: nat
    var srcPos: real
    var mag24: seq<nat>
    var abs24: nat
    var scanAt: nat
    var preambles: nat
    var crcFails: nat
    var decoded: nat
    var delivered: seq<seq<byte>>
    ghost var fed: seq<nat>
    ghost var bins: seq<nat>

    ghost predicate Constants() {
      rate >= 0.0 && |lut| == 0x10000 && Table(table) && src.Length == RING
    }

    ghost function Sps(): real {
      rate / GRID_RATE
    }

    /** The ring holds the newest samples of the stream. */
    ghost predicate Ring()
      reads this`count, this`fed, src
    {
      src.Length == RING && count == |fed| &&
      forall a: nat :: a < count && count <= a + RING ==> src[a % RING] == fed[a]
    }

    /** The buffer is the grid from an absolute position on. */
    ghost predicate Buffer()
      reads this`mag24, this`abs24, this`bins, this`scanAt
    {
      abs24 <= scanAt <= |bins| && mag24 == bins[abs24..]
    }

    ghost predicate Resampler()
      reads this`fed, this`bins, this`srcPos
    {
      rate >= 0.0 && Resampled(bins, fed, Sps()) && srcPos == Position(|bins|, Sps())
    }

    ghost function Totals(): Scanner
      reads this`scanAt, this`preambles, this`crcFails, this`decoded, this`delivered
    {
      Scanner(scanAt, preambles, crcFails, decoded, delivered)
    }

    ghost predicate Valid()
      reads this, src
    {
      Constants() && Ring() && Buffer() && Resampler() && Totals() == Scan(bins, START)
    }

    constructor (rate: real, lut: seq<nat>, table: seq<Vec>)
      requires rate >= 0.0 && |lut| == 0x10000 && Table(table)
      ensures Valid() && fresh(src) && fed == []
      ensures this.rate == rate && this.lut == lut
    {
      this.rate := rate;
      this.lut := lut;
      this.table := table;
      src := new nat[RING];
      count, srcPos, mag24, abs24, scanAt := 0, 0.0, [], 0, 0;
      preambles, crcFails, decoded, delivered := 0, 0, 0, [];
      fed, bins := [], [];
      new;
      assert Position(0, Sps()) == 0.0;
    }

    /** Puts out every grid sample whose two source samples exist. */
    method Emit()
      requires Constants() && Ring() && Buffer() && rate >= GRID_RATE
      requires srcPos == Position(|bins|, Sps()) && srcPos >= 0.0 && srcPos.Floor + 2 >= count
      requires forall k: nat :: k < |bins| ==> Determined(bins, fed, Sps(), k)
      modifies this`srcPos, this`mag24, this`bins
      ensures Buffer() && Resampler() && old(bins) <= bins
    {
      hide Between, Position, Table, Determined;
      var sps := rate / GRID_RATE;
      assert sps >= 1.0 && Sps() == sps;
      while srcPos.Floor + 1 <= count - 1
        invariant Buffer() && old(bins) <= bins
        invariant srcPos == Position(|bins|, sps) && srcPos >= 0.0 && srcPos.Floor + 2 >= count
        invariant forall k: nat :: k < |bins| ==> Determined(bins, fed, sps, k)
        decreases count - srcPos.Floor
      {
        var v := Interpolate();
        SampleAdded(bins, v, fed, sps);
        NextPosition(|bins|, sps);
        FloorsPart(srcPos, srcPos + sps);
        BufferGrows(v);
        mag24 := mag24 + [v];
        bins := bins + [v];
        srcPos := srcPos + sps;
      }
    }

    /** Reads the ring either side of the source position. */
    method Interpolate() returns (v: nat)
      requires Ring() && srcPos >= 0.0 && count <= srcPos.Floor + 2 <= count
      ensures srcPos.Floor + 1 < |fed| && v == Between(fed, srcPos)
    {
      hide Mix;
      var i0 := srcPos.Floor;
      v := Mix(src[i0 % RING], src[(i0 + 1) % RING], srcPos - i0 as real);
    }

    lemma BufferGrows(v: nat)
      requires Buffer()
      ensures abs24 <= |bins| && mag24 + [v] == (bins + [v])[abs24..]
    {}

    /** One source sample: into the ring, and out with what it completes. */
    method Push(m: nat)
      requires Constants() && Ring() && Buffer() && Resampler() && rate >= GRID_RATE
      modifies src, this`count, this`srcPos, this`mag24, this`fed, this`bins
      ensures Ring() && Buffer() && Resampler()
      ensures fed == old(fed) + [m] && old(bins) <= bins
    {
      hide Between, Position, Determined, Table;
      NextPosition(|bins|, Sps());
      SamplesKept(bins, fed, m, Sps());
      src[count % RING] := m;
      count := count + 1;
      fed := fed + [m];
      Emit();
    }

    /** Takes one block. */
    method FeedIQ(buf: seq<byte>)
      requires Valid()
      modifies this, src
      ensures Valid()
      ensures fed == Grown(rate, lut, old(fed), buf)
    {
      if rate < GRID_RATE {
        return;
      }
      hide Table, Ring, Resampler, Scan, Examine, Mags;
      ghost var was := bins;
      PushPairs(buf);
      ScanGoesOn(was, bins);
      Scan24();
    }

    /** The magnitudes of a block, one sample at a time. */
    method PushPairs(buf: seq<byte>)
      requires Constants() && Ring() && Buffer() && Resampler() && rate >= GRID_RATE
      modifies src, this`count, this`srcPos, this`mag24, this`fed, this`bins
      ensures Ring() && Buffer() && Resampler() && old(bins) <= bins
      ensures fed == old(fed) + Mags(lut, buf)
    {
      hide Table, Ring, Resampler, Mags, PairIndex;
      var n := |buf| / 2;
      ghost var was := bins;
      for i := 0 to n
        invariant Constants() && Ring() && Buffer() && Resampler() && was <= bins
        invariant fed == old(fed) + Mags(lut, buf)[..i]
      {
        Push(lut[PairIndex(buf[2 * i], buf[2 * i + 1])]);
        MagAt(lut, buf, i);
      }
      assert Mags(lut, buf)[..n] == Mags(lut, buf);
    }

    /** Hunts through what the buffer has room for, and drops what is done. */
    method Scan24()
      requires Constants() && Buffer()
      modifies this`mag24, this`abs24, this`scanAt, this`preambles, this`crcFails, this`decoded, this`delivered
      ensures Buffer() && Totals() == Scan(bins, old(Totals()))
    {
      hide Table, Examine;
      var m := mag24;
      var rel := scanAt - abs24;
      ghost var start := Totals();
      var stop := |m| - WINDOW;
      while rel < stop
        invariant abs24 == old(abs24) && mag24 == m && abs24 + rel <= |bins|
        invariant Scan(bins, Scanner(abs24 + rel, preambles, crcFails, decoded, delivered)) == Scan(bins, start)
      {
        var pa := m[rel..];
        ghost var s := Scanner(abs24 + rel, preambles, crcFails, decoded, delivered);
        ExamineLocal(pa, WINDOW, s);
        assert pa[..WINDOW] == bins[s.at..s.at + WINDOW];
        var step := Candidate(pa, rel);
        rel := rel + step;
      }
      scanAt := abs24 + rel;
      if rel > 4096 {
        var keep := rel - 64;
        mag24 := m[keep..];
        abs24 := abs24 + keep;
        scanAt := abs24 + 64;
      }
    }

    /** One scan position: how far to move on. */
    method Candidate(pa: seq<nat>, ghost rel: nat) returns (step: nat)
      requires |pa| > WINDOW && Table(table)
      modifies this`preambles, this`crcFails, this`decoded, this`delivered
      ensures Scanner(abs24 + rel + step, preambles, crcFails, decoded, delivered)
           == Examine(pa, old(Scanner(abs24 + rel, preambles, crcFails, decoded, delivered)))
    {
      hide Table, FirstGood, Good;
      if !(pa[1] > pa[7] && pa[12] > pa[14] && pa[12] > pa[15]) {
        return 1;
      }
      var baseNoise := pa[5] + pa[8] + pa[16] + pa[17] + pa[18];
      var ref := baseNoise * 4 / 32;
      var diff23: int := pa[2] as int - pa[3];
      var sum14 := pa[1] + pa[4];
      var diff1011: int := pa[10] as int - pa[11];
      var common := sum14 - diff23 + pa[9] + pa[12];
      var phases: seq<nat> := [];
      if common - diff1011 >= ref {
        phases := phases + [4, 5];
      }
      if common + diff1011 >= ref {
        phases := phases + [6, 7];
      }
      if sum14 + 2 * diff23 + diff1011 + pa[12] >= ref {
        phases := phases + [8];
      }
      assert phases == TryPhases(pa);
      if phases == [] {
        return 1;
      }
      preambles := preambles + 1;
      var done := TryAll(pa, phases);
      return if done then SKIP else 1;
    }

    /** Tries the phases in turn until one succeeds. */
    method TryAll(pa: seq<nat>, phases: seq<nat>) returns (done: bool)
      requires |pa| > WINDOW && Table(table) && forall i: nat :: i < |phases| ==> phases[i] <= 8
      modifies this`crcFails, this`decoded, this`delivered
      ensures var tried := FirstGood(pa, phases);
              crcFails == old(crcFails) + tried.0 && done == tried.1.Some? &&
              decoded == old(decoded) + (if done then 1 else 0) &&
              delivered == old(delivered) + if done then [tried.1.value] else []
    {
      hide Table, Attempt, Good;
      done := false;
      for k := 0 to |phases|
        invariant crcFails == old(crcFails) + k && decoded == old(decoded) && delivered == old(delivered)
        invariant FirstGood(pa, phases) == (k + FirstGood(pa, phases[k..]).0, FirstGood(pa, phases[k..]).1)
      {
        assert phases[k..][1..] == phases[k + 1..] && phases[k..][0] == phases[k];
        done := DecodePhase(pa, phases[k]);
        if done {
          return;
        }
      }
    }

    /** Slices a message at one phase, and hands it on if it is good. */
    method DecodePhase(pa: seq<nat>, tryPhase: nat) returns (ok: bool)
      requires |pa| > WINDOW && tryPhase <= 8 && Table(table)
      modifies this`crcFails, this`decoded, this`delivered
      ensures ok == Attempt(pa, tryPhase).Some?
      ensures !ok ==> crcFails == old(crcFails) + 1 && decoded == old(decoded) && delivered == old(delivered)
      ensures ok ==> crcFails == old(crcFails) && decoded == old(decoded) + 1 &&
                     delivered == old(delivered) + [Attempt(pa, tryPhase).value]
    {
      assert Message(pa, tryPhase, 0) == [];
      hide Message, EightBits, MsbValue, Remainder, MsgBits, Good, Table;
      var off, phase := 19 + tryPhase / 5, tryPhase % 5;
      var b: byte;
      NextByte(pa, tryPhase, 0, off, phase);
      b, off, phase := SliceByte(pa, off, phase);
      var msg := [b];
      var df := msg[0] / 8;
      var short := df == 0 || df == 4 || df == 5 || df == 11;
      var long := df == 16 || df == 17 || df == 18 || df == 20 || df == 21;
      if !short && !long {
        crcFails := crcFails + 1;
        return false;
      }
      var nbytes := 14;
      if short {
        nbytes := 7;
      }
      for i := 1 to nbytes
        invariant off == 19 + (tryPhase + 96 * i) / 5 && phase == (tryPhase + 96 * i) % 5
        invariant msg == Message(pa, tryPhase, i)
        invariant crcFails == old(crcFails) && decoded == old(decoded) && delivered == old(delivered)
      {
        NextByte(pa, tryPhase, i, off, phase);
        b, off, phase := SliceByte(pa, off, phase);
        msg := msg + [b];
      }
      var crc := ComputeCrc24(table, msg);
      if crc != Zero(24) {
        crcFails := crcFails + 1;
        return false;
      }
      decoded := decoded + 1;
      delivered := delivered + [msg];
      return true;
    }
  }

  // ---------- any split into blocks ----------

  ghost predicate WholePairs(blocks: seq<seq<byte>>) {
    forall k: nat :: k < |blocks| ==> |blocks[k]| % 2 == 0
  }

  lemma {:induction false} ConcatWhole(blocks: seq<seq<byte>>)
    requires WholePairs(blocks)
    ensures |Concat(blocks)| % 2 == 0
  {
    if blocks == [] {
    } else {
      ConcatWhole(blocks[..|blocks| - 1]);
    }
  }

  /** All that a demodulator reports follows from the stream it was fed. */
  lemma SameStreamSameOutcome(a: Demod, b: Demod)
    requires a.Valid() && b.Valid() && a.rate == b.rate && a.fed == b.fed
    ensures a.bins == b.bins && a.Totals() == b.Totals()
  {
    hide Resampled, Table, Scan;
    ResampledUnique(a.bins, b.bins, a.fed, a.Sps());
  }

  /** At the native rate it is the scan of the magnitudes themselves, and
      every message handed on is good. */
  lemma NativeOutcome(d: Demod)
    requires d.Valid() && d.rate == GRID_RATE
    ensures d.Totals() == Scan(if d.fed == [] then [] else d.fed[..|d.fed| - 1], START)
    ensures |d.delivered| == d.decoded && forall m :: m in d.delivered ==> Good(m)
  {
    hide Resampled, Table, Scan, Good;
    NativeRate(d.bins, d.fed);
    LogIsGood(d.bins, START);
  }

  method FeedBlocks(d: Demod, blocks: seq<seq<byte>>)
    requires d.Valid() && WholePairs(blocks) && |d.lut| == 0x10000
    modifies d, d.src
    ensures d.Valid()
    ensures d.fed == Grown(d.rate, d.lut, old(d.fed), Concat(blocks))
  {
    hide *;
    GrownByNothing(d.rate, d.lut, d.fed, blocks);
    for k := 0 to |blocks|
      invariant d.Valid()
      invariant d.fed == Grown(d.rate, d.lut, old(d.fed), Concat(blocks[..k]))
    {
      GrownByNext(d.rate, d.lut, old(d.fed), blocks, k);
      d.FeedIQ(blocks[k]);
    }
    assert blocks[..|blocks|] == blocks;
  }

  lemma GrownByNext(rate: real, lut: seq<nat>, fed: seq<nat>, blocks: seq<seq<byte>>, k: nat)
    requires |lut| == 0x10000 && k < |blocks| && WholePairs(blocks)
    ensures Grown(rate, lut, fed, Concat(blocks[..k + 1]))
         == Grown(rate, lut, Grown(rate, lut, fed, Concat(blocks[..k])), blocks[k])
  {
    hide Mags;
    assert blocks[..k + 1][..k] == blocks[..k];
    ConcatWhole(blocks[..k]);
    MagsConcat(lut, Concat(blocks[..k]), blocks[k]);
  }

  lemma GrownByNothing(rate: real, lut: seq<nat>, fed: seq<nat>, blocks: seq<seq<byte>>)
    requires |lut| == 0x10000
    ensures Grown(rate, lut, fed, Concat(blocks[..0])) == fed
  {
    assert blocks[..0] == [];
  }

  /** However one stream is cut into blocks of whole pairs, the counters, the
      position and the messages come out the same. */
  method FeedBothWays(a: Demod, b: Demod, one: seq<seq<byte>>, other: seq<seq<byte>>)
    requires a.Valid() && b.Valid() && a != b && a.src != b.src
    requires a.rate == b.rate && a.lut == b.lut && a.fed == b.fed
    requires WholePairs(one) && WholePairs(other) && Concat(one) == Concat(other)
    modifies a, a.src, b, b.src
    ensures a.Totals() == b.Totals()
  {
    hide Resampled, Table, Scan, Mags, Concat;
    FeedBlocks(a, one);
    FeedBlocks(b, other);
    SameStreamSameOutcome(a, b);
  }
}
