/** The FT8 waterfall: the spectra of the last 93 symbols in a ring, and the
    sync score read back from it. */
module Waterfall {
  import opened Arith
  import opened History
  import opened Candidates

  const NFFT := 2560
  const SYMBOL := 1280
  const SUB_STEP := 640
  const TIME_OSR := 2
  const FREQ_OSR := 2
  const BINS := 449
  const BLOCKS := 93
  const HALF := 898
  const STRIDE := 1796

  // ---------- what the ring stands for ----------

  /** The levels of a frame: window, transform and quantisation. */
  type Spectrum = seq<real> -> seq<nat>

  ghost predicate Spectral(spectrum: Spectrum) {
    forall f: seq<real> :: |f| == NFFT ==> |spectrum(f)| == HALF
  }

  /** The frame that ends after the first n samples. */
  function FrameAt(heard: seq<real>, n: nat): (f: seq<real>)
    requires n <= |heard|
    ensures |f| == NFFT
  {
    Last(0.0, heard[..n], NFFT)
  }

  /** The k-th block of a stream: two frames, half a symbol apart. */
  function Block(spectrum: Spectrum, heard: seq<real>, k: nat): (b: seq<nat>)
    requires SYMBOL * (k + 1) <= |heard|
  {
    spectrum(FrameAt(heard, SYMBOL * k + SUB_STEP)) + spectrum(FrameAt(heard, SYMBOL * (k + 1)))
  }

  lemma BlockOfPrefix(spectrum: Spectrum, heard: seq<real>, more: seq<real>, k: nat)
    requires SYMBOL * (k + 1) <= |heard|
    ensures Block(spectrum, heard + more, k) == Block(spectrum, heard, k)
  {
    assert (heard + more)[..SYMBOL * k + SUB_STEP] == heard[..SYMBOL * k + SUB_STEP];
    assert (heard + more)[..SYMBOL * (k + 1)] == heard[..SYMBOL * (k + 1)];
    hide Last;
  }

  /** The p-th row of the ring. */
  function Row(mag: seq<nat>, p: nat): (r: seq<nat>)
    requires STRIDE * (p + 1) <= |mag|
    ensures |r| == STRIDE
  {
    mag[STRIDE * p..STRIDE * (p + 1)]
  }

  // ---------- the sync score ----------

  const PLACES: nat := 3
  const SYNC_SYMBOLS: nat := 7 * PLACES

  const COSTAS: seq<nat> := [3, 1, 4, 0, 6, 5, 2]

  /** The level of a tone of a candidate in one block. */
  function Level(history: seq<seq<nat>>, b: nat, c: Cell, tone: nat): int
    requires b < |history| && |history[b]| == STRIDE && Reachable(c) && tone < 8
  {
    history[b][c.timeSub * HALF + c.freqSub * BINS + c.freqOff + tone]
  }

  predicate Reachable(c: Cell) {
    c.timeSub < TIME_OSR && c.freqSub < FREQ_OSR && c.freqOff + 8 <= BINS
  }

  datatype Tally = Tally(sum: int, n: nat)

  function Plus(t: Tally, d: int): Tally {
    Tally(t.sum + d, t.n + 1)
  }

  ghost predicate Rows(history: seq<seq<nat>>) {
    forall b: nat :: b < |history| ==> |history[b]| == STRIDE
  }

  /** One sync symbol against its neighbours in tone and in time, as far as
      there are any. */
  ghost function Symbol(history: seq<seq<nat>>, c: Cell, b: nat, k: nat, t: Tally): (u: Tally)
    requires Rows(history) && Reachable(c) && k < 7
  {
    if b >= |history| then t
    else
      var tone := COSTAS[k];
      var level := Level(history, b, c, tone);
      var t1 := if tone > 0 then Plus(t, level - Level(history, b, c, tone - 1)) else t;
      var t2 := Plus(t1, level - Level(history, b, c, tone + 1));
      var t3 := if k > 0 && b > 0 then Plus(t2, level - Level(history, b - 1, c, tone)) else t2;
      if k + 1 < 7 && b + 1 < |history| then Plus(t3, level - Level(history, b + 1, c, tone)) else t3
  }

  /** The first i of the 21 sync symbols, seven at each of three places. */
  ghost function Symbols(history: seq<seq<nat>>, c: Cell, i: nat): (t: Tally)
    requires Rows(history) && Reachable(c) && i <= SYNC_SYMBOLS
  {
    if i == 0 then Tally(0, 0)
    else
      var j := i - 1;
      Symbol(history, c, c.timeOff + 36 * (j / 7) + j % 7, j % 7, Symbols(history, c, j))
  }

  /** Quotient toward zero. */
  function Quotient(a: int, n: nat): int
    requires n > 0
  {
    if a >= 0 then a / n else -(-a / n)
  }

  /** The mean difference: what the candidate search ranks by. */
  ghost function Score(history: seq<seq<nat>>, c: Cell): int
    requires Rows(history) && Reachable(c)
  {
    var t := Symbols(history, c, SYNC_SYMBOLS);
    if t.n > 0 then Quotient(t.sum, t.n) else t.sum
  }

  /** The score as the search ranks cells by it. */
  ghost function ScoreOf(history: seq<seq<nat>>): (score: Cell -> int)
    requires Rows(history)
    ensures forall c: Cell :: Reachable(c) ==> score(c) == Score(history, c)
  {
    (c: Cell) => if Reachable(c) then Score(history, c) else 0
  }

  function SearchGrid(blocks: nat): Grid {
    Grid(blocks, BINS, TIME_OSR, FREQ_OSR)
  }

  lemma AllSymbols()
    ensures SYNC_SYMBOLS == 7 * PLACES
  {}

  lemma NoSymbols(history: seq<seq<nat>>, c: Cell)
    requires Rows(history) && Reachable(c)
    ensures Symbols(history, c, 0) == Tally(0, 0)
  {}

  lemma NextSymbol(history: seq<seq<nat>>, c: Cell, m: nat, k: nat)
    requires Rows(history) && Reachable(c) && m < PLACES && k < 7
    ensures Symbols(history, c, 7 * m + k + 1)
         == Symbol(history, c, c.timeOff + 36 * m + k, k, Symbols(history, c, 7 * m + k))
  {
    hide Symbol, Rows;
    assert (7 * m + k) / 7 == m && (7 * m + k) % 7 == k;
  }

  lemma ScoreIs(history: seq<seq<nat>>, c: Cell)
    requires Rows(history) && Reachable(c)
    ensures var t := Symbols(history, c, SYNC_SYMBOLS);
            Score(history, c) == if t.n > 0 then Quotient(t.sum, t.n) else t.sum
  {
    hide Symbols, Rows;
  }

  // ---------- the ring ----------

  lemma BlocksSized(spectrum: Spectrum, heard: seq<real>)
    requires Spectral(spectrum)
    ensures forall k: nat :: SYMBOL * (k + 1) <= |heard| ==> |Block(spectrum, heard, k)| == STRIDE
  {
    hide Last;
  }

  /** The last n blocks of a stream, oldest first. */
  ghost function LatestBlocks(spectrum: Spectrum, heard: seq<real>, n: nat): (h: seq<seq<nat>>)
    requires Spectral(spectrum) && n <= |heard| / SYMBOL
    ensures |h| == n && Rows(h)
  {
    var ever := |heard| / SYMBOL;
    BlocksSized(spectrum, heard);
    seq(n, b requires 0 <= b < n => Block(spectrum, heard, ever - n + b))
  }

  /** A stored level in one formula: both halves of a symbol are the spectrum of
      the 2560 samples up to its first half's end and up to its own. */
  lemma StoredLevel(spectrum: Spectrum, heard: seq<real>, n: nat, b: nat, timeSub: nat, i: nat)
    requires Spectral(spectrum) && n <= |heard| / 1280 && b < n && timeSub < 2 && i < 898
    ensures var end := 1280 * (|heard| / 1280 - n + b) + 640 * (timeSub + 1);
            end <= |heard| && |spectrum(Last(0.0, heard[..end], 2560))| == 898 &&
            |LatestBlocks(spectrum, heard, n)[b]| == 1796 &&
            LatestBlocks(spectrum, heard, n)[b][898 * timeSub + i] == spectrum(Last(0.0, heard[..end], 2560))[i]
  {
    var k := |heard| / 1280 - n + b;
    BlocksSized(spectrum, heard);
    assert LatestBlocks(spectrum, heard, n)[b] == Block(spectrum, heard, k);
    hide Last, LatestBlocks;
  }

  /** A ring of rows holds the stream's last blocks, each in the row of its
      number modulo 93. */
  ghost predicate Holds(spectrum: Spectrum, heard: seq<real>, mag: seq<nat>, head: nat, count: nat) {
    var ever := |heard| / SYMBOL;
    Spectral(spectrum) && |mag| == BLOCKS * STRIDE && |heard| % SYMBOL == 0 &&
    count == Min(BLOCKS, ever) && head == ever % BLOCKS &&
    forall k: nat :: ever - count <= k < ever ==> HoldsBlock(spectrum, heard, mag, k)
  }

  ghost predicate HoldsBlock(spectrum: Spectrum, heard: seq<real>, mag: seq<nat>, k: nat)
    requires |mag| == BLOCKS * STRIDE && k < |heard| / SYMBOL
  {
    Row(mag, k % BLOCKS) == Block(spectrum, heard, k)
  }

  /** The b-th oldest stored block is where the base arithmetic says. */
  /** How many symbols are held: all there were, and 93 of more. */
  lemma HeldCount(spectrum: Spectrum, heard: seq<real>, mag: seq<nat>, head: nat, count: nat)
    requires Holds(spectrum, heard, mag, head, count)
    ensures count == (if |heard| < 93 * 1280 then |heard| / 1280 else 93) && |mag| == 93 * 1796
  {}

  lemma LogicalBlock(spectrum: Spectrum, heard: seq<real>, mag: seq<nat>, head: nat, count: nat, b: nat)
    requires Holds(spectrum, heard, mag, head, count) && b < count
    ensures var phys := if count == BLOCKS then (head + b) % BLOCKS else b;
            phys < BLOCKS && Row(mag, phys) == LatestBlocks(spectrum, heard, count)[b]
  {
    var ever := |heard| / SYMBOL;
    var k := ever - count + b;
    assert HoldsBlock(spectrum, heard, mag, k);
    PhysicalRow(ever, count, head, b);
    LatestBlock(spectrum, heard, count, b);
    hide Row, Block, Holds, LatestBlocks;
  }

  lemma PhysicalRow(ever: nat, count: nat, head: nat, b: nat)
    requires count == Min(BLOCKS, ever) && head == ever % BLOCKS && b < count
    ensures (if count == BLOCKS then (head + b) % BLOCKS else b) == (ever - count + b) % BLOCKS
  {}

  lemma LatestBlock(spectrum: Spectrum, heard: seq<real>, n: nat, b: nat)
    requires Spectral(spectrum) && n <= |heard| / SYMBOL && b < n
    ensures LatestBlocks(spectrum, heard, n)[b] == Block(spectrum, heard, |heard| / SYMBOL - n + b)
  {
    hide Block;
  }

  /** The ring with one row written over. */
  ghost predicate RowWritten(mag: seq<nat>, mag': seq<nat>, p: nat, block: seq<nat>) {
    p < BLOCKS && |mag| == |mag'| == BLOCKS * STRIDE && Row(mag', p) == block &&
    forall q: nat :: q < BLOCKS && q != p ==> Row(mag', q) == Row(mag, q)
  }

  /** A new block in the head's row: the oldest of a full ring goes. */
  lemma RingAdvances(spectrum: Spectrum, heard: seq<real>, more: seq<real>, mag: seq<nat>, mag': seq<nat>,
                     head: nat, count: nat)
    requires Holds(spectrum, heard, mag, head, count) && |more| == SYMBOL
    requires RowWritten(mag, mag', head, Block(spectrum, heard + more, |heard| / SYMBOL))
    ensures Holds(spectrum, heard + more, mag', (head + 1) % BLOCKS, if count < BLOCKS then count + 1 else count)
  {
    var ever := |heard| / SYMBOL;
    NextCounts(|heard|, head);
    forall k: nat | ever + 1 - Min(BLOCKS, ever + 1) <= k < ever + 1
      ensures HoldsBlock(spectrum, heard + more, mag', k)
    {
      if k < ever {
        RowKept(spectrum, heard, more, mag, mag', head, count, k);
      }
      hide Row, Block;
    }
    hide Row, Block, HoldsBlock;
  }

  lemma NextCounts(n: nat, head: nat)
    requires n % SYMBOL == 0 && head == n / SYMBOL % BLOCKS
    ensures (n + SYMBOL) % SYMBOL == 0 && (n + SYMBOL) / SYMBOL == n / SYMBOL + 1
    ensures (head + 1) % BLOCKS == (n / SYMBOL + 1) % BLOCKS
  {}

  lemma RowsApart(k: nat, ever: nat)
    requires k < ever <= k + BLOCKS - 1
    ensures k % BLOCKS != ever % BLOCKS
  {}

  lemma RowKept(spectrum: Spectrum, heard: seq<real>, more: seq<real>, mag: seq<nat>, mag': seq<nat>, head: nat,
                count: nat, k: nat)
    requires Holds(spectrum, heard, mag, head, count) && |more| == SYMBOL
    requires RowWritten(mag, mag', head, Block(spectrum, heard + more, |heard| / SYMBOL))
    requires k < |heard| / SYMBOL <= k + BLOCKS - 1
    ensures HoldsBlock(spectrum, heard + more, mag', k)
  {
    RowsApart(k, |heard| / SYMBOL);
    assert HoldsBlock(spectrum, heard, mag, k);
    BlockOfPrefix(spectrum, heard, more, k);
    hide Row, Block;
  }

  class Waterfall {
    const spectrum: Spectrum
    const lastFrame: array<real>
    const mag: array<nat>
    var head: nat
    var count: nat
    ghost var heard: seq<real>

    ghost predicate Frames()
      reads this`heard, lastFrame
    {
      lastFrame.Length == NFFT && lastFrame[..] == Last(0.0, heard, NFFT)
    }

    ghost predicate Ring()
      reads this`heard, this`head, this`count, mag
    {
      Holds(spectrum, heard, mag[..], head, count)
    }

    ghost predicate Valid()
      reads this, lastFrame, mag
    {
      Frames() && Ring()
    }

    /** The stored blocks, oldest first. */
    ghost function Stored(): (h: seq<seq<nat>>)
      requires Ring()
      reads this`heard, this`head, this`count, mag
      ensures |h| == count && Rows(h)
    {
      LatestBlocks(spectrum, heard, count)
    }

    constructor (spectrum: Spectrum)
      requires Spectral(spectrum)
      ensures Valid() && heard == [] && fresh(lastFrame) && fresh(mag) && this.spectrum == spectrum
    {
      this.spectrum := spectrum;
      lastFrame := new real[NFFT](_ => 0.0);
      mag := new nat[BLOCKS * STRIDE];
      head, count, heard := 0, 0, [];
      new;
      forall i | 0 <= i < NFFT
        ensures lastFrame[i] == Last(0.0, [], NFFT)[i]
      {
        LastAt(0.0, [], NFFT, i);
      }
    }

    /** Forgets everything. */
    method Reset()
      requires Valid()
      modifies this`head, this`count, this`heard, lastFrame
      ensures Valid() && heard == []
    {
      head, count, heard := 0, 0, [];
      forall i | 0 <= i < lastFrame.Length {
        lastFrame[i] := 0.0;
      }
      forall i | 0 <= i < NFFT
        ensures lastFrame[i] == Last(0.0, [], NFFT)[i]
      {
        LastAt(0.0, [], NFFT, i);
      }
    }

    /** Where in the ring the b-th oldest block starts. */
    method BlockBase(b: nat) returns (base: nat)
      requires Ring() && b < count
      ensures base + STRIDE <= mag.Length && mag[base..base + STRIDE] == Stored()[b]
    {
      LogicalBlock(spectrum, heard, mag[..], head, count, b);
      hide Holds, LatestBlocks;
      var phys := b;
      if count == BLOCKS {
        phys := (head + b) % BLOCKS;
      }
      base := phys * STRIDE;
      assert mag[base..base + STRIDE] == Row(mag[..], phys);
    }

    /** The level of one tone in the b-th oldest block. */
    method ReadLevel(b: nat, c: Cell, tone: nat) returns (level: int)
      requires Ring() && b < count && Reachable(c) && tone < 8
      ensures level == Level(Stored(), b, c, tone)
    {
      hide Holds, LatestBlocks;
      var base := BlockBase(b);
      var at := c.timeSub * HALF + c.freqSub * BINS + c.freqOff + tone;
      level := mag[base + at];
      assert mag[base..base + STRIDE][at] == level;
    }

    /** Neighbour differences around every sync symbol that is stored. */
    method SyncScore(c: Cell) returns (score: int)
      requires Ring() && Reachable(c)
      ensures score == Score(Stored(), c)
    {
      ScoreIs(Stored(), c);
      hide *;
      var t := AllPlaces(c);
      score := if t.n > 0 then Quotient(t.sum, t.n) else t.sum;
    }

    method AllPlaces(c: Cell) returns (t: Tally)
      requires Ring() && Reachable(c)
      ensures t == Symbols(Stored(), c, SYNC_SYMBOLS)
    {
      hide *;
      AllSymbols();
      NoSymbols(Stored(), c);
      t := Tally(0, 0);
      for m := 0 to PLACES
        invariant t == Symbols(Stored(), c, 7 * m)
      {
        t := AddPlace(c, m, t);
      }
    }

    /** The seven symbols of one place. */
    method AddPlace(c: Cell, m: nat, t: Tally) returns (u: Tally)
      requires Ring() && Reachable(c) && m < PLACES && t == Symbols(Stored(), c, 7 * m)
      ensures u == Symbols(Stored(), c, 7 * m + 7)
    {
      hide Holds, LatestBlocks, Level, Symbol, Symbols, Rows;
      u := t;
      for k := 0 to 7
        invariant u == Symbols(Stored(), c, 7 * m + k)
      {
        NextSymbol(Stored(), c, m, k);
        u := AddSymbol(c, c.timeOff + 36 * m + k, k, u);
      }
    }

    method AddSymbol(c: Cell, b: nat, k: nat, t: Tally) returns (u: Tally)
      requires Ring() && Reachable(c) && k < 7
      ensures u == Symbol(Stored(), c, b, k, t)
    {
      hide Holds, LatestBlocks, Level;
      u := t;
      if b >= count {
        return;
      }
      var sm := COSTAS[k];
      var p := ReadLevel(b, c, sm);
      if sm > 0 {
        var q := ReadLevel(b, c, sm - 1);
        u := Plus(u, p - q);
      }
      if sm < 7 {
        var q := ReadLevel(b, c, sm + 1);
        u := Plus(u, p - q);
      }
      if k > 0 && b > 0 {
        var q := ReadLevel(b - 1, c, sm);
        u := Plus(u, p - q);
      }
      if k + 1 < 7 && b + 1 < count {
        var q := ReadLevel(b + 1, c, sm);
        u := Plus(u, p - q);
      }
    }

    /** Searches every cell of the stored blocks and returns the strongest by
        sync score, strongest first. */
    method FindCandidates(maxCand: nat, minScore: int) returns (r: seq<Candidate>)
      requires Ring() && maxCand >= 1
      ensures BestOf(r, SearchGrid(count), ScoreOf(Stored()), minScore, maxCand, _ => true) && Descending(r)
    {
      hide BestOf, Holds, LatestBlocks, Rows, Score;
      ghost var g, score := SearchGrid(count), ScoreOf(Stored());
      var best: seq<Candidate> := [];
      var worst := minScore;
      NoneYet(g, score, minScore, maxCand);
      var ts := 0;
      while ts < TIME_OSR
        invariant ts <= TIME_OSR && worst == minScore
        invariant BestOf(best, g, score, minScore, maxCand, x => Before(x, ts, 0, 0, 0))
      {
        var fs := 0;
        while fs < FREQ_OSR
          invariant fs <= FREQ_OSR && worst == minScore
          invariant BestOf(best, g, score, minScore, maxCand, x => Before(x, ts, fs, 0, 0))
        {
          var to := 0;
          while to + 79 <= count
            invariant worst == minScore && (to == 0 || to + 78 <= count)
            invariant BestOf(best, g, score, minScore, maxCand, x => Before(x, ts, fs, to, 0))
          {
            var fo := 0;
            while fo + 8 <= BINS
              invariant worst == minScore
              invariant BestOf(best, g, score, minScore, maxCand, x => Before(x, ts, fs, to, fo))
            {
              var c := Cell(to, ts, fo, fs);
              var s := SyncScore(c);
              ghost var seen := (x: Cell) => Before(x, ts, fs, to, fo);
              ghost var more := (x: Cell) => Before(x, ts, fs, to, fo + 1);
              assert SeesOneMore(seen, more, c);
              if s < worst {
                Unqualified(best, g, score, minScore, maxCand, seen, more, c);
              } else {
                BestFacts(best, g, score, minScore, maxCand, seen);
                ghost var was := best;
                best, worst := Offer(best, c, s, maxCand, worst);
                OfferKeepsBest(was, best, g, score, minScore, maxCand, seen, more, c);
              }
              fo := fo + 1;
            }
            SameSeen(best, g, score, minScore, maxCand,
                     x => Before(x, ts, fs, to, fo), x => Before(x, ts, fs, to + 1, 0));
            to := to + 1;
          }
          SameSeen(best, g, score, minScore, maxCand, x => Before(x, ts, fs, to, 0), x => Before(x, ts, fs + 1, 0, 0));
          fs := fs + 1;
        }
        SameSeen(best, g, score, minScore, maxCand, x => Before(x, ts, fs, 0, 0), x => Before(x, ts + 1, 0, 0, 0));
        ts := ts + 1;
      }
      SameSeen(best, g, score, minScore, maxCand, x => Before(x, ts, 0, 0, 0), _ => true);
      r := Sort(best);
      Reordered(best, r, g, score, minScore, maxCand);
    }

    /** One symbol: two frames half a symbol apart, into the head's row. */
    method ProcessBlock(frame: seq<real>)
      requires Valid() && |frame| == SYMBOL
      modifies this`head, this`count, this`heard, lastFrame, mag
      ensures Valid() && heard == old(heard) + frame
    {
      var a, b := frame[..SUB_STEP], frame[SUB_STEP..];
      assert frame == a + b && heard + a + b == heard + frame;
      HalfFrames(spectrum, heard, a, b);
      HeadInRing(spectrum, heard, mag[..], head, count);
      hide Holds, Last, Block, FrameAt, RowWritten, Row, Spectral;
      var base := head * STRIDE;
      ghost var x := HalfBlock(heard, a, base);
      ghost var half := mag[..];
      ghost var y := HalfBlock(heard + a, b, base + HALF);
      TwoHalves(old(mag[..]), half, mag[..], head, x, y);
      RingAdvances(spectrum, heard, frame, old(mag[..]), mag[..], head, count);
      head := (head + 1) % BLOCKS;
      if count < BLOCKS {
        count := count + 1;
      }
      heard := heard + frame;
    }

    /** Half a symbol: moves the frame on and writes its levels. */
    method HalfBlock(ghost s: seq<real>, part: seq<real>, off: nat) returns (ghost levels: seq<nat>)
      requires lastFrame.Length == NFFT && lastFrame[..] == Last(0.0, s, NFFT) && |part| == SUB_STEP
      requires |spectrum(Last(0.0, s + part, NFFT))| == HALF && off + HALF <= mag.Length
      modifies lastFrame, mag
      ensures lastFrame[..] == Last(0.0, s + part, NFFT)
      ensures levels == spectrum(Last(0.0, s + part, NFFT))
      ensures mag[..] == old(mag[..])[..off] + levels + old(mag[..])[off + HALF..]
    {
      hide Last;
      Slide(s, part);
      var l := spectrum(lastFrame[..]);
      levels := l;
      Write(off, l);
    }

    /** Moves the frame on by half a symbol. */
    method Slide(ghost s: seq<real>, part: seq<real>)
      requires lastFrame.Length == NFFT && lastFrame[..] == Last(0.0, s, NFFT) && |part| == SUB_STEP
      modifies lastFrame
      ensures lastFrame[..] == Last(0.0, s + part, NFFT)
    {
      hide Last;
      ghost var was := lastFrame[..];
      forall i | 0 <= i < NFFT - SUB_STEP {
        lastFrame[i] := lastFrame[SUB_STEP + i];
      }
      forall i | NFFT - SUB_STEP <= i < NFFT {
        lastFrame[i] := part[i - (NFFT - SUB_STEP)];
      }
      assert forall i :: 0 <= i < NFFT - SUB_STEP ==> lastFrame[i] == was[SUB_STEP + i];
      forall i | 0 <= i < NFFT
        ensures lastFrame[i] == Last(0.0, s + part, NFFT)[i]
      {
        LastShifts(0.0, s, part, NFFT, i);
      }
    }

    method Write(off: nat, levels: seq<nat>)
      requires off + |levels| <= mag.Length
      modifies mag
      ensures mag[..] == old(mag[..])[..off] + levels + old(mag[..])[off + |levels|..]
    {
      ghost var was := mag[..];
      for i := 0 to |levels|
        invariant mag.Length == |was| && forall j: nat :: j < mag.Length ==>
          mag[j] == if off <= j < off + i then levels[j - off] else was[j]
      {
        mag[off + i] := levels[i];
      }
    }

    /** Consumes whole symbols. */
    method Feed(samples: seq<real>)
      requires Valid()
      modifies this`head, this`count, this`heard, lastFrame, mag
      ensures Valid() && heard == old(heard) + samples[..|samples| / SYMBOL * SYMBOL]
    {
      hide Holds, Last;
      var rest := samples;
      while |rest| >= SYMBOL
        invariant Valid() && |rest| <= |samples| && rest == samples[|samples| - |rest|..]
        invariant (|samples| - |rest|) % SYMBOL == 0 && heard == old(heard) + samples[..|samples| - |rest|]
        decreases |rest|
      {
        ProcessBlock(rest[..SYMBOL]);
        assert samples[..|samples| - |rest|] + rest[..SYMBOL] == samples[..|samples| - |rest| + SYMBOL];
        rest := rest[SYMBOL..];
      }
      assert |samples| - |rest| == |samples| / SYMBOL * SYMBOL;
    }
  }

  lemma HeadInRing(spectrum: Spectrum, heard: seq<real>, mag: seq<nat>, head: nat, count: nat)
    requires Holds(spectrum, heard, mag, head, count)
    ensures head < BLOCKS && |mag| == BLOCKS * STRIDE && |heard| == SYMBOL * (|heard| / SYMBOL)
  {}

  /** The two frames of a new block, as the stream's. */
  lemma HalfFrames(spectrum: Spectrum, heard: seq<real>, a: seq<real>, b: seq<real>)
    requires |a| == |b| == SUB_STEP && |heard| % SYMBOL == 0 && Spectral(spectrum)
    ensures var all := heard + (a + b);
            Last(0.0, heard + a, NFFT) == FrameAt(all, |heard| + SUB_STEP) &&
            Last(0.0, heard + a + b, NFFT) == FrameAt(all, |heard| + SYMBOL) &&
            Block(spectrum, all, |heard| / SYMBOL) ==
              spectrum(FrameAt(all, |heard| + SUB_STEP)) + spectrum(FrameAt(all, |heard| + SYMBOL)) &&
            |spectrum(FrameAt(all, |heard| + SUB_STEP))| == |spectrum(FrameAt(all, |heard| + SYMBOL))| == HALF
  {
    var all := heard + (a + b);
    assert all[..|heard| + SUB_STEP] == heard + a;
    assert all[..|heard| + SYMBOL] == heard + a + b;
    hide Last;
  }

  /** Two halves written side by side are one row. */
  lemma TwoHalves(m0: seq<nat>, m1: seq<nat>, m2: seq<nat>, p: nat, x: seq<nat>, y: seq<nat>)
    requires p < BLOCKS && |m0| == BLOCKS * STRIDE && |x| == |y| == HALF
    requires m1 == m0[..p * STRIDE] + x + m0[p * STRIDE + HALF..]
    requires m2 == m1[..p * STRIDE + HALF] + y + m1[p * STRIDE + HALF + HALF..]
    ensures RowWritten(m0, m2, p, x + y)
  {
    assert Row(m2, p) == x + y;
    forall q: nat | q < BLOCKS && q != p
      ensures Row(m2, q) == Row(m0, q)
    {
      forall j: nat | j < STRIDE
        ensures Row(m2, q)[j] == Row(m0, q)[j]
      {
        assert m2[STRIDE * q + j] == m0[STRIDE * q + j];
      }
    }
  }
}
