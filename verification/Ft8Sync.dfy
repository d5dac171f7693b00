/** What the sync score is for: a cell that carries the FT8 sync pattern scores
    the whole contrast, no cell scores more, and the search returns it first. */
module Ft8Sync {
  import opened Candidates
  import opened Waterfall

  /** The tone sent in each of a sync place's seven symbols. */
  function SyncTone(k: nat): (tone: nat)
    requires k < 7
    ensures tone < 7
  {
    match k
    case 0 => 3
    case 1 => 1
    case 2 => 4
    case 3 => 0
    case 4 => 6
    case 5 => 5
    case _ => 2
  }

  /** Block b has level hi on one tone of the cell and lo on its seven others. */
  ghost predicate Carries(block: seq<nat>, c: Cell, tone: nat, hi: nat, lo: nat) {
    |block| == STRIDE && Reachable(c) &&
    var first := c.timeSub * HALF + c.freqSub * BINS + c.freqOff;
    forall i: nat :: first <= i < first + 8 ==> block[i] == if i == first + tone then hi else lo
  }

  /** The cell's blocks carry the pattern from symbols 0, 36 and 72 on. */
  ghost predicate Synced(history: seq<seq<nat>>, c: Cell, hi: nat, lo: nat) {
    c.timeOff + 79 <= |history| &&
    forall b: nat, k: nat :: k < 7 && (b == c.timeOff + k || b == c.timeOff + 36 + k || b == c.timeOff + 72 + k) ==>
      Carries(history[b], c, SyncTone(k), hi, lo)
  }

  lemma ToneIsCostas(k: nat)
    requires k < 7
    ensures |COSTAS| == 7 && COSTAS[k] == SyncTone(k)
  {
    if
    case k == 0 =>
    case k == 1 =>
    case k == 2 =>
    case k == 3 =>
    case k == 4 =>
    case k == 5 =>
    case k == 6 =>
  }

  lemma LevelCarried(history: seq<seq<nat>>, c: Cell, hi: nat, lo: nat, m: nat, k: nat, tone: nat)
    requires Rows(history) && Synced(history, c, hi, lo) && m < 3 && k < 7 && tone < 8 && Reachable(c)
    ensures Level(history, c.timeOff + 36 * m + k, c, tone) == if tone == SyncTone(k) then hi else lo
  {
    hide SyncTone;
    assert Carries(history[c.timeOff + 36 * m + k], c, SyncTone(k), hi, lo);
  }

  /** How many neighbours symbol k of a place is compared with. */
  function Compared(k: nat): nat {
    (if k == 3 then 1 else 2) + (if k > 0 then 1 else 0) + (if k < 6 then 1 else 0)
  }

  /** Every comparison of a carried symbol shows the whole contrast. */
  lemma SymbolCarried(history: seq<seq<nat>>, c: Cell, hi: nat, lo: nat, m: nat, k: nat, t: Tally)
    requires Rows(history) && Reachable(c) && Synced(history, c, hi, lo) && m < 3 && k < 7
    ensures Symbol(history, c, c.timeOff + 36 * m + k, k, t)
         == Tally(t.sum + Compared(k) * (hi - lo), t.n + Compared(k))
  {
    hide Level, Rows, COSTAS, Synced;
    ToneIsCostas(k);
    ToneIsOther(k);
    SyncedFits(history, c, hi, lo);
    var tone := SyncTone(k);
    LevelCarried(history, c, hi, lo, m, k, tone);
    LevelCarried(history, c, hi, lo, m, k, tone + 1);
    if tone > 0 {
      LevelCarried(history, c, hi, lo, m, k, tone - 1);
    }
    if k > 0 {
      LevelCarried(history, c, hi, lo, m, k - 1, tone);
    }
    if k < 6 {
      LevelCarried(history, c, hi, lo, m, k + 1, tone);
    }
  }

  lemma ToneIsOther(k: nat)
    requires k < 7
    ensures SyncTone(k) == 0 <==> k == 3
    ensures k > 0 ==> SyncTone(k - 1) != SyncTone(k)
    ensures k < 6 ==> SyncTone(k + 1) != SyncTone(k)
  {}

  lemma SyncedFits(history: seq<seq<nat>>, c: Cell, hi: nat, lo: nat)
    requires Synced(history, c, hi, lo)
    ensures c.timeOff + 79 <= |history|
  {}

  /** How often the first i sync symbols are compared. */
  function Comparisons(i: nat): nat {
    if i == 0 then 0 else Comparisons(i - 1) + Compared((i - 1) % 7)
  }

  lemma NextComparisons(m: nat, k: nat)
    requires k < 7
    ensures Comparisons(7 * m + k + 1) == Comparisons(7 * m + k) + Compared(k)
  {
    hide Compared;
    assert (7 * m + k) % 7 == k;
  }

  lemma SevenMore(m: nat)
    ensures Comparisons(7 * m + 7) == Comparisons(7 * m) + 25
  {
    hide Comparisons;
    NextComparisons(m, 0);
    NextComparisons(m, 1);
    NextComparisons(m, 2);
    NextComparisons(m, 3);
    NextComparisons(m, 4);
    NextComparisons(m, 5);
    NextComparisons(m, 6);
  }

  lemma AllComparisons()
    ensures Comparisons(SYNC_SYMBOLS) == 75
  {
    hide Comparisons;
    SevenMore(0);
    SevenMore(1);
    SevenMore(2);
    NoComparisons();
  }

  lemma NoComparisons()
    ensures Comparisons(0) == 0
  {}

  lemma OneMoreTimes(n: nat, k: nat, d: int)
    ensures n * d + k * d == (n + k) * d
  {}

  lemma {:induction false} SymbolsCarried(history: seq<seq<nat>>, c: Cell, hi: nat, lo: nat, i: nat)
    requires Rows(history) && Reachable(c) && Synced(history, c, hi, lo) && i <= SYNC_SYMBOLS
    ensures Symbols(history, c, i) == Tally(Comparisons(i) * (hi - lo), Comparisons(i))
  {
    hide Symbol, Synced, Rows, Compared;
    if i == 0 {
    } else {
      var j := i - 1;
      SymbolsCarried(history, c, hi, lo, j);
      SymbolCarried(history, c, hi, lo, j / 7, j % 7, Symbols(history, c, j));
      OneMoreTimes(Comparisons(j), Compared(j % 7), hi - lo);
    }
  }

  /** A cell that carries the pattern scores the contrast: 75 comparisons, each
      of which shows all of it. */
  lemma SyncedScores(history: seq<seq<nat>>, c: Cell, hi: nat, lo: nat)
    requires Rows(history) && Reachable(c) && Synced(history, c, hi, lo)
    ensures Symbols(history, c, SYNC_SYMBOLS) == Tally(75 * (hi - lo), 75) && Score(history, c) == hi - lo
  {
    hide Symbols, Synced, Rows, Comparisons;
    SymbolsCarried(history, c, hi, lo, SYNC_SYMBOLS);
    AllComparisons();
    ScoreIs(history, c);
  }

  // ---------- no cell scores more ----------

  ghost predicate Between(history: seq<seq<nat>>, lo: nat, hi: nat) {
    forall b: nat, i: nat :: b < |history| && i < |history[b]| ==> lo <= history[b][i] <= hi
  }

  ghost predicate AtMost(t: Tally, d: int) {
    t.sum <= t.n * d
  }

  lemma PlusAtMost(t: Tally, x: int, d: int)
    requires AtMost(t, d) && x <= d
    ensures AtMost(Plus(t, x), d)
  {
    OneMoreTimes(t.n, 1, d);
  }

  lemma LevelBetween(history: seq<seq<nat>>, b: nat, c: Cell, tone: nat, lo: nat, hi: nat)
    requires Between(history, lo, hi) && Reachable(c) && tone < 8 && b < |history| && |history[b]| == STRIDE
    ensures lo <= Level(history, b, c, tone) <= hi
  {}

  lemma SymbolAtMost(history: seq<seq<nat>>, c: Cell, b: nat, k: nat, t: Tally, lo: nat, hi: nat)
    requires Rows(history) && Reachable(c) && k < 7 && Between(history, lo, hi) && AtMost(t, hi - lo)
    ensures AtMost(Symbol(history, c, b, k, t), hi - lo)
  {
    hide Level, COSTAS, Between, AtMost, Plus, SyncTone, Reachable;
    if b < |history| {
      assert |history[b]| == STRIDE && (b > 0 ==> |history[b - 1]| == STRIDE);
      assert b + 1 < |history| ==> |history[b + 1]| == STRIDE;
      ToneIsCostas(k);
      var tone := SyncTone(k);
      LevelBetween(history, b, c, tone, lo, hi);
      LevelBetween(history, b, c, tone + 1, lo, hi);
      var level := Level(history, b, c, tone);
      var t1 := t;
      if tone > 0 {
        LevelBetween(history, b, c, tone - 1, lo, hi);
        PlusAtMost(t1, level - Level(history, b, c, tone - 1), hi - lo);
        t1 := Plus(t1, level - Level(history, b, c, tone - 1));
      }
      PlusAtMost(t1, level - Level(history, b, c, tone + 1), hi - lo);
      t1 := Plus(t1, level - Level(history, b, c, tone + 1));
      if k > 0 && b > 0 {
        LevelBetween(history, b - 1, c, tone, lo, hi);
        PlusAtMost(t1, level - Level(history, b - 1, c, tone), hi - lo);
        t1 := Plus(t1, level - Level(history, b - 1, c, tone));
      }
      if k + 1 < 7 && b + 1 < |history| {
        LevelBetween(history, b + 1, c, tone, lo, hi);
        PlusAtMost(t1, level - Level(history, b + 1, c, tone), hi - lo);
      }
    }
  }

  lemma {:induction false} SymbolsAtMost(history: seq<seq<nat>>, c: Cell, i: nat, lo: nat, hi: nat)
    requires Rows(history) && Reachable(c) && i <= SYNC_SYMBOLS && Between(history, lo, hi)
    ensures AtMost(Symbols(history, c, i), hi - lo)
  {
    hide Symbol, Rows, Between;
    if i == 0 {
    } else {
      var j := i - 1;
      SymbolsAtMost(history, c, j, lo, hi);
      SymbolAtMost(history, c, c.timeOff + 36 * (j / 7) + j % 7, j % 7, Symbols(history, c, j), lo, hi);
    }
  }

  lemma MeanAtMost(sum: int, n: nat, d: nat)
    requires n > 0 && sum <= n * d
    ensures Quotient(sum, n) <= d
  {
    if sum >= 0 {
      var q := sum / n;
      assert sum == n * q + sum % n;
      assert n * (d - q) >= 0;
      NotBelow(n, d - q);
    }
  }

  lemma NotBelow(n: nat, x: int)
    requires n > 0 && n * x >= 0
    ensures x >= 0
  {}

  /** The mean of differences is at most the greatest there can be. */
  lemma ScoreAtMost(history: seq<seq<nat>>, c: Cell, lo: nat, hi: nat)
    requires Rows(history) && Reachable(c) && Between(history, lo, hi) && lo <= hi
    ensures Score(history, c) <= hi - lo
  {
    hide Symbols, Rows, Between, Quotient;
    SymbolsAtMost(history, c, SYNC_SYMBOLS, lo, hi);
    ScoreIs(history, c);
    var t := Symbols(history, c, SYNC_SYMBOLS);
    if t.n > 0 {
      MeanAtMost(t.sum, t.n, hi - lo);
    }
  }

  /** A search that would take that score comes back with a cell of it in front,
      and when it has room for all of them with the one that carries the pattern. */
  lemma SyncIsFound(history: seq<seq<nat>>, c: Cell, lo: nat, hi: nat, minScore: int, maxCand: nat,
                    r: seq<Candidate>)
    requires Rows(history) && Reachable(c) && Synced(history, c, hi, lo) && Between(history, lo, hi) && lo <= hi
    requires minScore <= hi - lo && maxCand >= 1
    requires BestOf(r, SearchGrid(|history|), ScoreOf(history), minScore, maxCand, _ => true) && Descending(r)
    ensures r != [] && r[0].score == hi - lo && Score(history, r[0].cell) == hi - lo
    ensures Candidate(c, hi - lo) in r || forall x :: x in r ==> x.score == hi - lo
  {
    SyncedFits(history, c, hi, lo);
    hide Synced, Score, Between, Rows;
    var g, score := SearchGrid(|history|), ScoreOf(history);
    SyncedScores(history, c, hi, lo);
    assert Qualifies(g, score, minScore, c);
    forall x | x in r
      ensures Reachable(x.cell) && x.score == Score(history, x.cell) <= hi - lo
    {
      assert Qualifies(g, score, minScore, x.cell);
      ScoreAtMost(history, x.cell, lo, hi);
    }
    if Candidate(c, hi - lo) in r {
      var i :| 0 <= i < |r| && r[i] == Candidate(c, hi - lo);
      assert r[0].score >= r[i].score;
    } else {
      assert |r| == maxCand;
      assert r[0] in r;
    }
  }
}
