/** The best so many of the cells seen, by any score: what a search keeps. */
module Candidates {
  /** A place in the waterfall where a message may start. */
  datatype Cell = Cell(timeOff: nat, timeSub: nat, freqOff: nat, freqSub: nat)

  datatype Candidate = Candidate(cell: Cell, score: int)

  /** How far the search goes: blocks and bins there are, and how many steps
      each is split into. */
  datatype Grid = Grid(blocks: nat, bins: nat, timeOsr: nat, freqOsr: nat)

  predicate InGrid(g: Grid, c: Cell) {
    c.timeSub < g.timeOsr && c.freqSub < g.freqOsr && c.timeOff + 79 <= g.blocks && c.freqOff + 8 <= g.bins
  }

  /** The search comes to c before this position. */
  predicate Before(c: Cell, ts: nat, fs: nat, to: nat, fo: nat) {
    c.timeSub < ts || (c.timeSub == ts && (c.freqSub < fs || (c.freqSub == fs &&
      (c.timeOff < to || (c.timeOff == to && c.freqOff < fo)))))
  }

  predicate Qualifies(g: Grid, score: Cell -> int, minScore: int, c: Cell) {
    InGrid(g, c) && score(c) >= minScore
  }

  ghost predicate NoTwice(best: seq<Candidate>) {
    forall x :: multiset(best)[x] <= 1
  }

  /** The best so many of the qualifying cells that `seen` tells of. */
  ghost predicate BestOf(best: seq<Candidate>, g: Grid, score: Cell -> int, minScore: int, maxCand: nat,
                         seen: Cell -> bool) {
    NoTwice(best) && |best| <= maxCand &&
    (forall x :: x in best ==> Qualifies(g, score, minScore, x.cell) && seen(x.cell) && x.score == score(x.cell)) &&
    (forall c: Cell :: Qualifies(g, score, minScore, c) && seen(c) && Candidate(c, score(c)) !in best ==>
       |best| == maxCand && forall x :: x in best ==> score(c) <= x.score)
  }

  ghost predicate Descending(best: seq<Candidate>) {
    forall i, j :: 0 <= i < j < |best| ==> best[i].score >= best[j].score
  }

  // ---------- keeping the best ----------

  /** The least score there is. */
  method MinScoreOf(cs: seq<Candidate>) returns (m: int)
    requires cs != []
    ensures exists i :: 0 <= i < |cs| && cs[i].score == m
    ensures forall i :: 0 <= i < |cs| ==> m <= cs[i].score
  {
    m := cs[0].score;
    for k := 1 to |cs|
      invariant exists i :: 0 <= i < k && cs[i].score == m
      invariant forall i :: 0 <= i < k ==> m <= cs[i].score
    {
      if cs[k].score < m {
        m := cs[k].score;
      }
    }
  }

  method Weakest(best: seq<Candidate>) returns (wi: nat)
    requires best != []
    ensures wi < |best| && forall i :: 0 <= i < |best| ==> best[wi].score <= best[i].score
  {
    wi := 0;
    for i := 0 to |best|
      invariant wi < |best| && forall k :: 0 <= k < i ==> best[wi].score <= best[k].score
    {
      if best[i].score < best[wi].score {
        wi := i;
      }
    }
  }

  /** `seen`, and one cell more. */
  ghost predicate SeesOneMore(seen: Cell -> bool, more: Cell -> bool, c: Cell) {
    forall x: Cell :: more(x) <==> seen(x) || x == c
  }

  lemma Unqualified(best: seq<Candidate>, g: Grid, score: Cell -> int, minScore: int, maxCand: nat,
                    seen: Cell -> bool, more: Cell -> bool, c: Cell)
    requires BestOf(best, g, score, minScore, maxCand, seen) && SeesOneMore(seen, more, c) && score(c) < minScore
    ensures BestOf(best, g, score, minScore, maxCand, more)
  {}

  lemma Appended(best: seq<Candidate>, g: Grid, score: Cell -> int, minScore: int, maxCand: nat,
                 seen: Cell -> bool, more: Cell -> bool, c: Cell)
    requires BestOf(best, g, score, minScore, maxCand, seen) && SeesOneMore(seen, more, c) && !seen(c)
    requires Qualifies(g, score, minScore, c) && |best| < maxCand
    ensures BestOf(best + [Candidate(c, score(c))], g, score, minScore, maxCand, more)
  {
    var x := Candidate(c, score(c));
    assert x !in best;
    assert multiset(best + [x]) == multiset(best) + multiset{x};
  }

  lemma NotBetter(best: seq<Candidate>, g: Grid, score: Cell -> int, minScore: int, maxCand: nat,
                  seen: Cell -> bool, more: Cell -> bool, c: Cell)
    requires BestOf(best, g, score, minScore, maxCand, seen) && SeesOneMore(seen, more, c)
    requires |best| == maxCand && forall x :: x in best ==> score(c) <= x.score
    ensures BestOf(best, g, score, minScore, maxCand, more)
  {}

  lemma Replaced(best: seq<Candidate>, g: Grid, score: Cell -> int, minScore: int, maxCand: nat,
                 seen: Cell -> bool, more: Cell -> bool, c: Cell, wi: nat)
    requires BestOf(best, g, score, minScore, maxCand, seen) && SeesOneMore(seen, more, c) && !seen(c)
    requires Qualifies(g, score, minScore, c) && |best| == maxCand
    requires wi < |best| && forall i :: 0 <= i < |best| ==> best[wi].score <= best[i].score
    requires best[wi].score < score(c)
    ensures BestOf(best[wi := Candidate(c, score(c))], g, score, minScore, maxCand, more)
  {
    var x, r := Candidate(c, score(c)), best[wi := Candidate(c, score(c))];
    assert x !in best;
    ReplacedMembers(best, x, wi);
    hide NoTwice;
    assert best[wi] in best;
  }

  /** Putting a newcomer in the place of one of several candidates. */
  lemma ReplacedMembers(best: seq<Candidate>, x: Candidate, wi: nat)
    requires NoTwice(best) && wi < |best| && x !in best
    ensures var r := best[wi := x];
            NoTwice(r) && forall y :: y in r <==> y == x || (y in best && y != best[wi])
  {
    var r := best[wi := x];
    assert multiset(best)[best[wi]] == 1;
    assert multiset(r) == multiset(best) - multiset{best[wi]} + multiset{x};
    forall y
      ensures y in r <==> y == x || (y in best && y != best[wi])
    {
      assert y in r <==> y in multiset(r);
      assert y in best <==> y in multiset(best);
    }
  }

  // ---------- sorting ----------

  ghost predicate SortedTo(best: seq<Candidate>, n: nat) {
    n <= |best| && Descending(best[..n])
  }

  /** Sorted but that the j-th of the first n + 1 may belong further up. */
  ghost predicate SortedBut(best: seq<Candidate>, n: nat, j: nat) {
    j <= n < |best| &&
    forall h, k :: 0 <= h < k <= n && k != j ==> best[h].score >= best[k].score
  }

  lemma StartInsert(r: seq<Candidate>, n: nat)
    requires SortedTo(r, n) && n < |r|
    ensures SortedBut(r, n, n)
  {
    assert forall h :: 0 <= h < n ==> r[..n][h] == r[h];
  }

  lemma EndInsert(r: seq<Candidate>, n: nat, j: nat)
    requires SortedBut(r, n, j) && (j == 0 || r[j].score <= r[j - 1].score)
    ensures SortedTo(r, n + 1)
  {}

  function SwapUp(r: seq<Candidate>, j: nat): (t: seq<Candidate>)
    requires 0 < j < |r|
    ensures |t| == |r|
  {
    r[j := r[j - 1]][j - 1 := r[j]]
  }

  lemma SwapUpKeeps(r: seq<Candidate>, n: nat, j: nat)
    requires 0 < j && SortedBut(r, n, j) && r[j].score > r[j - 1].score
    ensures SortedBut(SwapUp(r, j), n, j - 1) && multiset(SwapUp(r, j)) == multiset(r)
  {}

  /** Strongest first. */
  method Sort(best: seq<Candidate>) returns (r: seq<Candidate>)
    ensures Descending(r) && multiset(r) == multiset(best)
  {
    r := best;
    var i := 1;
    assert |r| > 0 ==> SortedTo(r, 1);
    while i < |r|
      invariant 1 <= i && (i <= |r| || |r| == 0) && multiset(r) == multiset(best)
      invariant |r| > 0 ==> SortedTo(r, i)
    {
      hide SortedTo, SortedBut, SwapUp;
      var j := i;
      StartInsert(r, i);
      ghost var n := |r|;
      while j > 0 && r[j].score > r[j - 1].score
        invariant j <= i < |r| == n && multiset(r) == multiset(best) && SortedBut(r, i, j)
      {
        SwapUpKeeps(r, i, j);
        r := SwapUp(r, j);
        j := j - 1;
      }
      EndInsert(r, i, j);
      i := i + 1;
    }
    assert r[..|r|] == r;
  }

  // ---------- the search ----------

  /** Takes one cell into the running best. */
  method Offer(best: seq<Candidate>, c: Cell, s: int, maxCand: nat, worst: int)
    returns (best': seq<Candidate>, worst': int)
    requires maxCand >= 1 && |best| <= maxCand && s >= worst && forall x :: x in best ==> x.score >= worst
    ensures worst' == worst
    ensures |best| < maxCand ==> best' == best + [Candidate(c, s)]
    ensures |best| == maxCand ==>
              (best' == best && forall x :: x in best ==> s <= x.score) ||
              (exists wi: nat :: LeastAt(best, wi) && best[wi].score < s && best' == best[wi := Candidate(c, s)])
  {
    best', worst' := best, worst;
    if |best| < maxCand {
      best' := best + [Candidate(c, s)];
      if |best'| == maxCand {
        var m := MinScoreOf(best');
        var i :| 0 <= i < |best'| && best'[i].score == m;
        assert best'[i] in best';
        worst' := if worst < m then worst else m;
      }
      return;
    }
    var wi := Weakest(best);
    assert LeastAt(best, wi);
    if s > best[wi].score {
      best' := best[wi := Candidate(c, s)];
    } else {
      forall x | x in best
        ensures s <= x.score
      {
        var i :| 0 <= i < |best| && best[i] == x;
      }
    }
  }

  ghost predicate LeastAt(best: seq<Candidate>, wi: nat) {
    wi < |best| && forall i :: 0 <= i < |best| ==> best[wi].score <= best[i].score
  }

  /** What Offer leaves is the best with the cell seen. */
  lemma OfferKeepsBest(best: seq<Candidate>, best': seq<Candidate>, g: Grid, score: Cell -> int, minScore: int,
                       maxCand: nat, seen: Cell -> bool, more: Cell -> bool, c: Cell)
    requires BestOf(best, g, score, minScore, maxCand, seen) && SeesOneMore(seen, more, c) && !seen(c)
    requires Qualifies(g, score, minScore, c)
    requires |best| < maxCand ==> best' == best + [Candidate(c, score(c))]
    requires |best| == maxCand ==>
               (best' == best && forall x :: x in best ==> score(c) <= x.score) ||
               (exists wi: nat :: LeastAt(best, wi) && best[wi].score < score(c) &&
                                  best' == best[wi := Candidate(c, score(c))])
    ensures BestOf(best', g, score, minScore, maxCand, more)
  {
    if |best| < maxCand {
      Appended(best, g, score, minScore, maxCand, seen, more, c);
    } else if wi: nat :| LeastAt(best, wi) && best[wi].score < score(c) && best' == best[wi := Candidate(c, score(c))] {
      Replaced(best, g, score, minScore, maxCand, seen, more, c, wi);
    } else {
      NotBetter(best, g, score, minScore, maxCand, seen, more, c);
    }
  }

  lemma NoneYet(g: Grid, score: Cell -> int, minScore: int, maxCand: nat)
    ensures BestOf([], g, score, minScore, maxCand, x => Before(x, 0, 0, 0, 0))
  {}

  lemma BestFacts(best: seq<Candidate>, g: Grid, score: Cell -> int, minScore: int, maxCand: nat, seen: Cell -> bool)
    requires BestOf(best, g, score, minScore, maxCand, seen)
    ensures |best| <= maxCand && forall x :: x in best ==> x.score >= minScore
  {}

  /** Only cells of the grid matter. */
  lemma SameSeen(best: seq<Candidate>, g: Grid, score: Cell -> int, minScore: int, maxCand: nat,
                 seen: Cell -> bool, more: Cell -> bool)
    requires BestOf(best, g, score, minScore, maxCand, seen)
    requires forall x: Cell :: InGrid(g, x) ==> (seen(x) <==> more(x))
    ensures BestOf(best, g, score, minScore, maxCand, more)
  {}

  lemma Reordered(best: seq<Candidate>, r: seq<Candidate>, g: Grid, score: Cell -> int, minScore: int, maxCand: nat)
    requires BestOf(best, g, score, minScore, maxCand, _ => true) && multiset(r) == multiset(best)
    ensures BestOf(r, g, score, minScore, maxCand, _ => true)
  {
    assert |r| == |multiset(r)| == |multiset(best)| == |best|;
    assert forall x :: x in r <==> x in multiset(r);
    assert forall x :: x in best <==> x in multiset(best);
  }

  // ---------- how many ----------

  ghost function CellsOf(best: seq<Candidate>): (s: set<Cell>) {
    set i | 0 <= i < |best| :: best[i].cell
  }

  lemma LastApart(best: seq<Candidate>)
    requires best != [] && NoTwice(best)
    ensures var m := |best| - 1; NoTwice(best[..m]) && best[m] !in best[..m]
  {
    var m := |best| - 1;
    assert best == best[..m] + [best[m]];
    var rest := multiset(best[..m]);
    assert multiset(best) == rest + multiset{best[m]};
    assert forall y :: rest[y] <= multiset(best)[y];
    assert multiset(best)[best[m]] == rest[best[m]] + 1;
  }

  lemma LastCell(best: seq<Candidate>)
    requires best != []
    ensures var m := |best| - 1; CellsOf(best) == CellsOf(best[..m]) + {best[m].cell}
  {}

  lemma {:induction false} CellsCounted(best: seq<Candidate>, score: Cell -> int)
    requires NoTwice(best) && forall x :: x in best ==> x.score == score(x.cell)
    ensures |CellsOf(best)| == |best|
  {
    if best == [] {
    } else {
      var m := |best| - 1;
      LastApart(best);
      LastCell(best);
      hide NoTwice;
      CellsCounted(best[..m], score);
      assert best[m].cell !in CellsOf(best[..m]);
    }
  }

  /** As many as were asked for, or all there are. */
  lemma ExactCount(best: seq<Candidate>, g: Grid, score: Cell -> int, minScore: int, maxCand: nat, all: set<Cell>)
    requires BestOf(best, g, score, minScore, maxCand, _ => true)
    requires forall c: Cell :: c in all <==> Qualifies(g, score, minScore, c)
    ensures |best| == if |all| < maxCand then |all| else maxCand
  {
    CellsCounted(best, score);
    var kept := CellsOf(best);
    forall c | c in kept
      ensures c in all
    {
      var i :| 0 <= i < |best| && best[i].cell == c;
      assert best[i] in best;
    }
    Subset(kept, all);
    if |best| < maxCand {
      forall c | c in all
        ensures c in kept
      {
        assert Candidate(c, score(c)) in best;
      }
      assert kept == all;
    }
  }

  lemma Subset(a: set<Cell>, b: set<Cell>)
    requires a <= b
    ensures |a| <= |b|
  {
    assert b == a + (b - a);
  }
}
