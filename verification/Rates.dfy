/** Integer decimation plans: the intermediate rate for a capture rate, and the
    channel and audio factors below it. */
module Rates {
  import opened Arith

  function Distance(a: int, b: int): (d: nat) {
    if a < b then b - a else a - b
  }

  predicate Divides(d: nat, n: nat) {
    d > 0 && n % d == 0
  }

  lemma ProductDivides(d: nat, q: nat)
    requires d > 0
    ensures Divides(d, d * q) && d * q / d == q
  {
    DivExact(d, q);
  }

  lemma CoFactor(d: nat, n: nat)
    requires Divides(d, n)
    ensures n == d * (n / d)
  {}

  // ---------- the intermediate rate ----------

  /** What an intermediate rate must be. */
  predicate Usable(hz: nat, rate: nat) {
    Divides(rate, hz) && rate % 8000 == 0 && rate >= 32000
  }

  function Preferred(hz: nat): nat {
    if hz <= 640000 then hz / 4 else hz / 8
  }

  /** Nearest to the preferred rate, the higher of two as near. */
  ghost predicate NearestUsable(hz: nat, best: nat) {
    Usable(hz, best) &&
    forall r: nat :: Usable(hz, r) ==>
      Distance(best, Preferred(hz)) < Distance(r, Preferred(hz)) ||
      (Distance(best, Preferred(hz)) == Distance(r, Preferred(hz)) && r <= best)
  }

  /** An eighth of the capture rate, or a quarter up to 640000, whenever it will do. */
  lemma EighthOrQuarter(hz: nat, best: nat)
    requires NearestUsable(hz, best)
    ensures hz > 640000 && Usable(hz, hz / 8) ==> best == hz / 8
    ensures hz <= 640000 && Usable(hz, hz / 4) ==> best == hz / 4
  {
    hide Usable;
  }

  predicate Accepted(hz: int) {
    hz >= 256000 && hz % 32000 == 0
  }

  const FAR := 0x4000_0000_0000_0000

  /** The best of the rates hz / d with d below a bound. */
  ghost predicate BestBelow(hz: nat, bound: nat, best: nat, bestDist: nat) {
    (best == 0 ==> bestDist == FAR) &&
    (best != 0 ==> Usable(hz, best) && bestDist == Distance(best, Preferred(hz)) && bestDist <= FAR) &&
    forall d: nat :: 1 <= d < bound && Candidate(hz, d) ==> Beaten(hz, Quotient(hz, d), best, bestDist)
  }

  function Quotient(hz: nat, d: nat): nat
    requires d > 0
  {
    hz / d
  }

  /** A factor whose quotient is usable. */
  predicate Candidate(hz: nat, d: nat) {
    Divides(d, hz) && Usable(hz, Quotient(hz, d))
  }

  lemma CandidateIff(hz: nat, d: nat)
    requires hz > 0 && d > 0
    ensures Candidate(hz, d) <==> hz % d == 0 && Quotient(hz, d) % 8000 == 0 && Quotient(hz, d) >= 32000
  {
    if hz % d == 0 {
      UsableQuotient(hz, d);
    }
  }

  ghost predicate Beaten(hz: nat, r: nat, best: nat, bestDist: nat) {
    bestDist < Distance(r, Preferred(hz)) || (bestDist == Distance(r, Preferred(hz)) && r <= best)
  }

  /** A divisor of a divisor's co-factor kind: hz / d is usable just when its
      own size says so. */
  lemma UsableQuotient(hz: nat, d: nat)
    requires Divides(d, hz) && hz > 0
    ensures hz / d > 0 && Divides(hz / d, hz) && hz / (hz / d) == d
  {
    CoFactor(d, hz);
    var q := hz / d;
    hide Divides;
    PositiveFactor(d, q);
    MulCommutes(d, q);
    ProductDivides(q, d);
  }

  lemma MulCommutes(a: nat, b: nat)
    ensures a * b == b * a
  {}

  /** What one factor does to the best so far. */
  lemma NextFactor(hz: nat, d: nat, best: nat, bestDist: nat)
    requires hz > 0 && d >= 1 && BestBelow(hz, d, best, bestDist)
    ensures var if2 := Quotient(hz, d);
            var dist := Distance(if2, Preferred(hz));
            if !Candidate(hz, d) then BestBelow(hz, d + 1, best, bestDist)
            else if dist < bestDist || (dist == bestDist && if2 > best) then BestBelow(hz, d + 1, if2, dist)
            else BestBelow(hz, d + 1, best, bestDist)
  {
    hide Preferred, Candidate, Distance, Quotient, Usable;
    if Candidate(hz, d) {
      CandidateUsable(hz, d);
    }
  }

  lemma CandidateUsable(hz: nat, d: nat)
    requires d > 0 && Candidate(hz, d)
    ensures Usable(hz, Quotient(hz, d)) && Quotient(hz, d) != 0
  {}

  /** Walks every factor of a capture rate. */
  method NearestRate(hz: nat, prefer: nat) returns (best: nat)
    requires Accepted(hz) && hz < 0x8000_0000_0000_0000 && prefer == Preferred(hz)
    ensures best != 0 && best % 8000 == 0 && NearestUsable(hz, best)
  {
    hide Preferred, BestBelow, Usable, Candidate, Divides;
    var bestDist := FAR;
    best := 0;
    NoFactorYet(hz);
    for d := 1 to hz / 8000 + 1
      invariant bestDist >= 0 && BestBelow(hz, d, best, bestDist)
    {
      NextFactor(hz, d, best, bestDist);
      CandidateIff(hz, d);
      if hz % d != 0 {
        continue;
      }
      var if2 := hz / d;
      if if2 % 8000 != 0 || if2 < 32000 {
        continue;
      }
      var dist := if2 - prefer;
      if dist < 0 {
        dist := -dist;
      }
      if dist < bestDist || (dist == bestDist && if2 > best) {
        best, bestDist := if2, dist;
      }
    }
    NearestFound(hz, best, bestDist);
  }

  lemma NoFactorYet(hz: nat)
    ensures BestBelow(hz, 1, 0, FAR)
  {}

  lemma Quarters(n: nat)
    requires n % 8000 == 0
    ensures n / 4 * 4 == n && n / 2 * 2 == n
  {
    var k := n / 8000;
    assert n == 8000 * k;
    DivUnique(n, 4, 2000 * k, 0);
    DivUnique(n, 2, 4000 * k, 0);
  }

  /** The rates package's variables. */
  class Plan {
    var iqRate: nat
    var if2Rate: nat
    var audioRate: nat
    var displaySpanHz: nat

    /** Re-dimensions for a capture rate. */
    method SetIQRate(hz: int) returns (ok: bool)
      requires hz < 0x8000_0000_0000_0000
      modifies this
      ensures ok == Accepted(hz)
      ensures !ok ==> unchanged(this)
      ensures ok ==> iqRate == hz && NearestUsable(hz, if2Rate)
      ensures ok ==> audioRate * 4 == if2Rate && displaySpanHz * 2 == if2Rate
    {
      hide NearestUsable, Usable, Divides;
      if hz < 256000 || hz % 32000 != 0 {
        return false;
      }
      iqRate := hz;
      var prefer := hz / 8;
      if hz <= 640000 {
        prefer := hz / 4;
      }
      var best := NearestRate(hz, prefer);
      if best == 0 {
        best := prefer;
      }
      Quarters(best);
      if2Rate := best;
      audioRate := if2Rate / 4;
      displaySpanHz := if2Rate / 2;
      return true;
    }
  }

  /** Every accepted rate has 32 kHz to fall back on, so the search succeeds. */
  lemma NearestFound(hz: nat, best: nat, bestDist: nat)
    requires Accepted(hz) && hz < 0x8000_0000_0000_0000 && BestBelow(hz, hz / 8000 + 1, best, bestDist)
    ensures best != 0 && best % 8000 == 0 && NearestUsable(hz, best)
  {
    var d := hz / 32000;
    CoFactor(32000, hz);
    ProductDivides(d, 32000);
    assert Usable(hz, hz / d) && Candidate(hz, d);
    assert Distance(32000, Preferred(hz)) < FAR;
    assert Beaten(hz, Quotient(hz, d), best, bestDist);
    forall r: nat | Usable(hz, r)
      ensures Beaten(hz, r, best, bestDist)
    {
      UsableQuotient(hz, r);
      var e := hz / r;
      CoFactor(r, hz);
      ProductDivides(e, r);
      SmallFactor(hz, r, e);
      assert Candidate(hz, e) && Beaten(hz, Quotient(hz, e), best, bestDist);
    }
  }

  lemma SmallFactor(hz: nat, r: nat, e: nat)
    requires hz == r * e && r >= 32000
    ensures e <= hz / 8000
  {
    MulMonotone(32000, r, e);
  }

  // ---------- channel and audio factors ----------

  const AUDIO := 8000
  const CAP := 0x4000_0000

  /** A factor that leaves an exact multiple of the output rate. */
  predicate Exact(rate: nat, out: nat, d: nat) {
    Divides(d, rate) && Divides(out, Quotient(rate, d))
  }

  lemma ExactLeavesMultiple(rate: nat, out: nat, d: nat)
    requires rate > 0 && Exact(rate, out, d)
    ensures Divides(out, rate) && d <= rate / out
    ensures rate == d * (out * (rate / d / out)) && rate / d / out >= 1
  {
    var q := rate / d;
    CoFactor(d, rate);
    CoFactor(out, q);
    var m := q / out;
    assert rate == out * (d * m) by { Regroup(d, out, m); }
    ProductDivides(out, d * m);
    PositiveFactor(out, m);
    MulMonotone(1, m, d);
  }

  lemma PositiveFactor(a: nat, m: nat)
    requires a * m > 0
    ensures m >= 1
  {}

  lemma Regroup(d: nat, out: nat, m: nat)
    ensures d * (out * m) == out * (d * m)
  {}

  /** How far a factor takes the rate from where the preferred one does. */
  function Miss(rate: nat, prefer: nat, d: nat): (m: nat)
    requires prefer > 0 && d > 0
  {
    Distance(Quotient(rate, d), Quotient(rate, prefer))
  }

  /** The exact factor that comes closest, the larger of two as close, among
      those that miss by less than 2^30. */
  ghost predicate Closest(rate: nat, out: nat, prefer: nat, best: nat)
    requires prefer > 0 && best > 0
  {
    forall d: nat :: Exact(rate, out, d) ==>
      Miss(rate, prefer, d) >= CAP || Miss(rate, prefer, best) < Miss(rate, prefer, d) ||
      (Miss(rate, prefer, best) == Miss(rate, prefer, d) && d <= best)
  }

  ghost predicate ClosestBelow(rate: nat, out: nat, prefer: nat, bound: nat, best: nat, bestDist: nat)
    requires prefer > 0
  {
    best > 0 && bestDist <= CAP && (best == 1 || Exact(rate, out, best)) &&
    (bestDist < CAP ==> Exact(rate, out, best) && bestDist == Miss(rate, prefer, best)) &&
    forall d: nat :: d < bound && Exact(rate, out, d) ==>
      bestDist < Miss(rate, prefer, d) || (bestDist == Miss(rate, prefer, d) && d <= best)
  }

  lemma NextExact(rate: nat, out: nat, prefer: nat, d: nat, best: nat, bestDist: nat)
    requires prefer > 0 && d > 0 && ClosestBelow(rate, out, prefer, d, best, bestDist)
    ensures var dist := Miss(rate, prefer, d);
            if Exact(rate, out, d) && (dist < bestDist || (dist == bestDist && d > best))
            then ClosestBelow(rate, out, prefer, d + 1, d, dist)
            else ClosestBelow(rate, out, prefer, d + 1, best, bestDist)
  {
    hide Exact, Miss;
  }

  lemma ClosestFound(rate: nat, out: nat, prefer: nat, best: nat, bestDist: nat)
    requires rate > 0 && out > 0 && prefer > 0 && ClosestBelow(rate, out, prefer, rate / out + 1, best, bestDist)
    ensures Closest(rate, out, prefer, best)
    ensures if rate % out == 0 then Exact(rate, out, best) else best == 1
  {
    hide Miss;
    assert rate % out == 0 ==> Exact(rate, out, 1);
    forall d: nat | Exact(rate, out, d)
      ensures d < rate / out + 1
    {
      ExactLeavesMultiple(rate, out, d);
    }
    if best != 1 {
      ExactLeavesMultiple(rate, out, best);
    }
    hide Exact;
  }

  /** The channel factor: exact whenever the rate is a multiple of the output's. */
  method PickChDecim(rate: nat, out: nat, prefer: nat) returns (best: nat)
    requires rate > 0 && out > 0 && prefer > 0
    ensures best > 0 && Closest(rate, out, prefer, best)
    ensures if rate % out == 0 then Exact(rate, out, best) else best == 1
  {
    hide ClosestBelow, Closest;
    var bestDist: nat := CAP;
    best := 1;
    NoneBelow(rate, out, prefer);
    for d := 1 to rate / out + 1
      invariant best > 0 && ClosestBelow(rate, out, prefer, d, best, bestDist)
    {
      NextExact(rate, out, prefer, d, best, bestDist);
      if rate % d != 0 || rate / d % out != 0 {
        continue;
      }
      var dist: int := rate / d - rate / prefer;
      if dist < 0 {
        dist := -dist;
      }
      if dist < bestDist || (dist == bestDist && d > best) {
        best, bestDist := d, dist;
      }
    }
    ClosestFound(rate, out, prefer, best, bestDist);
  }

  lemma NoneBelow(rate: nat, out: nat, prefer: nat)
    requires prefer > 0
    ensures ClosestBelow(rate, out, prefer, 1, 1, CAP)
  {}

  /** The largest factor up to a mode's own that keeps the rate at the audio
      rate or above, 1 if none does. */
  ghost predicate Lowered(rate: nat, start: nat, d: nat) {
    1 <= d <= start && (d == 1 || Quotient(rate, d) >= AUDIO) &&
    forall e: nat :: d < e <= start ==> Quotient(rate, e) < AUDIO
  }

  method LowerFactor(rate: nat, start: nat) returns (d: nat)
    requires start >= 1
    ensures Lowered(rate, start, d)
  {
    hide Quotient;
    d := start;
    while Quotient(rate, d) < AUDIO && d > 1
      invariant 1 <= d <= start && forall e: nat :: d < e <= start ==> Quotient(rate, e) < AUDIO
      decreases d
    {
      d := d - 1;
    }
  }

  /** Below 2^30 nothing misses by so much, and closest is closest of all. */
  lemma ClosestOutright(rate: nat, out: nat, prefer: nat, best: nat)
    requires 0 < rate < CAP && prefer > 0 && best > 0 && Closest(rate, out, prefer, best)
    ensures forall d: nat :: Exact(rate, out, d) ==>
              Miss(rate, prefer, best) < Miss(rate, prefer, d) ||
              (Miss(rate, prefer, best) == Miss(rate, prefer, d) && d <= best)
  {
    forall d: nat | Exact(rate, out, d)
      ensures Miss(rate, prefer, d) < CAP
    {
      QuotientAtMost(rate, d);
      QuotientAtMost(rate, prefer);
    }
    hide Exact, Miss;
  }

  lemma QuotientAtMost(rate: nat, d: nat)
    requires d > 0
    ensures Quotient(rate, d) <= rate
  {
    MulMonotone(1, d, rate / d);
    assert rate == d * (rate / d) + rate % d;
  }

  /** The factors of the voice modes, from the intermediate rate down: the exact
      channel factor closest to the mode's own, lowered if need be. */
  method ChannelPlan(if2Rate: nat, nfm: bool) returns (chD: nat, chRate: nat, auD: nat, ghost prefer: nat)
    requires if2Rate >= 32000 && if2Rate % AUDIO == 0
    ensures Lowered(if2Rate, if nfm then 8 else 4, prefer)
    ensures chD > 0 && Exact(if2Rate, AUDIO, chD) && Closest(if2Rate, AUDIO, prefer, chD)
    ensures chRate == if2Rate / chD && auD == chRate / AUDIO && auD >= 1
  {
    hide Closest, Lowered, Exact;
    var start := LowerFactor(if2Rate, if nfm then 8 else 4);
    prefer := start;
    LoweredIsPositive(if2Rate, if nfm then 8 else 4, start);
    chD := PickChDecim(if2Rate, AUDIO, start);
    ExactLeavesMultiple(if2Rate, AUDIO, chD);
    chRate := if2Rate / chD;
    var ratio: int := chRate / AUDIO;
    if ratio < 1 {
      ratio := 1;
    }
    auD := ratio;
  }

  lemma LoweredIsPositive(rate: nat, start: nat, d: nat)
    requires Lowered(rate, start, d)
    ensures d >= 1
  {}

  /** The three decimations multiply out: 8 kHz audio, exactly. */
  lemma PlanIsExact(hz: nat, if2Rate: nat, chD: nat)
    requires Usable(hz, if2Rate) && Exact(if2Rate, AUDIO, chD)
    ensures hz / if2Rate * chD * (if2Rate / chD / AUDIO) * AUDIO == hz
  {
    CoFactor(if2Rate, hz);
    ExactLeavesMultiple(if2Rate, AUDIO, chD);
    var a, m := hz / if2Rate, if2Rate / chD / AUDIO;
    assert if2Rate == chD * (AUDIO * m);
    Multiplied(a, chD, m);
  }

  lemma Multiplied(a: nat, c: nat, m: nat)
    ensures a * c * m * AUDIO == (c * (AUDIO * m)) * a
  {
    assert c * (AUDIO * m) == c * m * AUDIO;
    assert a * c * m == c * m * a;
  }
}
