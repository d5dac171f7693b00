/** One tracked aircraft: its position reports, the fix made of a fresh pair,
    and the trail of where it has been. */
module Planes {
  import opened Options
  import opened Arith
  import opened Octets
  import opened Cpr
  import opened CprLon

  const SECOND := 1000000000

  /** One report: two 17-bit fields and when it came. */
  datatype CprPos = CprPos(lat: nat, lon: nat, at: int)

  datatype Position = Position(lat: real, lon: real)

  datatype TrailPt = TrailPt(lat: real, lon: real, altFt: int, at: int)

  // ---------- the fix ----------

  function PairLat(even: CprPos, odd: CprPos, latestOdd: bool): real {
    if latestOdd then OddLat(even.lat, odd.lat) else EvenLat(even.lat, odd.lat)
  }

  /** The pair is in range and its two latitudes have one zone count. */
  ghost predicate Consistent(even: CprPos, odd: CprPos) {
    InRange(even.lat, odd.lat) && Nl(EvenLat(even.lat, odd.lat)) == Nl(OddLat(even.lat, odd.lat))
  }

  /** A position that a pair decodes to; its longitude is the raw one, whole
      turns aside. */
  ghost predicate Fixes(even: CprPos, odd: CprPos, latestOdd: bool, p: Position) {
    Consistent(even, odd) && p.lat == PairLat(even, odd, latestOdd) && -180.0 <= p.lon <= 180.0 &&
    exists k: int :: Turned(p.lon, RawLon(Nl(p.lat), even.lon, odd.lon, latestOdd), k)
  }

  ghost predicate Turned(lon: real, raw: real, k: int) {
    lon == raw + 360.0 * k as real
  }

  lemma LatsAre(even: CprPos, odd: CprPos)
    ensures var j := LatIndex(even.lat, odd.lat);
            360.0 / (4 * 15) as real * (SignedMod(j, 60) as real + Fraction(even.lat)) == EvenLat(even.lat, odd.lat) &&
            360.0 / (4 * 15 - 1) as real * (SignedMod(j, 59) as real + Fraction(odd.lat)) == OddLat(even.lat, odd.lat)
  {
    hide SignedMod, LatIndex, Fraction;
  }

  lemma RawLonIs(nl: int, even: CprPos, odd: CprPos, latestOdd: bool, ni: nat)
    requires ni == LonZones(nl, latestOdd)
    ensures var m := LonIndex(nl, even.lon, odd.lon);
            360.0 / ni as real * (SignedMod(m, ni) as real + Fraction(if latestOdd then odd.lon else even.lon))
            == RawLon(nl, even.lon, odd.lon, latestOdd)
  {
    hide SignedMod, LonIndex, Fraction;
  }

  method GlobalFix(even: CprPos, odd: CprPos, latestOdd: bool) returns (fix: Option<Position>)
    ensures fix.Some? <==> Consistent(even, odd)
    ensures fix.Some? ==> Fixes(even, odd, latestOdd, fix.value)
  {
    hide Nl, SignedMod, LatIndex, LonIndex, EvenLat, OddLat, Fraction, RawLon;
    LatsAre(even, odd);
    var dlat0, dlat1 := 360.0 / (4 * 15) as real, 360.0 / (4 * 15 - 1) as real;
    var j := LatIndex(even.lat, odd.lat);
    var rlat0 := dlat0 * (SignedMod(j, 60) as real + Fraction(even.lat));
    var rlat1 := dlat1 * (SignedMod(j, 59) as real + Fraction(odd.lat));
    if rlat0 < -90.0 || rlat0 > 90.0 || rlat1 < -90.0 || rlat1 > 90.0 {
      return None;
    }
    var nl0 := ComputeNl(rlat0);
    var nl1 := ComputeNl(rlat1);
    if nl0 != nl1 {
      return None;
    }
    var lat, i := rlat0, 0;
    if latestOdd {
      lat, i := rlat1, 1;
    }
    var nl := ComputeNl(lat);
    var ni := nl - i;
    if ni < 1 {
      ni := 1;
    }
    var dlon := 360.0 / ni as real;
    var m := LonIndex(nl, even.lon, odd.lon);
    var raw := dlon * (SignedMod(m, ni) as real + Fraction(if latestOdd then odd.lon else even.lon));
    RawLonIs(nl, even, odd, latestOdd, ni);
    var lon, k := WrapLon(raw);
    assert Turned(lon, raw, k);
    return Some(Position(lat, lon));
  }

  // ---------- what the encoder meant ----------

  /** The latitude a frame's own fields stand for, which sets its zone count. */
  ghost function Recovered(lat: real, odd: bool): real {
    var d := if odd then DLAT1 else DLAT0;
    d * (Cell(lat / d) as real / CELLS as real)
  }

  /** An encoded position report. */
  ghost function Frame(lat: real, lon: real, odd: bool, at: int): CprPos {
    CprPos(if odd then OddLatField(lat) else EvenLatField(lat), LonField(lon, Nl(Recovered(lat, odd)), odd), at)
  }

  /** In range, the decoder's latitudes are the recovered ones. */
  lemma LatitudesRecovered(lat0: real, lat1: real)
    requires NearBy(lat0, lat1) && InRange(EvenLatField(lat0), OddLatField(lat1))
    ensures EvenLat(EvenLatField(lat0), OddLatField(lat1)) == Recovered(lat0, false)
    ensures OddLat(EvenLatField(lat0), OddLatField(lat1)) == Recovered(lat1, true)
  {
    PairDecoded(lat0, lat1);
    hide Cell, ZoneOf, Encode17, LatIndex, SignedMod, EvenLatField, OddLatField, PairOfCells;
    var f0, f1 := EvenLatField(lat0), OddLatField(lat1);
    assert 131072.0 * Fraction(f0) == f0 as real && 131072.0 * Fraction(f1) == f1 as real;
  }

  /** A fix made of the frames of two positions near each other is the newer
      one, to half a 17-bit cell of its frame's grid. */
  lemma PositionSound(p0: Position, p1: Position, latestOdd: bool, at0: int, at1: int, k: int, p: Position)
      returns (t: int)
    requires NearBy(p0.lat, p1.lat)
    requires NearLon(p0.lon, p1.lon, Nl(Recovered(if latestOdd then p1.lat else p0.lat, latestOdd)), k)
    requires Fixes(Frame(p0.lat, p0.lon, false, at0), Frame(p1.lat, p1.lon, true, at1), latestOdd, p)
    ensures var d := if latestOdd then DLAT1 else DLAT0;
            -d / 262144.0 <= p.lat - (if latestOdd then p1.lat else p0.lat) <= d / 262144.0
    ensures WithinHalfCell(p.lon, if latestOdd then p1.lon else p0.lon, LonWidth(Nl(p.lat), latestOdd), t)
  {
    LatitudeSound(p0.lat, p1.lat);
    LatitudesRecovered(p0.lat, p1.lat);
    hide EvenLatField, OddLatField, InRange, Nl, Recovered, EvenLat, OddLat, LonField, LonWidth, RawLon, NearLon;
    var n := Nl(p.lat);
    var even, odd := Frame(p0.lat, p0.lon, false, at0), Frame(p1.lat, p1.lon, true, at1);
    var s := LongitudeSound(p0.lon, p1.lon, n, k, latestOdd);
    var j :| Turned(p.lon, RawLon(n, even.lon, odd.lon, latestOdd), j);
    t := s + j;
  }

  /** In particular an aircraft that has moved a twentieth of a degree each way at
      most, whatever its zone count, is where its newer frame says. */
  lemma MovedLittle(p0: Position, p1: Position, latestOdd: bool, at0: int, at1: int, k: int, p: Position)
      returns (t: int)
    requires NearBy(p0.lat, p1.lat) && -0.05 <= p0.lon - p1.lon - 360.0 * k as real <= 0.05
    requires Fixes(Frame(p0.lat, p0.lon, false, at0), Frame(p1.lat, p1.lon, true, at1), latestOdd, p)
    ensures var d := if latestOdd then DLAT1 else DLAT0;
            -d / 262144.0 <= p.lat - (if latestOdd then p1.lat else p0.lat) <= d / 262144.0
    ensures WithinHalfCell(p.lon, if latestOdd then p1.lon else p0.lon, LonWidth(Nl(p.lat), latestOdd), t)
  {
    hide *;
    TwentiethIsNear(p0.lon, p1.lon, Nl(Recovered(if latestOdd then p1.lat else p0.lat, latestOdd)), k);
    t := PositionSound(p0, p1, latestOdd, at0, at1, k, p);
  }

  // ---------- the bits of a report ----------

  /** An airborne position message: 12 altitude bits, parity and two fields
      around a type byte, the rest zero. */
  function PackReport(kind: byte, ac: nat, odd: bool, lat: nat, lon: nat): (me: seq<byte>)
    requires ac < 4096 && lat < CELLS && lon < CELLS
    ensures |me| == 7
  {
    [kind, ac / 16, ac % 16 * 16 + (if odd then 4 else 0) + lat / 32768, lat / 128 % 256,
     lat % 128 * 2 + lon / 65536, lon / 256 % 256, lon % 256]
  }

  function AltitudeBits(me: seq<byte>): (ac: nat)
    requires |me| == 7
  {
    var b1: int := me[1];
    b1 * 16 + me[2] / 16
  }

  predicate IsOdd(me: seq<byte>)
    requires |me| == 7
  {
    me[2] / 4 % 2 == 1
  }

  function LatBits(me: seq<byte>): (f: nat)
    requires |me| == 7
    ensures f < CELLS
  {
    var b2: int, b3: int := me[2], me[3];
    b2 % 4 * 32768 + b3 * 128 + me[4] / 2
  }

  function LonBits(me: seq<byte>): (f: nat)
    requires |me| == 7
    ensures f < CELLS
  {
    var b4: int, b5: int := me[4], me[5];
    b4 % 2 * 65536 + b5 * 256 + me[6]
  }

  lemma ReportRoundTrip(kind: byte, ac: nat, odd: bool, lat: nat, lon: nat)
    requires ac < 4096 && lat < CELLS && lon < CELLS
    ensures var me := PackReport(kind, ac, odd, lat, lon);
            AltitudeBits(me) == ac && IsOdd(me) == odd && LatBits(me) == lat && LonBits(me) == lon
  {
    ThreeInOne(ac % 16, if odd then 1 else 0, lat / 32768);
    TwoInOne(lat % 128, lon / 65536);
    FieldInBytes(lat, lon);
  }

  lemma ThreeInOne(a: nat, o: nat, l: nat)
    requires a < 16 && o < 2 && l < 4
    ensures var b := a * 16 + o * 4 + l; b / 16 == a && b / 4 % 2 == o && b % 4 == l
  {}

  lemma TwoInOne(a: nat, o: nat)
    requires o < 2
    ensures (a * 2 + o) / 2 == a && (a * 2 + o) % 2 == o
  {}

  lemma FieldInBytes(lat: nat, lon: nat)
    ensures lat == lat / 32768 * 32768 + lat / 128 % 256 * 128 + lat % 128
    ensures lon == lon / 65536 * 65536 + lon / 256 % 256 * 256 + lon % 256
  {
    TwoDigits(lat, 128);
    TwoDigits(lon, 256);
  }

  /** Dividing by b and then by 256 is dividing by both at once. */
  lemma TwoDigits(n: nat, b: nat)
    requires b == 128 || b == 256
    ensures n == n / (256 * b) * (256 * b) + n / b % 256 * b + n % b
  {
    var q, r := n / b, n % b;
    var h, m := q / 256, q % 256;
    assert n == b * q + r && q == 256 * h + m;
    DivUnique(n, 256 * b, h, m * b + r);
  }

  /** The report as one 56-bit number, and its fields as parts of that. */
  function Number(me: seq<byte>): (m: nat)
    requires |me| == 7
  {
    var b0: int, b1: int, b2: int, b3: int := me[0], me[1], me[2], me[3];
    var b4: int, b5: int, b6: int := me[4], me[5], me[6];
    ((((((b0 * 256 + b1) * 256 + b2) * 256 + b3) * 256 + b4) * 256 + b5) * 256) + b6
  }

  /** A number in three parts, the lower two of 17 bits. */
  lemma ThreeParts(n: nat, top: nat, mid: nat, low: nat)
    requires n == (top * 0x2_0000 + mid) * 0x2_0000 + low && mid < 0x2_0000 && low < 0x2_0000
    ensures n % 0x2_0000 == low && n / 0x2_0000 % 0x2_0000 == mid && n / 0x4_0000_0000 == top
  {
    DivUnique(n, 0x2_0000, top * 0x2_0000 + mid, low);
    DivUnique(top * 0x2_0000 + mid, 0x2_0000, top, mid);
    DivUnique(n, 0x4_0000_0000, top, mid * 0x2_0000 + low);
  }

  lemma Halves(b4: nat, b5: nat, b6: nat)
    ensures b4 * 65536 + b5 * 256 + b6 == b4 / 2 * 0x2_0000 + (b4 % 2 * 65536 + b5 * 256 + b6)
  {}

  lemma Quarters(b2: nat, b3: nat, b4: nat)
    requires b3 < 256 && b4 < 256
    ensures b2 * 32768 + b3 * 128 + b4 / 2 == b2 / 4 * 0x2_0000 + (b2 % 4 * 32768 + b3 * 128 + b4 / 2)
    ensures b2 % 4 * 32768 + b3 * 128 + b4 / 2 < 0x2_0000
  {}

  lemma TopParts(b0: nat, b1: nat, b2: nat)
    requires b1 < 256 && b2 < 256
    ensures var top := (b0 * 256 + b1) * 64 + b2 / 4;
            top % 2 == b2 / 4 % 2 && top / 4 == (b0 * 256 + b1) * 16 + b2 / 16
  {}

  lemma NumberParts(me: seq<byte>)
    requires |me| == 7
    ensures var top := (me[0] as int * 256 + me[1]) * 64 + me[2] / 4;
            Number(me) == (top * 0x2_0000 + LatBits(me)) * 0x2_0000 + LonBits(me)
  {
    Halves(me[4], me[5], me[6]);
    Quarters(me[2], me[3], me[4]);
  }

  lemma FieldsOfNumber(me: seq<byte>)
    requires |me| == 7
    ensures LonBits(me) == Number(me) % 0x2_0000
    ensures LatBits(me) == Number(me) / 0x2_0000 % 0x2_0000
    ensures IsOdd(me) <==> Number(me) / 0x4_0000_0000 % 2 == 1
    ensures AltitudeBits(me) == Number(me) / 0x4_0000_0000 / 4 % 0x1000
  {
    NumberParts(me);
    TopParts(me[0], me[1], me[2]);
    hide Number, LatBits, LonBits;
    var b0: int, b1: int, b2: int := me[0], me[1], me[2];
    var top := (b0 * 256 + b1) * 64 + b2 / 4;
    ThreeParts(Number(me), top, LatBits(me), LonBits(me));
    assert top / 4 == b0 * 0x1000 + (b1 * 16 + b2 / 16);
  }

  /** The altitude in 25-foot steps from 1000 feet below zero, the step bit
      (bit 4) squeezed out; without it the altitude stays as it was. */
  function Altitude(ac: nat, was: int): int {
    if ac / 16 % 2 == 1 then (ac % 16 + ac / 32 * 16) * 25 - 1000 else was
  }

  /** Every multiple of 25 feet up to 50175 can be said. */
  lemma AltitudeRoundTrip(n: nat, was: int)
    requires n < 2048
    ensures Altitude(n / 16 * 32 + 16 + n % 16, was) == 25 * n - 1000
  {
    var ac := n / 16 * 32 + 16 + n % 16;
    assert ac / 32 == n / 16 && ac % 16 == n % 16 && ac / 16 == n / 16 * 2 + 1;
  }

  // ---------- the trail ----------

  /** Dots in order of time, five seconds or more apart. */
  ghost predicate Spaced(trail: seq<TrailPt>) {
    forall i, j :: 0 <= i < j < |trail| ==> trail[j].at - trail[i].at >= 5 * SECOND * (j - i)
  }

  ghost predicate NoneAfter(trail: seq<TrailPt>, now: int) {
    forall i :: 0 <= i < |trail| ==> trail[i].at <= now
  }

  /** How many dots at the front are five minutes old. */
  function Stale(trail: seq<TrailPt>, now: int): (n: nat)
    ensures n <= |trail| && forall i :: 0 <= i < n ==> trail[i].at <= now - 300 * SECOND
    ensures n < |trail| ==> trail[n].at > now - 300 * SECOND
  {
    if trail == [] || trail[0].at > now - 300 * SECOND then 0 else 1 + Stale(trail[1..], now)
  }

  function Latest(trail: seq<TrailPt>, n: nat): seq<TrailPt> {
    if |trail| > n then trail[|trail| - n..] else trail
  }

  /** The trail after a fix. */
  function Marked(trail: seq<TrailPt>, dot: TrailPt): (r: seq<TrailPt>) {
    Longer(trail, dot)[Stale(Longer(trail, dot), dot.at)..]
  }

  method Mark(trail: seq<TrailPt>, dot: TrailPt) returns (r: seq<TrailPt>)
    requires Spaced(trail) && NoneAfter(trail, dot.at)
    ensures r == Marked(trail, dot)
  {
    r := trail;
    if |r| == 0 || dot.at - r[|r| - 1].at >= 5 * SECOND {
      r := r + [dot];
    }
    r := DropStale(r, dot.at);
    TrailKept(trail, dot);
    r := Latest(r, 70);
  }

  method DropStale(trail: seq<TrailPt>, now: int) returns (r: seq<TrailPt>)
    ensures r == trail[Stale(trail, now)..]
  {
    var cut := now - 300 * SECOND;
    var drop := 0;
    while drop < |trail| && trail[drop].at <= cut
      invariant drop <= |trail| && drop + Stale(trail[drop..], now) == Stale(trail, now)
    {
      assert trail[drop..][1..] == trail[drop + 1..];
      drop := drop + 1;
    }
    r := if drop > 0 then trail[drop..] else trail;
  }

  function Longer(trail: seq<TrailPt>, dot: TrailPt): seq<TrailPt> {
    if trail == [] || dot.at - trail[|trail| - 1].at >= 5 * SECOND then trail + [dot] else trail
  }

  lemma LongerSpaced(trail: seq<TrailPt>, dot: TrailPt)
    requires Spaced(trail) && NoneAfter(trail, dot.at)
    ensures Spaced(Longer(trail, dot)) && NoneAfter(Longer(trail, dot), dot.at)
  {
    var r := Longer(trail, dot);
    forall i, j | 0 <= i < j < |r|
      ensures r[j].at - r[i].at >= 5 * SECOND * (j - i)
    {
      if j == |trail| {
        var last := |trail| - 1;
        assert i < last ==> trail[last].at - trail[i].at >= 5 * SECOND * (last - i);
      }
    }
  }

  /** A trail stays spaced, inside five minutes, and at most 60 dots long: the
      cut to the latest 70 never takes anything. */
  lemma TrailKept(trail: seq<TrailPt>, dot: TrailPt)
    requires Spaced(trail) && NoneAfter(trail, dot.at)
    ensures var r := Marked(trail, dot);
            Spaced(r) && NoneAfter(r, dot.at) && |r| <= 60 && Latest(r, 70) == r &&
            forall i :: 0 <= i < |r| ==> r[i].at > dot.at - 300 * SECOND
  {
    LongerSpaced(trail, dot);
    FreshKept(Longer(trail, dot), dot.at);
  }

  lemma SpacedFrom(trail: seq<TrailPt>, n: nat, now: int)
    requires Spaced(trail) && NoneAfter(trail, now) && n <= |trail|
    ensures Spaced(trail[n..]) && NoneAfter(trail[n..], now)
  {
    var r := trail[n..];
    forall i, j | 0 <= i < j < |r|
      ensures r[j].at - r[i].at >= 5 * SECOND * (j - i)
    {
      assert trail[n + j].at - trail[n + i].at >= 5 * SECOND * (n + j - (n + i));
    }
  }

  /** Dots five seconds apart that begin inside five minutes. */
  lemma FewFresh(r: seq<TrailPt>, now: int, i: nat)
    requires Spaced(r) && NoneAfter(r, now) && i < |r| && r[0].at > now - 300 * SECOND
    ensures i < 60 && r[i].at > now - 300 * SECOND
  {
    assert i > 0 ==> r[i].at - r[0].at >= 5 * SECOND * (i - 0);
  }

  lemma FreshKept(trail: seq<TrailPt>, now: int)
    requires Spaced(trail) && NoneAfter(trail, now)
    ensures var r := trail[Stale(trail, now)..];
            Spaced(r) && NoneAfter(r, now) && |r| <= 60 &&
            forall i :: 0 <= i < |r| ==> r[i].at > now - 300 * SECOND
  {
    var n := Stale(trail, now);
    var r := trail[n..];
    hide *;
    SpacedFrom(trail, n, now);
    if r != [] {
      FewFresh(r, now, |r| - 1);
    }
    forall i | 0 <= i < |r|
      ensures r[i].at > now - 300 * SECOND
    {
      FewFresh(r, now, i);
    }
  }

  /** The dots later than a time. */
  function Younger(trail: seq<TrailPt>, cut: int): (r: seq<TrailPt>) {
    if trail == [] then [] else (if trail[0].at > cut then [trail[0]] else []) + Younger(trail[1..], cut)
  }

  /** A dot is due when there is none yet or the last is five seconds old. */
  predicate Due(trail: seq<TrailPt>, now: int) {
    trail == [] || now - trail[|trail| - 1].at >= 5 * SECOND
  }

  lemma {:induction false} AllYounger(trail: seq<TrailPt>, cut: int)
    requires forall i :: 0 <= i < |trail| ==> trail[i].at > cut
    ensures Younger(trail, cut) == trail
  {
    if trail == [] {
    } else {
      AllYounger(trail[1..], cut);
    }
  }

  /** Of a spaced trail what is not stale is what is younger. */
  lemma {:induction false} FreshIsYounger(trail: seq<TrailPt>, now: int)
    requires Spaced(trail)
    ensures trail[Stale(trail, now)..] == Younger(trail, now - 300 * SECOND)
  {
    if trail == [] {
    } else if trail[0].at > now - 300 * SECOND {
      forall i | 0 <= i < |trail|
        ensures trail[i].at > now - 300 * SECOND
      {
        assert i > 0 ==> trail[i].at - trail[0].at >= 5 * SECOND * (i - 0);
      }
      AllYounger(trail, now - 300 * SECOND);
    } else {
      SpacedTail(trail);
      FreshIsYounger(trail[1..], now);
    }
  }

  lemma SpacedTail(trail: seq<TrailPt>)
    requires Spaced(trail) && trail != []
    ensures Spaced(trail[1..])
  {
    forall i, j | 0 <= i < j < |trail| - 1
      ensures trail[1..][j].at - trail[1..][i].at >= 5 * SECOND * (j - i)
    {
      assert trail[1 + j].at - trail[1 + i].at >= 5 * SECOND * (1 + j - (1 + i));
    }
  }

  lemma {:induction false} YoungerThenDot(trail: seq<TrailPt>, dot: TrailPt, cut: int)
    ensures Younger(trail + [dot], cut) == Younger(trail, cut) + if dot.at > cut then [dot] else []
  {
    if trail == [] {
      assert trail + [dot] == [dot] && [dot][1..] == [];
    } else {
      assert (trail + [dot])[1..] == trail[1..] + [dot];
      YoungerThenDot(trail[1..], dot, cut);
    }
  }

  /** A fix leaves the dots younger than five minutes and lays its own when one
      is due. */
  lemma DotsKeptAndLaid(trail: seq<TrailPt>, dot: TrailPt)
    requires Spaced(trail) && NoneAfter(trail, dot.at)
    ensures Marked(trail, dot)
         == Younger(trail, dot.at - 300 * SECOND) + if Due(trail, dot.at) then [dot] else []
  {
    hide Spaced, Younger, Stale;
    LongerSpaced(trail, dot);
    FreshIsYounger(Longer(trail, dot), dot.at);
    YoungerThenDot(trail, dot, dot.at - 300 * SECOND);
  }

  // ---------- the aircraft ----------

  /** What came of a report. */
  datatype Outcome = NoPair | NoFix | TooFast | Fixed

  class Plane {
    var altFt: int
    var even: Option<CprPos>
    var odd: Option<CprPos>
    var lat: real
    var lon: real
    var hasPos: bool
    var posAt: int
    var trail: seq<TrailPt>
    ghost var clock: int

    ghost predicate Valid()
      reads this
    {
      Spaced(trail) && NoneAfter(trail, clock) && |trail| <= 60
    }

    constructor ()
      ensures Valid() && !hasPos && even == None && odd == None && trail == []
    {
      altFt, even, odd, lat, lon, hasPos, posAt, trail := 0, None, None, 0.0, 0.0, false, 0, [];
    }

    /** Both parities are here, ten seconds apart at most. */
    predicate Paired()
      reads this
    {
      even.Some? && odd.Some? && -10 * SECOND <= even.value.at - odd.value.at <= 10 * SECOND
    }

    /** Makes a fix of the two latest reports if they allow one.  `speed` is
        the ground speed in knots between two places so far apart in time. */
    method GlobalDecode(latestOdd: bool, now: int, speed: (real, real, real, real, int) -> real)
      returns (outcome: Outcome)
      requires Valid() && clock <= now
      modifies this
      ensures Valid() && clock == now && altFt == old(altFt)
      ensures outcome == NoPair <==> !old(Paired())
      ensures outcome == NoFix <==> old(Paired()) && !Consistent(old(even.value), old(odd.value))
      ensures outcome != Fixed ==>
                lat == old(lat) && lon == old(lon) && hasPos == old(hasPos) && posAt == old(posAt) &&
                trail == old(trail)
      ensures outcome != TooFast ==> even == old(even) && odd == old(odd)
      ensures outcome == TooFast ==>
                old(hasPos) &&
                (exists p :: Fixes(old(even.value), old(odd.value), latestOdd, p) &&
                             speed(lat, lon, p.lat, p.lon, now - posAt) > 1200.0) &&
                if old(even.value.at < odd.value.at)
                then even == None && odd == old(odd)
                else even == old(even) && odd == None
      ensures outcome == Fixed ==>
                Fixes(old(even.value), old(odd.value), latestOdd, Position(lat, lon)) && hasPos && posAt == now &&
                (old(hasPos) ==> speed(old(lat), old(lon), lat, lon, now - old(posAt)) <= 1200.0) &&
                trail == Younger(old(trail), now - 300 * SECOND) +
                         (if Due(old(trail), now) then [TrailPt(lat, lon, altFt, now)] else [])
    {
      hide Consistent, Younger, Due, Spaced;
      clock := now;
      if even.None? || odd.None? {
        return NoPair;
      }
      var d := even.value.at - odd.value.at;
      if d > 10 * SECOND || d < -10 * SECOND {
        return NoPair;
      }
      var fix := GlobalFix(even.value, odd.value, latestOdd);
      if fix.None? {
        return NoFix;
      }
      var p := fix.value;
      hide Fixes;
      if hasPos && speed(lat, lon, p.lat, p.lon, now - posAt) > 1200.0 {
        if even.value.at < odd.value.at {
          even := None;
        } else {
          odd := None;
        }
        return TooFast;
      }
      Accept(p, now);
      return Fixed;
    }

    method Accept(p: Position, now: int)
      requires Valid() && clock == now
      modifies this`lat, this`lon, this`hasPos, this`posAt, this`trail
      ensures Valid() && Position(lat, lon) == p && hasPos && posAt == now
      ensures trail == Younger(old(trail), now - 300 * SECOND) +
                       (if Due(old(trail), now) then [TrailPt(lat, lon, altFt, now)] else [])
    {
      hide Marked, Younger, Due;
      lat, lon, hasPos := p.lat, p.lon, true;
      posAt := now;
      var dot := TrailPt(lat, lon, altFt, now);
      assert NoneAfter(trail, dot.at);
      TrailKept(trail, dot);
      DotsKeptAndLaid(trail, dot);
      trail := Mark(trail, dot);
    }

    /** One airborne position message. */
    method DecodeAirbornePos(me: seq<byte>, now: int, speed: (real, real, real, real, int) -> real)
      returns (outcome: Outcome)
      requires Valid() && clock <= now && |me| == 7
      modifies this
      ensures Valid() && clock == now
      ensures altFt == Altitude(AltitudeBits(me), old(altFt))
      ensures var report := CprPos(LatBits(me), LonBits(me), now);
              var even' := if IsOdd(me) then old(even) else Some(report);
              var odd' := if IsOdd(me) then Some(report) else old(odd);
              (outcome != TooFast ==> even == even' && odd == odd') &&
              (outcome == NoPair || (even'.Some? && odd'.Some?)) &&
              (outcome == NoFix ==> !Consistent(even'.value, odd'.value)) &&
              (outcome == TooFast ==> if even'.value.at < odd'.value.at then even == None && odd == odd'
                                      else even == even' && odd == None) &&
              (outcome == Fixed ==> Fixes(even'.value, odd'.value, IsOdd(me), Position(lat, lon)))
      ensures outcome != Fixed ==> trail == old(trail)
      ensures outcome == Fixed ==>
                trail == Younger(old(trail), now - 300 * SECOND) +
                         (if Due(old(trail), now) then [TrailPt(lat, lon, altFt, now)] else [])
    {
      hide Consistent, Younger, Due, Fixes;
      var ac := AltitudeBits(me);
      if ac / 16 % 2 == 1 {
        var steps: int := ac % 16 + ac / 32 * 16;
        altFt := steps * 25 - 1000;
      }
      var pos := CprPos(LatBits(me), LonBits(me), now);
      if IsOdd(me) {
        odd := Some(pos);
      } else {
        even := Some(pos);
      }
      outcome := GlobalDecode(IsOdd(me), now, speed);
    }
  }
}
