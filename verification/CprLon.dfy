/** The longitude half of the global decode: the zone count, the zone index
    and the wrap into half a turn either way. */
module CprLon {
  import opened Cpr

  /** The latitudes below which the count takes its values, from 59 down. */
  const BOUNDARIES: seq<real> := LOW_BOUNDARIES + MIDDLE_BOUNDARIES + HIGH_BOUNDARIES

  const LOW_BOUNDARIES: seq<real> := [
    10.4704712, 14.8281744, 18.1862636, 21.0293949, 23.5450492,
    25.8292471, 27.9389871, 29.9113569, 31.7720975, 33.5399654,
    35.2289960, 36.8502511, 38.4124189, 39.9225668, 41.3865183,
    42.8081401, 44.1915498, 45.5402911, 46.8572311, 48.1449355]

  const MIDDLE_BOUNDARIES: seq<real> := [
    49.4055748, 50.6413768, 51.8546525, 53.0472965, 54.2210519,
    55.3773540, 56.5175373, 57.6426895, 58.7537206, 59.8517327,
    60.9377148, 62.0125132, 63.0767427, 64.1308863, 65.1755040,
    66.2109305, 67.2374953, 68.2555861, 69.2655688, 70.2678222]

  const HIGH_BOUNDARIES: seq<real> := [
    71.2625572, 72.2500269, 73.2304877, 74.2040941, 75.1709847,
    76.1315119, 77.0858914, 78.0343104, 78.9769309, 79.9140611,
    80.8458489, 81.7724789, 82.6939714, 83.6104640, 84.5220350,
    85.4296973, 86.3325706, 87.2307885, 88.1244215, 89.0135132,
    89.8982529]

  function Abs(x: real): real {
    if x < 0.0 then -x else x
  }

  /** The first boundary above a. */
  ghost predicate FirstAbove(bounds: seq<real>, a: real, i: nat) {
    i < |bounds| && a < bounds[i] && forall h: nat :: h < i ==> bounds[h] <= a
  }

  /** One zone fewer for each boundary passed, and one zone past the last. */
  ghost function ZonesAt(bounds: seq<real>, a: real): (n: int)
    ensures forall i: nat :: FirstAbove(bounds, a, i) ==> n == 59 - i
    ensures (forall i: nat :: i < |bounds| ==> bounds[i] <= a) ==> n == 1
    ensures n == 1 || 59 - |bounds| < n <= 59
  {
    if i: nat :| FirstAbove(bounds, a, i) then 59 - i else 1
  }

  /** How many longitude zones there are at a latitude. */
  ghost function Nl(lat: real): (n: int)
    ensures -1 <= n <= 59
  {
    assert |BOUNDARIES| == 61;
    ZonesAt(BOUNDARIES, Abs(lat))
  }

  method ComputeNl(lat: real) returns (n: int)
    ensures n == Nl(lat)
  {
    n := CountZones(BOUNDARIES, Abs(lat));
  }

  method CountZones(bounds: seq<real>, a: real) returns (n: int)
    ensures n == ZonesAt(bounds, a)
  {
    for i := 0 to |bounds|
      invariant forall h: nat :: h < i ==> bounds[h] <= a
    {
      if a < bounds[i] {
        assert FirstAbove(bounds, a, i);
        return 59 - i;
      }
    }
    return 1;
  }

  // ---------- the count as a step function of the latitude ----------

  lemma LowRises(h: nat)
    requires h < 19
    ensures LOW_BOUNDARIES[h] < LOW_BOUNDARIES[h + 1]
  {}

  lemma MiddleRises(h: nat)
    requires h < 19
    ensures MIDDLE_BOUNDARIES[h] < MIDDLE_BOUNDARIES[h + 1]
  {}

  lemma HighRises(h: nat)
    requires h < 20
    ensures HIGH_BOUNDARIES[h] < HIGH_BOUNDARIES[h + 1]
  {}

  lemma Seams()
    ensures |LOW_BOUNDARIES| == |MIDDLE_BOUNDARIES| == 20 && |HIGH_BOUNDARIES| == 21
    ensures LOW_BOUNDARIES[19] < MIDDLE_BOUNDARIES[0] && MIDDLE_BOUNDARIES[19] < HIGH_BOUNDARIES[0]
  {}

  lemma BoundaryRises(h: nat)
    requires h + 1 < |BOUNDARIES|
    ensures BOUNDARIES[h] < BOUNDARIES[h + 1]
  {
    Seams();
    hide LOW_BOUNDARIES, MIDDLE_BOUNDARIES, HIGH_BOUNDARIES;
    if h < 19 {
      LowRises(h);
    } else if 20 <= h < 39 {
      MiddleRises(h - 20);
    } else if 40 <= h {
      HighRises(h - 40);
    }
  }

  lemma {:induction false} BoundariesRise(i: nat, j: nat)
    requires i <= j < |BOUNDARIES|
    ensures BOUNDARIES[i] <= BOUNDARIES[j]
    decreases j
  {
    hide BOUNDARIES;
    if i == j {
    } else {
      BoundariesRise(i, j - 1);
      BoundaryRises(j - 1);
    }
  }

  /** Below some boundary there is a first. */
  lemma {:induction false} FirstOf(bounds: seq<real>, a: real, i: nat, j: nat) returns (f: nat)
    requires i <= j < |bounds| && a < bounds[j] && forall h: nat :: h < i ==> bounds[h] <= a
    ensures FirstAbove(bounds, a, f)
    decreases j - i
  {
    if a < bounds[i] {
      f := i;
    } else {
      f := FirstOf(bounds, a, i + 1, j);
    }
  }

  /** Between two boundaries the count is the upper one's. */
  lemma NlBelow(lat: real, i: nat)
    requires i < |BOUNDARIES| && Abs(lat) < BOUNDARIES[i] && (i > 0 ==> BOUNDARIES[i - 1] <= Abs(lat))
    ensures Nl(lat) == 59 - i
  {
    hide BOUNDARIES, ZonesAt, Abs;
    forall h: nat | h < i
      ensures BOUNDARIES[h] <= Abs(lat)
    {
      BoundariesRise(h, i - 1);
    }
    assert FirstAbove(BOUNDARIES, Abs(lat), i);
  }

  lemma NlBeyond(lat: real)
    requires BOUNDARIES[60] <= Abs(lat)
    ensures Nl(lat) == 1
  {
    LastBoundaries();
    hide BOUNDARIES, ZonesAt, Abs;
    forall h: nat | h < 61
      ensures BOUNDARIES[h] <= Abs(lat)
    {
      BoundariesRise(h, 60);
    }
  }

  /** For two zones and more, the latitudes with at least n are those below the
      boundary of n. */
  lemma NlAtLeast(lat: real, n: nat)
    requires 2 <= n <= 59
    ensures Nl(lat) >= n <==> Abs(lat) < BOUNDARIES[59 - n]
  {
    LastBoundaries();
    hide BOUNDARIES, ZonesAt, Abs, Nl;
    var a := Abs(lat);
    if a < BOUNDARIES[60] {
      var i := FirstOf(BOUNDARIES, a, 0, 60);
      NlBelow(lat, i);
      if i <= 59 - n {
        BoundariesRise(i, 59 - n);
      }
    } else {
      NlBeyond(lat);
      BoundariesRise(59 - n, 60);
    }
  }

  lemma LastBoundaries()
    ensures |BOUNDARIES| == 61 && BOUNDARIES[57] == 87.2307885 && BOUNDARIES[58] == 88.1244215
    ensures BOUNDARIES[59] == 89.0135132 && BOUNDARIES[60] == 89.8982529
  {
    assert BOUNDARIES[57] == HIGH_BOUNDARIES[17] && BOUNDARIES[58] == HIGH_BOUNDARIES[18];
    assert BOUNDARIES[59] == HIGH_BOUNDARIES[19] && BOUNDARIES[60] == HIGH_BOUNDARIES[20];
  }

  /** Where the count is at least two, and where towards the poles it runs out:
      the table is two entries too long. */
  lemma CountIff(lat: real)
    ensures Nl(lat) >= 2 <==> Abs(lat) < 87.2307885
    ensures Nl(lat) < 1 <==> 88.1244215 <= Abs(lat) < 89.8982529
    ensures Nl(lat) == 0 <==> 88.1244215 <= Abs(lat) < 89.0135132
    ensures Nl(lat) == -1 <==> 89.0135132 <= Abs(lat) < 89.8982529
  {
    hide BOUNDARIES, ZonesAt, Abs, Nl;
    LastBoundaries();
    NlAtLeast(lat, 2);
    var a := Abs(lat);
    if a < 87.2307885 {
    } else if a < 88.1244215 {
      NlBelow(lat, 58);
    } else if a < 89.0135132 {
      NlBelow(lat, 59);
    } else if a < 89.8982529 {
      NlBelow(lat, 60);
    } else {
      NlBeyond(lat);
    }
  }

  /** Two such latitudes. */
  lemma CountsRunOut()
    ensures Nl(89.0) == 0 && Nl(89.5) == -1
  {
    hide Nl;
    CountIff(89.0);
    CountIff(89.5);
  }

  // ---------- longitude ----------

  /** The zone count one parity uses. */
  function LonZones(nl: int, odd: bool): (n: nat)
    ensures n >= 1
  {
    var n := if odd then nl - 1 else nl;
    if n < 1 then 1 else n
  }

  function LonIndex(nl: int, even: nat, odd: nat): int {
    (Fraction(even) * (nl - 1) as real - Fraction(odd) * nl as real + 0.5).Floor
  }

  /** Some zones of width d and a fraction of one more. */
  function InZone(d: real, zone: int, f: nat): real {
    d * (zone as real + Fraction(f))
  }

  /** The decoded longitude before it is wrapped. */
  function RawLon(nl: int, even: nat, odd: nat, latestOdd: bool): real {
    var n := LonZones(nl, latestOdd);
    InZone(LonWidth(nl, latestOdd), SignedMod(LonIndex(nl, even, odd), n), if latestOdd then odd else even)
  }

  function LonWidth(nl: int, odd: bool): (d: real)
    ensures d > 0.0
  {
    360.0 / LonZones(nl, odd) as real
  }

  function LonField(lon: real, nl: int, odd: bool): (f: nat)
    ensures f < CELLS
  {
    Encode17(lon, LonWidth(nl, odd))
  }

  lemma Scale(a: real, d: real)
    requires a >= 0.0 && -0.5 <= d <= 0.5
    ensures -0.5 * a <= a * d <= 0.5 * a
  {
    assert a * (d + 0.5) >= 0.0;
    assert a * (0.5 - d) >= 0.0;
  }

  lemma ZonesOfLon(lon: real, n: nat)
    requires n >= 1
    ensures lon / (360.0 / n as real) == n as real * (lon / 360.0)
  {
    var w := n as real;
    var x := lon / (360.0 / w);
    assert x * (360.0 / w) == lon;
    assert 360.0 / w * w == 360.0;
    assert w * lon == x * (360.0 / w * w);
  }

  lemma CancelProducts(a: real, b: real, u: real, v: real, x: real, y: real, d: real, e: real)
    requires d == x - a * u && e == y - b * v
    ensures b * x - a * y == b * d - a * e + a * b * (u - v)
  {
    assert b * (a * u) == a * b * u;
    assert a * (b * v) == a * b * v;
    assert b * (d + a * u) == b * d + b * (a * u);
    assert a * (e + b * v) == a * e + a * (b * v);
    assert x == d + a * u && y == e + b * v;
  }

  /** Weighed against each other, what rounding two cells adds stays small. */
  lemma CellsCancel(a: real, b: real, u: real, v: real, x: real, y: real)
    requires a >= 0.0 && b >= 0.0
    requires -0.5 <= x - a * u <= 0.5 && -0.5 <= y - b * v <= 0.5
    ensures -0.5 * (a + b) <= b * x - a * y - a * b * (u - v) <= 0.5 * (a + b)
  {
    var d, e := x - a * u, y - b * v;
    Scale(b, d);
    Scale(a, e);
    CancelProducts(a, b, u, v, x, y, d, e);
  }

  ghost function MixedZones(n: int, z0: int, z1: int): int {
    n * z1 - (n - 1) * z0
  }

  /** How far a cell lies from a longitude, w zones to the turn. */
  ghost predicate CellOfLon(lon: real, w: nat, c: int, z: int, f: nat) {
    c == CELLS * z + f && -0.5 <= c as real - w as real * (131072.0 * (lon / 360.0)) <= 0.5
  }

  lemma CellOfEncoded(lon: real, w: nat) returns (c: int, z: int)
    requires w >= 1
    ensures CellOfLon(lon, w, c, z, Encode17(lon, 360.0 / w as real))
  {
    var d := 360.0 / w as real;
    FieldOfCell(lon, d);
    hide Encode17, ZoneOf;
    c, z := Cell(lon / d), ZoneOf(Cell(lon / d));
    ZonesOfLon(lon, w);
    Reorder(w as real, lon / 360.0);
  }

  lemma Reorder(w: real, v: real)
    ensures 131072.0 * (w * v) == w * (131072.0 * v)
  {}

  /** The index recovers the zones of both parities if and only if the two cells,
      weighed against each other, differ by less than half a zone. */
  lemma IndexOfLonZones(n: int, c0: int, c1: int, z0: int, z1: int, f0: nat, f1: nat)
    requires c0 == CELLS * z0 + f0 && c1 == CELLS * z1 + f1
    ensures LonIndex(n, f0, f1) == MixedZones(n, z0, z1) <==> -65536 <= (n - 1) * c0 - n * c1 < 65536
  {
    var a, b := n as real, (n - 1) as real;
    var k := n * z1 - (n - 1) * z0;
    var x := Fraction(f0) * b - Fraction(f1) * a + 0.5;
    assert k as real == a * z1 as real - b * z0 as real;
    Weighed(a, b, z0 as real, z1 as real, f0 as real, f1 as real);
    assert c0 as real == 131072.0 * z0 as real + f0 as real;
    assert c1 as real == 131072.0 * z1 as real + f1 as real;
    var m := (n - 1) * c0 - n * c1;
    assert m as real == b * c0 as real - a * c1 as real;
    assert 131072.0 * (x - k as real) == m as real + 65536.0;
  }

  /** How far apart two longitudes are, whole turns aside, in the cells the index weighs. */
  ghost function Drift(lon0: real, lon1: real, n: int, k: int): real {
    Product(n as real, (n - 1) as real, Gap(lon0, lon1, k))
  }

  function Product(a: real, b: real, x: real): real {
    a * b * x
  }

  ghost function Gap(lon0: real, lon1: real, k: int): real {
    131072.0 * ((lon0 - lon1 - 360.0 * k as real) / 360.0)
  }

  /** Two longitudes of one aircraft, a moment apart, that a count of n zones can
      still tell the zones of: less than half a zone of n (n - 1), rounding aside.
      With one zone there is nothing to tell. */
  ghost predicate NearLon(lon0: real, lon1: real, n: int, k: int) {
    n <= 1 || n as real - 65536.5 < Drift(lon0, lon1, n, k) < 65536.5 - n as real
  }

  /** Farther apart than that, rounding aside, the index is wrong. */
  ghost predicate FarLon(lon0: real, lon1: real, n: int, k: int) {
    Drift(lon0, lon1, n, k) >= 65535.5 + n as real || Drift(lon0, lon1, n, k) < -65535.5 - n as real
  }

  lemma TurnedCell(lon: real, w: nat, c: int, z: int, f: nat, k: int)
    requires CellOfLon(lon, w, c, z, f)
    ensures CellOfLon(lon + 360.0 * k as real, w, c + CELLS * (w * k), z + w * k, f)
  {
    var v := lon / 360.0;
    assert (lon + 360.0 * k as real) / 360.0 == v + k as real;
    Distribute(w as real, v, k as real);
    assert (w * k) as real == w as real * k as real;
  }

  lemma Distribute(w: real, v: real, k: real)
    ensures w * (131072.0 * (v + k)) == w * (131072.0 * v) + 131072.0 * (w * k)
  {}

  lemma DriftOf(lon0: real, lon1: real, n: int, k: int)
    ensures var u, v := 131072.0 * (lon0 / 360.0), 131072.0 * ((lon1 + 360.0 * k as real) / 360.0);
            Drift(lon0, lon1, n, k) == n as real * (n - 1) as real * (u - v)
  {
    assert (lon0 - lon1 - 360.0 * k as real) / 360.0 == lon0 / 360.0 - (lon1 + 360.0 * k as real) / 360.0;
  }

  /** The cells of two longitudes, the second some turns on, weighed for the index. */
  lemma WeighedCells(lon0: real, lon1: real, n: nat, k: int, c0: int, z0: int, f0: nat, c1: int, z1: int, f1: nat)
    requires n >= 2 && CellOfLon(lon0, n, c0, z0, f0)
    requires CellOfLon(lon1 + 360.0 * k as real, n - 1, c1, z1, f1)
    ensures 0.5 - n as real <= ((n - 1) * c0 - n * c1) as real - Drift(lon0, lon1, n, k) <= n as real - 0.5
  {
    hide Drift;
    var u, v := 131072.0 * (lon0 / 360.0), 131072.0 * ((lon1 + 360.0 * k as real) / 360.0);
    DriftOf(lon0, lon1, n, k);
    CellsCancel(n as real, (n - 1) as real, u, v, c0 as real, c1 as real);
    assert ((n - 1) * c0 - n * c1) as real == (n - 1) as real * c0 as real - n as real * c1 as real;
  }

  lemma Weighed(a: real, b: real, z0: real, z1: real, f0: real, f1: real)
    ensures 131072.0 * (f0 / 131072.0 * b - f1 / 131072.0 * a + 0.5 - (a * z1 - b * z0))
         == b * (131072.0 * z0 + f0) - a * (131072.0 * z1 + f1) + 65536.0
  {}

  ghost predicate WithinHalfCell(raw: real, lon: real, d: real, t: int) {
    -d / 262144.0 <= raw - lon - 360.0 * t as real <= d / 262144.0
  }

  ghost predicate SomeTurns(s: int, z: int, w: nat, t: int) {
    s as real == z as real + w as real * t as real
  }

  /** A cell of a zone, some turns on, is half a cell from the longitude. */
  lemma CellToLon(w: nat, s: int, z: int, t: int, f: nat, c: int, lon: real)
    requires w >= 1 && CellOfLon(lon, w, c, z, f) && SomeTurns(s, z, w, t)
    ensures WithinHalfCell(InZone(360.0 / w as real, s, f), lon, 360.0 / w as real, t)
  {
    var v := w as real;
    var d := 360.0 / v;
    var e := c as real - v * (131072.0 * (lon / 360.0));
    assert d * v == 360.0;
    assert z as real + Fraction(f) == c as real / 131072.0;
    Reorder(v, lon / 360.0);
    Spread(d, v, lon / 360.0, e / 131072.0, t as real, s as real + Fraction(f));
    Scale(d, e);
    Shrink(d, e);
  }

  lemma Shrink(d: real, e: real)
    ensures d * (e / 131072.0) == d * e / 131072.0
  {}

  lemma Spread(d: real, w: real, v: real, e: real, t: real, s: real)
    requires d * w == 360.0 && s == w * v + e + w * t
    ensures d * s == 360.0 * v + d * e + 360.0 * t
  {
    assert d * (w * v) == (d * w) * v;
    assert d * (w * t) == (d * w) * t;
    assert d * s == d * (w * v) + d * e + d * (w * t);
  }

  /** The signed remainder of the index is the newer frame's zone, whole
      turns aside. */
  lemma Remaindered(n: nat, z0: int, z1: int, latestOdd: bool) returns (t: int)
    requires n >= 2
    ensures SomeTurns(SignedMod(MixedZones(n, z0, z1), LonZones(n, latestOdd)),
                      if latestOdd then z1 else z0, LonZones(n, latestOdd), t)
  {
    hide SignedMod;
    var m, w := n * z1 - (n - 1) * z0, LonZones(n, latestOdd);
    var q := SignedModSplit(m, w);
    t := z1 - z0 - q;
    if latestOdd {
      assert m == z1 + w * (z1 - z0);
    } else {
      assert m == z0 + w * (z1 - z0);
    }
    assert w * (z1 - z0) - w * q == w * t;
  }

  lemma ZonesByParity(n: nat)
    requires n >= 2
    ensures LonZones(n, false) == n && LonZones(n, true) == n - 1
    ensures LonWidth(n, false) == 360.0 / n as real && LonWidth(n, true) == 360.0 / (n - 1) as real
  {}

  /** Two frames that share a zone count give the zones of both longitudes when
      these are near, and not when they are far. */
  lemma ZonesTold(lon0: real, lon1: real, n: nat, k: int)
      returns (c0: int, z0: int, c1: int, z1: int)
    requires n >= 2
    ensures var f0, f1 := LonField(lon0, n, false), LonField(lon1, n, true);
            CellOfLon(lon0, n, c0, z0, f0) && CellOfLon(lon1 + 360.0 * k as real, n - 1, c1, z1, f1) &&
            (NearLon(lon0, lon1, n, k) ==> LonIndex(n, f0, f1) == MixedZones(n, z0, z1)) &&
            (FarLon(lon0, lon1, n, k) ==> LonIndex(n, f0, f1) != MixedZones(n, z0, z1))
  {
    hide Encode17, LonIndex, Fraction, LonZones, LonWidth, MixedZones, Drift;
    ZonesByParity(n);
    var f0, f1 := LonField(lon0, n, false), LonField(lon1, n, true);
    c0, z0 := CellOfEncoded(lon0, n);
    var c, z := CellOfEncoded(lon1, n - 1);
    TurnedCell(lon1, n - 1, c, z, f1, k);
    c1, z1 := c + CELLS * ((n - 1) * k), z + (n - 1) * k;
    WeighedCells(lon0, lon1, n, k, c0, z0, f0, c1, z1, f1);
    IndexOfLonZones(n, c0, c1, z0, z1, f0, f1);
  }

  lemma TurnsAdd(raw: real, lon: real, d: real, t: int, k: int)
    requires WithinHalfCell(raw, lon + 360.0 * k as real, d, t)
    ensures WithinHalfCell(raw, lon, d, t + k)
  {}

  lemma NoRemainder(j: int)
    ensures SignedMod(j, 1) == 0
  {}

  /** With one zone, as for every count below two, the newer frame's field alone is the longitude. */
  lemma OneZone(lon: real, n: int, even: nat, odd: nat, latestOdd: bool) returns (t: int)
    requires n <= 1 && LonField(lon, n, latestOdd) == if latestOdd then odd else even
    ensures RawLon(n, even, odd, latestOdd) == InZone(LonWidth(n, latestOdd), 0, LonField(lon, n, latestOdd))
    ensures WithinHalfCell(RawLon(n, even, odd, latestOdd), lon, LonWidth(n, latestOdd), t)
  {
    hide Encode17, SignedMod, LonIndex, CellOfLon, Fraction, WithinHalfCell, InZone;
    NoRemainder(LonIndex(n, even, odd));
    var c, z := CellOfEncoded(lon, 1);
    t := -z;
    CellToLon(1, 0, z, t, LonField(lon, n, latestOdd), c, lon);
  }

  /** Two frames from longitudes near each other, that share a zone count, give
      the newer one to half a cell of its grid, whole turns aside. */
  lemma LongitudeSound(lon0: real, lon1: real, n: int, k: int, latestOdd: bool) returns (t: int)
    requires NearLon(lon0, lon1, n, k)
    ensures WithinHalfCell(RawLon(n, LonField(lon0, n, false), LonField(lon1, n, true), latestOdd),
                           if latestOdd then lon1 else lon0, LonWidth(n, latestOdd), t)
  {
    hide Encode17, SignedMod, LonIndex, CellOfLon, Fraction, WithinHalfCell, InZone;
    hide LonZones, LonWidth, LonField, MixedZones, SomeTurns, NearLon, FarLon;
    var f0, f1 := LonField(lon0, n, false), LonField(lon1, n, true);
    if n <= 1 {
      t := OneZone(if latestOdd then lon1 else lon0, n, f0, f1, latestOdd);
    } else {
      ZonesByParity(n);
      var c0, z0, c1, z1 := ZonesTold(lon0, lon1, n, k);
      t := Remaindered(n, z0, z1, latestOdd);
      var s := SignedMod(LonIndex(n, f0, f1), LonZones(n, latestOdd));
      if latestOdd {
        CellToLon(n - 1, s, z1, t, f1, c1, lon1 + 360.0 * k as real);
        TurnsAdd(InZone(LonWidth(n, true), s, f1), lon1, LonWidth(n, true), t, k);
        t := t + k;
      } else {
        CellToLon(n, s, z0, t, f0, c0, lon0);
      }
    }
  }

  /** Whatever the count, a twentieth of a degree is near. */
  lemma TwentiethIsNear(lon0: real, lon1: real, n: int, k: int)
    requires n <= 59 && -0.05 <= lon0 - lon1 - 360.0 * k as real <= 0.05
    ensures NearLon(lon0, lon1, n, k)
  {
    if n >= 2 {
      assert -18.3 <= Gap(lon0, lon1, k) <= 18.3;
      hide Gap, Product;
      SmallDrift(n as real, (n - 1) as real, Gap(lon0, lon1, k));
    }
  }

  lemma SmallDrift(a: real, b: real, x: real)
    requires 0.0 <= a <= 59.0 && 0.0 <= b <= 58.0 && -18.3 <= x <= 18.3
    ensures -62623.0 <= Product(a, b, x) <= 62623.0
  {
    Bounded(b, x, 58.0, 18.3);
    Bounded(a, b * x, 59.0, 1061.4);
    assert a * b * x == a * (b * x);
  }

  lemma Bounded(p: real, x: real, q: real, y: real)
    requires 0.0 <= p <= q && -y <= x <= y
    ensures -(q * y) <= p * x <= q * y
  {
    assert p * (y - x) >= 0.0 && p * (y + x) >= 0.0;
    assert (q - p) * y >= 0.0;
  }

  /** Brings a longitude into half a turn either way. */
  method WrapLon(lon: real) returns (r: real, ghost k: int)
    ensures -180.0 <= r <= 180.0 && r == lon + 360.0 * k as real
    ensures -180.0 <= lon <= 180.0 ==> k == 0
  {
    r, k := lon, 0;
    while r > 180.0
      invariant r == lon + 360.0 * k as real && (r > -180.0 || k == 0) && (lon <= 180.0 ==> k == 0)
      decreases r.Floor
    {
      r := r - 360.0;
      k := k - 1;
    }
    while r < -180.0
      invariant r == lon + 360.0 * k as real && r <= 180.0
      invariant -180.0 <= lon <= 180.0 ==> k == 0
      decreases -r.Floor
    {
      r := r + 360.0;
      k := k + 1;
    }
  }
}