/** Compact position reporting, section A.1.7 of RTCA DO-260B: what the
    encoder sends and what a global decode of an even and odd pair makes of it. */
module Cpr {

  const CELLS := 131072

  // ---------- the encoder ----------

  function Modulo(x: real, d: real): real
    requires d > 0.0
  {
    x - d * (x / d).Floor as real
  }

  /** 17 bits for the place within a zone of width d. */
  function Encode17(x: real, d: real): (f: nat)
    requires d > 0.0
    ensures f < CELLS
  {
    (CELLS as real * (Modulo(x, d) / d) + 0.5).Floor % CELLS
  }

  /** The cell of a position counted in zones from the origin. */
  function Cell(zones: real): (c: int)
    ensures -0.5 < c as real - CELLS as real * zones <= 0.5
  {
    (CELLS as real * zones + 0.5).Floor
  }

  function ZoneOf(c: int): int {
    c / CELLS
  }

  lemma DivideBack(x: real, d: real)
    requires d > 0.0
    ensures Modulo(x, d) / d == x / d - (x / d).Floor as real
  {
    var k := (x / d).Floor as real;
    assert d * (x / d) == x;
    assert Modulo(x, d) == d * (x / d - k);
  }

  lemma FloorShift(x: real, k: int)
    ensures (x - k as real).Floor == x.Floor - k
  {}

  /** The field sent is the low 17 bits of the cell. */
  lemma FieldOfCell(x: real, d: real)
    requires d > 0.0
    ensures Encode17(x, d) == Cell(x / d) % CELLS
    ensures Cell(x / d) == CELLS * ZoneOf(Cell(x / d)) + Encode17(x, d)
  {
    var y := x / d;
    DivideBack(x, d);
    FloorShift(CELLS as real * y + 0.5, CELLS * y.Floor);
    assert Cell(y) - CELLS * y.Floor == (CELLS as real * (Modulo(x, d) / d) + 0.5).Floor;
    ShiftedRemainder(Cell(y), y.Floor);
  }

  lemma ShiftedRemainder(c: int, k: int)
    ensures (c - CELLS * k) % CELLS == c % CELLS
  {}

  // ---------- the decoder's arithmetic ----------

  /** Remainder with the sign of the dividend. */
  function SignedMod(j: int, n: nat): (r: int)
    requires n > 0
    ensures 0 < r + n && r < n
  {
    if j >= 0 then j % n else -(-j % n)
  }

  lemma SignedModSplit(j: int, n: nat) returns (q: int)
    requires n > 0
    ensures j == n * q + SignedMod(j, n)
  {
    if j >= 0 {
      q := j / n;
    } else {
      q := -(-j / n);
      assert -j == n * (-j / n) + -j % n;
      assert n * -(-j / n) == -(n * (-j / n));
    }
  }

  function Fraction(f: nat): real {
    f as real / CELLS as real
  }

  /** The latitude zone index from the two latitude fields. */
  function LatIndex(even: nat, odd: nat): int {
    (59.0 * Fraction(even) - 60.0 * Fraction(odd) + 0.5).Floor
  }

  function EvenLat(even: nat, odd: nat): real {
    6.0 * (SignedMod(LatIndex(even, odd), 60) as real + Fraction(even))
  }

  function OddLat(even: nat, odd: nat): real {
    360.0 / 59.0 * (SignedMod(LatIndex(even, odd), 59) as real + Fraction(odd))
  }

  predicate InRange(even: nat, odd: nat) {
    -90.0 <= EvenLat(even, odd) <= 90.0 && -90.0 <= OddLat(even, odd) <= 90.0
  }

  // ---------- latitude ----------

  const DLAT0 := 6.0
  const DLAT1 := 360.0 / 59.0

  /** Two latitudes of one aircraft, a moment apart. */
  predicate NearBy(lat0: real, lat1: real) {
    -90.0 <= lat0 <= 90.0 && -90.0 <= lat1 <= 90.0 && -0.05 <= lat0 - lat1 <= 0.05
  }

  /** The cells of a pair: how close they lie, and how far from the poles. */
  ghost predicate PairOfCells(lat0: real, lat1: real, c0: int, c1: int) {
    -0.5 < c0 as real - 131072.0 / 6.0 * lat0 <= 0.5 &&
    -0.5 < c1 as real - 131072.0 * 59.0 / 360.0 * lat1 <= 0.5 &&
    -1966080 <= c0 <= 1966080 && -1933312 <= c1 <= 1933312
  }

  lemma CellsOfPair(lat0: real, lat1: real)
    requires NearBy(lat0, lat1)
    ensures PairOfCells(lat0, lat1, Cell(lat0 / DLAT0), Cell(lat1 / DLAT1))
  {
    assert lat1 / DLAT1 == 59.0 / 360.0 * lat1;
  }

  /** The index recovers the zones: 60 odd zones less 59 even ones. */
  lemma IndexOfZones(lat0: real, lat1: real, c0: int, c1: int, z0: int, z1: int, f0: nat, f1: nat)
    requires NearBy(lat0, lat1) && PairOfCells(lat0, lat1, c0, c1)
    requires c0 == CELLS * z0 + f0 && c1 == CELLS * z1 + f1
    ensures LatIndex(f0, f1) == 60 * z1 - 59 * z0
  {
    var x := 59.0 * Fraction(f0) - 60.0 * Fraction(f1) + 0.5;
    var k := 60 * z1 - 59 * z0;
    assert 131072.0 * Fraction(f0) == f0 as real && 131072.0 * Fraction(f1) == f1 as real;
    assert 131072.0 * (x - k as real) == 59.0 * c0 as real - 60.0 * c1 as real + 65536.0;
    assert 0.0 <= 59.0 * c0 as real - 60.0 * c1 as real + 65536.0 < 131072.0;
  }

  /** Two zones of one field and one remainder, both on the globe, are the same. */
  lemma SameZone(r: int, z: int, f: int, k: int, even: bool)
    requires r - z == if even then 60 * k else 59 * k
    requires -1966080 <= CELLS * z + f <= 1966080 && -1966080 <= CELLS * r + f <= 1966080
    ensures r == z
  {}

  lemma EvenInCells(f0: nat, f1: nat)
    requires -90.0 <= EvenLat(f0, f1) <= 90.0
    ensures -1966080 <= CELLS * SignedMod(LatIndex(f0, f1), 60) + f0 <= 1966080
  {
    hide LatIndex, SignedMod;
    assert 131072.0 * Fraction(f0) == f0 as real;
  }

  lemma OddInCells(f0: nat, f1: nat)
    requires -90.0 <= OddLat(f0, f1) <= 90.0
    ensures -1933312 <= CELLS * SignedMod(LatIndex(f0, f1), 59) + f1 <= 1933312
  {
    hide LatIndex, SignedMod;
    assert 131072.0 * Fraction(f1) == f1 as real;
  }

  /** In range, the signed remainders are the zones themselves. */
  lemma ZonesRecovered(f0: nat, f1: nat, z0: int, z1: int)
    requires f0 < CELLS && f1 < CELLS && LatIndex(f0, f1) == 60 * z1 - 59 * z0
    requires -1966080 <= CELLS * z0 + f0 <= 1966080 && -1933312 <= CELLS * z1 + f1 <= 1933312
    ensures -90.0 <= EvenLat(f0, f1) <= 90.0 ==> SignedMod(LatIndex(f0, f1), 60) == z0
    ensures -90.0 <= OddLat(f0, f1) <= 90.0 ==> SignedMod(LatIndex(f0, f1), 59) == z1
  {
    hide LatIndex, SignedMod, EvenLat, OddLat;
    var j := LatIndex(f0, f1);
    var q := SignedModSplit(j, 60);
    var p := SignedModSplit(j, 59);
    if -90.0 <= EvenLat(f0, f1) <= 90.0 {
      EvenInCells(f0, f1);
      SameZone(SignedMod(j, 60), z0, f0, z1 - z0 - q, true);
    }
    if -90.0 <= OddLat(f0, f1) <= 90.0 {
      OddInCells(f0, f1);
      SameZone(SignedMod(j, 59), z1, f1, z1 - z0 - p, false);
    }
  }

  function EvenLatField(lat: real): (f: nat)
    ensures f < CELLS
  {
    Encode17(lat, DLAT0)
  }

  function OddLatField(lat: real): (f: nat)
    ensures f < CELLS
  {
    Encode17(lat, DLAT1)
  }

  ghost function EvenZone(lat: real): int {
    ZoneOf(Cell(lat / DLAT0))
  }

  ghost function OddZone(lat: real): int {
    ZoneOf(Cell(lat / DLAT1))
  }

  /** What the decoder has of an encoded pair. */
  lemma PairDecoded(lat0: real, lat1: real)
    requires NearBy(lat0, lat1)
    ensures var f0, f1 := EvenLatField(lat0), OddLatField(lat1);
            LatIndex(f0, f1) == 60 * OddZone(lat1) - 59 * EvenZone(lat0) &&
            (-90.0 <= EvenLat(f0, f1) <= 90.0 ==> SignedMod(LatIndex(f0, f1), 60) == EvenZone(lat0)) &&
            (-90.0 <= OddLat(f0, f1) <= 90.0 ==> SignedMod(LatIndex(f0, f1), 59) == OddZone(lat1))
    ensures Cell(lat0 / DLAT0) == CELLS * EvenZone(lat0) + EvenLatField(lat0)
    ensures Cell(lat1 / DLAT1) == CELLS * OddZone(lat1) + OddLatField(lat1)
    ensures PairOfCells(lat0, lat1, Cell(lat0 / DLAT0), Cell(lat1 / DLAT1))
  {
    hide LatIndex, SignedMod, Cell, ZoneOf, Encode17, EvenLat, OddLat;
    FieldOfCell(lat0, DLAT0);
    FieldOfCell(lat1, DLAT1);
    CellsOfPair(lat0, lat1);
    var f0, f1 := EvenLatField(lat0), OddLatField(lat1);
    IndexOfZones(lat0, lat1, Cell(lat0 / DLAT0), Cell(lat1 / DLAT1), EvenZone(lat0), OddZone(lat1), f0, f1);
    ZonesRecovered(f0, f1, EvenZone(lat0), OddZone(lat1));
  }

  /** Whatever passes the range check is within half a 17-bit cell of where
      the aircraft was, on either grid. */
  lemma LatitudeSound(lat0: real, lat1: real)
    requires NearBy(lat0, lat1)
    ensures var f0, f1 := EvenLatField(lat0), OddLatField(lat1);
            InRange(f0, f1) ==>
              -DLAT0 / 262144.0 <= EvenLat(f0, f1) - lat0 <= DLAT0 / 262144.0 &&
              -DLAT1 / 262144.0 <= OddLat(f0, f1) - lat1 <= DLAT1 / 262144.0
  {
    hide Cell, ZoneOf, Encode17, LatIndex, SignedMod;
    PairDecoded(lat0, lat1);
  }

  /** Nearby latitudes are at most one zone apart, and their zones differ
      outwards only at the equator. */
  lemma ZonesNear(lat0: real, lat1: real, c0: int, c1: int, z0: int, z1: int, f0: nat, f1: nat)
    requires NearBy(lat0, lat1) && PairOfCells(lat0, lat1, c0, c1) && f0 < CELLS && f1 < CELLS
    requires c0 == CELLS * z0 + f0 && c1 == CELLS * z1 + f1
    ensures -1 <= z1 - z0 <= 1 && -15 <= z0 <= 15 && -15 <= z1 <= 14
    ensures z1 == z0 - 1 ==> z0 >= 0
    ensures z1 == z0 + 1 ==> z0 < 0
  {}

  /** The index has the zones as signed remainders only in these cases. */
  lemma RemaindersAreZones(z0: int, z1: int)
    requires -1 <= z1 - z0 <= 1 && -15 <= z0 <= 15 && -15 <= z1 <= 14
    requires z1 == z0 - 1 ==> z0 >= 0
    requires z1 == z0 + 1 ==> z0 < 0
    ensures var j := 60 * z1 - 59 * z0;
            SignedMod(j, 60) == z0 && SignedMod(j, 59) == z1 <==> z0 == z1 || (z0 == 0 && z1 == -1)
  {
    var j := 60 * z1 - 59 * z0;
    if z1 == z0 {
      assert j == z0;
    } else if z1 == z0 - 1 {
      assert j == z0 - 60;
    } else {
      assert j == z0 + 60;
    }
  }

  /** With the zones as remainders both latitudes are in range. */
  lemma ZonesInRange(f0: nat, f1: nat, z0: int, z1: int)
    requires -1966080 <= CELLS * z0 + f0 <= 1966080 && -1933312 <= CELLS * z1 + f1 <= 1933312
    requires SignedMod(LatIndex(f0, f1), 60) == z0 && SignedMod(LatIndex(f0, f1), 59) == z1
    ensures InRange(f0, f1)
  {
    hide SignedMod, LatIndex;
    assert 131072.0 * Fraction(f0) == f0 as real && 131072.0 * Fraction(f1) == f1 as real;
  }

  /** The range check passes exactly when both latitudes lie in zones of the
      same number, or astride the equator with the even one north.  A pair of
      one position just short of the next even zone is turned away. */
  lemma RangeCheckIff(lat0: real, lat1: real)
    requires NearBy(lat0, lat1)
    ensures InRange(EvenLatField(lat0), OddLatField(lat1))
       <==> EvenZone(lat0) == OddZone(lat1) || (EvenZone(lat0) == 0 && OddZone(lat1) == -1)
  {
    hide Cell, ZoneOf, Encode17, LatIndex, SignedMod, EvenLat, OddLat, EvenLatField, OddLatField, EvenZone, OddZone;
    PairDecoded(lat0, lat1);
    hide PairOfCells, NearBy;
    var z0, z1 := EvenZone(lat0), OddZone(lat1);
    var f0, f1 := EvenLatField(lat0), OddLatField(lat1);
    ZonesNear(lat0, lat1, Cell(lat0 / DLAT0), Cell(lat1 / DLAT1), z0, z1, f0, f1);
    RemaindersAreZones(z0, z1);
    if SignedMod(LatIndex(f0, f1), 60) == z0 && SignedMod(LatIndex(f0, f1), 59) == z1 {
      ZonesInRange(f0, f1, z0, z1);
    }
  }

  /** 36.3 degrees north is such a place. */
  lemma TurnedAway()
    ensures NearBy(36.3, 36.3) && !InRange(EvenLatField(36.3), OddLatField(36.3))
  {
    assert EvenZone(36.3) == 6;
    assert OddZone(36.3) == 5;
    RangeCheckIff(36.3, 36.3);
  }
}
