// What global decoding makes of any two airborne frames, also of two that do not belong together.
module CprAirborne {
  import opened Cpr
  import opened CprEncode
  import opened CprGlobal

  // ---------------------------------------------------------------- the closest solutions of two frames

  ghost predicate OnGrid(x: real, span: real, n: int, field: int, zone: int)
    requires span > 0.0 && n > 0
  {
    x == FromZone(Cell(span, n), zone, field)
  }

  // Around the circle, x0 and x1 are less than half as far apart as the closest lines of n and n - 1 zones.
  ghost predicate Closest(x0: real, x1: real, span: real, n: int, turns: int)
    requires span > 0.0
  {
    -0.5 <= (n * (n - 1)) as real * ((x0 - x1) / span + turns as real) < 0.5
  }

  function OddZones(n: int): (m: int)
    requires n > 0
    ensures m > 0
  {
    if n > 1 then n - 1 else 1
  }

  // Zones for an even and an odd frame in which the two values are closest to each other.
  ghost predicate Solves(x0: real, x1: real, span: real, n: int, f0: int, f1: int)
    requires span > 0.0 && n > 0
  {
    && (exists z :: OnGrid(x0, span, n, f0, z))
    && (exists z :: OnGrid(x1, span, OddZones(n), f1, z))
    && (n > 1 ==> exists t :: Closest(x0, x1, span, n, t))
  }

  // The zone index that a pair of zones stands for.
  function IndexOf(n: int, z0: int, z1: int, t: int): int {
    n * z1 - (n - 1) * z0 - n * (n - 1) * t
  }

  lemma IndexResidues(n: int, z0: int, z1: int, t: int)
    requires n > 1
    ensures var j := IndexOf(n, z0, z1, t); j % n == z0 % n && j % (n - 1) == z1 % (n - 1)
  {
    var j := IndexOf(n, z0, z1, t);
    IndexForms(n, z0, z1, t);
    ModShift(j, n, z1 - z0 - (n - 1) * t, z0);
    ModShift(j, n - 1, z1 - z0 - n * t, z1);
  }

  lemma IndexForms(n: int, z0: int, z1: int, t: int)
    ensures IndexOf(n, z0, z1, t) == n * (z1 - z0 - (n - 1) * t) + z0 == (n - 1) * (z1 - z0 - n * t) + z1
  {
  }

  // How far the two values are apart, in steps of the closest lines.
  lemma Steps(u0: real, u1: real, n: real, g0: real, g1: real, t: real)
    requires u0 * n == g0 && u1 * (n - 1.0) == g1
    ensures n * (n - 1.0) * (u0 - u1 + t) == (n - 1.0) * g0 - n * g1 + n * (n - 1.0) * t
  {
    assert n * (n - 1.0) * u0 == (n - 1.0) * (u0 * n);
    assert n * (n - 1.0) * u1 == n * (u1 * (n - 1.0));
  }

  lemma GridUnits(x: real, span: real, n: int, field: int, zone: int)
    requires span > 0.0 && n > 0 && OnGrid(x, span, n, field, zone)
    ensures x / span * n as real == zone as real + Fraction17(field)
  {
    var d, g := Cell(span, n), zone as real + Fraction17(field);
    CellTimesZones(span, n);
    UnitsOf(x, span, n as real, d, g);
  }

  lemma UnitsOf(x: real, span: real, n: real, d: real, g: real)
    requires span > 0.0 && d * n == span && x == d * g
    ensures x / span * n == g
  {
    assert span * g == n * x;
    var u := x / span;
    assert u * span == x;
    assert span * (u * n) == span * g;
    CancelFactor(span, u * n, g);
  }

  lemma CancelFactor(a: real, x: real, y: real)
    requires a > 0.0 && a * x == a * y
    ensures x == y
  {
    CancelLeft(a, x);
    CancelLeft(a, y);
  }

  // Two values on the grids are closest exactly if their zones make up the zone index.
  lemma ClosestIs(x0: real, x1: real, span: real, n: int, f0: int, f1: int, z0: int, z1: int, t: int)
    requires span > 0.0 && n > 1 && OnGrid(x0, span, n, f0, z0) && OnGrid(x1, span, n - 1, f1, z1)
    ensures Closest(x0, x1, span, n, t) <==> ZoneIndex(f0, f1, n, n - 1) == IndexOf(n, z0, z1, t)
  {
    hide OnGrid, IndexOf;
    Distance(x0, x1, span, n, f0, f1, z0, z1, t);
    FloorIs(((n - 1) * f0 - n * f1) as real / 131072.0, IndexOf(n, z0, z1, t));
  }

  lemma Distance(x0: real, x1: real, span: real, n: int, f0: int, f1: int, z0: int, z1: int, t: int)
    requires span > 0.0 && n > 1 && OnGrid(x0, span, n, f0, z0) && OnGrid(x1, span, n - 1, f1, z1)
    ensures (n * (n - 1)) as real * ((x0 - x1) / span + t as real)
            == ((n - 1) * f0 - n * f1) as real / 131072.0 - IndexOf(n, z0, z1, t) as real
  {
    hide OnGrid, IndexOf, Fraction17;
    var a, u0, u1 := n as real, x0 / span, x1 / span;
    GridUnits(x0, span, n, f0, z0);
    GridUnits(x1, span, n - 1, f1, z1);
    Steps(u0, u1, a, z0 as real + Fraction17(f0), z1 as real + Fraction17(f1), t as real);
    Apart(x0, x1, span);
    RealProduct(n, n - 1);
    InSteps(n, f0, f1, z0, z1, t);
    SameProduct((n * (n - 1)) as real, a * (a - 1.0), (x0 - x1) / span + t as real, u0 - u1 + t as real);
  }

  lemma SameProduct(a: real, b: real, x: real, y: real)
    requires a == b && x == y
    ensures a * x == b * y
  {
  }

  lemma Apart(x0: real, x1: real, span: real)
    requires span > 0.0
    ensures (x0 - x1) / span == x0 / span - x1 / span
  {
  }

  lemma InSteps(n: int, f0: int, f1: int, z0: int, z1: int, t: int)
    ensures var a := n as real;
            (a - 1.0) * (z0 as real + Fraction17(f0)) - a * (z1 as real + Fraction17(f1)) + a * (a - 1.0) * t as real
            == ((n - 1) * f0 - n * f1) as real / 131072.0 - IndexOf(n, z0, z1, t) as real
  {
    RealProduct(n - 1, z0);
    RealProduct(n, z1);
    RealProduct(n - 1, f0);
    RealProduct(n, f1);
    RealProduct(n, n - 1);
    RealProduct(n * (n - 1), t);
  }

  lemma FloorIs(q: real, j: int)
    ensures (q + 0.5).Floor == j <==> -0.5 <= q - j as real < 0.5
  {
  }

  // Whole spans are whole cells.
  lemma ZoneMoved(span: real, n: int, z: int, field: int, k: int)
    requires span > 0.0 && n > 0
    ensures FromZone(Cell(span, n), z + n * k, field) == FromZone(Cell(span, n), z, field) + span * k as real
  {
    CellTimesZones(span, n);
    RealProduct(n, k);
    Distribute(Cell(span, n), n as real, k as real, z as real + Fraction17(field), span);
  }

  // The value in the zone that a zone index stands for, moved by whole spans.
  function InZone(span: real, n: int, j: int, field: int, k: int): real
    requires span > 0.0 && n > 0
  {
    FromZone(Cell(span, n), j % n, field) + span * k as real
  }

  lemma GridIsInZone(x: real, span: real, n: int, field: int, z: int)
    requires span > 0.0 && n > 0 && OnGrid(x, span, n, field, z)
    ensures x == InZone(span, n, z, field, z / n)
  {
    hide FromZone, Cell;
    ZoneMoved(span, n, z % n, field, z / n);
    assert z == z % n + n * (z / n);
  }

  // All solutions are those in the zones of the zone index.
  lemma SolutionIs(x0: real, x1: real, span: real, n: int, f0: int, f1: int) returns (k0: int, k1: int)
    requires span > 0.0 && n > 0 && Solves(x0, x1, span, n, f0, f1)
    ensures var j := ZoneIndex(f0, f1, n, n - 1);
            x0 == InZone(span, n, j, f0, k0) && x1 == InZone(span, OddZones(n), j, f1, k1)
  {
    hide OnGrid, Closest, ZoneIndex, IndexOf;
    var z0 :| OnGrid(x0, span, n, f0, z0);
    var z1 :| OnGrid(x1, span, OddZones(n), f1, z1);
    k0, k1 := z0 / n, z1 / OddZones(n);
    GridIsInZone(x0, span, n, f0, z0);
    GridIsInZone(x1, span, OddZones(n), f1, z1);
    if n > 1 {
      var t :| Closest(x0, x1, span, n, t);
      ClosestIs(x0, x1, span, n, f0, f1, z0, z1, t);
      IndexResidues(n, z0, z1, t);
    } else {
      NoRemainder(z0);
      NoRemainder(z1);
      NoRemainder(ZoneIndex(f0, f1, n, n - 1));
    }
  }

  lemma NoRemainder(z: int)
    ensures z % 1 == 0
  {
  }

  // These are solutions.
  lemma InZoneSolves(span: real, n: int, f0: int, f1: int, k0: int, k1: int)
    requires span > 0.0 && n > 0
    ensures var j := ZoneIndex(f0, f1, n, n - 1);
            Solves(InZone(span, n, j, f0, k0), InZone(span, OddZones(n), j, f1, k1), span, n, f0, f1)
  {
    hide FromZone, Cell, Closest, ZoneIndex, IndexOf;
    var j, m := ZoneIndex(f0, f1, n, n - 1), OddZones(n);
    var x0, x1 := InZone(span, n, j, f0, k0), InZone(span, m, j, f1, k1);
    var z0, z1 := j % n + n * k0, j % m + m * k1;
    ZoneMoved(span, n, j % n, f0, k0);
    ZoneMoved(span, m, j % m, f1, k1);
    assert OnGrid(x0, span, n, f0, z0) && OnGrid(x1, span, m, f1, z1);
    if n > 1 {
      var t := j / n - j / m + k1 - k0;
      IndexOfResidues(n, j, k0, k1);
      ClosestIs(x0, x1, span, n, f0, f1, z0, z1, t);
      assert Closest(x0, x1, span, n, t);
    }
  }

  lemma IndexOfResidues(n: int, j: int, k0: int, k1: int)
    requires n > 1
    ensures IndexOf(n, j % n + n * k0, j % (n - 1) + (n - 1) * k1, j / n - j / (n - 1) + k1 - k0) == j
  {
    Expanded(n, n - 1, j, j / n, j % n, j / (n - 1), j % (n - 1), k0, k1);
  }

  lemma Expanded(n: int, m: int, j: int, a: int, r: int, b: int, s: int, k0: int, k1: int)
    requires m == n - 1 && j == n * a + r && j == m * b + s
    ensures n * (s + m * k1) - m * (r + n * k0) - n * m * (a - b + k1 - k0) == j
  {
    hide *;
    var c := n * m;
    Scaled(n, m, c, j, b, s, k1);
    Scaled(m, n, c, j, a, r, k0);
    FourTerms(c, a, b, k1, k0);
    assert n * j - m * j == j;
  }

  lemma Scaled(n: int, m: int, c: int, j: int, b: int, s: int, k: int)
    requires j == m * b + s && c == n * m
    ensures n * (s + m * k) == n * j - c * b + c * k
  {
    assert n * (m * b) == c * b;
    assert n * (m * k) == c * k;
  }

  lemma FourTerms(c: int, a: int, b: int, d: int, e: int)
    ensures c * (a - b + d - e) == c * a - c * b + c * d - c * e
  {
  }

  // ---------------------------------------------------------------- the outcome for any two frames

  // Latitudes after the 270 degree test.
  predicate InWindow(lat: real) {
    -90.0 <= lat < 270.0
  }

  // Of the two closest solutions in [-90, 270), one beyond a pole makes the frames bad data, and different
  // numbers of zones make them unusable.  Otherwise the latitude is that of the frame chosen, and the
  // longitude is the one solution in [-180, 180) for it.
  lemma AirborneOutcome(evenLat: int, evenLon: int, oddLat: int, oddLon: int, odd: bool, lat0: real, lat1: real)
    requires 0 <= evenLat < CPR_STEPS && 0 <= oddLat < CPR_STEPS
    requires Solves(lat0, lat1, 360.0, 60, evenLat, oddLat) && InWindow(lat0) && InWindow(lat1)
    ensures var fix := DecodeAirborne(evenLat, evenLon, oddLat, oddLon, odd);
            && (fix == BadData <==> lat0 > 90.0 || lat1 > 90.0)
            && (fix == ZoneCrossed <==> lat0 <= 90.0 && lat1 <= 90.0 && CprNL(lat0) != CprNL(lat1))
            && (fix.Position? ==>
                  && fix.lat == (if odd then lat1 else lat0) && -90.0 <= fix.lat <= 90.0 && -180.0 <= fix.lon < 180.0
                  && LongitudeFor(fix.lon, CprNL(fix.lat), evenLon, oddLon, odd))
  {
    hide CprNL, NLBracket, NLThreshold, Renormalize, ZoneIndex, Solves, FromZone, Cell;
    var k0, k1 := SolutionIs(lat0, lat1, 360.0, 60, evenLat, oddLat);
    LatitudeRange(evenLat, oddLat, false);
    LatitudeRange(evenLat, oddLat, true);
    WindowTurn(GlobalLat(evenLat, oddLat, false, false), lat0, k0);
    WindowTurn(GlobalLat(evenLat, oddLat, true, false), lat1, k1);
    var rlat := if odd then lat1 else lat0;
    LongitudeSolved(evenLon, oddLon, rlat, odd);
    hide GlobalLat, GlobalLon, LongitudeFor;
  }

  lemma LatitudeRange(evenLat: int, oddLat: int, odd: bool)
    requires 0 <= evenLat < CPR_STEPS && 0 <= oddLat < CPR_STEPS
    ensures 0.0 <= GlobalLat(evenLat, oddLat, odd, false) < 360.0
  {
    var j := ZoneIndex(evenLat, oddLat, 60, 59);
    DecodedRange(360.0, 60, j % 60, evenLat);
    DecodedRange(360.0, 59, j % 59, oddLat);
  }

  lemma WindowTurn(v: real, x: real, k: int)
    requires 0.0 <= v < 360.0 && x == v + 360.0 * k as real && InWindow(x)
    ensures x == if v >= 270.0 then v - 360.0 else v
  {
  }

  // lon is the longitude of the chosen frame in a solution for nl zones.
  ghost predicate LongitudeFor(lon: real, nl: int, evenLon: int, oddLon: int, odd: bool)
    requires nl > 0
  {
    exists other :: LongitudePair(lon, other, nl, evenLon, oddLon, odd)
  }

  ghost predicate LongitudePair(lon: real, other: real, nl: int, evenLon: int, oddLon: int, odd: bool)
    requires nl > 0
  {
    Solves(if odd then other else lon, if odd then lon else other, 360.0, nl, evenLon, oddLon)
  }

  lemma LongitudeSolved(evenLon: int, oddLon: int, rlat: real, odd: bool)
    ensures LongitudeFor(Renormalize(GlobalLon(evenLon, oddLon, rlat, odd, false)), CprNL(rlat), evenLon, oddLon, odd)
  {
    hide CprNL, NLBracket, NLThreshold, ZoneIndex, Solves, FromZone, Cell;
    var v := GlobalLon(evenLon, oddLon, rlat, odd, false);
    var nl, k := CprNL(rlat), -((v + 180.0) / 360.0).Floor;
    var j := ZoneIndex(evenLon, oddLon, nl, nl - 1);
    InZoneSolves(360.0, nl, evenLon, oddLon, if odd then 0 else k, if odd then k else 0);
    assert Renormalize(v) == v + 360.0 * k as real;
    var other := if odd then InZone(360.0, nl, j, evenLon, 0) else InZone(360.0, OddZones(nl), j, oddLon, 0);
    assert LongitudePair(Renormalize(v), other, nl, evenLon, oddLon, odd);
  }

  // There is such a solution for every two frames, and only one.
  lemma LatitudesExist(evenLat: int, oddLat: int) returns (lat0: real, lat1: real)
    requires 0 <= evenLat < CPR_STEPS && 0 <= oddLat < CPR_STEPS
    ensures Solves(lat0, lat1, 360.0, 60, evenLat, oddLat) && InWindow(lat0) && InWindow(lat1)
  {
    hide FromZone, Cell, ZoneIndex, Solves;
    LatitudeRange(evenLat, oddLat, false);
    LatitudeRange(evenLat, oddLat, true);
    var v0, v1 := GlobalLat(evenLat, oddLat, false, false), GlobalLat(evenLat, oddLat, true, false);
    var k0, k1 := if v0 >= 270.0 then -1 else 0, if v1 >= 270.0 then -1 else 0;
    lat0, lat1 := v0 + 360.0 * k0 as real, v1 + 360.0 * k1 as real;
    InZoneSolves(360.0, 60, evenLat, oddLat, k0, k1);
  }

  lemma LongitudeUnique(a: real, b: real, nl: int, evenLon: int, oddLon: int, odd: bool)
    requires nl > 0 && LongitudeFor(a, nl, evenLon, oddLon, odd) && LongitudeFor(b, nl, evenLon, oddLon, odd)
    requires -180.0 <= a < 180.0 && -180.0 <= b < 180.0
    ensures a == b
  {
    hide LongitudePair;
    var c :| LongitudePair(a, c, nl, evenLon, oddLon, odd);
    var d :| LongitudePair(b, d, nl, evenLon, oddLon, odd);
    var k := LongitudeIs(a, c, nl, evenLon, oddLon, odd);
    var l := LongitudeIs(b, d, nl, evenLon, oddLon, odd);
    var n, field := if odd then OddZones(nl) else nl, if odd then oddLon else evenLon;
    SameTurn(FromZone(Cell(360.0, n), ZoneIndex(evenLon, oddLon, nl, nl - 1) % n, field), a, b, k, l);
  }

  lemma LongitudeIs(lon: real, other: real, nl: int, evenLon: int, oddLon: int, odd: bool) returns (k: int)
    requires nl > 0 && LongitudePair(lon, other, nl, evenLon, oddLon, odd)
    ensures var n, field := if odd then OddZones(nl) else nl, if odd then oddLon else evenLon;
            lon == FromZone(Cell(360.0, n), ZoneIndex(evenLon, oddLon, nl, nl - 1) % n, field) + 360.0 * k as real
  {
    hide FromZone, Cell, ZoneIndex, Solves;
    var k0, k1 := SolutionIs(if odd then other else lon, if odd then lon else other, 360.0, nl, evenLon, oddLon);
    k := if odd then k1 else k0;
  }

  lemma SameTurn(v: real, a: real, b: real, k: int, l: int)
    requires a == v + 360.0 * k as real && b == v + 360.0 * l as real && -180.0 <= a < 180.0 && -180.0 <= b < 180.0
    ensures a == b
  {
    assert a - b == 360.0 * (k - l) as real;
  }
}
