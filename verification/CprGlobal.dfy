// Global decoding: an even and an odd frame, encoded at possibly different positions, give back
// the position of the chosen frame to within half a quantisation step.
module CprGlobal {
  import opened Arith
  import opened Cpr
  import opened CprEncode

  // ---------------------------------------------------------------- zone recovery (CRT)

  lemma ModShift(a: int, b: int, q: int, r: int)
    requires b > 0 && a == b * q + r
    ensures a % b == r % b
  {
    ModUnique(a, b, q + r / b, r % b);
  }

  // The even and odd grid indices of nearby positions satisfy the hypothesis; then the zone index
  // is congruent to the even zone modulo n and to the odd zone modulo n - 1.
  lemma ZoneResidues(n: int, k0: int, k1: int)
    requires n >= 2
    requires -65536 < (n - 1) * k0 - n * k1 < 65536
    ensures var j := ZoneIndex(k0 % CPR_STEPS, k1 % CPR_STEPS, n, n - 1);
            j % n == (k0 / CPR_STEPS) % n && j % (n - 1) == (k1 / CPR_STEPS) % (n - 1)
  {
    var z0, z1, r0, r1 := k0 / CPR_STEPS, k1 / CPR_STEPS, k0 % CPR_STEPS, k1 % CPR_STEPS;
    var j := n * z1 - (n - 1) * z0;
    SplitIndex(n, z0, r0, z1, r1);
    assert (n - 1) * r0 - n * r1 == ((n - 1) * k0 - n * k1) + CPR_STEPS * j;
    FloorOfMultiple((n - 1) * k0 - n * k1, j);
    assert ZoneIndex(r0, r1, n, n - 1) == j;
    assert j == n * (z1 - z0) + z0;
    ModShift(j, n, z1 - z0, z0);
    assert j == (n - 1) * (z1 - z0) + z1;
    ModShift(j, n - 1, z1 - z0, z1);
  }

  lemma SplitIndex(n: int, z0: int, r0: int, z1: int, r1: int)
    ensures (n - 1) * (CPR_STEPS * z0 + r0) - n * (CPR_STEPS * z1 + r1)
            == (n - 1) * r0 - n * r1 - CPR_STEPS * (n * z1 - (n - 1) * z0)
  {
  }

  lemma FloorOfMultiple(small: int, j: int)
    requires -65536 < small < 65536
    ensures ((small + CPR_STEPS * j) as real / 131072.0 + 0.5).Floor == j
  {
    assert (small + CPR_STEPS * j) as real / 131072.0 + 0.5 == small as real / 131072.0 + 0.5 + j as real;
  }

  // ---------------------------------------------------------------- quantisation

  // k is n * w rounded to an integer.
  ghost predicate RoundOf(k: int, n: int, w: real) {
    -0.5 <= k as real - n as real * w <= 0.5
  }

  lemma IndexOfCell(x: real, span: real, n: int) returns (k: int, w: real)
    requires span > 0.0 && n > 0
    ensures k == Index(x, Cell(span, n)) && w == 131072.0 * (x / span)
    ensures RoundOf(k, n, w)
  {
    k, w := Index(x, Cell(span, n)), 131072.0 * (x / span);
    CellUnits(x, span, n as real, x / span);
    assert 131072.0 * (n as real * (x / span)) == n as real * w;
  }

  lemma CellUnits(x: real, span: real, n: real, u: real)
    requires span > 0.0 && n > 0.0 && x == span * u
    ensures x / (span / n) == n * u
  {
    var d := span / n;
    assert d * n == span;
    assert x == d * (n * u);
    CancelLeft(d, n * u);
  }

  lemma RecoveredError(x: real, d: real)
    requires d > 0.0
    ensures Abs(Recovered(x, d) - x) <= d / 262144.0
  {
    EncodeByIndex(x, d);
    ScaledError(d, x / d, Index(x, d) as real / 131072.0, x);
  }

  lemma ScaledError(d: real, q: real, g: real, x: real)
    requires d > 0.0 && x == d * q && -1.0 / 262144.0 <= g - q <= 1.0 / 262144.0
    ensures Abs(d * g - x) <= d / 262144.0
  {
    assert d * (g - q) == d * g - x;
    var p := AbsTimes(d, g - q, 1.0 / 262144.0);
  }

  // The product of a size and a bounded error, handed out under a name of its own.
  lemma AbsTimes(a: real, x: real, bound: real) returns (p: real)
    requires a >= 0.0 && -bound <= x <= bound
    ensures p == a * x && -(a * bound) <= p <= a * bound
  {
    p := a * x;
    MulMonotone(a, x, bound);
    MulMonotone(a, -bound, x);
  }

  // How far apart the two positions may be for the zones to be recoverable.
  ghost predicate CloseEnough(x0: real, x1: real, span: real, n: int)
    requires span > 0.0
  {
    n as real * (n - 1) as real / span * Abs(x0 - x1) + (2 * n - 1) as real / 262144.0 < 0.5
  }

  lemma IndicesClose(x0: real, x1: real, span: real, n: int)
    requires span > 0.0 && n >= 2 && CloseEnough(x0, x1, span, n)
    ensures var k0, k1 := Index(x0, Cell(span, n)), Index(x1, Cell(span, n - 1));
            -65536 < (n - 1) * k0 - n * k1 < 65536
  {
    var k0, w0 := IndexOfCell(x0, span, n);
    var k1, w1 := IndexOfCell(x1, span, n - 1);
    IntegerBound(x0, x1, span, n, k0, k1, w0, w1);
  }

  lemma IntegerBound(x0: real, x1: real, span: real, n: int, k0: int, k1: int, w0: real, w1: real)
    requires span > 0.0 && n >= 2 && CloseEnough(x0, x1, span, n)
    requires w0 == 131072.0 * (x0 / span) && w1 == 131072.0 * (x1 / span)
    requires RoundOf(k0, n, w0) && RoundOf(k1, n - 1, w1)
    ensures -65536 < (n - 1) * k0 - n * k1 < 65536
  {
    RealProduct(n - 1, k0);
    RealProduct(n, k1);
    DifferenceBound(x0, x1, span, n as real, (n - 1) as real, k0 as real, k1 as real, w0, w1);
  }

  lemma RealProduct(a: int, b: int)
    ensures (a * b) as real == a as real * b as real
  {
  }

  lemma DifferenceBound(x0: real, x1: real, span: real, a: real, b: real,
                        k0: real, k1: real, w0: real, w1: real)
    requires span > 0.0 && a > 0.0 && b > 0.0
    requires w0 == 131072.0 * (x0 / span) && w1 == 131072.0 * (x1 / span)
    requires -0.5 <= k0 - a * w0 <= 0.5 && -0.5 <= k1 - b * w1 <= 0.5
    requires a * b / span * Abs(x0 - x1) + (a + b) / 262144.0 < 0.5
    ensures -65536.0 < b * k0 - a * k1 < 65536.0
  {
    var e0, e1, m := k0 - a * w0, k1 - b * w1, a * b * (w0 - w1);
    Recombine(k0, k1, a, b, w0, w1, e0, e1);
    NonNegativeProduct(a, b);
    MotionInSteps(x0, x1, span, a * b, w0, w1, m);
    Combine(a, b, e0, e1, m, 131072.0 * (a * b / span * Abs(x0 - x1)));
  }

  lemma Combine(a: real, b: real, e0: real, e1: real, m: real, r: real)
    requires a > 0.0 && b > 0.0
    requires -0.5 <= e0 <= 0.5 && -0.5 <= e1 <= 0.5
    requires -r <= m <= r && r + (a + b) / 2.0 < 65536.0
    ensures -65536.0 < b * e0 - a * e1 + m < 65536.0
  {
    var p := AbsTimes(b, e0, 0.5);
    var q := AbsTimes(a, e1, 0.5);
    assert -65536.0 < p - q + m < 65536.0;
  }

  lemma Recombine(k0: real, k1: real, a: real, b: real, w0: real, w1: real, e0: real, e1: real)
    requires e0 == k0 - a * w0 && e1 == k1 - b * w1
    ensures b * k0 - a * k1 == b * e0 - a * e1 + a * b * (w0 - w1)
  {
  }

  lemma NonNegativeProduct(a: real, b: real)
    requires a >= 0.0 && b >= 0.0
    ensures a * b >= 0.0
  {
  }

  lemma MotionInSteps(x0: real, x1: real, span: real, ab: real, w0: real, w1: real, m: real)
    requires span > 0.0 && ab >= 0.0 && m == ab * (w0 - w1)
    requires w0 == 131072.0 * (x0 / span) && w1 == 131072.0 * (x1 / span)
    ensures var r := 131072.0 * (ab / span * Abs(x0 - x1));
            -r <= m <= r
  {
    var c := ab / span;
    assert w0 - w1 == 131072.0 * ((x0 - x1) / span);
    assert m == 131072.0 * (c * (x0 - x1));
    var p := AbsTimes(c, x0 - x1, Abs(x0 - x1));
  }

  // ---------------------------------------------------------------- decoding one axis

  lemma CellTimesZones(span: real, n: int)
    requires span > 0.0 && n > 0
    ensures Cell(span, n) * n as real == span
  {
  }

  // Reducing the zone modulo n moves the recovered value by a multiple of the span.
  lemma ReducedZone(span: real, n: int, k: int) returns (turns: int)
    requires span > 0.0 && n > 0
    ensures FromZone(Cell(span, n), (k / CPR_STEPS) % n, k % CPR_STEPS)
            == Cell(span, n) * (k as real / 131072.0) + span * turns as real
    ensures turns == -(k / CPR_STEPS / n)
  {
    var d, z := Cell(span, n), k / CPR_STEPS;
    turns := -(z / n);
    CellTimesZones(span, n);
    assert k as real / 131072.0 == z as real + Fraction17(k % CPR_STEPS);
    RealProduct(n, z / n);
    assert (z % n) as real == z as real + n as real * turns as real;
    Distribute(d, n as real, turns as real, k as real / 131072.0, span);
  }

  lemma Distribute(d: real, n: real, t: real, g: real, span: real)
    requires d * n == span
    ensures d * (g + n * t) == d * g + span * t
  {
    assert d * (n * t) == (d * n) * t;
  }

  // A decoded value lies in [0, span).
  lemma DecodedRange(span: real, n: int, z: int, field: int)
    requires span > 0.0 && n > 0 && 0 <= z < n && 0 <= field < CPR_STEPS
    ensures 0.0 <= FromZone(Cell(span, n), z, field) < span
  {
    var g := z as real + Fraction17(field);
    CellTimesZones(span, n);
    PartOfSpan(Cell(span, n), g, n as real, span);
  }

  lemma PartOfSpan(d: real, g: real, n: real, span: real)
    requires d > 0.0 && d * n == span && 0.0 <= g < n
    ensures 0.0 <= d * g < span
  {
    assert d * (n - g) == d * n - d * g == span - d * g;
    MulMonotone(d, 0.0, g);
    ProductPositive(d, n - g);
  }

  lemma ZoneDecodes(x: real, span: real, n: int, j: int) returns (turns: int)
    requires span > 0.0 && n > 0
    requires j % n == (Index(x, Cell(span, n)) / CPR_STEPS) % n
    ensures FromZone(Cell(span, n), j % n, Encode(x, Cell(span, n)))
            == Recovered(x, Cell(span, n)) + span * turns as real
  {
    EncodeByIndex(x, Cell(span, n));
    turns := ReducedZone(span, n, Index(x, Cell(span, n)));
  }

  // Both frames of a close pair decode to their own grid points, up to whole spans.
  lemma PairDecodes(x0: real, x1: real, span: real, n: int) returns (turns0: int, turns1: int)
    requires span > 0.0 && n >= 2 && CloseEnough(x0, x1, span, n)
    ensures var d0, d1 := Cell(span, n), Cell(span, n - 1);
            var f0, f1 := Encode(x0, d0), Encode(x1, d1);
            var j := ZoneIndex(f0, f1, n, n - 1);
            && FromZone(d0, j % n, f0) == Recovered(x0, d0) + span * turns0 as real
            && FromZone(d1, j % (n - 1), f1) == Recovered(x1, d1) + span * turns1 as real
  {
    hide *;
    var d0, d1 := Cell(span, n), Cell(span, n - 1);
    IndicesClose(x0, x1, span, n);
    ZoneResidues(n, Index(x0, d0), Index(x1, d1));
    EncodeByIndex(x0, d0);
    EncodeByIndex(x1, d1);
    var j := ZoneIndex(Encode(x0, d0), Encode(x1, d1), n, n - 1);
    turns0 := ZoneDecodes(x0, span, n, j);
    turns1 := ZoneDecodes(x1, span, n - 1, j);
  }

  // ---------------------------------------------------------------- latitude

  // Rounding to the grid never passes a grid point.
  lemma RoundingKeepsOrder(x: real, d: real, p: int)
    requires d > 0.0
    ensures x <= d * (p as real / 131072.0) ==> Recovered(x, d) <= d * (p as real / 131072.0)
    ensures x >= d * (p as real / 131072.0) ==> Recovered(x, d) >= d * (p as real / 131072.0)
  {
    EncodeByIndex(x, d);
    var k, g := Index(x, d) as real / 131072.0, p as real / 131072.0;
    IndexOrder(x / d, p);
    hide Recovered, Index;
    if x <= d * g {
      QuotientOrder(x, d, x / d, g);
      MulMonotone(d, k, g);
    }
    if x >= d * g {
      QuotientOrder(x, d, x / d, g);
      MulMonotone(d, g, k);
    }
  }

  lemma IndexOrder(q: real, p: int)
    ensures q <= p as real / 131072.0 ==> (131072.0 * q + 0.5).Floor <= p
    ensures q >= p as real / 131072.0 ==> (131072.0 * q + 0.5).Floor >= p
  {
  }

  lemma QuotientOrder(x: real, d: real, q: real, g: real)
    requires d > 0.0 && x == d * q
    ensures x <= d * g ==> q <= g
    ensures x >= d * g ==> q >= g
  {
    if q > g {
      ProductPositive(d, q - g);
      assert d * (q - g) == x - d * g;
    } else if q < g {
      ProductPositive(d, g - q);
      assert d * (g - q) == d * g - x;
    }
  }

  // The poles are grid points, so rounding never leaves [-90, 90].
  lemma RecoveredLatInRange(lat: real, odd: bool, surface: bool)
    requires -90.0 <= lat <= 90.0
    ensures -90.0 <= Recovered(lat, CprDlat(odd, surface)) <= 90.0
  {
    hide Recovered;
    var p := (if odd then 1933312 else 1966080) * (if surface then 4 else 1);
    RoundingKeepsOrder(lat, CprDlat(odd, surface), p);
    RoundingKeepsOrder(lat, CprDlat(odd, surface), -p);
  }

  lemma UniqueTurn(v: real, x: real, turns: int)
    requires v == x + 360.0 * turns as real && 0.0 <= v < 360.0 && -90.0 <= x <= 90.0
    ensures x == if v >= 270.0 then v - 360.0 else v
  {
  }

  lemma AirborneLatitudes(lat0: real, lat1: real)
    requires -90.0 <= lat0 <= 90.0 && -90.0 <= lat1 <= 90.0
    requires CloseEnough(lat0, lat1, 360.0, 60)
    ensures var f0, f1 := Encode(lat0, CprDlat(false, false)), Encode(lat1, CprDlat(true, false));
            var v0, v1 := GlobalLat(f0, f1, false, false), GlobalLat(f0, f1, true, false);
            && (if v0 >= 270.0 then v0 - 360.0 else v0) == Recovered(lat0, CprDlat(false, false))
            && (if v1 >= 270.0 then v1 - 360.0 else v1) == Recovered(lat1, CprDlat(true, false))
  {
    var d0, d1 := CprDlat(false, false), CprDlat(true, false);
    var f0, f1 := Encode(lat0, d0), Encode(lat1, d1);
    var t0, t1 := PairDecodes(lat0, lat1, 360.0, 60);
    var j := ZoneIndex(f0, f1, 60, 59);
    DecodedRange(360.0, 60, j % 60, f0);
    DecodedRange(360.0, 59, j % 59, f1);
    RecoveredLatInRange(lat0, false, false);
    RecoveredLatInRange(lat1, true, false);
    UniqueTurn(GlobalLat(f0, f1, false, false), Recovered(lat0, d0), t0);
    UniqueTurn(GlobalLat(f0, f1, true, false), Recovered(lat1, d1), t1);
  }

  // ---------------------------------------------------------------- longitude

  // With nl = 1 a cell is the whole span and the zone index is irrelevant.
  lemma LongitudeDecodes(lon0: real, lon1: real, rlat: real, odd: bool, surface: bool) returns (turns: int)
    requires CloseEnough(lon0, lon1, Span(surface), CprNL(rlat))
    ensures var d0, d1 := CprDlon(rlat, false, surface), CprDlon(rlat, true, surface);
            var lon := GlobalLon(Encode(lon0, d0), Encode(lon1, d1), rlat, odd, surface);
            var x, d := if odd then lon1 else lon0, if odd then d1 else d0;
            lon == Recovered(x, d) + Span(surface) * turns as real
  {
    hide CloseEnough, Encode, Recovered, FromZone, ZoneIndex, Cell;
    var span, nl := Span(surface), CprNL(rlat);
    if nl == 1 {
      var d := Cell(span, 1);
      var m := ZoneIndex(Encode(lon0, d), Encode(lon1, d), 1, 0);
      turns := ZoneDecodes(if odd then lon1 else lon0, span, 1, m);
    } else {
      var t0, t1 := PairDecodes(lon0, lon1, span, nl);
      turns := if odd then t1 else t0;
    }
  }

  // ---------------------------------------------------------------- main theorem, airborne

  // The half quantisation steps of the two axes.
  ghost predicate WithinHalfStep(fix: real, truth: real, cell: real) {
    Abs(fix - truth) <= cell / 262144.0
  }

  ghost predicate SameMeridian(fix: real, truth: real, turns: int, cell: real) {
    WithinHalfStep(fix + 360.0 * turns as real, truth, cell)
  }

  // The frames of two positions decode to that of the chosen frame to half a quantisation step
  // (longitude up to full turns); they are never rejected as bad data, and rejected for crossing a
  // zone exactly when the two recovered latitudes have different zone counts.
  ghost predicate Decodes(lat0: real, lon0: real, lat1: real, lon1: real, odd: bool) {
    var even, oddFrame := EncodePosition(lat0, lon0, false, false), EncodePosition(lat1, lon1, true, false);
    var nl0 := CprNL(Recovered(lat0, CprDlat(false, false)));
    var nl1 := CprNL(Recovered(lat1, CprDlat(true, false)));
    var fix := DecodeAirborne(even.lat, even.lon, oddFrame.lat, oddFrame.lon, odd);
    (fix == ZoneCrossed && nl0 != nl1)
    || (nl0 == nl1 && FixFor(fix, if odd then lat1 else lat0, if odd then lon1 else lon0, odd, false))
  }

  ghost predicate FixFor(fix: Fix, lat: real, lon: real, odd: bool, surface: bool) {
    fix.Position? && -90.0 <= fix.lat <= 90.0 && WithinHalfStep(fix.lat, lat, CprDlat(odd, surface))
    && -180.0 <= fix.lon < 180.0 && OnMeridian(fix.lon, lon, CprDlon(fix.lat, odd, surface))
  }

  ghost predicate OnMeridian(fix: real, truth: real, cell: real) {
    exists turns :: SameMeridian(fix, truth, turns, cell)
  }

  // Even and odd frames of an aircraft that moved little enough between the two.
  lemma AirborneFix(lat0: real, lon0: real, lat1: real, lon1: real, odd: bool)
    requires -90.0 <= lat0 <= 90.0 && -90.0 <= lat1 <= 90.0
    requires CloseEnough(lat0, lat1, 360.0, 60)
    requires CloseEnough(lon0, lon1, 360.0, CprNL(Recovered(lat0, CprDlat(false, false))))
    ensures Decodes(lat0, lon0, lat1, lon1, odd)
  {
    hide CloseEnough, Encode, Recovered, GlobalLat, GlobalLon, Cell, CprNL, NLBracket,
         NLThreshold, Renormalize, OnMeridian;
    var d0, d1 := CprDlat(false, false), CprDlat(true, false);
    var r0, r1 := Recovered(lat0, d0), Recovered(lat1, d1);
    AirborneLatitudes(lat0, lat1);
    RecoveredLatInRange(lat0, false, false);
    RecoveredLatInRange(lat1, true, false);
    if CprNL(r0) == CprNL(r1) {
      var lat, lon, rlat := if odd then lat1 else lat0, if odd then lon1 else lon0, if odd then r1 else r0;
      RecoveredError(lat, CprDlat(odd, false));
      var e0, e1 := Encode(lon0, CprDlon(r0, false, false)), Encode(lon1, CprDlon(r1, true, false));
      var turns := LongitudeDecodes(lon0, lon1, rlat, odd, false);
      var v, d := GlobalLon(e0, e1, rlat, odd, false), CprDlon(rlat, odd, false);
      RenormalizedLongitude(v, lon, d, turns);
    }
  }

  lemma RenormalizedLongitude(v: real, lon: real, d: real, turns: int)
    requires d > 0.0 && v == Recovered(lon, d) + 360.0 * turns as real
    ensures OnMeridian(Renormalize(v), lon, d)
  {
    RecoveredError(lon, d);
    hide Recovered;
    var wraps := ((v + 180.0) / 360.0).Floor;
    assert SameMeridian(Renormalize(v), lon, wraps - turns, d);
  }

  // ---------------------------------------------------------------- corollaries

  lemma StationaryIsClose(x: real, span: real, n: int)
    requires span > 0.0 && 1 <= n <= 60
    ensures CloseEnough(x, x, span, n)
  {
    assert Abs(x - x) == 0.0;
  }

  // Two frames of one position always satisfy the motion bounds.
  lemma AirborneFixStationary(lat: real, lon: real, odd: bool)
    requires -90.0 <= lat <= 90.0
    ensures Decodes(lat, lon, lat, lon, odd)
  {
    hide CprNL, NLBracket, NLThreshold, DecodeAirborne, Recovered, CloseEnough, EncodePosition, Decodes;
    StationaryIsClose(lat, 360.0, 60);
    StationaryIsClose(lon, 360.0, CprNL(Recovered(lat, CprDlat(false, false))));
    AirborneFix(lat, lon, lat, lon, odd);
  }

  // Crossing the antimeridian is no exception: what counts is the distance around the circle.
  lemma AirborneFixAround(lat0: real, lon0: real, lat1: real, lon1: real, t: int, odd: bool)
    requires -90.0 <= lat0 <= 90.0 && -90.0 <= lat1 <= 90.0
    requires CloseEnough(lat0, lat1, 360.0, 60)
    requires CloseEnough(lon0, lon1 + 360.0 * t as real, 360.0, CprNL(Recovered(lat0, CprDlat(false, false))))
    ensures Decodes(lat0, lon0, lat1, lon1, odd)
  {
    hide CprNL, NLBracket, NLThreshold, DecodeAirborne, Recovered, CloseEnough, EncodePosition, WithinHalfStep, OnMeridian, CprDlon;
    var lon2 := lon1 + 360.0 * t as real;
    AirborneFix(lat0, lon0, lat1, lon2, odd);
    SameFrame(lat1, lon1, t, true, false);
    var even, oddFrame := EncodePosition(lat0, lon0, false, false), EncodePosition(lat1, lon1, true, false);
    var fix := DecodeAirborne(even.lat, even.lon, oddFrame.lat, oddFrame.lon, odd);
    if odd && fix.Position? {
      TurnedMeridian(fix.lon, lon1, t, CprDlon(fix.lat, odd, false));
    }
  }

  lemma TurnedMeridian(fix: real, lon: real, t: int, d: real)
    requires OnMeridian(fix, lon + 360.0 * t as real, d)
    ensures OnMeridian(fix, lon, d)
  {
    var turns :| SameMeridian(fix, lon + 360.0 * t as real, turns, d);
    assert SameMeridian(fix, lon, turns - t, d);
  }

  // Full turns do not show in a frame.
  lemma SameFrame(lat: real, lon: real, t: int, odd: bool, surface: bool)
    ensures EncodePosition(lat, lon + 360.0 * t as real, odd, surface) == EncodePosition(lat, lon, odd, surface)
  {
    hide CprNL, NLBracket, NLThreshold, Recovered, Encode;
    var n := CprN(Recovered(lat, CprDlat(odd, surface)), odd);
    if surface {
      assert 90.0 * (4 * t) as real == 360.0 * t as real;
      EncodeWholeSpans(lon, 90.0, n, 4 * t);
    } else {
      EncodeWholeSpans(lon, 360.0, n, t);
    }
  }

  // Longitudes a whole number of spans apart are encoded alike.
  lemma EncodeWholeSpans(x: real, span: real, n: int, spans: int)
    requires span > 0.0 && n > 0
    ensures Encode(x + span * spans as real, Cell(span, n)) == Encode(x, Cell(span, n))
  {
    var d, y := Cell(span, n), x + span * spans as real;
    EncodeByIndex(x, d);
    EncodeByIndex(y, d);
    CellTimesZones(span, n);
    RealProduct(n, spans);
    WholeCells(x, d, x / d, n as real, spans as real, span);
    assert y / d == x / d + (n * spans) as real;
    assert Index(y, d) == Index(x, d) + CPR_STEPS * (n * spans);
    ModShift(Index(y, d), CPR_STEPS, n * spans, Index(x, d));
  }

  lemma WholeCells(x: real, d: real, q: real, n: real, t: real, span: real)
    requires d > 0.0 && x == d * q && d * n == span
    ensures (x + span * t) / d == q + n * t
  {
    Distribute(d, n, t, q, span);
    CancelLeft(d, q + n * t);
  }
}
