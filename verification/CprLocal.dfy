// Decoding against a reference position: the nearest-solution decoder and the surface decoder.
module CprLocal {
  import opened Cpr
  import opened CprEncode
  import opened CprGlobal

  // ---------------------------------------------------------------- nearest candidate

  // c is one of the positions, one per cell, that a field can stand for.
  ghost predicate Candidate(c: real, d: real, field: int, zone: int) {
    c == FromZone(d, zone, field)
  }

  lemma NearestZone(ref: real, d: real, field: int) returns (zone: int)
    requires d > 0.0
    ensures Candidate(NearestCandidate(ref, d, field), d, field, zone)
    ensures -d / 2.0 < NearestCandidate(ref, d, field) - ref <= d / 2.0
  {
    var q, f := ref / d, Fraction17(field);
    assert ref == d * q;
    SubOverCell(ref, d, q, q.Floor as real);
    assert CprModDouble(ref, d) / d == q - q.Floor as real;
    zone := q.Floor + (0.5 + (q - q.Floor as real) - f).Floor;
    HalfCell(d, q, zone as real + f, ref);
  }

  lemma HalfCell(d: real, q: real, g: real, ref: real)
    requires d > 0.0 && ref == d * q && q - 0.5 < g <= q + 0.5
    ensures -d / 2.0 < d * g - ref <= d / 2.0
  {
    var p := HalfProduct(d, g - q);
    assert p == d * g - ref;
  }

  lemma HalfProduct(d: real, e: real) returns (p: real)
    requires d > 0.0 && -0.5 < e <= 0.5
    ensures p == d * e && -d / 2.0 < p <= d / 2.0
  {
    p := d * e;
    MulMonotone(d, e, 0.5);
    ProductPositive(d, e + 0.5);
    assert d * (e + 0.5) == p + d / 2.0;
  }

  // No other candidate is within half a cell of the reference, except at an exact tie.
  lemma NearestUnique(ref: real, d: real, field: int, c: real, zone: int)
    requires d > 0.0 && Candidate(c, d, field, zone) && Abs(c - ref) <= d / 2.0
    ensures var n := NearestCandidate(ref, d, field);
            c == n || (c == n - d && n - ref == d / 2.0)
  {
    var z := NearestZone(ref, d, field);
    var n := NearestCandidate(ref, d, field);
    CandidateGap(d, field, z, zone);
    SmallMultiple(d, z - zone, n - c);
  }

  lemma CandidateGap(d: real, field: int, z: int, zone: int)
    ensures FromZone(d, z, field) - FromZone(d, zone, field) == d * (z - zone) as real
  {
  }

  lemma SmallMultiple(d: real, k: int, gap: real)
    requires d > 0.0 && gap == d * k as real && -d < gap <= d
    ensures gap == 0.0 || gap == d
  {
    if k >= 2 {
      MulMonotone(d, 2.0, k as real);
    } else if k <= -1 {
      MulMonotone(d, k as real, -1.0);
    } else {
      assert k == 0 || k == 1;
      assert gap == if k == 0 then 0.0 else d;
    }
  }

  // ---------------------------------------------------------------- relative decoder

  // When the source's longitude check fails: folding a candidate beyond 180 degrees east back by
  // a full turn puts it out of reach of the reference.
  ghost predicate FoldedAway(lon: real, reflon: real, cell: real) {
    lon > 180.0 && !(cell == 360.0 && lon - reflon == 180.0)
  }

  lemma CellAtMostSpan(surface: bool, zones: int)
    requires zones >= 1
    ensures Cell(Span(surface), zones) <= Span(surface)
  {
    CellTimesZones(Span(surface), zones);
    MulMonotone(Cell(Span(surface), zones), 1.0, zones as real);
  }

  // The outcome for every input: the only failures are a nearest latitude beyond a pole and a
  // nearest longitude east of the antimeridian.  The latitude half-cell check never fails.
  lemma RelativeOutcome(reflat: real, reflon: real, cprLat: int, cprLon: int, odd: bool, surface: bool)
    requires -90.0 <= reflat <= 90.0
    ensures var dlat := CprDlat(odd, surface);
            var lat := NearestCandidate(reflat, dlat, cprLat);
            var dlon := CprDlon(lat, odd, surface);
            var lon := NearestCandidate(reflon, dlon, cprLon);
            match DecodeRelative(reflat, reflon, cprLat, cprLon, odd, surface)
            case LatitudeError => LatOutOfRange(lat)
            case LongitudeError => !LatOutOfRange(lat) && FoldedAway(lon, reflon, dlon)
            case Relative(rlat, rlon) =>
              && !LatOutOfRange(lat) && !FoldedAway(lon, reflon, dlon)
              && rlat == lat && Abs(rlat - reflat) <= dlat / 2.0
              && rlon == (if lon > 180.0 then lon - 360.0 else lon) && Abs(rlon - reflon) <= dlon / 2.0
  {
    hide CprNL, NLBracket, NLThreshold, NearestCandidate, Cell, CprN;
    var dlat := CprDlat(odd, surface);
    var lat := NearestCandidate(reflat, dlat, cprLat);
    var z := NearestZone(reflat, dlat, cprLat);
    CellAtMostSpan(surface, if odd then 59 else 60);
    SmallLatitudeCell(odd, surface);
    var dlon := CprDlon(lat, odd, surface);
    var m := NearestZone(reflon, dlon, cprLon);
    CellAtMostSpan(surface, CprN(lat, odd));
  }

  lemma SmallLatitudeCell(odd: bool, surface: bool)
    ensures CprDlat(odd, surface) <= 7.0
  {
  }

  // A position 0.00005 degrees from the reference is rejected: the grid point just east of the
  // antimeridian on the equator, seen from longitude 180.
  lemma RelativeRejectsAcrossAntimeridian()
    ensures DecodeRelative(0.0, 180.0, 0, 65537, false, false) == LongitudeError
    ensures 0.0 < NearestCandidate(180.0, CprDlon(0.0, false, false), 65537) - 180.0 < 0.0001
  {
    NearestOnEquator();
    NearestPastAntimeridian();
    RelativeOutcome(0.0, 180.0, 0, 65537, false, false);
    EquatorZones();
    hide NearestCandidate, DecodeRelative, CprNL, NLBracket, NLThreshold;
  }

  lemma EquatorZones()
    ensures CprNL(0.0) == 59
  {
  }

  lemma NearestOnEquator()
    ensures NearestCandidate(0.0, CprDlat(false, false), 0) == 0.0
  {
    var z := NearestZone(0.0, CprDlat(false, false), 0);
    hide NearestCandidate;
  }

  lemma NearestPastAntimeridian()
    ensures 0.0 < NearestCandidate(180.0, Cell(360.0, 59), 65537) - 180.0 < 0.0001
  {
    var m := NearestZone(180.0, Cell(360.0, 59), 65537);
    hide NearestCandidate;
    assert m == 29;
  }

  // Decoding what was encoded: a position whose reference is within half a cell (less the
  // quantisation error) is recovered exactly when its recovered longitude does not pass 180.
  lemma RelativeFixRoundTrip(lat: real, lon: real, reflat: real, reflon: real, odd: bool, surface: bool)
    requires -90.0 <= lat <= 90.0 && -90.0 <= reflat <= 90.0
    requires var d := CprDlat(odd, surface); Abs(lat - reflat) + d / 262144.0 < d / 2.0
    requires var d := CprDlon(Recovered(lat, CprDlat(odd, surface)), odd, surface);
             Abs(lon - reflon) + d / 262144.0 < d / 2.0
    ensures var frame := EncodePosition(lat, lon, odd, surface);
            var dlat := CprDlat(odd, surface);
            var dlon := CprDlon(Recovered(lat, dlat), odd, surface);
            match DecodeRelative(reflat, reflon, frame.lat, frame.lon, odd, surface)
            case LatitudeError => false
            case LongitudeError => Recovered(lon, dlon) > 180.0
            case Relative(rlat, rlon) =>
              && Recovered(lon, dlon) <= 180.0
              && rlat == Recovered(lat, dlat) && rlon == Recovered(lon, dlon)
              && WithinHalfStep(rlat, lat, dlat) && WithinHalfStep(rlon, lon, dlon)
  {
    hide Recovered, NearestCandidate, DecodeRelative, Encode, CprN, CprNL, NLBracket, NLThreshold, Cell;
    var dlat := CprDlat(odd, surface);
    var rlat := Recovered(lat, dlat);
    var dlon := CprDlon(rlat, odd, surface);
    var frame := EncodePosition(lat, lon, odd, surface);
    RecoveredIsNearest(lat, reflat, dlat);
    RecoveredIsNearest(lon, reflon, dlon);
    RecoveredLatInRange(lat, odd, surface);
    CellAtMostSpan(surface, CprN(rlat, odd));
    RelativeOutcome(reflat, reflon, frame.lat, frame.lon, odd, surface);
  }

  lemma RecoveredIsNearest(x: real, ref: real, d: real)
    requires d > 0.0 && Abs(x - ref) + d / 262144.0 < d / 2.0
    ensures NearestCandidate(ref, d, Encode(x, d)) == Recovered(x, d)
    ensures WithinHalfStep(Recovered(x, d), x, d) && Abs(Recovered(x, d) - ref) < d / 2.0
  {
    RecoveredError(x, d);
    var zone := RecoveredCandidate(x, d);
    var z := NearestZone(ref, d, Encode(x, d));
    hide NearestCandidate, Recovered, Encode, FromZone;
    NearestUnique(ref, d, Encode(x, d), Recovered(x, d), zone);
  }

  lemma RecoveredCandidate(x: real, d: real) returns (zone: int)
    requires d > 0.0
    ensures Candidate(Recovered(x, d), d, Encode(x, d), zone)
  {
    EncodeByIndex(x, d);
    var k := Index(x, d);
    zone := k / CPR_STEPS;
    assert k as real / 131072.0 == zone as real + Fraction17(k % CPR_STEPS);
  }
}
