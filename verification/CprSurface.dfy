// Surface decoding: 17 bits cover a quarter of the globe, the reference position picks the quadrant.
module CprSurface {
  import opened Cpr
  import opened CprEncode
  import opened CprGlobal

  // c is v moved by whole quadrants.
  ghost predicate QuadrantsApart(c: real, v: real, quadrants: int) {
    c == v + 90.0 * quadrants as real
  }

  // The chosen latitude is a valid quadrant of the decoded one, and none is closer to the
  // reference; 0 also stands for both poles.
  lemma QuadrantIsClosest(v: real, reflat: real, c: real, quadrants: int)
    requires 0.0 <= v < 90.0
    requires -90.0 <= c <= 90.0 && QuadrantsApart(c, v, quadrants)
    ensures var p := PickQuadrant(v, reflat);
            && -90.0 <= p <= 90.0 && Abs(p - reflat) <= Abs(c - reflat)
            && exists q :: QuadrantsApart(p, v, q)
  {
    var p := PickQuadrant(v, reflat);
    assert -1 <= quadrants <= 1;
    assert QuadrantsApart(p, v, if p < v then -1 else if p > v then 1 else 0);
  }

  lemma PickRecovers(v: real, x: real, turns: int, reflat: real)
    requires v == x + 90.0 * turns as real && 0.0 <= v < 90.0
    requires -90.0 <= x <= 90.0 && Abs(x - reflat) < 45.0
    ensures PickQuadrant(v, reflat) == x
  {
    assert 0 <= turns + 1 <= 2;
  }

  // The longitude is moved to within 45 degrees of the reference by whole quadrants.
  lemma TowardsReferenceWindow(v: real, reflon: real) returns (quadrants: int)
    ensures QuadrantsApart(TowardsReference(v, reflon), v, quadrants)
    ensures -45.0 < TowardsReference(v, reflon) - reflon <= 45.0
  {
    quadrants := ((reflon - v + 45.0) / 90.0).Floor;
  }

  lemma TowardsReferenceRecovers(v: real, x: real, turns: int, reflon: real)
    requires v == x + 90.0 * turns as real && Abs(x - reflon) < 45.0
    ensures TowardsReference(v, reflon) == x
  {
    var q := TowardsReferenceWindow(v, reflon);
    var w := TowardsReference(v, reflon);
    assert w == x + 90.0 * (q + turns) as real;
  }

  lemma RenormalizeTurns(w: real) returns (turns: int)
    ensures Renormalize(w) + 360.0 * turns as real == w
  {
    turns := ((w + 180.0) / 360.0).Floor;
  }

  lemma SurfaceLatRange(evenLat: int, oddLat: int, odd: bool)
    requires 0 <= evenLat < CPR_STEPS && 0 <= oddLat < CPR_STEPS
    ensures 0.0 <= GlobalLat(evenLat, oddLat, odd, true) < 90.0
  {
    var j := ZoneIndex(evenLat, oddLat, 60, 59);
    DecodedRange(90.0, 60, j % 60, evenLat);
    DecodedRange(90.0, 59, j % 59, oddLat);
  }

  // rlon is the decoded longitude moved by whole quadrants, within 45 degrees of the reference
  // around the circle.
  ghost predicate NearReference(rlon: real, v: real, reflon: real, quadrants: int, turns: int) {
    && rlon + 360.0 * turns as real == v + 90.0 * quadrants as real
    && Abs(rlon + 360.0 * turns as real - reflon) <= 45.0
  }

  // The outcome for every pair of 17-bit frames and every reference: the latitude range check
  // never fires, and the fix is the solution closest to the reference on both axes.
  lemma SurfaceOutcome(reflat: real, reflon: real, evenLat: int, evenLon: int, oddLat: int, oddLon: int, odd: bool)
    requires 0 <= evenLat < CPR_STEPS && 0 <= oddLat < CPR_STEPS
    ensures var v := GlobalLat(evenLat, oddLat, odd, true);
            match DecodeSurface(reflat, reflon, evenLat, evenLon, oddLat, oddLon, odd)
            case BadData => false
            case ZoneCrossed =>
              CprNL(PickQuadrant(GlobalLat(evenLat, oddLat, false, true), reflat))
              != CprNL(PickQuadrant(GlobalLat(evenLat, oddLat, true, true), reflat))
            case Position(rlat, rlon) =>
              && -90.0 <= rlat <= 90.0
              && (exists q :: QuadrantsApart(rlat, v, q))
              && (forall c, q :: -90.0 <= c <= 90.0 && QuadrantsApart(c, v, q) ==> Abs(rlat - reflat) <= Abs(c - reflat))
              && -180.0 <= rlon < 180.0
              && exists q, t :: NearReference(rlon, GlobalLon(evenLon, oddLon, rlat, odd, true), reflon, q, t)
  {
    hide GlobalLat, GlobalLon, CprNL, NLBracket, NLThreshold, PickQuadrant, Renormalize, TowardsReference;
    var v0, v1 := GlobalLat(evenLat, oddLat, false, true), GlobalLat(evenLat, oddLat, true, true);
    var v := if odd then v1 else v0;
    SurfaceLatRange(evenLat, oddLat, false);
    SurfaceLatRange(evenLat, oddLat, true);
    QuadrantIsClosest(v0, reflat, v0, 0);
    QuadrantIsClosest(v1, reflat, v1, 0);
    var rlat := PickQuadrant(v, reflat);
    forall c, q | -90.0 <= c <= 90.0 && QuadrantsApart(c, v, q)
      ensures Abs(rlat - reflat) <= Abs(c - reflat)
    {
      QuadrantIsClosest(v, reflat, c, q);
    }
    var lon := GlobalLon(evenLon, oddLon, rlat, odd, true);
    var w := TowardsReference(lon, reflon);
    var q := TowardsReferenceWindow(lon, reflon);
    var t := RenormalizeTurns(w);
    assert NearReference(Renormalize(w), lon, reflon, q, t);
  }

  // How near the reference has to be, quantisation included.
  ghost predicate ReferenceInReach(x: real, ref: real, cell: real) {
    Abs(x - ref) + cell / 262144.0 < 45.0
  }

  lemma RecoveredInReach(x: real, ref: real, cell: real)
    requires cell > 0.0 && ReferenceInReach(x, ref, cell)
    ensures Abs(Recovered(x, cell) - ref) < 45.0
  {
    RecoveredError(x, cell);
  }

  lemma SurfaceLatitude(lat0: real, lat1: real, reflat: real, odd: bool)
    requires -90.0 <= lat0 <= 90.0 && -90.0 <= lat1 <= 90.0 && CloseEnough(lat0, lat1, 90.0, 60)
    requires ReferenceInReach(if odd then lat1 else lat0, reflat, CprDlat(odd, true))
    ensures var f0, f1 := Encode(lat0, CprDlat(false, true)), Encode(lat1, CprDlat(true, true));
            PickQuadrant(GlobalLat(f0, f1, odd, true), reflat)
            == Recovered(if odd then lat1 else lat0, CprDlat(odd, true))
  {
    var f0, f1 := Encode(lat0, CprDlat(false, true)), Encode(lat1, CprDlat(true, true));
    var lat, d := if odd then lat1 else lat0, CprDlat(odd, true);
    var t0, t1 := PairDecodes(lat0, lat1, 90.0, 60);
    RecoveredInReach(lat, reflat, d);
    RecoveredLatInRange(lat, odd, true);
    SurfaceLatRange(f0, f1, odd);
    PickRecovers(GlobalLat(f0, f1, odd, true), Recovered(lat, d), if odd then t1 else t0, reflat);
  }

  ghost predicate SurfaceDecodes(lat0: real, lon0: real, lat1: real, lon1: real, odd: bool, reflat: real, reflon: real) {
    var even, oddFrame := EncodePosition(lat0, lon0, false, true), EncodePosition(lat1, lon1, true, true);
    var nl0 := CprNL(Recovered(lat0, CprDlat(false, true)));
    var nl1 := CprNL(Recovered(lat1, CprDlat(true, true)));
    var fix := DecodeSurface(reflat, reflon, even.lat, even.lon, oddFrame.lat, oddFrame.lon, odd);
    (fix == ZoneCrossed && nl0 != nl1)
    || (nl0 == nl1 && FixFor(fix, if odd then lat1 else lat0, if odd then lon1 else lon0, odd, true))
  }

  // Frames of a surface vehicle, decoded with a reference less than 45 degrees away.
  lemma SurfaceFix(lat0: real, lon0: real, lat1: real, lon1: real, odd: bool, reflat: real, reflon: real)
    requires -90.0 <= lat0 <= 90.0 && -90.0 <= lat1 <= 90.0
    requires CloseEnough(lat0, lat1, 90.0, 60)
    requires CloseEnough(lon0, lon1, 90.0, CprNL(Recovered(lat0, CprDlat(false, true))))
    requires ReferenceInReach(lat0, reflat, CprDlat(false, true)) && ReferenceInReach(lat1, reflat, CprDlat(true, true))
    requires ReferenceInReach(lon0, reflon, CprDlon(Recovered(lat0, CprDlat(false, true)), false, true))
    requires ReferenceInReach(lon1, reflon, CprDlon(Recovered(lat1, CprDlat(true, true)), true, true))
    ensures SurfaceDecodes(lat0, lon0, lat1, lon1, odd, reflat, reflon)
  {
    hide CloseEnough, Encode, Recovered, GlobalLat, GlobalLon, Cell, CprNL, NLBracket, NLThreshold,
         Renormalize, OnMeridian, PickQuadrant, TowardsReference;
    var r0, r1 := Recovered(lat0, CprDlat(false, true)), Recovered(lat1, CprDlat(true, true));
    SurfaceLatitude(lat0, lat1, reflat, false);
    SurfaceLatitude(lat0, lat1, reflat, true);
    RecoveredLatInRange(lat0, false, true);
    RecoveredLatInRange(lat1, true, true);
    if CprNL(r0) == CprNL(r1) {
      var lat, lon, rlat := if odd then lat1 else lat0, if odd then lon1 else lon0, if odd then r1 else r0;
      RecoveredError(lat, CprDlat(odd, true));
      var e0, e1 := Encode(lon0, CprDlon(r0, false, true)), Encode(lon1, CprDlon(r1, true, true));
      var turns := LongitudeDecodes(lon0, lon1, rlat, odd, true);
      var v, d := GlobalLon(e0, e1, rlat, odd, true), CprDlon(rlat, odd, true);
      RecoveredInReach(lon, reflon, d);
      TowardsReferenceRecovers(v, Recovered(lon, d), turns, reflon);
      RenormalizedLongitude(TowardsReference(v, reflon), lon, d, 0);
    }
  }

  // Distances around the circle count, between the positions and to the reference.
  lemma SurfaceFixAround(lat0: real, lon0: real, lat1: real, lon1: real, t: int, odd: bool, reflat: real, reflon: real, u: int)
    requires -90.0 <= lat0 <= 90.0 && -90.0 <= lat1 <= 90.0
    requires CloseEnough(lat0, lat1, 90.0, 60)
    requires CloseEnough(lon0, lon1 + 360.0 * t as real, 90.0, CprNL(Recovered(lat0, CprDlat(false, true))))
    requires ReferenceInReach(lat0, reflat, CprDlat(false, true)) && ReferenceInReach(lat1, reflat, CprDlat(true, true))
    requires var ref := reflon + 360.0 * u as real;
             && ReferenceInReach(lon0, ref, CprDlon(Recovered(lat0, CprDlat(false, true)), false, true))
             && ReferenceInReach(lon1 + 360.0 * t as real, ref, CprDlon(Recovered(lat1, CprDlat(true, true)), true, true))
    ensures SurfaceDecodes(lat0, lon0, lat1, lon1, odd, reflat, reflon)
  {
    hide CprNL, NLBracket, NLThreshold, DecodeSurface, Recovered, CloseEnough, EncodePosition, WithinHalfStep, OnMeridian, CprDlon,
         ReferenceInReach;
    var lon2, ref := lon1 + 360.0 * t as real, reflon + 360.0 * u as real;
    SurfaceFix(lat0, lon0, lat1, lon2, odd, reflat, ref);
    SameFrame(lat1, lon1, t, true, true);
    var even, oddFrame := EncodePosition(lat0, lon0, false, true), EncodePosition(lat1, lon1, true, true);
    ReferenceTurned(reflat, reflon, u, even, oddFrame, odd);
    var fix := DecodeSurface(reflat, reflon, even.lat, even.lon, oddFrame.lat, oddFrame.lon, odd);
    if odd && fix.Position? {
      TurnedMeridian(fix.lon, lon1, t, CprDlon(fix.lat, odd, true));
    }
  }

  // Full turns of the reference make no difference.
  lemma ReferenceTurned(reflat: real, reflon: real, u: int, even: Frame, oddFrame: Frame, odd: bool)
    ensures DecodeSurface(reflat, reflon + 360.0 * u as real, even.lat, even.lon, oddFrame.lat, oddFrame.lon, odd)
            == DecodeSurface(reflat, reflon, even.lat, even.lon, oddFrame.lat, oddFrame.lon, odd)
  {
    hide CprNL, NLBracket, NLThreshold, PickQuadrant, GlobalLat, GlobalLon, Renormalize, TowardsReference;
    forall v: real
      ensures Renormalize(TowardsReference(v, reflon + 360.0 * u as real)) == Renormalize(TowardsReference(v, reflon))
    {
      SameWindow(v, reflon, u);
      RenormalizedTurns(TowardsReference(v, reflon), u);
    }
  }

  lemma SameWindow(v: real, reflon: real, u: int)
    ensures TowardsReference(v, reflon + 360.0 * u as real) == TowardsReference(v, reflon) + 360.0 * u as real
  {
    var x := (reflon - v + 45.0) / 90.0;
    assert (reflon + 360.0 * u as real - v + 45.0) / 90.0 == x + (4 * u) as real;
    assert (x + (4 * u) as real).Floor == x.Floor + 4 * u;
  }

  lemma RenormalizedTurns(lon: real, u: int)
    ensures Renormalize(lon + 360.0 * u as real) == Renormalize(lon)
  {
    var x := (lon + 180.0) / 360.0;
    assert (lon + 360.0 * u as real + 180.0) / 360.0 == x + u as real;
    assert (x + u as real).Floor == x.Floor + u;
  }
}
