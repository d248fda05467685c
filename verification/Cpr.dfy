// Compact Position Reporting: the decoders of cpr.c against the encoder of
// RTCA DO-260B, Appendix A, section A.1.7.  All arithmetic is exact.
module Cpr {
  import opened Arith

  const CPR_STEPS: int := 131072  // 2^17: latitude and longitude are 17-bit fields

  // ---------------------------------------------------------------- C arithmetic

  // C's % truncates toward zero.
  function TruncRem(a: int, b: int): int
    requires b > 0
  {
    if a >= 0 then a % b else -((-a) % b)
  }

  function CprModInt(a: int, b: int): (r: int)
    requires b > 0
    ensures r == a % b
  {
    var res := TruncRem(a, b);
    ModOfNegation(a, b);
    if res < 0 then res + b else res
  }

  lemma ModOfNegation(a: int, b: int)
    requires b > 0
    ensures (-a) % b == if a % b == 0 then 0 else b - a % b
  {
    var q, r := a / b, a % b;
    assert a == b * q + r;
    if r == 0 {
      ModUnique(-a, b, -q, 0);
    } else {
      assert -a == b * (-q - 1) + (b - r);
      ModUnique(-a, b, -q - 1, b - r);
    }
  }

  function Trunc(x: real): int {
    if x >= 0.0 then x.Floor else -((-x).Floor)
  }

  // fmod followed by the correction of cprModDouble.
  function CprModDouble(a: real, b: real): (r: real)
    requires b > 0.0
    ensures r == a - b * (a / b).Floor as real
    ensures 0.0 <= r < b
  {
    var q := a / b;
    var res := a - b * Trunc(q) as real;
    TruncByFloor(q);
    Fraction(a, b);
    assert 0.0 <= a - b * q.Floor as real < b;
    assert if q < 0.0 && q != q.Floor as real then res == a - b * q.Floor as real - b
           else res == a - b * q.Floor as real;
    if res < 0.0 then res + b else res
  }

  lemma TruncByFloor(q: real)
    ensures Trunc(q) == if q < 0.0 && q != q.Floor as real then q.Floor + 1 else q.Floor
  {
  }

  lemma Fraction(a: real, b: real)
    requires b > 0.0
    ensures 0.0 <= a - b * (a / b).Floor as real < b
  {
    var q := a / b;
    FractionLow(a, b, q, q.Floor as real);
    FractionHigh(a, b, q, q.Floor as real);
  }

  lemma FractionLow(a: real, b: real, q: real, fl: real)
    requires b > 0.0 && a == b * q && fl <= q
    ensures b * fl <= a
  {
    MulMonotone(b, fl, q);
  }

  lemma FractionHigh(a: real, b: real, q: real, fl: real)
    requires b > 0.0 && a == b * q && q < fl + 1.0
    ensures a < b * fl + b
  {
    assert b * (fl + 1.0 - q) == b * fl + b - a;
    ProductPositive(b, fl + 1.0 - q);
  }

  lemma MulMonotone(b: real, x: real, y: real)
    requires b >= 0.0 && x <= y
    ensures b * x <= b * y
  {
  }

  lemma ProductPositive(a: real, b: real)
    requires a > 0.0 && b > 0.0
    ensures a * b > 0.0
  {
  }

  // ---------------------------------------------------------------- longitude zones

  // The latitude (1090-WP-9-14) at which the number of longitude zones drops below nl.
  function NLThreshold(nl: int): real
    requires 2 <= nl <= 59
  {
    match nl
    case 59 => 10.47047130
    case 58 => 14.82817437
    case 57 => 18.18626357
    case 56 => 21.02939493
    case 55 => 23.54504487
    case 54 => 25.82924707
    case 53 => 27.93898710
    case 52 => 29.91135686
    case 51 => 31.77209708
    case 50 => 33.53993436
    case 49 => 35.22899598
    case 48 => 36.85025108
    case 47 => 38.41241892
    case 46 => 39.92256684
    case 45 => 41.38651832
    case 44 => 42.80914012
    case 43 => 44.19454951
    case 42 => 45.54626723
    case 41 => 46.86733252
    case 40 => 48.16039128
    case 39 => 49.42776439
    case 38 => 50.67150166
    case 37 => 51.89342469
    case 36 => 53.09516153
    case 35 => 54.27817472
    case 34 => 55.44378444
    case 33 => 56.59318756
    case 32 => 57.72747354
    case 31 => 58.84763776
    case 30 => 59.95459277
    case 29 => 61.04917774
    case 28 => 62.13216659
    case 27 => 63.20427479
    case 26 => 64.26616523
    case 25 => 65.31845310
    case 24 => 66.36171008
    case 23 => 67.39646774
    case 22 => 68.42322022
    case 21 => 69.44242631
    case 20 => 70.45451075
    case 19 => 71.45986473
    case 18 => 72.45884545
    case 17 => 73.45177442
    case 16 => 74.43893416
    case 15 => 75.42056257
    case 14 => 76.39684391
    case 13 => 77.36789461
    case 12 => 78.33374083
    case 11 => 79.29428225
    case 10 => 80.24923213
    case 9 => 81.19801349
    case 8 => 82.13956981
    case 7 => 83.07199445
    case 6 => 83.99173563
    case 5 => 84.89166191
    case 4 => 85.75541621
    case 3 => 86.53536998
    case 2 => 87.00000000
  }

  ghost predicate NLBracket(lat: real, nl: int) {
    && 1 <= nl <= 59
    && (nl < 59 ==> NLThreshold(nl + 1) <= lat)
    && (nl > 1 ==> lat < NLThreshold(nl))
  }

  function Abs(x: real): (r: real)
    ensures r >= 0.0 && (r == x || r == -x)
  {
    if x < 0.0 then -x else x
  }

  // The source jumps into the comparison chain at three places; no jump changes the result:
  // nl is the number whose table bracket contains the latitude.
  function CprNL(lat: real): (nl: int)
    ensures 1 <= nl <= 59 && NLBracket(Abs(lat), nl)
  {
    var lat := Abs(lat);
    if lat > 60.0 then NLFrom60(lat)
    else if lat > 44.2 then NLFrom442(lat)
    else if lat > 30.0 then NLFrom30(lat)
    else NLFrom0(lat)
  }

  function NLFrom0(lat: real): (nl: int)
    ensures NLBracket(lat, nl)
  {
    if lat < 10.47047130 then 59
    else if lat < 14.82817437 then 58
    else if lat < 18.18626357 then 57
    else if lat < 21.02939493 then 56
    else if lat < 23.54504487 then 55
    else if lat < 25.82924707 then 54
    else if lat < 27.93898710 then 53
    else if lat < 29.91135686 then 52
    else NLFrom30(lat)
  }

  function NLFrom30(lat: real): (nl: int)
    requires lat >= NLThreshold(52)
    ensures NLBracket(lat, nl)
  {
    if lat < 31.77209708 then 51
    else if lat < 33.53993436 then 50
    else if lat < 35.22899598 then 49
    else if lat < 36.85025108 then 48
    else if lat < 38.41241892 then 47
    else if lat < 39.92256684 then 46
    else if lat < 41.38651832 then 45
    else if lat < 42.80914012 then 44
    else if lat < 44.19454951 then 43
    else NLFrom442(lat)
  }

  function NLFrom442(lat: real): (nl: int)
    requires lat >= NLThreshold(43)
    ensures NLBracket(lat, nl)
  {
    if lat < 45.54626723 then 42
    else if lat < 46.86733252 then 41
    else if lat < 48.16039128 then 40
    else if lat < 49.42776439 then 39
    else if lat < 50.67150166 then 38
    else if lat < 51.89342469 then 37
    else if lat < 53.09516153 then 36
    else if lat < 54.27817472 then 35
    else if lat < 55.44378444 then 34
    else if lat < 56.59318756 then 33
    else if lat < 57.72747354 then 32
    else if lat < 58.84763776 then 31
    else if lat < 59.95459277 then 30
    else NLFrom60(lat)
  }

  function NLFrom60(lat: real): (nl: int)
    requires lat >= NLThreshold(30)
    ensures NLBracket(lat, nl)
  {
    if lat < 61.04917774 then 29
    else if lat < 62.13216659 then 28
    else if lat < 63.20427479 then 27
    else if lat < 64.26616523 then 26
    else if lat < 65.31845310 then 25
    else if lat < 66.36171008 then 24
    else if lat < 67.39646774 then 23
    else if lat < 68.42322022 then 22
    else if lat < 69.44242631 then 21
    else if lat < 70.45451075 then 20
    else if lat < 71.45986473 then 19
    else if lat < 72.45884545 then 18
    else if lat < 73.45177442 then 17
    else if lat < 74.43893416 then 16
    else if lat < 75.42056257 then 15
    else if lat < 76.39684391 then 14
    else if lat < 77.36789461 then 13
    else if lat < 78.33374083 then 12
    else if lat < 79.29428225 then 11
    else if lat < 80.24923213 then 10
    else if lat < 81.19801349 then 9
    else if lat < 82.13956981 then 8
    else if lat < 83.07199445 then 7
    else if lat < 83.99173563 then 6
    else if lat < 84.89166191 then 5
    else if lat < 85.75541621 then 4
    else if lat < 86.53536998 then 3
    else if lat < 87.00000000 then 2
    else 1
  }

  lemma NLThresholdStep(m: int)
    requires 2 <= m < 59
    ensures NLThreshold(m + 1) < NLThreshold(m)
  {
    if m < 30 {
      if m < 16 { } else { }
    } else {
      if m < 45 { } else { }
    }
  }

  lemma NLThresholdDecreasing(m: int, n: int)
    requires 2 <= m < n <= 59
    ensures NLThreshold(n) < NLThreshold(m)
    decreases n - m
  {
    if m + 1 < n {
      NLThresholdDecreasing(m + 1, n);
    }
    NLThresholdStep(m);
  }

  // The bracket determines the number, so the zone count only depends on the distance from the
  // equator and never grows with it.
  lemma NLAntitone(a: real, b: real)
    requires Abs(a) <= Abs(b)
    ensures CprNL(b) <= CprNL(a)
  {
    var m, n := CprNL(a), CprNL(b);
    if n > m + 1 {
      NLThresholdDecreasing(m + 1, n);
    }
  }

  function CprN(lat: real, odd: bool): (n: int)
    ensures 1 <= n <= 59
  {
    var nl := CprNL(lat) - (if odd then 1 else 0);
    if nl < 1 then 1 else nl
  }

  // Degrees covered by the whole grid: surface positions are only known modulo 90 degrees.
  function Span(surface: bool): (span: real)
    ensures span > 0.0
  {
    if surface then 90.0 else 360.0
  }

  function Cell(span: real, zones: int): (d: real)
    requires span > 0.0 && zones > 0
    ensures d > 0.0
  {
    span / zones as real
  }

  function CprDlat(odd: bool, surface: bool): (d: real)
    ensures d > 0.0
  {
    Cell(Span(surface), if odd then 59 else 60)
  }

  function CprDlon(lat: real, odd: bool, surface: bool): (d: real)
    ensures d > 0.0
  {
    Cell(Span(surface), CprN(lat, odd))
  }

  // ---------------------------------------------------------------- decoders

  datatype Fix =
    | BadData                        // return value -2
    | ZoneCrossed                    // return value -1 of the global decoders
    | Position(lat: real, lon: real) // return value 0

  function Fraction17(field: int): real {
    field as real / 131072.0
  }

  function FromZone(d: real, zone: int, field: int): real {
    d * (zone as real + Fraction17(field))
  }

  // The zone index j or m, from the two fields and the two zone counts.
  function ZoneIndex(even: int, odd: int, evenZones: int, oddZones: int): int {
    ((oddZones * even - evenZones * odd) as real / 131072.0 + 0.5).Floor
  }

  function GlobalLat(evenLat: int, oddLat: int, odd: bool, surface: bool): real {
    var j := ZoneIndex(evenLat, oddLat, 60, 59);
    if odd then FromZone(CprDlat(true, surface), CprModInt(j, 59), oddLat)
    else FromZone(CprDlat(false, surface), CprModInt(j, 60), evenLat)
  }

  function GlobalLon(evenLon: int, oddLon: int, rlat: real, odd: bool, surface: bool): real {
    var ni := CprN(rlat, odd);
    var m := ZoneIndex(evenLon, oddLon, CprNL(rlat), CprNL(rlat) - 1);
    FromZone(CprDlon(rlat, odd, surface), CprModInt(m, ni), if odd then oddLon else evenLon)
  }

  function Renormalize(lon: real): (r: real)
    ensures -180.0 <= r < 180.0
  {
    lon - ((lon + 180.0) / 360.0).Floor as real * 360.0
  }

  predicate LatOutOfRange(lat: real) {
    lat < -90.0 || lat > 90.0
  }

  function DecodeAirborne(evenLat: int, evenLon: int, oddLat: int, oddLon: int, odd: bool): Fix {
    var lat0 := GlobalLat(evenLat, oddLat, false, false);
    var lat1 := GlobalLat(evenLat, oddLat, true, false);
    var rlat0 := if lat0 >= 270.0 then lat0 - 360.0 else lat0;
    var rlat1 := if lat1 >= 270.0 then lat1 - 360.0 else lat1;
    if LatOutOfRange(rlat0) || LatOutOfRange(rlat1) then BadData
    else if CprNL(rlat0) != CprNL(rlat1) then ZoneCrossed
    else
      var rlat := if odd then rlat1 else rlat0;
      Position(rlat, Renormalize(GlobalLon(evenLon, oddLon, rlat, odd, false)))
  }

  // Moves a latitude of the northern quadrant to the quadrant closest to the reference.
  function PickQuadrant(lat: real, reflat: real): real {
    if lat == 0.0 then
      if reflat < -45.0 then -90.0
      else if reflat > 45.0 then 90.0
      else lat
    else if lat - reflat > 45.0 then lat - 90.0
    else lat
  }

  function TowardsReference(lon: real, reflon: real): real {
    lon + ((reflon - lon + 45.0) / 90.0).Floor as real * 90.0
  }

  function DecodeSurface(reflat: real, reflon: real,
                         evenLat: int, evenLon: int, oddLat: int, oddLon: int, odd: bool): Fix
  {
    var rlat0 := PickQuadrant(GlobalLat(evenLat, oddLat, false, true), reflat);
    var rlat1 := PickQuadrant(GlobalLat(evenLat, oddLat, true, true), reflat);
    if LatOutOfRange(rlat0) || LatOutOfRange(rlat1) then BadData
    else if CprNL(rlat0) != CprNL(rlat1) then ZoneCrossed
    else
      var rlat := if odd then rlat1 else rlat0;
      var lon := GlobalLon(evenLon, oddLon, rlat, odd, true);
      Position(rlat, Renormalize(TowardsReference(lon, reflon)))
  }

  datatype RelativeFix =
    | LatitudeError  // return value -1, either latitude check
    | LongitudeError // return value -1, longitude check
    | Relative(lat: real, lon: real)

  // The candidate of the cell grid d that the source computes for a reference.
  function NearestCandidate(ref: real, d: real, field: int): real
    requires d > 0.0
  {
    var j := (ref / d).Floor + (0.5 + CprModDouble(ref, d) / d - Fraction17(field)).Floor;
    FromZone(d, j, field)
  }

  function DecodeRelative(reflat: real, reflon: real, cprLat: int, cprLon: int,
                          odd: bool, surface: bool): RelativeFix
  {
    var dlat := CprDlat(odd, surface);
    var lat := NearestCandidate(reflat, dlat, cprLat);
    var rlat := if lat >= 270.0 then lat - 360.0 else lat;
    if LatOutOfRange(rlat) then LatitudeError
    else if Abs(rlat - reflat) > dlat / 2.0 then LatitudeError
    else
      var dlon := CprDlon(rlat, odd, surface);
      var lon := NearestCandidate(reflon, dlon, cprLon);
      var rlon := if lon > 180.0 then lon - 360.0 else lon;
      if Abs(rlon - reflon) > dlon / 2.0 then LongitudeError
      else Relative(rlat, rlon)
  }
}
