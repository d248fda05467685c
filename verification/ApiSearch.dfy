// The box search over the aircraft list sorted by longitude.
module ApiSearch {
  // Coordinates in millionths of a degree; without a position both are INT32_MAX.  offset and len
  // say where the aircraft's JSON is.
  datatype Entry = Entry(hex: nat, lat: int, lon: int, positionValid: bool, offset: nat, len: nat, fields: seq<int>)

  const INT32_MAX: int := 0x7FFFFFFF
  const HALF_TURN: int := 180000000

  datatype Box = Box(lat1: int, lat2: int, lon1: int, lon2: int, binCraft: bool) {
    predicate InLat(e: Entry) {
      e.lat >= lat1 && e.lat <= lat2 && (e.positionValid || binCraft)
    }

    // As requests are checked.
    predicate InRange() {
      -HALF_TURN <= lat1 && lat2 <= HALF_TURN && -HALF_TURN <= lon1 <= HALF_TURN && -HALF_TURN <= lon2 <= HALF_TURN
    }

    // From lon1 eastwards to lon2, across the antimeridian if lon1 is the larger.
    predicate Contains(e: Entry) {
      InLat(e) && if lon1 <= lon2 then lon1 <= e.lon <= lon2 else lon1 <= e.lon <= HALF_TURN || -HALF_TURN <= e.lon <= lon2
    }
  }

  ghost predicate SortedByLon(list: seq<Entry>) {
    forall i, j :: 0 <= i < j < |list| ==> list[i].lon <= list[j].lon
  }

  // The entries of a half-open range of positions are exactly those between two longitudes.
  ghost predicate IsLonRange(list: seq<Entry>, from: nat, to: nat, refFrom: int, refTo: int) {
    && from <= to <= |list|
    && (forall i :: 0 <= i < |list| ==> (from <= i < to <==> refFrom <= list[i].lon <= refTo))
  }

  // The first position from which longitudes are at least (or, if strict, above) a limit.
  ghost predicate IsBound(list: seq<Entry>, k: nat, limit: int, strict: bool) {
    && k <= |list|
    && (forall i :: 0 <= i < k ==> if strict then list[i].lon <= limit else list[i].lon < limit)
    && (forall i :: k <= i < |list| ==> if strict then list[i].lon > limit else list[i].lon >= limit)
  }

  method FindLonRange(refFrom: int, refTo: int, list: seq<Entry>) returns (from: nat, to: nat)
    requires SortedByLon(list)
    ensures from <= to <= |list| && IsLonRange(list, from, to, refFrom, refTo)
    ensures refFrom <= refTo ==> IsBound(list, from, refFrom, false) && IsBound(list, to, refTo, true)
  {
    if |list| == 0 || refFrom > refTo {
      return 0, 0;
    }
    from := LowerBound(refFrom, list);
    to := UpperBound(refTo, list, from);
  }

  method LowerBound(limit: int, list: seq<Entry>) returns (k: nat)
    requires SortedByLon(list) && |list| > 0
    ensures IsBound(list, k, limit, false)
  {
    var i, j := 0, |list| - 1;
    while j > i + 1
      invariant 0 <= i <= j < |list|
      invariant forall m :: 0 <= m < i ==> list[m].lon < limit
      invariant forall m :: j < m < |list| ==> list[m].lon >= limit
    {
      var pivot := (i + j) / 2;
      if list[pivot].lon < limit {
        i := pivot;
      } else {
        j := pivot;
      }
    }
    if list[j].lon < limit {
      k := j + 1;
    } else if list[i].lon < limit {
      k := i + 1;
    } else {
      k := i;
    }
  }

  // The search starts at a position before which all longitudes are below the limit.
  method UpperBound(limit: int, list: seq<Entry>, from: nat) returns (k: nat)
    requires SortedByLon(list) && |list| > 0 && from <= |list|
    requires forall m :: 0 <= m < from ==> list[m].lon <= limit
    ensures IsBound(list, k, limit, true) && from <= k
  {
    var i := if from < |list| - 1 then from else |list| - 1;
    var j := |list| - 1;
    while j > i + 1
      invariant 0 <= i <= j < |list|
      invariant if from < |list| then from <= i else i == j == |list| - 1
      invariant forall m :: 0 <= m < i ==> list[m].lon <= limit
      invariant forall m :: j < m < |list| ==> list[m].lon > limit
    {
      var pivot := (i + j) / 2;
      if list[pivot].lon <= limit {
        i := pivot;
      } else {
        j := pivot;
      }
    }
    if from == |list| {
      assert list[|list| - 1].lon <= limit;
    } else {
      assert from <= i;
    }
    if list[j].lon <= limit {
      k := j + 1;
    } else if list[i].lon <= limit {
      k := i + 1;
    } else {
      k := i;
    }
  }

  // ---------------------------------------------------------------- filters

  function Filter(list: seq<Entry>, keep: Entry -> bool): seq<Entry> {
    if list == [] then []
    else if keep(list[|list| - 1]) then Filter(list[..|list| - 1], keep) + [list[|list| - 1]]
    else Filter(list[..|list| - 1], keep)
  }

  // Bytes of JSON for the entries.
  function JsonSize(list: seq<Entry>): nat {
    if list == [] then 0 else JsonSize(list[..|list| - 1]) + list[|list| - 1].len
  }

  lemma FilterSnoc(list: seq<Entry>, e: Entry, keep: Entry -> bool)
    ensures Filter(list + [e], keep) == if keep(e) then Filter(list, keep) + [e] else Filter(list, keep)
    ensures JsonSize(list + [e]) == JsonSize(list) + e.len
  {
    assert (list + [e])[..|list|] == list;
  }

  lemma {:induction false} FilterJoin(a: seq<Entry>, b: seq<Entry>, keep: Entry -> bool)
    ensures Filter(a + b, keep) == Filter(a, keep) + Filter(b, keep)
    ensures JsonSize(a + b) == JsonSize(a) + JsonSize(b)
  {
    if b == [] {
      assert a + b == a;
    } else {
      FilterJoin(a, b[..|b| - 1], keep);
      hide *;
      FilterJoinSnoc(a, b[..|b| - 1], b[|b| - 1], keep);
      assert b == b[..|b| - 1] + [b[|b| - 1]];
    }
  }

  lemma FilterJoinSnoc(a: seq<Entry>, b: seq<Entry>, e: Entry, keep: Entry -> bool)
    requires Filter(a + b, keep) == Filter(a, keep) + Filter(b, keep) && JsonSize(a + b) == JsonSize(a) + JsonSize(b)
    ensures Filter(a + (b + [e]), keep) == Filter(a, keep) + Filter(b + [e], keep)
    ensures JsonSize(a + (b + [e])) == JsonSize(a) + JsonSize(b + [e])
  {
    hide *;
    JoinLast(a, b, e);
    FilterSnoc(a + b, e, keep);
    FilterSnoc(b, e, keep);
  }

  lemma JoinLast<T>(a: seq<T>, b: seq<T>, x: T)
    ensures a + (b + [x]) == (a + b) + [x]
  {
  }

  lemma {:induction false} FilterNone(list: seq<Entry>, keep: Entry -> bool)
    requires forall i :: 0 <= i < |list| ==> !keep(list[i])
    ensures Filter(list, keep) == []
  {
    if list != [] { FilterNone(list[..|list| - 1], keep); }
  }

  lemma {:induction false} FilterSame(list: seq<Entry>, keep: Entry -> bool, other: Entry -> bool)
    requires forall i :: 0 <= i < |list| ==> keep(list[i]) == other(list[i])
    ensures Filter(list, keep) == Filter(list, other)
  {
    if list != [] { FilterSame(list[..|list| - 1], keep, other); }
  }

  lemma {:induction false} FilterSizes(list: seq<Entry>, keep: Entry -> bool)
    ensures |Filter(list, keep)| <= |list| && JsonSize(Filter(list, keep)) <= JsonSize(list)
  {
    if list != [] {
      var most, last := list[..|list| - 1], list[|list| - 1];
      FilterSizes(most, keep);
      FilterSnoc(Filter(most, keep), last, keep);
      assert Filter(list, keep) == if keep(last) then Filter(most, keep) + [last] else Filter(most, keep);
    }
  }

  lemma {:induction false} FilterKeeps(list: seq<Entry>, keep: Entry -> bool, e: Entry)
    ensures e in Filter(list, keep) <==> e in list && keep(e)
  {
    if list != [] {
      FilterKeeps(list[..|list| - 1], keep, e);
      assert list == list[..|list| - 1] + [list[|list| - 1]];
    }
  }

  // A filter all of whose matches lie in one range of positions.
  lemma FilterRange(list: seq<Entry>, keep: Entry -> bool, from: nat, to: nat)
    requires from <= to <= |list|
    requires forall i :: 0 <= i < |list| && keep(list[i]) ==> from <= i < to
    ensures Filter(list, keep) == Filter(list[from..to], keep)
  {
    hide Filter, JsonSize;
    FilterNone(list[..from], keep);
    FilterNone(list[to..], keep);
    FilterJoin(list[..from], list[from..to], keep);
    FilterJoin(list[..to], list[to..], keep);
    assert list[..from] + list[from..to] == list[..to] && list[..to] + list[to..] == list;
  }

  lemma NoEntries(keep: Entry -> bool)
    ensures Filter([], keep) == [] && JsonSize([]) == 0
  {
  }

  // Copies the matches of positions from to to - 1 behind the first count, and adds up their sizes.
  method Collect(haystack: seq<Entry>, from: nat, to: nat, box: Box, matches: array<Entry>, count: nat, alloc: nat)
    returns (newCount: nat, newAlloc: nat)
    requires from <= to <= |haystack| && count + (to - from) <= matches.Length
    modifies matches
    ensures count <= newCount <= count + (to - from) && matches[..newCount] == old(matches[..count]) + Filter(haystack[from..to], box.InLat)
    ensures newAlloc == alloc + JsonSize(Filter(haystack[from..to], box.InLat))
  {
    hide Filter, JsonSize, Box.InLat;
    newCount, newAlloc := count, alloc;
    NoEntries(box.InLat);
    assert haystack[from..from] == [];
    for j := from to to
      invariant count <= newCount <= count + (j - from)
      invariant matches[..newCount] == old(matches[..count]) + Filter(haystack[from..j], box.InLat)
      invariant newAlloc == alloc + JsonSize(Filter(haystack[from..j], box.InLat))
    {
      var e := haystack[j];
      assert haystack[from..j + 1] == haystack[from..j] + [e];
      FilterSnoc(haystack[from..j], e, box.InLat);
      if box.InLat(e) {
        FilterSnoc(Filter(haystack[from..j], box.InLat), e, box.InLat);
        matches[newCount] := e;
        newCount := newCount + 1;
        newAlloc := newAlloc + e.len;
      }
    }
  }

  lemma OneRange(list: seq<Entry>, box: Box, from: nat, to: nat)
    requires box.lon1 <= box.lon2 && IsLonRange(list, from, to, box.lon1, box.lon2)
    ensures Filter(list, box.Contains) == Filter(list[from..to], box.InLat)
  {
    hide Filter;
    FilterRange(list, box.Contains, from, to);
    FilterSame(list[from..to], box.Contains, box.InLat);
  }

  // Across the antimeridian the two ranges are disjoint and hold all matches.
  lemma TwoRanges(list: seq<Entry>, box: Box, f: nat, t: nat, f2: nat, t2: nat)
    requires SortedByLon(list) && box.lon1 > box.lon2
    requires IsLonRange(list, f, t, box.lon1, HALF_TURN) && IsLonRange(list, f2, t2, -HALF_TURN, box.lon2)
    ensures (t - f) + (t2 - f2) <= |list|
    ensures multiset(Filter(list, box.Contains))
         == multiset(Filter(list[f..t], box.InLat)) + multiset(Filter(list[f2..t2], box.InLat))
  {
    BoxRanges(list, box, f, t, f2, t2);
    hide Filter, JsonSize, IsLonRange, Box.Contains, Box.InLat, SortedByLon;
    SameInRange(list, box.Contains, box.InLat, f, t);
    SameInRange(list, box.Contains, box.InLat, f2, t2);
    NoEntries(box.InLat);
    if f == t {
      assert list[f..t] == [];
      FilterRange(list, box.Contains, f2, t2);
    } else if f2 == t2 {
      assert list[f2..t2] == [];
      FilterRange(list, box.Contains, f, t);
    } else {
      BothRanges(list, box.Contains, f, t, f2, t2);
    }
  }

  lemma SameInRange(list: seq<Entry>, keep: Entry -> bool, other: Entry -> bool, f: nat, t: nat)
    requires f <= t <= |list| && forall i :: f <= i < t ==> keep(list[i]) == other(list[i])
    ensures Filter(list[f..t], keep) == Filter(list[f..t], other)
  {
    FilterSame(list[f..t], keep, other);
  }

  lemma BoxRanges(list: seq<Entry>, box: Box, f: nat, t: nat, f2: nat, t2: nat)
    requires SortedByLon(list) && box.lon1 > box.lon2
    requires IsLonRange(list, f, t, box.lon1, HALF_TURN) && IsLonRange(list, f2, t2, -HALF_TURN, box.lon2)
    ensures forall i :: 0 <= i < |list| && box.Contains(list[i]) ==> f <= i < t || f2 <= i < t2
    ensures forall i :: f <= i < t || f2 <= i < t2 ==> box.Contains(list[i]) == box.InLat(list[i])
    ensures f == t || f2 == t2 || t2 <= f
  {
    if f < t && f2 < t2 {
      assert list[t2 - 1].lon < list[f].lon;
    }
  }

  lemma BothRanges(list: seq<Entry>, keep: Entry -> bool, f: nat, t: nat, f2: nat, t2: nat)
    requires f2 <= t2 <= f <= t <= |list|
    requires forall i :: 0 <= i < |list| && keep(list[i]) ==> f <= i < t || f2 <= i < t2
    ensures Filter(list, keep) == Filter(list[f2..t2], keep) + Filter(list[f..t], keep)
  {
    hide Filter, JsonSize;
    FilterJoin(list[..f], list[f..], keep);
    FilterRange(list[..f], keep, f2, t2);
    FilterRange(list[f..], keep, 0, t - f);
    Slices(list, f, t, f2, t2);
  }

  lemma Slices<T>(s: seq<T>, f: nat, t: nat, f2: nat, t2: nat)
    requires f2 <= t2 <= f <= t <= |s|
    ensures s[..f] + s[f..] == s && s[..f][f2..t2] == s[f2..t2] && s[f..][0..t - f] == s[f..t]
  {
  }

  lemma EmptyFront<T>(s: seq<T>, none: seq<T>)
    requires |none| == 0
    ensures none + s == s
  {
  }

  // All matches of a box: those of the filter, the part east of the antimeridian after the other.
  method FindInBox(haystack: seq<Entry>, box: Box, matches: array<Entry>, alloc: nat) returns (count: nat, newAlloc: nat)
    requires SortedByLon(haystack) && matches.Length >= |haystack|
    modifies matches
    ensures count <= |haystack| && newAlloc == alloc + JsonSize(matches[..count])
    ensures multiset(matches[..count]) == multiset(Filter(haystack, box.Contains))
    ensures box.lon1 <= box.lon2 ==> matches[..count] == Filter(haystack, box.Contains)
    ensures box.InRange() ==> forall k :: 0 <= k < count ==> matches[k].lat != INT32_MAX && matches[k].lon != INT32_MAX
  {
    hide Filter, JsonSize, Box.Contains, Box.InLat, Box.InRange, IsLonRange, IsBound, SortedByLon;
    if box.lon1 <= box.lon2 {
      NoEntries(box.InLat);
      var from, to := FindLonRange(box.lon1, box.lon2, haystack);
      count, newAlloc := Collect(haystack, from, to, box, matches, 0, alloc);
      OneRange(haystack, box, from, to);
      EmptyFront(Filter(haystack[from..to], box.InLat), matches[..0]);
    } else {
      count, newAlloc := FindAcross(haystack, box, matches, alloc);
    }
    MatchesPositioned(haystack, box, matches[..count]);
  }

  // The two ranges of a box across the antimeridian.
  method FindAcross(haystack: seq<Entry>, box: Box, matches: array<Entry>, alloc: nat) returns (count: nat, newAlloc: nat)
    requires SortedByLon(haystack) && matches.Length >= |haystack| && box.lon1 > box.lon2
    modifies matches
    ensures count <= |haystack| && newAlloc == alloc + JsonSize(matches[..count])
    ensures multiset(matches[..count]) == multiset(Filter(haystack, box.Contains))
  {
    hide Filter, JsonSize, Box.Contains, Box.InLat, IsLonRange, IsBound, SortedByLon;
    NoEntries(box.InLat);
    var from, to := FindLonRange(box.lon1, HALF_TURN, haystack);
    var from2, to2 := FindLonRange(-HALF_TURN, box.lon2, haystack);
    TwoRanges(haystack, box, from, to, from2, to2);
    EmptyFront(Filter(haystack[from..to], box.InLat), matches[..0]);
    count, newAlloc := Collect(haystack, from, to, box, matches, 0, alloc);
    ghost var first := matches[..count];
    FilterJoin(first, Filter(haystack[from2..to2], box.InLat), box.InLat);
    count, newAlloc := Collect(haystack, from2, to2, box, matches, count, newAlloc);
  }

  // Entries without a position are outside of every box.
  lemma MatchesPositioned(list: seq<Entry>, box: Box, found: seq<Entry>)
    requires multiset(found) == multiset(Filter(list, box.Contains))
    ensures box.InRange() ==> forall k :: 0 <= k < |found| ==> found[k].lat != INT32_MAX && found[k].lon != INT32_MAX
  {
    forall k | 0 <= k < |found| && box.InRange() ensures found[k].lat != INT32_MAX && found[k].lon != INT32_MAX {
      assert found[k] in multiset(found);
      FilterKeeps(list, box.Contains, found[k]);
    }
  }
}
