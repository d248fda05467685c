// Adding points: the decision to save one is an input, the bookkeeping that follows is modelled.
module TraceAdd {
  import opened TraceModel
  import opened TraceStore

  datatype Outcome = SaveState | SaveNoBuffer | NoSave

  // What the heuristics say about the position at hand, and its two records.
  datatype Decision = Decision(outcome: Outcome, preferBuffered: bool, duplicate: bool, fields: seq<int>, all: seq<int>)

  // A trace and the point buffered after it, if any.
  datatype Track = Track(trace: seq<Point>, buffered: seq<Point>)

  // The point a position becomes at the end of t; only each fourth one brings its own slow record.
  function NextPoint(t: seq<Point>, now: int, d: Decision): Point {
    Point(State(now, d.fields), if |t| % SFOUR == 0 then d.all else t[|t| - 1].all)
  }

  function Put(s: Track, now: int, d: Decision, room: bool): Track {
    var p := NextPoint(s.trace, now, d);
    if d.duplicate || !room then s
    else if d.outcome == NoSave then Track(s.trace, [p])
    else Track(s.trace + [p], [])
  }

  // A buffered point from before the end of the trace is dropped.
  function DropStale(s: Track): Track {
    if s.trace != [] && s.buffered != [] && s.buffered[0].state.timestamp < s.trace[|s.trace| - 1].state.timestamp
    then Track(s.trace, [])
    else s
  }

  // The first point is always saved.
  function Forced(d: Decision, first: bool): Decision {
    if first then Decision(SaveState, false, false, d.fields, d.all) else d
  }

  // spare tells how many further points there is room for; first that there are no current points.
  function Add(s: Track, now: int, d: Decision, again: Decision, spare: nat, first: bool): Track {
    var e := Forced(d, first);
    var c := if first then s else DropStale(s);
    if e.outcome == SaveState && e.preferBuffered && c.buffered != [] then
      Put(Track(c.trace + c.buffered, []), now, again, spare > 1)
    else Put(c, now, e, spare > 0)
  }

  // Everything stored or buffered is in order and from the past.
  ghost predicate InOrder(s: Track, now: int) {
    && |s.buffered| <= 1 && Sorted(s.trace + s.buffered)
    && (s.trace + s.buffered != [] ==> Last(s.trace + s.buffered) <= now)
  }

  function Last(t: seq<Point>): int
    requires t != []
  {
    t[|t| - 1].state.timestamp
  }

  lemma SortedSnoc(t: seq<Point>, p: Point)
    requires Sorted(t) && (t != [] ==> Last(t) <= p.state.timestamp)
    ensures Sorted(t + [p])
  {
  }

  lemma SortedPrefix(s: Track, now: int)
    requires InOrder(s, now)
    ensures InOrder(Track(s.trace, []), now)
  {
    var all := s.trace + s.buffered;
    assert forall i :: 0 <= i < |s.trace| ==> all[i] == s.trace[i];
    assert s.trace + [] == s.trace;
  }

  lemma PutKeepsOrder(s: Track, now: int, d: Decision, room: bool)
    requires InOrder(s, now)
    ensures InOrder(Put(s, now, d, room), now) && s.trace <= Put(s, now, d, room).trace
  {
    SortedPrefix(s, now);
    assert s.trace + [] == s.trace;
    SortedSnoc(s.trace, NextPoint(s.trace, now, d));
    var longer := s.trace + [NextPoint(s.trace, now, d)];
    assert longer + [] == longer;
  }

  // Timestamps stay in order as long as the clock does, and what is stored stays.
  lemma AddKeepsOrder(s: Track, now: int, d: Decision, again: Decision, spare: nat, first: bool)
    requires InOrder(s, now)
    ensures var r := Add(s, now, d, again, spare, first);
            InOrder(r, now) && s.trace <= r.trace
  {
    hide InOrder, Put;
    var c := if first then s else DropStale(s);
    SortedPrefix(s, now);
    var flushed := Track(c.trace + c.buffered, []);
    Flushed(c, now);
    PutKeepsOrder(flushed, now, again, spare > 1);
    PutKeepsOrder(c, now, Forced(d, first), spare > 0);
  }

  lemma Flushed(s: Track, now: int)
    requires InOrder(s, now)
    ensures InOrder(Track(s.trace + s.buffered, []), now)
  {
    assert (s.trace + s.buffered) + [] == s.trace + s.buffered;
  }

  // ---------------------------------------------------------------- on the store

  ghost function TrackOf(a: AircraftTrace): Track
    requires a.Valid()
    reads a, a.traceCurrent
  {
    Track(a.Trace(), a.Buffered())
  }

  // Positions there is room for: one slot past the next point stays free.
  ghost function Spare(a: AircraftTrace): nat
    requires a.Valid()
    reads a, a.traceCurrent
  {
    if a.traceCurrent == null then 2 else a.traceCurrentMax - a.traceCurrentLen - 2
  }

  // The group at position n with the point there replaced.
  function Written(g: FourState, n: nat, now: int, d: Decision): FourState {
    var h := g.With(n % SFOUR, State(now, d.fields));
    if n % SFOUR == 0 then h.(zeroAll := d.all) else h
  }

  lemma WritePoint(before: seq<FourState>, after: seq<FourState>, n: nat, now: int, d: Decision)
    requires n < SFOUR * |before| && after == before[n / SFOUR := Written(before[n / SFOUR], n, now, d)]
    ensures Points(after, n) == Points(before, n)
    ensures PointAt(after, n) == Point(State(now, d.fields), if n % SFOUR == 0 then d.all else before[n / SFOUR].zeroAll)
    ensures n % SFOUR != 0 ==> Points(before, n)[n - 1].all == before[n / SFOUR].zeroAll
  {
    forall i | 0 <= i < n ensures PointAt(after, i) == PointAt(before, i) {
      assert i / SFOUR == n / SFOUR ==> i % SFOUR < n % SFOUR;
    }
  }

  lemma NextPointAt(u: seq<FourState>, before: seq<FourState>, after: seq<FourState>, n: nat, now: int, d: Decision)
    requires n < SFOUR * |before| && after == before[n / SFOUR := Written(before[n / SFOUR], n, now, d)]
    ensures var t := AllPoints(u) + Points(before, n);
            PointAt(after, n) == NextPoint(t, now, d)
            && Points(after, n) == Points(before, n) && Points(after, n + 1) == Points(before, n) + [PointAt(after, n)]
  {
    WritePoint(before, after, n, now, d);
    LastPoint(after, n);
    var t := AllPoints(u) + Points(before, n);
    assert |t| == SFOUR * |u| + n;
    assert n > 0 ==> t[|t| - 1] == Points(before, n)[n - 1];
    hide Written, PointAt;
    assert Points(after, n + 1)[..n] == Points(after, n);
  }

  // Writes the position behind the last point and either appends or buffers it.
  method StorePoint(a: AircraftTrace, now: int, d: Decision) returns (used: bool)
    requires a.Valid()
    modifies a, a.traceCurrent
    ensures a.Valid() && (a.traceCurrent == old(a.traceCurrent) || fresh(a.traceCurrent))
    ensures TrackOf(a) == Put(old(TrackOf(a)), now, d, old(Spare(a)) > 0)
    ensures a.traceLen >= old(a.traceLen) && (used <==> a.traceLen != old(a.traceLen))
  {
    hide Settings.Valid, Codec.Lawful, ChunksOk, Unpacked, StatesIn, BytesIn, PointAt, AllPoints, Points, Written, NextPoint;
    if d.duplicate {
      return false;
    }
    if a.traceCurrent == null {
      Allocate(a, now);
    }
    if a.traceCurrentLen + 1 >= a.traceCurrentMax - 1 {
      return false;
    }
    WriteSlot(a, now, d);
    used := d.outcome != NoSave;
    if used {
      a.tracePosBuffered := false;
      a.traceLen := a.traceLen + 1;
      a.traceCurrentLen := a.traceCurrentLen + 1;
    } else {
      a.tracePosBuffered := true;
    }
  }

  // Writes the position into the slot behind the last point.
  method WriteSlot(a: AircraftTrace, now: int, d: Decision)
    requires a.Valid() && a.traceCurrent != null
    modifies a.traceCurrent
    ensures a.Valid() && a.Trace() == old(a.Trace()) && PointAt(a.Current(), a.traceCurrentLen) == NextPoint(a.Trace(), now, d)
    ensures Points(a.Current(), a.traceCurrentLen + 1)
            == Points(a.Current(), a.traceCurrentLen) + [PointAt(a.Current(), a.traceCurrentLen)]
  {
    hide Settings.Valid, Codec.Lawful, ChunksOk, Unpacked, StatesIn, BytesIn, PointAt, AllPoints, Points, Written, NextPoint;
    ghost var before := a.Current();
    var group := a.traceCurrent[a.traceCurrentLen / SFOUR];
    a.traceCurrent[a.traceCurrentLen / SFOUR] := Written(group, a.traceCurrentLen, now, d);
    NextPointAt(a.Chunked(), before, a.Current(), a.traceCurrentLen, now, d);
  }

  method Allocate(a: AircraftTrace, now: int)
    requires a.Valid() && a.traceCurrent == null
    modifies a
    ensures a.Valid() && a.traceCurrent != null && fresh(a.traceCurrent)
    ensures TrackOf(a) == old(TrackOf(a)) && Spare(a) > 0
    ensures a.traceLen == old(a.traceLen)
  {
    hide Codec.Lawful, ChunksOk, Unpacked, StatesIn, BytesIn, PointAt, AllPoints;
    a.ResizeTraceCurrent(now);
  }

  // Adds a position; the recursive call follows the use of the buffered point and is the last.
  method TraceAdd(a: AircraftTrace, now: int, d: Decision, again: Decision) returns (used: bool)
    requires a.Valid()
    modifies a, a.traceCurrent
    ensures a.Valid() && (a.traceCurrent == old(a.traceCurrent) || fresh(a.traceCurrent))
    ensures a.cfg.keepTraces == 0 ==> TrackOf(a) == old(TrackOf(a)) && !used
    ensures a.cfg.keepTraces != 0 ==>
              TrackOf(a) == Add(old(TrackOf(a)), now, d, again, old(Spare(a)), old(a.traceCurrentLen) == 0)
    ensures a.traceLen >= old(a.traceLen) && (used <==> a.traceLen != old(a.traceLen))
    decreases a.tracePosBuffered
  {
    hide AircraftTrace.Valid, AircraftTrace.Trace, AircraftTrace.Buffered, Put, Add, DropStale;
    used := false;
    if a.cfg.keepTraces != 0 {
      var e := Forced(d, a.traceCurrentLen == 0);
      ghost var s, first, spare := TrackOf(a), a.traceCurrentLen == 0, Spare(a);
      BufferedLength(a);
      if a.traceCurrentLen > 0 && a.tracePosBuffered {
        DropStaleBuffered(a);
        BufferedLength(a);
      }
      AddCases(s, now, d, again, spare, first);
      var usedBuffered := false;
      Same(a);
      if e.outcome == SaveState && e.preferBuffered {
        usedBuffered := a.TraceUsePosBuffered();
      }
      if usedBuffered {
        AddCases(TrackOf(a), now, again, again, Spare(a), false);
        var _ := TraceAdd(a, now, again, again);
        used := true;
      } else {
        used := StorePoint(a, now, e);
      }
    }
  }

  lemma Same(a: AircraftTrace)
    requires a.Valid()
    ensures a.Trace() + [] == a.Trace()
  {
  }

  lemma AddCases(s: Track, now: int, d: Decision, again: Decision, spare: nat, first: bool)
    ensures var e, c := Forced(d, first), if first then s else DropStale(s);
            Add(s, now, d, again, spare, first)
            == if e.outcome == SaveState && e.preferBuffered && c.buffered != []
               then Put(Track(c.trace + c.buffered, []), now, again, spare > 1)
               else Put(c, now, e, spare > 0)
    ensures s.buffered == [] ==> DropStale(s) == s
    ensures first || s.buffered == [] || s.trace == [] ==> (if first then s else DropStale(s)) == s
  {
  }

  lemma BufferedLength(a: AircraftTrace)
    requires a.Valid()
    ensures |a.Buffered()| == if a.tracePosBuffered then 1 else 0
  {
  }

  method DropStaleBuffered(a: AircraftTrace)
    requires a.Valid() && a.traceCurrentLen > 0 && a.tracePosBuffered
    modifies a`tracePosBuffered
    ensures a.Valid() && TrackOf(a) == DropStale(old(TrackOf(a)))
  {
    hide Settings.Valid, Codec.Lawful, ChunksOk, Unpacked, StatesIn, BytesIn;
    var n := a.traceCurrentLen;
    var last := a.traceCurrent[(n - 1) / SFOUR].No((n - 1) % SFOUR);
    var buffered := a.traceCurrent[n / SFOUR].No(n % SFOUR);
    assert a.Trace()[|a.Trace()| - 1] == PointAt(a.Current(), n - 1);
    if buffered.timestamp - last.timestamp < 0 {
      a.tracePosBuffered := false;
    }
  }
}
