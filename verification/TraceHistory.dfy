// Reading the whole trace back, deleting a time span from it, and the regular maintenance.
module TraceHistory {
  import opened TraceModel
  import opened TraceScratch
  import opened TraceStore
  import opened TraceEdit
  import opened TraceRewrite

  // ---------------------------------------------------------------- reassembly

  // From which chunk on to decompress, and how many points that makes.
  method FirstChunkNeeded(a: AircraftTrace, numPoints: int, after: int) returns (firstChunk: nat, allocLen: nat)
    requires a.Valid()
    ensures firstChunk <= |a.traceChunks| && allocLen == a.traceCurrentLen + StatesIn(a.traceChunks[firstChunk..])
    ensures numPoints >= 0 ==> firstChunk == 0 || allocLen >= numPoints
    ensures numPoints < 0 && firstChunk > 0 ==> after > 0 && a.traceChunks[firstChunk - 1].lastTimestamp < after
  {
    hide Settings.Valid, Codec.Lawful, ChunkOk, Unpacked, StatesIn, BytesIn;
    firstChunk := a.traceChunkLen;
    allocLen := a.traceCurrentLen;
    ghost var chunks, c := a.traceChunks, a.cfg.codec;
    NothingPacked(c);
    assert chunks[|chunks|..] == [];
    while firstChunk > 0
      invariant firstChunk <= |chunks| && allocLen == a.traceCurrentLen + StatesIn(chunks[firstChunk..])
    {
      var chunk := a.traceChunks[firstChunk - 1];
      if numPoints >= 0 && allocLen >= numPoints {
        break;
      }
      if numPoints < 0 && after > 0 && after > chunk.lastTimestamp {
        break;
      }
      ChunkDropped(c, chunks, firstChunk - 1);
      UnpackedSplit(c, chunks, firstChunk - 1);
      UnpackedSplit(c, chunks, firstChunk);
      allocLen := allocLen + chunk.numStates;
      firstChunk := firstChunk - 1;
    }
  }

  // The groups of the trace from a chunk on.
  ghost function Stored(a: AircraftTrace, firstChunk: nat): seq<FourState>
    requires a.Valid() && firstChunk <= |a.traceChunks|
    reads a, a.traceCurrent
  {
    Unpacked(a.cfg.codec, a.traceChunks[firstChunk..]) + a.Current()[..GetFourStates(a.traceCurrentLen)]
  }

  ghost function LengthFrom(a: AircraftTrace, firstChunk: nat): nat
    requires firstChunk <= |a.traceChunks|
    reads a
  {
    a.traceCurrentLen + StatesIn(a.traceChunks[firstChunk..])
  }

  // At least the last numPoints points, or all points from a time on, or the whole trace.  They are
  // put together in the scratch buffer, where they stay until it is used again.
  method ReassembleTrace(a: AircraftTrace, numPoints: int, after: int, buf: Scratch) returns (trace: array<FourState>, len: nat)
    requires a.Valid() && (buf.lent == null || buf.lent != a.traceCurrent)
    modifies buf, buf.lent
    ensures fresh(trace) && buf.lent == trace && trace.Length == Slots(a.cfg.memory, buf.capacity)
    ensures buf.capacity == Grown(old(buf.capacity), a.cfg.memory.Bytes(GetFourStates(len)))
    ensures GetFourStates(len) <= trace.Length && len <= |a.Trace()|
    ensures numPoints < 0 && after <= 0 ==> trace[..GetFourStates(len)] == Stored(a, 0)
    ensures Points(trace[..], len) == a.Trace()[|a.Trace()| - len..]
    ensures numPoints >= 0 ==> len >= numPoints || len == |a.Trace()|
    ensures numPoints < 0 && after <= 0 ==> len == |a.Trace()|
    ensures numPoints < 0 && Sorted(a.Trace()) ==> AllBefore(a.Trace()[..|a.Trace()| - len], after)
  {
    hide AircraftTrace.Valid, AircraftTrace.Trace, Stored, Settings.Valid, Unpacked, StatesIn, Points, AllPoints, GetFourStates, Sorted;
    var firstChunk, allocLen := FirstChunkNeeded(a, numPoints, after);
    len := allocLen;
    SuffixOfTrace(a, firstChunk, after);
    trace := Assemble(a, firstChunk, allocLen, buf);
    Reassembled(a, firstChunk, trace[..], allocLen);
    assert trace[..GetFourStates(len)] == Stored(a, firstChunk);
  }

  // The points of the chunks from firstChunk on and the current points, in the scratch buffer.
  method Assemble(a: AircraftTrace, firstChunk: nat, allocLen: nat, buf: Scratch) returns (trace: array<FourState>)
    requires a.Valid() && (buf.lent == null || buf.lent != a.traceCurrent)
    requires firstChunk <= |a.traceChunks| && allocLen == LengthFrom(a, firstChunk)
    modifies buf, buf.lent
    ensures fresh(trace) && buf.lent == trace && trace.Length == Slots(a.cfg.memory, buf.capacity)
    ensures buf.capacity == Grown(old(buf.capacity), a.cfg.memory.Bytes(GetFourStates(allocLen)))
    ensures |Stored(a, firstChunk)| == GetFourStates(allocLen) && Stored(a, firstChunk) <= trace[..]
  {
    hide Codec.Lawful, Memory.Lawful, ChunksOk, Unpacked, StatesIn, BytesIn, GetFourStates;
    RoomFor(a, firstChunk);
    trace := Take(a.cfg, GetFourStates(allocLen), buf);
    var tp := Unpack(a, firstChunk, trace);
    var n := GetFourStates(a.traceCurrentLen);
    if a.traceCurrentLen > 0 {
      CopyInto(trace, tp, a.traceCurrent, n);
    }
  }

  // The scratch buffer with room for n groups.
  method Take(cfg: Settings, n: nat, buf: Scratch) returns (trace: array<FourState>)
    requires cfg.Valid()
    modifies buf, buf.lent
    ensures fresh(trace) && buf.lent == trace && trace.Length == Slots(cfg.memory, buf.capacity) >= n
    ensures buf.capacity == Grown(old(buf.capacity), cfg.memory.Bytes(n))
  {
    hide Codec.Lawful;
    buf.Grow(cfg.memory, cfg.memory.Bytes(n));
    Fits(buf.capacity, cfg.memory, n);
    trace := new FourState[Slots(cfg.memory, buf.capacity)](i => cfg.memory.stale(if i < 0 then 0 else i));
    buf.lent := trace;
  }

  lemma Fits(capacity: nat, m: Memory, n: nat)
    requires m.groupSize > 0 && capacity >= m.Bytes(n)
    ensures Slots(m, capacity) >= n
  {
    if Slots(m, capacity) < n {
      TimesGrows(m.groupSize, Slots(m, capacity) + 1, n);
    }
  }

  method CopyInto(t: array<FourState>, at: nat, source: array<FourState>, n: nat)
    requires at + n <= t.Length && n <= source.Length && t != source
    modifies t
    ensures t[..][..at] == old(t[..])[..at] && t[..][at..at + n] == source[..][..n]
  {
    forall i | 0 <= i < n {
      t[at + i] := source[i];
    }
  }

  // Decompresses the chunks from firstChunk on; they fit into the buffer.
  method Unpack(a: AircraftTrace, firstChunk: nat, trace: array<FourState>) returns (tp: nat)
    requires a.Valid() && firstChunk <= |a.traceChunks| && trace != a.traceCurrent
    requires SFOUR * trace.Length >= StatesIn(a.traceChunks[firstChunk..])
    modifies trace
    ensures tp == |Unpacked(a.cfg.codec, a.traceChunks[firstChunk..])| <= trace.Length
    ensures trace[..][..tp] == Unpacked(a.cfg.codec, a.traceChunks[firstChunk..])
  {
    hide Settings.Valid, Codec.Lawful, Unpacked, StatesIn, BytesIn, Points, AllPoints, Decompress;
    ghost var rest := a.traceChunks[firstChunk..];
    tp := 0;
    NothingPacked(a.cfg.codec);
    assert rest[..0] == [];
    for k := firstChunk to a.traceChunkLen
      invariant tp <= trace.Length && trace[..][..tp] == Unpacked(a.cfg.codec, rest[..k - firstChunk])
      invariant SFOUR * tp == StatesIn(rest[..k - firstChunk])
    {
      assert rest[k - firstChunk] == a.traceChunks[k];
      ChunkDropped(a.cfg.codec, rest, k - firstChunk);
      NextUnpacked(a.cfg.codec, rest, k - firstChunk);
      var groups := Decompress(a.cfg.codec, a.traceChunks[k].compressed);
      Paste(trace, tp, groups);
      tp := tp + GetFourStates(a.traceChunks[k].numStates);
    }
    assert rest[..a.traceChunkLen - firstChunk] == rest;
  }

  lemma NextUnpacked(c: Codec, chunks: seq<StateChunk>, k: nat)
    requires k < |chunks|
    ensures Unpacked(c, chunks[..k + 1]) == Unpacked(c, chunks[..k]) + Decompress(c, chunks[k].compressed)
  {
    assert chunks[..k + 1] == chunks[..k] + [chunks[k]];
    UnpackedSnoc(c, chunks[..k], chunks[k]);
  }

  method Paste(t: array<FourState>, at: nat, g: seq<FourState>)
    requires at + |g| <= t.Length
    modifies t
    ensures t[..][..at + |g|] == old(t[..])[..at] + g
  {
    forall i | 0 <= i < |g| {
      t[at + i] := g[i];
    }
  }

  lemma SuffixOfTrace(a: AircraftTrace, f: nat, after: int)
    requires a.Valid() && f <= |a.traceChunks|
    ensures var tail := AllPoints(Unpacked(a.cfg.codec, a.traceChunks[f..])) + Points(a.Current(), a.traceCurrentLen);
            var len := a.traceCurrentLen + StatesIn(a.traceChunks[f..]);
            && |tail| == len <= |a.Trace()| && tail == a.Trace()[|a.Trace()| - len..] && (f == 0 ==> len == |a.Trace()|)
            && (f > 0 && a.traceChunks[f - 1].lastTimestamp < after && Sorted(a.Trace()) ==>
                  AllBefore(a.Trace()[..|a.Trace()| - len], after))
  {
    hide Unpacked, StatesIn, BytesIn, Codec.Lawful, ChunkOk, Points, AllPoints, Sorted;
    var c, chunks := a.cfg.codec, a.traceChunks;
    FrontSplit(c, chunks, f, a.Current(), a.traceCurrentLen);
    assert chunks[f..][0..] == chunks[f..];
    FrontSplit(c, chunks[f..], 0, a.Current(), a.traceCurrentLen);
    NothingPacked(c);
    assert chunks[..0] == [];
    if f > 0 && chunks[f - 1].lastTimestamp < after && Sorted(a.Trace()) {
      LastDropped(c, chunks, f, after);
      OldPrefix(a.Trace(), StatesIn(chunks[..f]), after);
    }
  }

  // The buffer for the points wanted holds the groups of the chunks and of the current points.
  lemma RoomFor(a: AircraftTrace, f: nat)
    requires a.Valid() && f <= |a.traceChunks|
    ensures var u, n := Unpacked(a.cfg.codec, a.traceChunks[f..]), a.traceCurrentLen;
            && StatesIn(a.traceChunks[f..]) == SFOUR * |u|
            && GetFourStates(n + StatesIn(a.traceChunks[f..])) == |u| + GetFourStates(n)
            && GetFourStates(n) <= |a.Current()| && GetFourStates(0) == 0
  {
    UnpackedLength(a.cfg.codec, a.traceChunks[f..]);
  }

  lemma Reassembled(a: AircraftTrace, f: nat, t: seq<FourState>, len: nat)
    requires a.Valid() && f <= |a.traceChunks| && len == LengthFrom(a, f)
    requires GetFourStates(len) <= |t| && Stored(a, f) <= t
    ensures Points(t, len) == AllPoints(Unpacked(a.cfg.codec, a.traceChunks[f..])) + Points(a.Current(), a.traceCurrentLen)
  {
    hide Settings.Valid, ChunksOk, Unpacked, StatesIn, BytesIn, Points, AllPoints, GetFourStates;
    RoomFor(a, f);
    assert t[..|Stored(a, f)|] == Stored(a, f);
    PartsJoined(t, Unpacked(a.cfg.codec, a.traceChunks[f..]), a.Current(), a.traceCurrentLen);
  }

  lemma PartsJoined(t: seq<FourState>, u: seq<FourState>, current: seq<FourState>, n: nat)
    requires |u| + GetFourStates(n) <= |t| && GetFourStates(n) <= |current|
    requires t[..|u| + GetFourStates(n)] == u + current[..GetFourStates(n)]
    ensures Points(t, SFOUR * |u| + n) == AllPoints(u) + Points(current, n)
  {
    hide Points;
    var k := GetFourStates(n);
    PointsSplit(t, |u|, SFOUR * |u| + n);
    assert t[..|u|] == (u + current[..k])[..|u|] == u;
    assert t[|u|..][..k] == (u + current[..k])[|u|..] == current[..k];
    PointsAgree(t[|u|..], current, n);
  }

  // ---------------------------------------------------------------- deletion

  // start is the last first-of-group at or before from, end the first one after to.
  ghost predicate Scanned(t: seq<Point>, start: nat, end: nat, found: bool, from: int, to: int) {
    && start % SFOUR == 0 && (start > 0 ==> start < |t| && t[start].state.timestamp <= from)
    && (if found then end % SFOUR == 0 && start <= end < |t| && t[end].state.timestamp > to else end == |t| + SFOUR)
    && (forall i :: start < i <= end && i < |t| && i % SFOUR == 0 ==> t[i].state.timestamp > from)
    && (forall i :: 0 <= i < end && i < |t| && i % SFOUR == 0 ==> t[i].state.timestamp <= to)
  }

  // There is one such pair.
  lemma ScannedOnce(t: seq<Point>, start: nat, end: nat, start2: nat, end2: nat, from: int, to: int)
    requires Scanned(t, start, end, end < |t|, from, to) && Scanned(t, start2, end2, end2 < |t|, from, to)
    ensures start == start2 && end == end2
  {
  }

  // The points p to q - 1 that are deleted: from start to end, or from the group before start on.
  ghost predicate IsGap(t: seq<Point>, p: nat, q: nat, from: int, to: int) {
    exists start, end :: GapOf(t, start, end, p, q, from, to)
  }

  ghost predicate GapOf(t: seq<Point>, start: nat, end: nat, p: nat, q: nat, from: int, to: int) {
    && Scanned(t, start, end, end < |t|, from, to)
    && (if end < |t| then p == start && q == end
        else p == (if start < SFOUR then 0 else start - SFOUR) && q == |t|)
  }

  lemma GapOnce(t: seq<Point>, p: nat, q: nat, p2: nat, q2: nat, from: int, to: int)
    requires IsGap(t, p, q, from, to) && IsGap(t, p2, q2, from, to)
    ensures p == p2 && q == q2
  {
    hide Scanned;
    var start, end :| GapOf(t, start, end, p, q, from, to);
    var start2, end2 :| GapOf(t, start2, end2, p2, q2, from, to);
    ScannedOnce(t, start, end, start2, end2, from, to);
  }

  // The group before start is deleted too exactly if no group starts after the time span; none of
  // its points lies in the span.
  lemma ExtraGroup(t: seq<Point>, start: nat, end: nat, p: nat, q: nat, from: int, to: int)
    requires Sorted(t) && GapOf(t, start, end, p, q, from, to) && start >= SFOUR
    ensures p == start - SFOUR || p == start
    ensures p == start - SFOUR <==> forall i :: 0 <= i < |t| && i % SFOUR == 0 ==> t[i].state.timestamp <= to
    ensures forall i :: start - SFOUR <= i < start ==> !Within(t[i], from, to)
  {
  }

  // Twelve points, of which the last three are to be deleted: eight are.
  lemma ExtraGroupDeleted()
    ensures var t := seq(12, i => Point(State(i, []), []));
            Sorted(t) && IsGap(t, 4, 12, 8, 100) && forall i :: 4 <= i <= 8 ==> !Within(t[i], 8, 100)
  {
    var t := seq(12, i => Point(State(i, []), []));
    assert GapOf(t, 8, 16, 4, 12, 8, 100);
  }

  // Where the groups to delete start and end: the last one that starts by from, and the first one
  // that starts after to; past the end if there is none.
  method FindSpan(trace: array<FourState>, len: nat, from: int, to: int) returns (start: nat, end: nat)
    requires len <= SFOUR * trace.Length
    ensures Scanned(Points(trace[..], len), start, end, end < len, from, to)
  {
    start := 0;
    end := len + SFOUR;
    ghost var t := Points(trace[..], len);
    hide Scanned, ScannedBelow, Points;
    ScanStart(t, from, to);
    var k := 0;
    while SFOUR * k < len
      invariant ScannedBelow(t, start, SFOUR * k, from, to)
    {
      var timestamp := trace[k].No(0).timestamp;
      FirstOfGroup(trace[..], len, k);
      ScanStep(t, start, SFOUR * k, from, to);
      if timestamp <= from {
        start := SFOUR * k;
      }
      if timestamp > to {
        return start, SFOUR * k;
      }
      k := k + 1;
    }
    ScanPast(t, start, SFOUR * k, from, to);
  }

  lemma FirstOfGroup(g: seq<FourState>, n: nat, k: nat)
    requires SFOUR * k < n <= SFOUR * |g|
    ensures Points(g, n)[SFOUR * k].state == g[k].No(0)
  {
  }

  lemma ScanStart(t: seq<Point>, from: int, to: int)
    ensures ScannedBelow(t, 0, 0, from, to)
  {
  }

  lemma ScanPast(t: seq<Point>, start: nat, i: nat, from: int, to: int)
    requires ScannedBelow(t, start, i, from, to) && i >= |t|
    ensures Scanned(t, start, |t| + SFOUR, false, from, to)
  {
  }

  ghost predicate ScannedBelow(t: seq<Point>, start: nat, i: nat, from: int, to: int) {
    && start % SFOUR == 0 && start <= i && (start > 0 ==> start < i && start < |t| && t[start].state.timestamp <= from)
    && (forall j :: start < j < i && j < |t| && j % SFOUR == 0 ==> t[j].state.timestamp > from)
    && (forall j :: 0 <= j < i && j < |t| && j % SFOUR == 0 ==> t[j].state.timestamp <= to)
  }

  lemma ScanStep(t: seq<Point>, start: nat, i: nat, from: int, to: int)
    requires i % SFOUR == 0 && i < |t| && ScannedBelow(t, start, i, from, to)
    ensures var next := if t[i].state.timestamp <= from then i else start;
            if t[i].state.timestamp > to then Scanned(t, next, i, true, from, to)
            else ScannedBelow(t, next, i + SFOUR, from, to)
  {
    forall j: nat | j < i + SFOUR && j % SFOUR == 0 ensures j <= i {
      NextGroup(i, j);
    }
  }

  lemma NextGroup(i: nat, j: nat)
    requires i % SFOUR == 0 && j % SFOUR == 0 && j < i + SFOUR
    ensures j <= i
  {
  }

  ghost predicate Within(p: Point, from: int, to: int) {
    from < p.state.timestamp <= to
  }

  // kept is t without the points p to q - 1: none of the time span is left, and of the points
  // deleted at most the first eight and the last three are outside of it.
  ghost predicate SpanDeleted(t: seq<Point>, kept: seq<Point>, p: nat, q: nat, from: int, to: int) {
    && p <= q <= |t| && kept == t[..p] + t[q..]
    && (forall i :: 0 <= i < p || q <= i < |t| ==> !Within(t[i], from, to))
    && (forall i :: p + 2 * SFOUR <= i <= q - SFOUR ==> Within(t[i], from, to))
  }

  lemma SpanFound(t: seq<Point>, start: nat, end: nat, from: int, to: int)
    requires Sorted(t) && Scanned(t, start, end, true, from, to)
    ensures SpanDeleted(t, t[..start] + t[end..], start, end, from, to)
  {
    forall i | start + 2 * SFOUR <= i <= end - SFOUR ensures Within(t[i], from, to) {
      InsideSpan(t, start, end, true, from, to, i);
    }
  }

  // With no later point the group before the first one to delete goes as well.
  lemma SpanToEnd(t: seq<Point>, start: nat, end: nat, from: int, to: int)
    requires Sorted(t) && Scanned(t, start, end, false, from, to)
    ensures var p := if start < SFOUR then 0 else start - SFOUR;
            p <= |t| && SpanDeleted(t, t[..p], p, |t|, from, to)
  {
    var p := if start < SFOUR then 0 else start - SFOUR;
    assert t[..p] + t[|t|..] == t[..p];
    forall i | p + 2 * SFOUR <= i <= |t| - SFOUR ensures Within(t[i], from, to) {
      InsideSpan(t, start, end, false, from, to, i);
    }
  }

  lemma InsideSpan(t: seq<Point>, start: nat, end: nat, found: bool, from: int, to: int, i: nat)
    requires Sorted(t) && Scanned(t, start, end, found, from, to)
    requires start + SFOUR <= i < |t| && i <= (if found then end else |t|) - SFOUR
    ensures Within(t[i], from, to)
  {
    hide Sorted;
    var k, m := start + SFOUR, (i + SFOUR - 1) / SFOUR * SFOUR;
    assert t[k].state.timestamp > from && t[m].state.timestamp <= to;
    InOrderAt(t, k, i);
    InOrderAt(t, i, m);
  }

  lemma InOrderAt(t: seq<Point>, i: nat, j: nat)
    requires Sorted(t) && i <= j < |t|
    ensures t[i].state.timestamp <= t[j].state.timestamp
  {
  }

  // The test for the end of the trace tells whether a later point was found.
  lemma SpanDecision(t: seq<Point>, start: nat, end: nat, found: bool, from: int, to: int)
    requires Scanned(t, start, end, found, from, to)
    ensures var s, e, n := start / SFOUR, GetFourStates(end), if start < SFOUR then 0 else start - SFOUR;
            && (e >= GetFourStates(|t|) <==> !found)
            && start == SFOUR * s && (found ==> end == SFOUR * e && s <= e && end < |t|)
            && n <= |t| && (if s == 0 then 0 else (s - 1) * SFOUR) == n && t[..n] + t[|t|..] == t[..n]
            && (Sorted(t) && found ==> SpanDeleted(t, t[..start] + t[end..], start, end, from, to))
            && (Sorted(t) && !found ==> SpanDeleted(t, t[..n], n, |t|, from, to))
  {
    if Sorted(t) && found {
      SpanFound(t, start, end, from, to);
    }
    if Sorted(t) && !found {
      SpanToEnd(t, start, end, from, to);
    }
    hide SpanDeleted, Sorted;
  }

  lemma ShorterPoints(g: seq<FourState>, n: nat, m: nat)
    requires m <= n <= SFOUR * |g|
    ensures Points(g, m) == Points(g, n)[..m] && GetFourStates(m) <= GetFourStates(n)
  {
  }

  // Deletes the points of a time span from the buffer, by whole groups.
  method DeleteSpan(trace: array<FourState>, len: nat, from: int, to: int) returns (newLen: nat, ghost p: nat, ghost q: nat)
    requires GetFourStates(len) <= trace.Length
    modifies trace
    ensures var t := Points(old(trace[..]), len);
            && p <= q <= len && newLen == len - (q - p) && Points(trace[..], newLen) == t[..p] + t[q..]
            && IsGap(t, p, q, from, to) && (Sorted(t) ==> SpanDeleted(t, t[..p] + t[q..], p, q, from, to))
    ensures GetFourStates(newLen) <= GetFourStates(len) && trace[..GetFourStates(newLen)] == WithoutGap(old(trace[..]), p, q, len)
  {
    hide SpanDeleted, Sorted, PointAt, Scanned, Points, WithoutGap;
    ghost var t, g := Points(trace[..], len), trace[..];
    var start, end := FindSpan(trace, len, from, to);
    SpanDecision(t, start, end, end < len, from, to);
    var s, e := start / SFOUR, GetFourStates(end);
    if e >= GetFourStates(len) {
      newLen := if s == 0 then 0 else (s - 1) * SFOUR;
      ShorterPoints(trace[..], len, newLen);
      p, q := newLen, len;
      NoneAfter(g, newLen, len);
    } else {
      p, q := start, end;
      newLen := CloseGap(trace, len, s, e);
    }
    assert GapOf(t, start, end, p, q, from, to);
  }

  // The groups of n points without those of p to q - 1.
  ghost function WithoutGap(g: seq<FourState>, p: nat, q: nat, n: nat): seq<FourState>
    requires p <= q <= n && GetFourStates(n) <= |g|
  {
    g[..GetFourStates(p)] + g[GetFourStates(q)..GetFourStates(n)]
  }

  lemma NoneAfter(g: seq<FourState>, p: nat, n: nat)
    requires p <= n && GetFourStates(n) <= |g|
    ensures GetFourStates(p) <= GetFourStates(n) && g[..GetFourStates(p)] == WithoutGap(g, p, n, n)
  {
  }

  // Moves the groups from e on down to s.
  method CloseGap(trace: array<FourState>, len: nat, s: nat, e: nat) returns (newLen: nat)
    requires GetFourStates(len) <= trace.Length && s <= e && SFOUR * e < len
    modifies trace
    ensures newLen == len - SFOUR * (e - s)
    ensures var t := Points(old(trace[..]), len);
            Points(trace[..], newLen) == t[..SFOUR * s] + t[SFOUR * e..]
    ensures GetFourStates(newLen) <= GetFourStates(len)
    ensures trace[..GetFourStates(newLen)] == WithoutGap(old(trace[..]), SFOUR * s, SFOUR * e, len)
  {
    hide Points, PointAt, WithoutGap, GetFourStates;
    EndInside(len, e);
    newLen := len;
    ghost var g := trace[..];
    if e - s > 0 {
      ShiftDown(trace, s, e, GetFourStates(len) - e);
      newLen := newLen - (e - s) * SFOUR;
    }
    GapClosed(g, trace[..], len, s, e);
    GroupsClosed(g, trace[..], len, s, e);
  }

  lemma EndInside(len: nat, e: nat)
    requires SFOUR * e < len
    ensures e <= GetFourStates(len)
  {
  }

  method ShiftDown(trace: array<FourState>, s: nat, e: nat, n: nat)
    requires s <= e && e + n <= trace.Length
    modifies trace
    ensures forall i :: 0 <= i < s ==> trace[i] == old(trace[i])
    ensures forall i :: s <= i < s + n ==> trace[i] == old(trace[i + (e - s)])
  {
    forall i | s <= i < s + n {
      trace[i] := trace[i + (e - s)];
    }
  }

  lemma GroupsClosed(g: seq<FourState>, h: seq<FourState>, len: nat, s: nat, e: nat)
    requires GetFourStates(len) <= |g| == |h| && s <= e && SFOUR * e < len
    requires forall i :: 0 <= i < s ==> h[i] == g[i]
    requires forall i :: s <= i < s + GetFourStates(len) - e ==> h[i] == g[i + (e - s)]
    ensures SFOUR * s <= SFOUR * e <= len
    ensures var n := GetFourStates(len - SFOUR * (e - s));
            n <= GetFourStates(len) && h[..n] == WithoutGap(g, SFOUR * s, SFOUR * e, len)
  {
    assert GetFourStates(len - SFOUR * (e - s)) == s + (GetFourStates(len) - e);
  }

  lemma GapClosed(g: seq<FourState>, h: seq<FourState>, len: nat, s: nat, e: nat)
    requires GetFourStates(len) <= |g| == |h| && s <= e && SFOUR * e < len
    requires forall i :: 0 <= i < s ==> h[i] == g[i]
    requires forall i :: s <= i < s + GetFourStates(len) - e ==> h[i] == g[i + (e - s)]
    ensures var t := Points(g, len);
            Points(h, len - SFOUR * (e - s)) == t[..SFOUR * s] + t[SFOUR * e..]
  {
    var t, d := Points(g, len), SFOUR * (e - s);
    forall i | 0 <= i < len - d ensures PointAt(h, i) == if i < SFOUR * s then PointAt(g, i) else PointAt(g, i + d) {
      assert i >= SFOUR * s ==> (i + d) / SFOUR == i / SFOUR + (e - s) && (i + d) % SFOUR == i % SFOUR;
    }
  }

  // What a deletion leaves: everything but the gap, provided that it survived in the scratch buffer or
  // was not to be compressed; in any case that many points.
  ghost predicate SpanGone(t: seq<Point>, left: seq<Point>, p: nat, q: nat, from: int, to: int, fate: Fate, uncompressed: nat) {
    && p <= q <= |t| && IsGap(t, p, q, from, to) && |left| == |t| - (q - p)
    && (Sorted(t) ==> SpanDeleted(t, t[..p] + t[q..], p, q, from, to))
    && (fate == Intact || |left| <= uncompressed ==> left == t[..p] + t[q..])
  }

  // Its fate, given the groups of the n points there were and the buffer's capacity before.
  ghost predicate Befalls(cfg: Settings, g: seq<FourState>, n: nat, p: nat, q: nat, capacity: nat, fate: Fate, pastEnd: bool) {
    && p <= q <= n && GetFourStates(n) <= |g| && cfg.chunkPoints > 0
    && var cap, kept, m := Grown(capacity, cfg.memory.Bytes(GetFourStates(n))), WithoutGap(g, p, q, n), n - (q - p);
    && GetFourStates(m) <= |kept| && fate == Rounds(cfg, kept, 0, m, [], cap)
    && (pastEnd <==> m > 0 && GetFourStates(m + 1) > Slots(cfg.memory, cap))
  }

  // Deletes a time span from the trace, the buffered point included.  The trace is put together in the
  // buffer that is then used to compress it.
  method TraceDelete(a: AircraftTrace, from: int, to: int, now: int, buf: Scratch)
    returns (ghost p: nat, ghost q: nat, ghost fate: Fate, ghost pastEnd: bool)
    requires a.Valid() && (buf.lent == null || buf.lent != a.traceCurrent)
    modifies a, a.traceCurrent, buf, buf.lent
    ensures a.Valid()
    ensures old(a.traceLen) > 0 ==>
              && a.Buffered() == []
              && SpanGone(old(a.Trace() + a.Buffered()), a.Trace(), p, q, from, to, fate, KeptPoints(a.cfg))
              && Befalls(a.cfg, old(StoredUsed(a)), old(|a.Trace() + a.Buffered()|), p, q, old(buf.capacity), fate, pastEnd)
  {
    hide AircraftTrace.Valid, AircraftTrace.Trace, AircraftTrace.Buffered, Settings.Valid, Sorted, SpanDeleted, Points, IsGap,
      WithoutGap, Rounds, Stored, StoredUsed, KeptPoints, GetFourStates, SpanGone, Befalls, Grown;
    p, q, fate, pastEnd := 0, 0, Intact, false;
    if a.traceLen == 0 {
      return;
    }
    UseBuffered(a);
    ghost var t, g, capacity := a.Trace(), Stored(a, 0), buf.capacity;
    var trace, len := ReassembleTrace(a, -1, -1, buf);
    assert t[0..] == t;
    ghost var s, cap := trace[..], buf.capacity;
    var newLen;
    newLen, p, q := DeleteSpan(trace, len, from, to);
    ghost var kept := trace[..];
    fate, pastEnd := SetTrace(a, trace, newLen, now, buf);
    Concluded(a.cfg, t, a.Trace(), g, s, kept, p, q, newLen, from, to, capacity, cap, fate, pastEnd);
  }

  // The groups of the trace and the buffered point.
  ghost function StoredUsed(a: AircraftTrace): seq<FourState>
    requires a.Valid()
    reads a, a.traceCurrent
  {
    a.Chunked() + a.Current()[..GetFourStates(a.traceCurrentLen + if a.tracePosBuffered then 1 else 0)]
  }

  lemma Concluded(cfg: Settings, t: seq<Point>, left: seq<Point>, g: seq<FourState>, s: seq<FourState>, kept: seq<FourState>,
                  p: nat, q: nat, m: nat, from: int, to: int, capacity: nat, cap: nat, fate: Fate, pastEnd: bool)
    requires cfg.chunkPoints > 0
    requires p <= q <= |t| && m == |t| - (q - p) && IsGap(t, p, q, from, to) && |left| == m
    requires Sorted(t) ==> SpanDeleted(t, t[..p] + t[q..], p, q, from, to)
    requires GetFourStates(m) <= GetFourStates(|t|) <= |s| == |kept| == Slots(cfg.memory, cap)
    requires s[..GetFourStates(|t|)] == g && kept[..GetFourStates(m)] == WithoutGap(s, p, q, |t|)
    requires Points(kept, m) == t[..p] + t[q..] && cap == Grown(capacity, cfg.memory.Bytes(GetFourStates(|t|)))
    requires fate == Rounds(cfg, kept, 0, m, [], cap) && (fate == Intact ==> left == Points(kept, m))
    requires pastEnd <==> m > 0 && GetFourStates(m + 1) > |kept|
    ensures SpanGone(t, left, p, q, from, to, fate, KeptPoints(cfg))
    ensures Befalls(cfg, g, |t|, p, q, capacity, fate, pastEnd)
  {
    hide IsGap, Sorted, SpanDeleted, WithoutGap, Points, Rounds, KeptPoints, GetFourStates, Grown;
    Kept(cfg, g, s, kept, p, q, |t|, m, cap);
  }

  // The groups left in the buffer are those stored without the gap, and only they decide.
  lemma Kept(cfg: Settings, g: seq<FourState>, before: seq<FourState>, after: seq<FourState>, p: nat, q: nat, n: nat, m: nat, cap: nat)
    requires cfg.chunkPoints > 0 && p <= q <= n && m == n - (q - p) && GetFourStates(m) <= GetFourStates(n) <= |before| == |after|
    requires before[..GetFourStates(n)] == g && after[..GetFourStates(m)] == WithoutGap(before, p, q, n)
    ensures GetFourStates(n) <= |g| && GetFourStates(m) <= |WithoutGap(g, p, q, n)|
    ensures Rounds(cfg, after, 0, m, [], cap) == Rounds(cfg, WithoutGap(g, p, q, n), 0, m, [], cap)
    ensures m <= KeptPoints(cfg) ==> Rounds(cfg, after, 0, m, [], cap) == Intact
  {
    hide Rounds, KeptPoints;
    assert WithoutGap(before, p, q, n) == WithoutGap(g, p, q, n);
    RoundsPrefix(cfg, after, WithoutGap(g, p, q, n), 0, m, [], cap);
    if m <= KeptPoints(cfg) {
      FewRemain(cfg, after, 0, m, [], cap);
    }
  }

  lemma Used(a: AircraftTrace, chunked: seq<FourState>, current: seq<FourState>, used: nat)
    requires a.Valid() && a.Chunked() == chunked && a.Current() == current
    requires used == a.traceCurrentLen + if a.tracePosBuffered then 1 else 0
    ensures a.cfg.Valid() && a.cfg.chunkPoints > 0 && a.cfg.memory.groupSize > 0
    ensures GetFourStates(used) <= |current| && StoredUsed(a) == chunked + current[..GetFourStates(used)]
  {
    hide Codec.Lawful, ChunksOk, Unpacked;
  }

  lemma AllUsed(a: AircraftTrace, chunked: seq<FourState>, current: seq<FourState>, used: nat)
    requires a.Valid() && a.Chunked() == chunked && a.Current() == current && used == a.traceCurrentLen
    ensures GetFourStates(used) <= |current| && Stored(a, 0) == chunked + current[..GetFourStates(used)]
  {
    hide Codec.Lawful, ChunksOk, Unpacked;
    assert a.traceChunks[0..] == a.traceChunks;
  }

  // The buffered point becomes the last one; the groups stored are the same.
  method UseBuffered(a: AircraftTrace)
    requires a.Valid()
    modifies a
    ensures a.Valid() && a.traceCurrent == old(a.traceCurrent) && a.Buffered() == []
    ensures a.Trace() == old(a.Trace() + a.Buffered()) && |a.Trace()| == a.traceLen >= old(a.traceLen)
    ensures Stored(a, 0) == old(StoredUsed(a)) && a.cfg.Valid() && a.cfg.chunkPoints > 0 && a.cfg.memory.groupSize > 0
  {
    hide AircraftTrace.Valid, AircraftTrace.Trace, AircraftTrace.Buffered, Settings.Valid, Stored, StoredUsed, GetFourStates;
    ghost var chunked, current, used := a.Chunked(), a.Current(), a.traceCurrentLen + if a.tracePosBuffered then 1 else 0;
    Used(a, chunked, current, used);
    var _ := a.TraceUsePosBuffered();
    a.TraceLength();
    AllUsed(a, chunked, current, used);
  }

  // ---------------------------------------------------------------- maintenance

  // Prunes, reallocates and compresses; only pruning changes the trace.  Afterwards there is room for further
  // points of an active aircraft.
  method TraceMaintenance(a: AircraftTrace, now: int, buf: Scratch) returns (ghost removed: nat)
    requires a.Valid() && buf.lent == null
    modifies a, a.traceCurrent, buf
    ensures a.Valid() && (a.Buffered() == old(a.Buffered()) || (a.Trace() == [] && a.Buffered() == []))
    ensures old(a.traceLen) > 0 && Sorted(old(a.Trace())) ==>
              Pruned(old(a.Trace()), a.Trace(), removed, now - a.cfg.keepTraces)
    ensures PrunedEnough(old(a.Trace()), old(a.traceChunks), old(a.Current()), old(a.traceCurrentLen), removed,
                         now - a.cfg.keepTraces, a.cfg.reserve)
    ensures || a.traceCurrentLen < old(a.traceCurrentLen) || a.traceCurrentLen < MinCurrentPoints() + SFOUR
            || (a.traceCurrentLen < a.cfg.chunkPoints + a.cfg.reserve / 4
                && (a.traceCurrentLen <= a.cfg.chunkPoints / 4 || !LongCurrent(a)))
    ensures a.traceCurrentLen > 0 && a.Active(now) ==>
              a.traceCurrentMax - a.traceCurrentLen >= Min(a.cfg.reserve - a.cfg.reserve / 4, a.cfg.chunkPoints / 4)
  {
    hide AircraftTrace.Valid, AircraftTrace.Trace, AircraftTrace.Buffered, Settings.Valid, Sorted, Pruned, Enough;
    removed := 0;
    a.TraceLength();
    Sizes(a);
    if a.traceLen == 0 {
      return;
    }
    removed := TracePrune(a, now);
    a.TraceLength();
    Sizes(a);
    if a.traceLen == 0 || a.traceCurrentLen == 0 {
      return;
    }
    Shorten(a, now, buf);
  }

  // Reallocates and compresses the current points.
  method Shorten(a: AircraftTrace, now: int, buf: Scratch)
    requires a.Valid() && buf.lent == null && a.traceCurrentLen > 0
    modifies a, a.traceCurrent, buf
    ensures a.Valid() && a.Trace() == old(a.Trace()) && a.Buffered() == old(a.Buffered())
    ensures a.traceCurrentLen <= old(a.traceCurrentLen)
    ensures || a.traceCurrentLen < old(a.traceCurrentLen) || a.traceCurrentLen < MinCurrentPoints() + SFOUR
            || (a.traceCurrentLen < a.cfg.chunkPoints + a.cfg.reserve / 4
                && (a.traceCurrentLen <= a.cfg.chunkPoints / 4 || !LongCurrent(a)))
    ensures a.Active(now) ==>
              a.traceCurrentMax - a.traceCurrentLen >= Min(a.cfg.reserve - a.cfg.reserve / 4, a.cfg.chunkPoints / 4)
  {
    hide AircraftTrace.Valid, AircraftTrace.Trace, AircraftTrace.Buffered, Settings.Valid;
    Reallocate(a, now);
    Sizes(a);
    if a.traceCurrentLen >= a.cfg.chunkPoints + a.cfg.reserve / 4 {
      a.CompressCurrent(buf);
    }
    if a.traceCurrentLen > a.cfg.chunkPoints / 4 {
      var long := CurrentIsLong(a);
      if long {
        a.CompressCurrent(buf);
      }
    }
  }

  lemma Sizes(a: AircraftTrace)
    requires a.Valid()
    ensures a.traceLen >= a.traceCurrentLen && (a.traceCurrentLen > 0 ==> a.traceCurrentLen + 2 <= a.traceCurrentMax)
    ensures a.cfg.reserve >= 16 && a.cfg.chunkPoints > 0 && MinCurrentPoints() + SFOUR == 12
  {
  }

  function Min(a: nat, b: nat): nat {
    if a < b then a else b
  }

  // Brings the allocation of the current points to its nominal size if need be.
  method Reallocate(a: AircraftTrace, now: int)
    requires a.Valid() && a.traceCurrentLen > 0
    modifies a`traceCurrent, a`traceCurrentMax
    ensures a.Valid() && a.traceCurrent != null && (a.traceCurrent == old(a.traceCurrent) || fresh(a.traceCurrent))
    ensures a.Trace() == old(a.Trace()) && a.Buffered() == old(a.Buffered())
    ensures a.Active(now) ==>
              a.traceCurrentLen + a.cfg.reserve <= a.traceCurrentMax || a.cfg.reserve + a.cfg.chunkPoints <= a.traceCurrentMax
  {
    hide Codec.Lawful, ChunksOk, Unpacked, StatesIn, BytesIn, Points, PointAt, AllPoints, GetFourStates;
    var nominal := a.GetNominalTraceCurrentPoints(now);
    if a.traceCurrentMax != nominal {
      ghost var before := a.Current();
      a.ResizeTraceCurrent(now);
      SameGroups(before, a.Current(), a.traceCurrentLen);
    }
  }

  lemma SameGroups(g: seq<FourState>, h: seq<FourState>, n: nat)
    requires GetFourStates(n + 1) <= |g| && GetFourStates(n + 1) <= |h|
    requires g[..GetFourStates(n + 1)] == h[..GetFourStates(n + 1)]
    ensures n < SFOUR * |g| && n < SFOUR * |h| && Points(g, n) == Points(h, n) && PointAt(g, n) == PointAt(h, n)
  {
    PointsAgree(g, h, n + 1);
    PointsPrefix(g, h, n);
    LastPoint(g, n);
    LastPoint(h, n);
  }

  // The current points span more than a chunk should.
  ghost predicate LongCurrent(a: AircraftTrace)
    requires a.Valid()
    reads a, a.traceCurrent
  {
    a.traceCurrentLen > 0
    && PointAt(a.Current(), a.traceCurrentLen - 1).state.timestamp - PointAt(a.Current(), 0).state.timestamp > CHUNK_DURATION
  }

  method CurrentIsLong(a: AircraftTrace) returns (long: bool)
    requires a.Valid() && a.traceCurrentLen > 0
    ensures long <==> LongCurrent(a)
  {
    hide Codec.Lawful, ChunksOk, Unpacked, StatesIn, BytesIn, Points;
    var n := a.traceCurrentLen - 1;
    long := a.traceCurrent[n / SFOUR].No(n % SFOUR).timestamp - a.traceCurrent[0].no0.timestamp > CHUNK_DURATION;
  }
}
