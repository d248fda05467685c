// Giving up a trace, and pruning it to what is recent.
module TraceEdit {
  import opened TraceModel
  import opened TraceStore

  method TraceCleanup(a: AircraftTrace)
    requires a.cfg.Valid()
    modifies a
    ensures a.Valid() && a.Trace() == [] && a.Buffered() == [] && a.traceCurrent == null
    ensures a.traceChunks == [] && a.traceCurrentMax == 0 && a.traceLen == 0 && !a.tracePosBuffered
  {
    a.traceChunks := [];
    a.traceChunkLen := 0;
    a.traceChunkOverallBytes := 0;
    a.traceCurrent := null;
    a.traceCurrentMax := 0;
    a.traceCurrentLen := 0;
    a.tracePosBuffered := false;
    a.traceLen := 0;
  }

  lemma NothingPacked(c: Codec)
    ensures Unpacked(c, []) == [] && StatesIn([]) == 0 && BytesIn([]) == 0
  {
  }

  // ---------------------------------------------------------------- pruning

  // Removing n points from the front of t removes no point at or after the cutoff.
  ghost predicate Pruned(t: seq<Point>, kept: seq<Point>, n: nat, cutoff: int) {
    n <= |t| && kept == t[n..] && AllBefore(t[..n], cutoff)
  }

  // The chunks left, if any, start with one that ends at or after the cutoff.
  ghost predicate FrontRecent(chunks: seq<StateChunk>, cutoff: int) {
    chunks != [] ==> chunks[0].lastTimestamp >= cutoff
  }

  // Less than a reserve's worth of whole groups at the front of the current points is old.
  ghost predicate FewOld(current: seq<FourState>, len: nat, cutoff: int, reserve: nat) {
    || len / SFOUR * SFOUR < reserve
    || exists j :: 0 <= j < len / SFOUR && j < |current| && SFOUR * j < reserve && current[j].Last().timestamp >= cutoff
  }

  // The same after n points, whole groups, have been dropped.
  ghost predicate FewLeft(current: seq<FourState>, len: nat, n: nat, cutoff: int, reserve: nat) {
    && n % SFOUR == 0 && n <= len <= SFOUR * |current|
    && FewOld(current[n / SFOUR..], len - n, cutoff, reserve)
  }

  // The points removed are those of whole chunks and then whole groups, so many that no old chunk and
  // few old groups are left.
  ghost predicate Enough(chunks: seq<StateChunk>, current: seq<FourState>, len: nat, n: nat, cutoff: int, reserve: nat) {
    exists c, k ::
      && 0 <= c <= |chunks| && FrontRecent(chunks[c..], cutoff)
      && 0 <= k && FewLeft(current, len, k, cutoff, reserve)
      && n == StatesIn(chunks[..c]) + k
  }

  // All of a trace whose last point, a current one, is old; otherwise enough.
  ghost predicate PrunedEnough(t: seq<Point>, chunks: seq<StateChunk>, current: seq<FourState>, len: nat, n: nat,
                               cutoff: int, reserve: nat)
  {
    if t == [] || (len > 0 && t[|t| - 1].state.timestamp < cutoff) then n == |t|
    else Enough(chunks, current, len, n, cutoff, reserve)
  }

  // Removes whole chunks that end before the cutoff.
  method PruneChunks(a: AircraftTrace, cutoff: int) returns (ghost removed: nat, ghost c: nat)
    requires a.Valid()
    modifies a`traceChunks, a`traceChunkLen, a`traceLen, a`traceChunkOverallBytes
    ensures a.Valid() && a.Buffered() == old(a.Buffered())
    ensures FrontRecent(a.traceChunks, cutoff) && a.traceCurrentLen == old(a.traceCurrentLen) && a.Current() == old(a.Current())
    ensures c <= |old(a.traceChunks)| && a.traceChunks == old(a.traceChunks)[c..]
    ensures removed == StatesIn(old(a.traceChunks)[..c]) && a.traceLen == old(a.traceLen) - removed
    ensures removed <= |old(a.Trace())| && a.Trace() == old(a.Trace())[removed..]
    ensures Sorted(old(a.Trace())) ==> Pruned(old(a.Trace()), a.Trace(), removed, cutoff)
  {
    hide Settings.Valid, Codec.Lawful, ChunkOk, Unpacked, StatesIn, BytesIn, Points, PointAt, AllPoints;
    ghost var chunks, len, bytes := a.traceChunks, a.traceLen, a.traceChunkOverallBytes;
    var deletedChunks := 0;
    NothingPacked(a.cfg.codec);
    assert chunks[..0] == [];
    while deletedChunks < a.traceChunkLen
      invariant deletedChunks <= |chunks| && a.traceChunks == chunks && a.traceChunkLen == |chunks|
      invariant a.traceLen == len - StatesIn(chunks[..deletedChunks])
      invariant a.traceChunkOverallBytes == bytes - BytesIn(chunks[..deletedChunks])
      invariant deletedChunks > 0 ==> chunks[deletedChunks - 1].lastTimestamp < cutoff
    {
      var chunk := a.traceChunks[deletedChunks];
      if chunk.lastTimestamp >= cutoff {
        break;
      }
      ChunkDropped(a.cfg.codec, chunks, deletedChunks);
      deletedChunks := deletedChunks + 1;
      a.traceLen := a.traceLen - chunk.numStates;
      a.traceChunkOverallBytes := a.traceChunkOverallBytes - chunk.compressedSize;
    }
    FrontDropped(a.cfg.codec, chunks, deletedChunks, a.Current(), a.traceCurrentLen, cutoff);
    removed, c := StatesIn(chunks[..deletedChunks]), deletedChunks;
    if deletedChunks > 0 {
      var _ := a.ResizeTraceChunks(a.traceChunkLen - deletedChunks);
    }
  }

  lemma ChunkDropped(c: Codec, chunks: seq<StateChunk>, k: nat)
    requires ChunksOk(c, chunks) && k < |chunks|
    ensures StatesIn(chunks[..k + 1]) == StatesIn(chunks[..k]) + chunks[k].numStates <= StatesIn(chunks)
    ensures BytesIn(chunks[..k + 1]) == BytesIn(chunks[..k]) + chunks[k].compressedSize
  {
    hide *;
    assert chunks[..k + 1] == chunks[..k] + [chunks[k]];
    UnpackedSnoc(c, chunks[..k], chunks[k]);
    UnpackedSplit(c, chunks, k + 1);
  }

  // The points without those of the first k chunks.
  lemma FrontSplit(c: Codec, chunks: seq<StateChunk>, k: nat, current: seq<FourState>, n: nat)
    requires ChunksOk(c, chunks) && k <= |chunks| && n <= SFOUR * |current|
    ensures ChunksOk(c, chunks[k..])
    ensures StatesIn(chunks[k..]) == StatesIn(chunks) - StatesIn(chunks[..k])
    ensures BytesIn(chunks[k..]) == BytesIn(chunks) - BytesIn(chunks[..k])
    ensures var t := AllPoints(Unpacked(c, chunks)) + Points(current, n);
            var m := StatesIn(chunks[..k]);
            && |t| == StatesIn(chunks) + n && m <= |t|
            && AllPoints(Unpacked(c, chunks[k..])) + Points(current, n) == t[m..]
  {
    var u, v := Unpacked(c, chunks[..k]), Unpacked(c, chunks[k..]);
    UnpackedSplit(c, chunks, k);
    UnpackedLength(c, chunks);
    UnpackedLength(c, chunks[..k]);
    AllPointsJoin(u, v);
    AllPointsJoin(u + v, []);
    hide Unpacked, StatesIn, BytesIn, ChunkOk, Points, AllPoints;
    DropFirst(AllPoints(u), AllPoints(v), Points(current, n));
  }

  lemma FrontDropped(c: Codec, chunks: seq<StateChunk>, k: nat, current: seq<FourState>, n: nat, cutoff: int)
    requires ChunksOk(c, chunks) && k <= |chunks| && n <= SFOUR * |current|
    requires k > 0 ==> chunks[k - 1].lastTimestamp < cutoff
    ensures ChunksOk(c, chunks[k..])
    ensures StatesIn(chunks[k..]) == StatesIn(chunks) - StatesIn(chunks[..k])
    ensures BytesIn(chunks[k..]) == BytesIn(chunks) - BytesIn(chunks[..k])
    ensures var t := AllPoints(Unpacked(c, chunks)) + Points(current, n);
            var kept := AllPoints(Unpacked(c, chunks[k..])) + Points(current, n);
            var m := StatesIn(chunks[..k]);
            m <= |t| && kept == t[m..] && (Sorted(t) ==> Pruned(t, kept, m, cutoff))
  {
    FrontSplit(c, chunks, k, current, n);
    NothingPacked(c);
    hide Unpacked, StatesIn, BytesIn, ChunkOk, Points, AllPoints, Sorted, Pruned;
    if k > 0 {
      LastDropped(c, chunks, k, cutoff);
    }
    assert k == 0 ==> chunks[..k] == [];
    PrunedFront(AllPoints(Unpacked(c, chunks)) + Points(current, n), StatesIn(chunks[..k]), cutoff);
  }

  lemma AllPointsJoin(u: seq<FourState>, v: seq<FourState>)
    ensures AllPoints(u + v) == AllPoints(u) + AllPoints(v) && |AllPoints(u)| == SFOUR * |u|
  {
    PointsJoin(u, v, SFOUR * |v|);
  }

  lemma DropFirst<T>(a: seq<T>, b: seq<T>, c: seq<T>)
    ensures ((a + b) + c)[|a|..] == b + c
  {
  }

  lemma LastDropped(c: Codec, chunks: seq<StateChunk>, k: nat, cutoff: int)
    requires ChunksOk(c, chunks) && 0 < k <= |chunks| && chunks[k - 1].lastTimestamp < cutoff
    ensures var m := StatesIn(chunks[..k]);
            0 < m <= |AllPoints(Unpacked(c, chunks))| && AllPoints(Unpacked(c, chunks))[m - 1].state.timestamp < cutoff
  {
    hide Unpacked, StatesIn, ChunksOk, Points, AllPoints;
    ChunkBounds(c, chunks, k - 1);
    AllPointsAt(Unpacked(c, chunks), StatesIn(chunks[..k]) - 1);
  }

  lemma PrunedFront(t: seq<Point>, m: nat, cutoff: int)
    requires m <= |t| && (m > 0 ==> t[m - 1].state.timestamp < cutoff)
    ensures Sorted(t) ==> Pruned(t, t[m..], m, cutoff)
  {
    if Sorted(t) {
      OldPrefix(t, m, cutoff);
    }
  }

  lemma AllPointsAt(g: seq<FourState>, i: nat)
    requires i < SFOUR * |g|
    ensures |AllPoints(g)| == SFOUR * |g| && AllPoints(g)[i] == PointAt(g, i)
  {
  }

  // Removes whole groups of current points that end before the cutoff, if they are many.
  method PruneCurrent(a: AircraftTrace, cutoff: int) returns (ghost removed: nat)
    requires a.Valid()
    modifies a`traceCurrentLen, a`traceLen, a.traceCurrent
    ensures a.Valid() && a.Buffered() == old(a.Buffered()) && a.traceLen == old(a.traceLen) - removed
    ensures Sorted(old(a.Trace())) && FrontRecent(a.traceChunks, cutoff) ==> Pruned(old(a.Trace()), a.Trace(), removed, cutoff)
    ensures a.traceCurrentLen <= old(a.traceCurrentLen)
    ensures FewLeft(old(a.Current()), old(a.traceCurrentLen), removed, cutoff, a.cfg.reserve)
  {
    hide Codec.Lawful, ChunksOk, ChunkOk, Unpacked, StatesIn, BytesIn, Points, PointAt, Pruned, Sorted, FrontRecent;
    removed := 0;
    ghost var t := a.Trace();
    PrunedFront(t, 0, cutoff);
    assert t[0..] == t;
    var deleteFs := CountOld(a, cutoff);
    RecentNext(a.Current(), a.traceCurrentLen, deleteFs, cutoff, a.cfg.reserve);
    hide FewLeft;
    if deleteFs * SFOUR >= a.cfg.reserve {
      removed := SFOUR * deleteFs;
      CurrentDropped(a.cfg.codec, a.traceChunks, a.Current(), a.traceCurrentLen, deleteFs, cutoff);
      DropGroups(a, deleteFs);
    }
  }

  // The number of whole groups at the front that end before the cutoff.
  method CountOld(a: AircraftTrace, cutoff: int) returns (deleteFs: nat)
    requires a.Valid()
    ensures SFOUR * deleteFs <= a.traceCurrentLen <= SFOUR * |a.Current()|
    ensures deleteFs > 0 ==> a.Current()[deleteFs - 1].Last().timestamp < cutoff
    ensures SFOUR * (deleteFs + 1) <= a.traceCurrentLen ==> a.Current()[deleteFs].Last().timestamp >= cutoff
  {
    hide Codec.Lawful, ChunksOk, Unpacked, StatesIn, BytesIn;
    deleteFs := 0;
    while deleteFs < a.traceCurrentLen / SFOUR
      invariant deleteFs <= a.traceCurrentLen / SFOUR
      invariant deleteFs > 0 ==> a.traceCurrent[deleteFs - 1].Last().timestamp < cutoff
    {
      if a.traceCurrent[deleteFs].Last().timestamp >= cutoff {
        break;
      }
      deleteFs := deleteFs + 1;
    }
  }

  // Having counted the old groups, it is right to drop them and, if they are few, to keep them.
  lemma RecentNext(current: seq<FourState>, len: nat, k: nat, cutoff: int, reserve: nat)
    requires SFOUR * k <= len <= SFOUR * |current| && reserve > 0
    requires SFOUR * (k + 1) <= len ==> current[k].Last().timestamp >= cutoff
    ensures FewLeft(current, len, SFOUR * k, cutoff, reserve)
    ensures SFOUR * k < reserve ==> FewLeft(current, len, 0, cutoff, reserve)
  {
    if SFOUR * (k + 1) <= len {
      assert k < len / SFOUR && current[k..][0] == current[0..][k] == current[k];
    }
  }

  // Drops current groups from the front; the buffered point moves along.
  method DropGroups(a: AircraftTrace, k: nat)
    requires a.Valid() && a.traceCurrent != null && SFOUR * k <= a.traceCurrentLen
    modifies a`traceCurrentLen, a`traceLen, a.traceCurrent
    ensures a.Valid() && a.Buffered() == old(a.Buffered())
    ensures a.Trace() == AllPoints(a.Chunked()) + Points(old(a.Current())[k..], old(a.traceCurrentLen) - SFOUR * k)
    ensures a.traceCurrentLen == old(a.traceCurrentLen) - SFOUR * k && a.traceLen == old(a.traceLen) - SFOUR * k
  {
    hide Settings.Valid, Codec.Lawful, ChunksOk, Unpacked, StatesIn, BytesIn, Points, PointAt, AllPoints, GetFourStates;
    ghost var before, len := a.Current(), a.traceCurrentLen;
    GroupsDropped(len, SFOUR * k);
    a.traceCurrentLen := a.traceCurrentLen - SFOUR * k;
    a.traceLen := a.traceLen - SFOUR * k;
    MoveToFront(a.traceCurrent, k, GetFourStates(a.traceCurrentLen + 1));
    GroupsMoved(before, a.Current(), k, len);
  }

  // The current part of the argument that the groups dropped are all old.
  lemma CurrentDropped(c: Codec, chunks: seq<StateChunk>, current: seq<FourState>, len: nat, k: nat, cutoff: int)
    requires ChunksOk(c, chunks) && 0 < k && SFOUR * k <= len <= SFOUR * |current|
    requires current[k - 1].Last().timestamp < cutoff
    ensures var u := Unpacked(c, chunks);
            var t := AllPoints(u) + Points(current, len);
            Sorted(t) && FrontRecent(chunks, cutoff) ==>
              Pruned(t, AllPoints(u) + Points(current[k..], len - SFOUR * k), SFOUR * k, cutoff)
  {
    hide Unpacked, StatesIn, ChunksOk, Points, AllPoints, Sorted, Pruned;
    var u := Unpacked(c, chunks);
    var t := AllPoints(u) + Points(current, len);
    LastOfGroup(current, len, k);
    if chunks != [] {
      if FrontRecent(chunks, cutoff) {
        FirstChunkEnd(c, chunks);
        OutOfOrder(t, StatesIn(chunks[..1]) - 1, |AllPoints(u)| + SFOUR * k - 1);
      }
    } else {
      NothingPacked(c);
      PointsSplit(current, k, len);
      EmptyPoints();
      assert t == Points(current, len);
      assert t[SFOUR * k..] == Points(current[k..], len - SFOUR * k) == [] + Points(current[k..], len - SFOUR * k);
      PrunedFront(t, SFOUR * k, cutoff);
    }
  }

  lemma EmptyPoints()
    ensures AllPoints([]) == []
  {
  }

  lemma OutOfOrder(t: seq<Point>, i: nat, j: nat)
    requires i < j < |t| && t[i].state.timestamp > t[j].state.timestamp
    ensures !Sorted(t)
  {
  }

  lemma LastOfGroup(g: seq<FourState>, n: nat, k: nat)
    requires 0 < k && SFOUR * k <= n <= SFOUR * |g|
    ensures Points(g, n)[SFOUR * k - 1].state == g[k - 1].Last()
  {
    assert (SFOUR * k - 1) / SFOUR == k - 1 && (SFOUR * k - 1) % SFOUR == 3;
  }

  lemma FirstChunkEnd(c: Codec, chunks: seq<StateChunk>)
    requires ChunksOk(c, chunks) && chunks != []
    ensures var n := StatesIn(chunks[..1]);
            0 < n <= |AllPoints(Unpacked(c, chunks))|
            && AllPoints(Unpacked(c, chunks))[n - 1].state.timestamp == chunks[0].lastTimestamp
  {
    ChunkBounds(c, chunks, 0);
    hide Unpacked, StatesIn, ChunksOk;
    AllPointsAt(Unpacked(c, chunks), StatesIn(chunks[..1]) - 1);
  }

  // Removes what is older than the retention time: no committed point at or after the cutoff goes,
  // and the buffered point stays unless the whole trace is given up.
  method TracePrune(a: AircraftTrace, now: int) returns (ghost removed: nat)
    requires a.Valid()
    modifies a, a.traceCurrent
    ensures a.Valid() && (a.Buffered() == old(a.Buffered()) || (a.Trace() == [] && a.Buffered() == []))
    ensures var t := old(a.Trace());
            t == [] || t[|t| - 1].state.timestamp < now - a.cfg.keepTraces || a.Buffered() == old(a.Buffered())
    ensures a.traceCurrent == old(a.traceCurrent) || a.traceCurrent == null
    ensures a.traceLen == old(a.traceLen) - removed && a.traceCurrentLen <= old(a.traceCurrentLen)
    ensures PrunedEnough(old(a.Trace()), old(a.traceChunks), old(a.Current()), old(a.traceCurrentLen), removed,
                         now - a.cfg.keepTraces, a.cfg.reserve)
    ensures Sorted(old(a.Trace())) ==> Pruned(old(a.Trace()), a.Trace(), removed, now - a.cfg.keepTraces)
  {
    hide AircraftTrace.Valid, AircraftTrace.Trace, AircraftTrace.Buffered, FrontRecent, FewLeft, StatesIn, Sorted, Pruned, Settings.Valid;
    var keepAfter := now - a.cfg.keepTraces;
    ghost var t := a.Trace();
    removed := |t|;
    a.TraceLength();
    assert t[|t|..] == [];
    var stale := LastIsOld(a, keepAfter);
    if a.traceLen <= 0 || stale {
      PrunedFront(t, |t|, keepAfter);
      TraceCleanup(a);
      return;
    }
    ghost var chunks, current, len := a.traceChunks, a.Current(), a.traceCurrentLen;
    ghost var r1, c := PruneChunks(a, keepAfter);
    ghost var t1 := a.Trace();
    ghost var r2 := PruneCurrent(a, keepAfter);
    removed := r1 + r2;
    PrunedTwice(t, t1, a.Trace(), r1, r2, keepAfter);
    assert Enough(chunks, current, len, removed, keepAfter, a.cfg.reserve);
  }

  method LastIsOld(a: AircraftTrace, cutoff: int) returns (stale: bool)
    requires a.Valid()
    ensures stale <==> a.traceCurrentLen > 0 && a.Trace() != [] && a.Trace()[|a.Trace()| - 1].state.timestamp < cutoff
  {
    hide Settings.Valid, Codec.Lawful, ChunksOk, ChunkOk, Unpacked, StatesIn, BytesIn;
    stale := false;
    if a.traceCurrentLen > 0 {
      var n := a.traceCurrentLen - 1;
      assert a.Trace()[|a.Trace()| - 1] == PointAt(a.Current(), n);
      stale := a.traceCurrent[n / SFOUR].No(n % SFOUR).timestamp < cutoff;
    }
  }

  lemma PrunedTwice(t: seq<Point>, t1: seq<Point>, t2: seq<Point>, m: nat, n: nat, cutoff: int)
    ensures Sorted(t) && Pruned(t, t1, m, cutoff) ==> Sorted(t1)
    ensures Pruned(t, t1, m, cutoff) && Pruned(t1, t2, n, cutoff) ==> Pruned(t, t2, m + n, cutoff)
  {
    if Pruned(t, t1, m, cutoff) && Pruned(t1, t2, n, cutoff) {
      assert t[m..][n..] == t[m + n..];
      forall i | 0 <= i < m + n ensures t[i].state.timestamp < cutoff {
        if i < m { assert t[..m][i] == t[i]; } else { assert t1[..n][i - m] == t[i]; }
      }
    }
  }
}
