// The chunked store behind an aircraft's trace.
module TraceStore {
  import opened TraceModel
  import opened TraceScratch

  const MINUTES: int := 60000
  const CHUNK_DURATION: int := 120 * MINUTES

  // Configuration; sizes are whole groups.
  datatype Settings = Settings(keepTraces: int, reserve: nat, chunkPoints: nat, chunkMaxBytes: nat, codec: Codec,
                               memory: Memory)
  {
    ghost predicate Valid() {
      && codec.Lawful() && memory.Lawful()
      && reserve >= 16 && reserve % SFOUR == 0 && chunkPoints >= SFOUR && chunkPoints % SFOUR == 0
    }
  }

  function MinCurrentPoints(): nat {
    AlignSFOUR(8)
  }

  ghost function AllPoints(g: seq<FourState>): seq<Point> {
    Points(g, SFOUR * |g|)
  }

  // Copies n groups to the front.
  method MoveToFront(t: array<FourState>, from: nat, n: nat)
    requires from + n <= t.Length
    modifies t
    ensures t[..][..n] == old(t[..])[from..from + n]
  {
    forall i | 0 <= i < n {
      t[i] := t[from + i];
    }
  }

  // How many of the points offered may extend the last chunk: whole groups that end within the
  // chunk duration, if the chunk is zstd, not too big yet, and enough points are gained.
  function Extension(last: StateChunk, source: seq<FourState>, cfg: Settings): nat {
    var extending := SFOUR * WithinDuration(last.firstTimestamp, source);
    if last.compressedSize > cfg.chunkMaxBytes || !cfg.codec.isZstd(last.compressed) || extending < cfg.chunkPoints / 4 then 0
    else extending
  }

  function WithinDuration(first: int, source: seq<FourState>): (k: nat)
    ensures k <= |source|
  {
    if source == [] || source[0].Last().timestamp - first > CHUNK_DURATION then 0
    else 1 + WithinDuration(first, source[1..])
  }

  // The longest run of groups from the front that end within the chunk duration.
  lemma {:induction false} WithinDurationIs(first: int, source: seq<FourState>)
    ensures var k := WithinDuration(first, source);
            && (forall i :: 0 <= i < k ==> source[i].Last().timestamp - first <= CHUNK_DURATION)
            && (k < |source| ==> source[k].Last().timestamp - first > CHUNK_DURATION)
  {
    if source != [] && source[0].Last().timestamp - first <= CHUNK_DURATION {
      WithinDurationIs(first, source[1..]);
    }
  }

  // A chunk is extended by all groups that end within its duration, unless it is not zstd or too big already, or too
  // few points would be gained.
  lemma ExtensionIs(last: StateChunk, source: seq<FourState>, cfg: Settings)
    ensures var e := Extension(last, source, cfg);
            && e % SFOUR == 0 && e <= SFOUR * |source|
            && (forall i :: 0 <= i < e / SFOUR ==> source[i].Last().timestamp - last.firstTimestamp <= CHUNK_DURATION)
            && (0 < e < SFOUR * |source| ==> source[e / SFOUR].Last().timestamp - last.firstTimestamp > CHUNK_DURATION)
            && (e > 0 ==> last.compressedSize <= cfg.chunkMaxBytes && cfg.codec.isZstd(last.compressed) && e >= cfg.chunkPoints / 4)
    ensures Extension(last, source, cfg) == 0 && last.compressedSize <= cfg.chunkMaxBytes && cfg.codec.isZstd(last.compressed) ==>
              || source == [] || SFOUR * |source| < cfg.chunkPoints / 4
              || (exists k :: 0 <= k < |source| && (k == 0 || SFOUR * k < cfg.chunkPoints / 4)
                              && source[k].Last().timestamp - last.firstTimestamp > CHUNK_DURATION)
  {
    hide WithinDuration;
    WithinDurationIs(last.firstTimestamp, source);
  }

  // How many of the points offered are compressed: those that extend the last chunk, otherwise all.
  function Accepted(chunks: seq<StateChunk>, offered: seq<FourState>, cfg: Settings): nat {
    if Extends(chunks, offered, cfg) then Extension(chunks[|chunks| - 1], offered, cfg) else SFOUR * |offered|
  }

  // Either all points offered, or enough to be worth it.
  lemma AcceptedEnough(chunks: seq<StateChunk>, offered: seq<FourState>, cfg: Settings)
    ensures Accepted(chunks, offered, cfg) == SFOUR * |offered| || Accepted(chunks, offered, cfg) >= cfg.chunkPoints / 4
  {
    hide WithinDuration;
  }

  predicate Extends(chunks: seq<StateChunk>, offered: seq<FourState>, cfg: Settings) {
    chunks != [] && Extension(chunks[|chunks| - 1], offered, cfg) > 0
  }

  // The buffer that compressing them takes: the frames of the chunk that is extended, and the new one.
  function Need(chunks: seq<StateChunk>, offered: seq<FourState>, cfg: Settings): nat {
    cfg.memory.bound(cfg.memory.Bytes(Accepted(chunks, offered, cfg) / SFOUR))
    + if Extends(chunks, offered, cfg) then chunks[|chunks| - 1].compressedSize else 0
  }

  // The chunks with groups appended to the last of them or as a new one.
  function Longer(chunks: seq<StateChunk>, joins: bool, g: seq<FourState>, cfg: Settings): (longer: seq<StateChunk>)
    ensures |longer| > 0 || g == []
  {
    if g == [] then chunks
    else if joins && chunks != [] then chunks[|chunks| - 1 := ExtendedChunk(cfg, chunks[|chunks| - 1], g)]
    else chunks + [NewChunk(cfg, g)]
  }

  lemma LawfulMemory(cfg: Settings)
    requires cfg.Valid()
    ensures cfg.memory.Lawful()
  {
  }

  // The chunk that holds the points of g.
  function NewChunk(cfg: Settings, g: seq<FourState>): StateChunk
    requires |g| > 0
  {
    var blob := Compress(cfg.codec, g);
    StateChunk(blob, |blob|, SFOUR * |g|, g[0].no0.timestamp, g[|g| - 1].Last().timestamp)
  }

  function ExtendedChunk(cfg: Settings, chunk: StateChunk, g: seq<FourState>): StateChunk
    requires |g| > 0
  {
    var blob := chunk.compressed + Compress(cfg.codec, g);
    StateChunk(blob, |blob|, chunk.numStates + SFOUR * |g|, chunk.firstTimestamp, g[|g| - 1].Last().timestamp)
  }

  lemma NewChunkOk(cfg: Settings, g: seq<FourState>)
    requires cfg.Valid() && |g| > 0
    ensures ChunkOk(cfg.codec, NewChunk(cfg, g)) && Decompress(cfg.codec, NewChunk(cfg, g).compressed) == g
  {
    CompressedFrame(cfg.codec, g);
    hide Codec.Lawful, Compress, Decompress;
  }

  lemma ExtendedChunkOk(cfg: Settings, chunk: StateChunk, g: seq<FourState>)
    requires cfg.Valid() && |g| > 0 && ChunkOk(cfg.codec, chunk) && cfg.codec.isZstd(chunk.compressed)
    ensures ChunkOk(cfg.codec, ExtendedChunk(cfg, chunk, g))
    ensures Decompress(cfg.codec, ExtendedChunk(cfg, chunk, g).compressed) == Decompress(cfg.codec, chunk.compressed) + g
  {
    hide Codec.Lawful, Compress, Decompress;
    var f := Decompress(cfg.codec, chunk.compressed);
    FrameAppended(cfg.codec, chunk.compressed, g);
    assert (f + g)[0] == f[0];
    assert (f + g)[|f + g| - 1] == g[|g| - 1];
  }

  lemma LastExtended(cfg: Settings, chunks: seq<StateChunk>, g: seq<FourState>)
    requires cfg.Valid() && ChunksOk(cfg.codec, chunks) && |chunks| > 0 && |g| > 0
    requires cfg.codec.isZstd(chunks[|chunks| - 1].compressed)
    ensures var n := |chunks| - 1;
            var longer := chunks[n := ExtendedChunk(cfg, chunks[n], g)];
            && chunks[n].compressedSize == |chunks[n].compressed|
            && ChunksOk(cfg.codec, longer) && Unpacked(cfg.codec, longer) == Unpacked(cfg.codec, chunks) + g
            && StatesIn(longer) == StatesIn(chunks) + SFOUR * |g|
            && BytesIn(longer) == BytesIn(chunks) - chunks[n].compressedSize + ExtendedChunk(cfg, chunks[n], g).compressedSize
  {
    var n := |chunks| - 1;
    var most, target := chunks[..n], ExtendedChunk(cfg, chunks[n], g);
    ExtendedChunkOk(cfg, chunks[n], g);
    assert target.numStates == chunks[n].numStates + SFOUR * |g|;
    hide Codec.Lawful, ChunkOk, Unpacked, StatesIn, BytesIn, ExtendedChunk, Decompress;
    assert chunks == most + [chunks[n]] && chunks[n := target] == most + [target];
    UnpackedSnoc(cfg.codec, most, chunks[n]);
    UnpackedSnoc(cfg.codec, most, target);
    JoinAssoc(Unpacked(cfg.codec, most), Decompress(cfg.codec, chunks[n].compressed), g);
  }

  lemma ChunkAdded(cfg: Settings, chunks: seq<StateChunk>, g: seq<FourState>)
    requires cfg.Valid() && ChunksOk(cfg.codec, chunks) && |g| > 0
    ensures var longer := chunks + [NewChunk(cfg, g)];
            && ChunksOk(cfg.codec, longer) && Unpacked(cfg.codec, longer) == Unpacked(cfg.codec, chunks) + g
            && StatesIn(longer) == StatesIn(chunks) + SFOUR * |g|
            && BytesIn(longer) == BytesIn(chunks) + NewChunk(cfg, g).compressedSize
  {
    NewChunkOk(cfg, g);
    UnpackedSnoc(cfg.codec, chunks, NewChunk(cfg, g));
  }

  // Moving groups to the front drops the points before them and keeps the slot after the last.
  lemma GroupsMoved(before: seq<FourState>, after: seq<FourState>, k: nat, len: nat)
    requires SFOUR * k <= len < SFOUR * |before| && |after| == |before|
    requires var n := GetFourStates(len + 1) - k; after[..n] == before[k..k + n]
    ensures Points(after, len - SFOUR * k) == Points(before[k..], len - SFOUR * k)
    ensures PointAt(after, len - SFOUR * k) == PointAt(before, len)
  {
    hide GetState, Points, PointAt;
    var rest, m := before[k..], len - SFOUR * k;
    assert rest[..GetFourStates(len + 1) - k] == before[k..k + (GetFourStates(len + 1) - k)];
    PointsAgree(after, rest, m + 1);
    PointsPrefix(after, rest, m);
    LastPoint(after, m);
    LastPoint(rest, m);
    JoinedAt(before[..k], rest, len);
    assert before[..k] + rest == before;
  }

  // Moving k groups from the current points to the chunks keeps the trace and the slot after it.
  lemma PointsMoved(u: seq<FourState>, before: seq<FourState>, after: seq<FourState>, k: nat, len: nat)
    requires SFOUR * k <= len < SFOUR * |before| && |after| == |before|
    requires var n := GetFourStates(len + 1) - k; after[..n] == before[k..k + n]
    ensures AllPoints(u + before[..k]) + Points(after, len - SFOUR * k) == AllPoints(u) + Points(before, len)
    ensures PointAt(after, len - SFOUR * k) == PointAt(before, len)
  {
    GroupsMoved(before, after, k, len);
    PointsJoin(u, before[..k], SFOUR * k);
    PointsSplit(before, k, len);
    hide Points, PointAt, GetFourStates;
    JoinAssoc(AllPoints(u), Points(before[..k], SFOUR * k), Points(before[k..], len - SFOUR * k));
  }

  lemma LastPoint(g: seq<FourState>, n: nat)
    requires n < SFOUR * |g|
    ensures Points(g, n + 1)[n] == PointAt(g, n)
  {
  }

  lemma PointsPrefix(g: seq<FourState>, h: seq<FourState>, n: nat)
    requires n < SFOUR * |g| && n < SFOUR * |h| && Points(g, n + 1) == Points(h, n + 1)
    ensures Points(g, n) == Points(h, n)
  {
    assert Points(g, n) == Points(g, n + 1)[..n];
    assert Points(h, n) == Points(h, n + 1)[..n];
  }

  class AircraftTrace {
    const cfg: Settings
    var traceChunks: seq<StateChunk>
    var traceChunkLen: nat
    var traceChunkOverallBytes: int
    var traceCurrent: array?<FourState>
    var traceCurrentMax: nat
    var traceCurrentLen: nat
    var traceLen: nat
    var tracePosBuffered: bool
    var seenPosReliable: int

    ghost predicate ChunksValid()
      reads this
    {
      && cfg.Valid() && traceChunkLen == |traceChunks|
      && ChunksOk(cfg.codec, traceChunks) && traceChunkOverallBytes == BytesIn(traceChunks)
    }

    // A free slot always remains past the buffered point.
    ghost predicate Valid()
      reads this, traceCurrent
    {
      && ChunksValid() && traceLen == StatesIn(traceChunks) + traceCurrentLen
      && (traceCurrent == null ==> traceCurrentMax == 0 && traceCurrentLen == 0 && !tracePosBuffered)
      && (traceCurrent != null ==>
        && traceCurrentMax == SFOUR * traceCurrent.Length && traceCurrentLen + 2 <= traceCurrentMax
        && (tracePosBuffered ==> traceCurrentLen + 3 <= traceCurrentMax))
    }

    ghost function Chunked(): seq<FourState>
      reads this
    {
      Unpacked(cfg.codec, traceChunks)
    }

    ghost function Current(): seq<FourState>
      reads this, traceCurrent
    {
      if traceCurrent == null then [] else traceCurrent[..]
    }

    // The trace the store stands for, and the point buffered after it.
    ghost function Trace(): seq<Point>
      requires Valid()
      reads this, traceCurrent
    {
      AllPoints(Chunked()) + Points(Current(), traceCurrentLen)
    }

    ghost function Buffered(): seq<Point>
      requires Valid()
      reads this, traceCurrent
    {
      if tracePosBuffered then [PointAt(Current(), traceCurrentLen)] else []
    }

    constructor (cfg: Settings, seen: int)
      requires cfg.Valid()
      ensures Valid() && Trace() == [] && Buffered() == [] && this.cfg == cfg && traceCurrent == null
    {
      this.cfg := cfg;
      seenPosReliable := seen;
      traceChunks, traceChunkLen, traceChunkOverallBytes := [], 0, 0;
      traceCurrent, traceCurrentMax, traceCurrentLen, traceLen, tracePosBuffered := null, 0, 0, 0, false;
    }

    // The number of points is kept along.
    lemma TraceLength()
      requires Valid()
      ensures |Trace()| == traceLen >= traceCurrentLen && cfg.Valid()
    {
      UnpackedLength(cfg.codec, traceChunks);
    }

    // Appends the buffered point, if there is one.
    method TraceUsePosBuffered() returns (used: bool)
      requires Valid()
      modifies this
      ensures Valid() && used == old(tracePosBuffered) && Buffered() == []
      ensures Trace() == old(Trace()) + old(Buffered()) && Chunked() == old(Chunked()) && Current() == old(Current())
      ensures traceCurrent == old(traceCurrent) && !tracePosBuffered && traceCurrentMax == old(traceCurrentMax)
      ensures var n := if used then 1 else 0;
              traceLen == old(traceLen) + n && traceCurrentLen == old(traceCurrentLen) + n
    {
      hide Codec.Lawful, Compress, Decompress, ChunksOk, Unpacked, StatesIn, BytesIn, AllPoints;
      used := tracePosBuffered;
      if tracePosBuffered {
        tracePosBuffered := false;
        traceLen := traceLen + 1;
        traceCurrentLen := traceCurrentLen + 1;
      }
    }

    // Drops chunks from the front or makes room for one at the end; tells whether there is room.
    method ResizeTraceChunks(newLen: nat) returns (room: bool)
      requires traceChunkLen == |traceChunks|
      modifies `traceChunks, `traceChunkLen
      ensures traceChunkLen == newLen == |traceChunks|
      ensures newLen <= |old(traceChunks)| ==> traceChunks == old(traceChunks)[|old(traceChunks)| - newLen..] && !room
      ensures newLen > |old(traceChunks)| ==>
                room && traceChunks[..|old(traceChunks)|] == old(traceChunks)
                && forall k :: |old(traceChunks)| <= k < newLen ==> traceChunks[k] == ZERO_CHUNK
    {
      var oldLen := traceChunkLen;
      traceChunkLen := newLen;
      if newLen == 0 {
        traceChunks := [];
        return false;
      }
      if oldLen > newLen {
        traceChunks := traceChunks[oldLen - newLen..];
      } else {
        traceChunks := traceChunks + seq(newLen - oldLen, _ => ZERO_CHUNK);
      }
      room := newLen > oldLen;
    }

    // Compresses some of the points offered, a nonzero number of whole groups, onto the chunks, by way
    // of the scratch buffer; data is what was there to be compressed.
    method CompressChunk(source: array<FourState>, p: nat, pointCount: nat, buf: Scratch)
      returns (done: nat, ghost data: seq<FourState>)
      requires ChunksValid() && SFOUR * p + pointCount <= SFOUR * source.Length
      modifies `traceChunks, `traceChunkLen, `traceChunkOverallBytes, buf, buf.lent
      ensures ChunksValid()
      ensures done % SFOUR == 0 && done <= pointCount && (done == 0 <==> pointCount < SFOUR || pointCount % SFOUR != 0)
      ensures |data| == done / SFOUR && Chunked() == old(Chunked()) + data
      ensures StatesIn(traceChunks) == old(StatesIn(traceChunks)) + done
      ensures done == 0 ==> buf.lent == old(buf.lent)
      ensures done > 0 ==>
                var offered := old(source[p..p + pointCount / SFOUR]);
                && done == Accepted(old(traceChunks), offered, cfg)
                && traceChunks == Longer(old(traceChunks), Extends(old(traceChunks), offered, cfg), data, cfg)
                && buf.capacity == Grown(old(buf.capacity), Need(old(traceChunks), offered, cfg))
                && buf.lent == (if old(buf.capacity) < Need(old(traceChunks), offered, cfg) then null else old(buf.lent))
      ensures old(buf.lent) != source || buf.lent == source ==> data == old(source[p..p + done / SFOUR])
      ensures done > 0 && buf.lent != null ==>
                buf.lent[..] == cfg.memory.cover(traceChunks[|traceChunks| - 1].compressed, old(buf.lent[..]))
    {
      hide Settings.Valid, ChunksOk, Unpacked, StatesIn, BytesIn, Extension, Longer, Memory.Spared;
      if pointCount < SFOUR || pointCount % SFOUR != 0 {
        return 0, [];
      }
      var joins, need;
      joins, done, need := Measure(source, p, pointCount);
      buf.Grow(cfg.memory, need);
      var groups := source[p..p + done / SFOUR];
      data := groups;
      Commit(joins, groups);
      LawfulMemory(cfg);
      buf.Write(cfg.memory, traceChunks[traceChunkLen - 1].compressed);
    }

    // How much to compress, where, and what buffer it takes.
    method Measure(source: array<FourState>, p: nat, pointCount: nat) returns (joins: bool, done: nat, need: nat)
      requires ChunksValid() && SFOUR * p + pointCount <= SFOUR * source.Length
      requires pointCount >= SFOUR && pointCount % SFOUR == 0
      ensures var offered := source[p..p + pointCount / SFOUR];
              && joins == Extends(traceChunks, offered, cfg) && done == Accepted(traceChunks, offered, cfg)
              && need == Need(traceChunks, offered, cfg)
      ensures 0 < done <= pointCount && done % SFOUR == 0
      ensures joins ==> traceChunkLen > 0 && cfg.codec.isZstd(traceChunks[traceChunkLen - 1].compressed)
    {
      hide Settings.Valid, ChunksOk, Unpacked, StatesIn, BytesIn;
      var extending := 0;
      if traceChunkLen > 0 {
        extending := ExtendLast(source, p, pointCount);
      }
      joins := extending > 0;
      done := if joins then extending else pointCount;
      need := cfg.memory.bound(cfg.memory.Bytes(done / SFOUR));
      if joins {
        need := need + traceChunks[traceChunkLen - 1].compressedSize;
      }
    }

    // Appends groups to the last chunk or as a new one.
    method Commit(joins: bool, data: seq<FourState>)
      requires ChunksValid() && |data| > 0
      requires joins ==> traceChunkLen > 0 && cfg.codec.isZstd(traceChunks[traceChunkLen - 1].compressed)
      modifies `traceChunks, `traceChunkLen, `traceChunkOverallBytes
      ensures ChunksValid() && Chunked() == old(Chunked()) + data && traceChunkLen > 0
      ensures StatesIn(traceChunks) == old(StatesIn(traceChunks)) + SFOUR * |data|
      ensures traceChunks == Longer(old(traceChunks), joins, data, cfg)
    {
      hide Settings.Valid, ChunksOk, Unpacked, StatesIn, BytesIn, ExtendedChunk, NewChunk;
      if joins {
        AppendToLast(data);
      } else {
        AppendChunk(data);
      }
    }

    method ExtendLast(source: array<FourState>, p: nat, pointCount: nat) returns (extending: nat)
      requires ChunksValid() && traceChunkLen > 0
      requires pointCount % SFOUR == 0 && SFOUR * p + pointCount <= SFOUR * source.Length
      ensures extending == Extension(traceChunks[traceChunkLen - 1], source[p..p + pointCount / SFOUR], cfg)
    {
      var lastChunk := traceChunks[traceChunkLen - 1];
      ghost var offered := source[p..p + pointCount / SFOUR];
      var k := 0;
      while k < pointCount / SFOUR
        invariant k <= pointCount / SFOUR
        invariant WithinDuration(lastChunk.firstTimestamp, offered) == k + WithinDuration(lastChunk.firstTimestamp, offered[k..])
      {
        var ts2 := source[p + k].Last().timestamp;
        assert offered[k..][0] == source[p + k] && offered[k..][1..] == offered[k + 1..];
        if ts2 - lastChunk.firstTimestamp > CHUNK_DURATION {
          break;
        }
        k := k + 1;
      }
      extending := k * SFOUR;
      if extending > 0 && lastChunk.compressedSize > cfg.chunkMaxBytes {
        extending := 0;
      }
      if extending > 0 && !cfg.codec.isZstd(lastChunk.compressed) {
        extending := 0;
      }
      if extending < cfg.chunkPoints / 4 {
        extending := 0;
      }
    }

    method AppendToLast(data: seq<FourState>)
      requires ChunksValid() && traceChunkLen > 0 && |data| > 0
      requires cfg.codec.isZstd(traceChunks[traceChunkLen - 1].compressed)
      modifies `traceChunks, `traceChunkOverallBytes
      ensures ChunksValid() && Chunked() == old(Chunked()) + data
      ensures traceChunks == old(traceChunks)[traceChunkLen - 1 := ExtendedChunk(cfg, old(traceChunks)[traceChunkLen - 1], data)]
      ensures traceChunkLen == old(traceChunkLen)
      ensures StatesIn(traceChunks) == old(StatesIn(traceChunks)) + SFOUR * |data|
    {
      hide Settings.Valid, Codec.Lawful, Compress, Decompress, ChunksOk, ChunkOk, Unpacked, StatesIn, BytesIn;
      LastExtended(cfg, traceChunks, data);
      var target := traceChunks[traceChunkLen - 1];
      traceChunkOverallBytes := traceChunkOverallBytes - target.compressedSize;
      target := target.(numStates := target.numStates + SFOUR * |data|, lastTimestamp := data[|data| - 1].Last().timestamp);
      var frame := Compress(cfg.codec, data);
      target := target.(compressed := target.compressed + frame, compressedSize := target.compressedSize + |frame|);
      assert target == ExtendedChunk(cfg, traceChunks[traceChunkLen - 1], data);
      traceChunks := traceChunks[traceChunkLen - 1 := target];
      traceChunkOverallBytes := traceChunkOverallBytes + target.compressedSize;
    }

    method AppendChunk(data: seq<FourState>)
      requires ChunksValid() && |data| > 0
      modifies `traceChunks, `traceChunkLen, `traceChunkOverallBytes
      ensures ChunksValid() && Chunked() == old(Chunked()) + data && traceChunks == old(traceChunks) + [NewChunk(cfg, data)]
      ensures StatesIn(traceChunks) == old(StatesIn(traceChunks)) + SFOUR * |data|
    {
      hide Settings.Valid, Codec.Lawful, Compress, Decompress, ChunksOk, ChunkOk, Unpacked, StatesIn, BytesIn;
      ChunkAdded(cfg, traceChunks, data);
      var n := traceChunkLen;
      ghost var most := traceChunks;
      var room := ResizeTraceChunks(n + 1);
      var blob := Compress(cfg.codec, data);
      var target := StateChunk(blob, |blob|, SFOUR * |data|, data[0].no0.timestamp, data[|data| - 1].Last().timestamp);
      traceChunks := traceChunks[n := target];
      traceChunkOverallBytes := traceChunkOverallBytes + target.compressedSize;
      assert traceChunks == most + [target];
    }

    // Heard of within the last hour.
    predicate Active(now: int)
      reads `seenPosReliable
    {
      now - seenPosReliable <= 60 * MINUTES
    }

    method GetNominalTraceCurrentPoints(now: int) returns (points: nat)
      ensures points % SFOUR == 0
      ensures Active(now) ==> points >= cfg.reserve + cfg.chunkPoints
    {
      if now - seenPosReliable > 60 * MINUTES {
        points := AlignSFOUR(cfg.reserve) + MinCurrentPoints() + SFOUR;
      } else {
        points := AlignSFOUR(cfg.reserve + cfg.chunkPoints);
      }
    }

    // Reallocates the uncompressed points with room for some more; the buffered point moves along.
    method ResizeTraceCurrent(now: int)
      requires cfg.Valid()
      requires traceCurrent == null ==> traceCurrentMax == 0
      requires traceCurrent != null ==> traceCurrentMax == SFOUR * traceCurrent.Length && traceCurrentLen + 1 <= traceCurrentMax
      modifies `traceCurrent, `traceCurrentMax
      ensures traceCurrent != null && (traceCurrent == old(traceCurrent) || fresh(traceCurrent))
      ensures traceCurrentMax == SFOUR * traceCurrent.Length && traceCurrentLen + cfg.reserve <= traceCurrentMax
      ensures old(traceCurrent) != null ==>
                var n := GetFourStates(traceCurrentLen + 1);
                n <= |old(Current())| && n <= |Current()| && Current()[..n] == old(Current())[..n]
    {
      hide Codec.Lawful;
      var newPoints := GetNominalTraceCurrentPoints(now);
      var minPoints := AlignSFOUR(traceCurrentLen + cfg.reserve);
      if newPoints < minPoints {
        newPoints := minPoints;
      }
      if newPoints == traceCurrentMax && traceCurrent != null {
        return;
      }
      var larger := new FourState[GetFourStates(newPoints)](_ => ZERO_FOUR);
      if traceCurrent != null {
        var n := GetFourStates(traceCurrentLen + 1);
        forall i | 0 <= i < n {
          larger[i] := traceCurrent[i];
        }
      }
      traceCurrent := larger;
      traceCurrentMax := newPoints;
    }

    // Moves the older uncompressed points to the chunks.
    method CompressCurrent(buf: Scratch)
      requires Valid() && traceCurrent != null && buf.lent == null
      modifies this, traceCurrent, buf
      ensures Valid() && traceCurrent == old(traceCurrent) && buf.lent == null
      ensures Trace() == old(Trace()) && Buffered() == old(Buffered())
      ensures traceCurrentMax == old(traceCurrentMax) && seenPosReliable == old(seenPosReliable)
      ensures if old(traceCurrentLen) < MinCurrentPoints() + SFOUR then traceCurrentLen == old(traceCurrentLen)
              else MinCurrentPoints() <= traceCurrentLen < old(traceCurrentLen)
                   && (traceCurrentLen < MinCurrentPoints() + SFOUR || old(traceCurrentLen) - traceCurrentLen >= cfg.chunkPoints / 4)
    {
      hide Settings.Valid, Codec.Lawful, ChunksOk, Unpacked, StatesIn, BytesIn, Accepted, Extends;
      var keep := MinCurrentPoints();
      if traceCurrentLen < keep + SFOUR {
        return;
      }
      var chunkPoints := (traceCurrentLen - keep) / SFOUR * SFOUR;
      var newLen := traceCurrentLen - chunkPoints;
      if chunkPoints < SFOUR || newLen < keep {
        return;
      }
      AcceptedEnough(traceChunks, traceCurrent[0..0 + chunkPoints / SFOUR], cfg);
      var res, _ := CompressChunk(traceCurrent, 0, chunkPoints, buf);
      DropCompressed(res, old(Chunked()));
    }

    // Forgets the points that have just been compressed.
    method DropCompressed(res: nat, ghost u: seq<FourState>)
      requires ChunksValid() && traceCurrent != null && traceCurrentMax == SFOUR * traceCurrent.Length
      requires res % SFOUR == 0 && res <= traceCurrentLen && traceCurrentLen + 2 <= traceCurrentMax
      requires tracePosBuffered ==> traceCurrentLen + 3 <= traceCurrentMax
      requires traceLen == StatesIn(traceChunks) - res + traceCurrentLen
      requires res / SFOUR <= traceCurrent.Length && Chunked() == u + traceCurrent[..res / SFOUR]
      modifies `traceCurrentLen, traceCurrent
      ensures Valid() && traceCurrent == old(traceCurrent) && traceCurrentLen == old(traceCurrentLen) - res
      ensures var before := old(Current());
              && Trace() == AllPoints(u) + Points(before, old(traceCurrentLen))
              && Buffered() == if tracePosBuffered then [PointAt(before, old(traceCurrentLen))] else []
    {
      hide Settings.Valid, Codec.Lawful, ChunksOk, Unpacked, StatesIn, BytesIn, Points, PointAt, AllPoints, GetFourStates;
      ghost var before, len := Current(), traceCurrentLen;
      GroupsDropped(len, res);
      traceCurrentLen := traceCurrentLen - res;
      MoveToFront(traceCurrent, GetFourStates(res), GetFourStates(traceCurrentLen + 1));
      PointsMoved(u, before, Current(), res / SFOUR, len);
    }
  }

  lemma GroupsDropped(len: nat, res: nat)
    requires res % SFOUR == 0 && res <= len
    ensures GetFourStates(res) == res / SFOUR
    ensures GetFourStates(len - res + 1) + GetFourStates(res) == GetFourStates(len + 1)
    ensures forall n: nat :: len < SFOUR * n ==> GetFourStates(len + 1) <= n
  {
  }
}
