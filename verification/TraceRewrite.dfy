// Replacing a whole trace by points that may lie in the very buffer that compression goes through.
module TraceRewrite {
  import opened TraceModel
  import opened TraceScratch
  import opened TraceStore
  import opened TraceEdit

  // What becomes of a source that lies in the scratch buffer: it is read to the end as it was; or
  // compressed bytes are written over points not read yet; or the buffer is given back to make room.
  datatype Fate = Intact | Overwritten | Freed

  function ChunkSize(cfg: Settings): (n: nat)
    ensures n % SFOUR == 0 && (cfg.chunkPoints > 0 ==> n > 0)
  {
    AlignSFOUR(cfg.chunkPoints)
  }

  // Points that are not compressed in any case.
  function KeptPoints(cfg: Settings): nat {
    ChunkSize(cfg) + MinCurrentPoints()
  }

  function Offered(cfg: Settings, s: seq<FourState>, p: nat): seq<FourState>
    requires p + ChunkSize(cfg) / SFOUR <= |s|
  {
    s[p..p + ChunkSize(cfg) / SFOUR]
  }

  // The groups that a round compresses, and the chunks it makes of them.
  function Taken(cfg: Settings, s: seq<FourState>, p: nat, chunks: seq<StateChunk>): (g: seq<FourState>)
    requires cfg.chunkPoints > 0 && p + ChunkSize(cfg) / SFOUR <= |s|
    ensures 0 < |g| <= ChunkSize(cfg) / SFOUR && g == s[p..p + |g|]
    ensures SFOUR * |g| == Accepted(chunks, Offered(cfg, s, p), cfg)
  {
    Offered(cfg, s, p)[..Accepted(chunks, Offered(cfg, s, p), cfg) / SFOUR]
  }

  function After(cfg: Settings, s: seq<FourState>, p: nat, chunks: seq<StateChunk>): (longer: seq<StateChunk>)
    requires cfg.chunkPoints > 0 && p + ChunkSize(cfg) / SFOUR <= |s|
    ensures |longer| > 0
  {
    Longer(chunks, Extends(chunks, Offered(cfg, s, p), cfg), Taken(cfg, s, p, chunks), cfg)
  }

  // A round writes the last chunk to the front of the buffer, where its groups and those before it were.  The
  // library is taken to read its groups before it writes: in the first round they start where the chunk does.
  function RoundFate(cfg: Settings, s: seq<FourState>, p: nat, chunks: seq<StateChunk>, capacity: nat): Fate
    requires cfg.chunkPoints > 0 && p + ChunkSize(cfg) / SFOUR <= |s|
  {
    var longer := After(cfg, s, p, chunks);
    if capacity < Need(chunks, Offered(cfg, s, p), cfg) then Freed
    else if |longer[|longer| - 1].compressed| > cfg.memory.Bytes(p + |Taken(cfg, s, p, chunks)|) then Overwritten
    else Intact
  }

  // All rounds from group p on, up to the first that does harm.
  function Rounds(cfg: Settings, s: seq<FourState>, p: nat, rest: nat, chunks: seq<StateChunk>, capacity: nat): Fate
    requires cfg.chunkPoints > 0 && GetFourStates(SFOUR * p + rest) <= |s|
    decreases rest
  {
    if rest <= KeptPoints(cfg) then Intact
    else
      var fate, n := RoundFate(cfg, s, p, chunks, capacity), |Taken(cfg, s, p, chunks)|;
      if fate != Intact then fate
      else Rounds(cfg, s, p + n, rest - SFOUR * n, After(cfg, s, p, chunks), capacity)
  }

  // Replaces the trace by the first len points of source, compressing all but the last ones.  The
  // source may lie in the scratch buffer; fate tells what becomes of it, pastEnd whether memory
  // behind it is read.
  method SetTrace(a: AircraftTrace, source: array<FourState>, len: nat, now: int, buf: Scratch)
    returns (ghost fate: Fate, ghost pastEnd: bool)
    requires a.cfg.Valid() && GetFourStates(len) <= source.Length
    modifies a, buf, buf.lent
    ensures a.Valid() && |a.Trace()| == len && a.Buffered() == [] && (a.traceCurrent == null || fresh(a.traceCurrent))
    ensures old(buf.lent) != source ==> fate == Intact
    ensures old(buf.lent) == source ==>
              a.cfg.chunkPoints > 0 && fate == Rounds(a.cfg, old(source[..]), 0, len, [], old(buf.capacity))
    ensures fate == Intact ==> a.Trace() == Points(old(source[..]), len)
    ensures pastEnd <==> len > 0 && GetFourStates(len + 1) > source.Length
  {
    hide AircraftTrace.Valid, AircraftTrace.Trace, AircraftTrace.Buffered, Settings.Valid, ChunksOk, Unpacked, StatesIn,
         BytesIn, Points, Rounds, KeptPoints;
    ghost var s := source[..];
    TraceCleanup(a);
    NothingLeft(a, s, buf.capacity);
    if len == 0 {
      fate, pastEnd := Intact, false;
      return;
    }
    a.traceLen := len;
    var rest, p;
    rest, p, fate := SetChunks(a, source, len, buf);
    GroupsAdd(p, rest);
    pastEnd := SetCurrent(a, source, p, rest, now);
    if fate == Intact {
      SameTail(s, source[..], p, GetFourStates(rest));
      Rewritten(a, s, p, len);
    }
    a.TraceLength();
  }

  lemma SameTail(s: seq<FourState>, now: seq<FourState>, p: nat, n: nat)
    requires p + n <= |s| == |now| && now[p..] == s[p..]
    ensures now[p..p + n] == s[p..p + n]
  {
    assert now[p..][..n] == now[p..p + n] && s[p..][..n] == s[p..p + n];
  }

  // The remaining points become current ones.
  method SetCurrent(a: AircraftTrace, source: array<FourState>, p: nat, rest: nat, now: int) returns (ghost pastEnd: bool)
    requires a.ChunksValid() && a.traceCurrent == null && a.traceCurrentMax == 0 && !a.tracePosBuffered
    requires a.traceLen == StatesIn(a.traceChunks) + rest && rest > 0 && p + GetFourStates(rest) <= source.Length
    modifies a`traceCurrent, a`traceCurrentMax, a`traceCurrentLen
    ensures a.Valid() && a.traceCurrent != null && fresh(a.traceCurrent) && a.traceCurrentLen == rest && a.Buffered() == []
    ensures var n := GetFourStates(rest); n <= |a.Current()| && a.Current()[..n] == source[p..p + n]
    ensures pastEnd <==> p + GetFourStates(rest + 1) > source.Length
  {
    hide Codec.Lawful, Memory.Lawful, ChunksOk, Unpacked, StatesIn, BytesIn, Points, AllPoints;
    a.traceCurrentLen := rest;
    a.ResizeTraceCurrent(now);
    pastEnd := Fill(a.cfg, a.traceCurrent, source, p, GetFourStates(rest + 1));
  }

  lemma GroupsAdd(p: nat, n: nat)
    ensures GetFourStates(SFOUR * p + n) == p + GetFourStates(n)
    ensures GetFourStates(SFOUR * p + n + 1) == p + GetFourStates(n + 1)
  {
  }

  lemma Rewritten(a: AircraftTrace, s: seq<FourState>, p: nat, len: nat)
    requires a.Valid() && SFOUR * p <= len && GetFourStates(len) <= |s| && a.traceCurrentLen == len - SFOUR * p
    requires a.Chunked() == s[..p]
    requires var n := GetFourStates(len - SFOUR * p); n <= |a.Current()| && a.Current()[..n] == s[p..p + n]
    ensures a.Trace() == Points(s, len)
  {
    hide Points, AllPoints, Settings.Valid, ChunksOk;
    TailCopied(s, a.Current(), p, len);
  }

  // Compresses the points from the front until few are left.
  method SetChunks(a: AircraftTrace, source: array<FourState>, len: nat, buf: Scratch)
    returns (rest: nat, p: nat, ghost fate: Fate)
    requires a.ChunksValid() && a.traceChunks == [] && GetFourStates(len) <= source.Length
    modifies a`traceChunks, a`traceChunkLen, a`traceChunkOverallBytes, buf, buf.lent
    ensures a.ChunksValid() && SFOUR * p + rest == len && StatesIn(a.traceChunks) == SFOUR * p
    ensures rest <= KeptPoints(a.cfg) && (len > 0 ==> rest > 0)
    ensures old(buf.lent) != source ==> fate == Intact
    ensures old(buf.lent) == source ==>
              a.cfg.chunkPoints > 0 && fate == Rounds(a.cfg, old(source[..]), 0, len, [], old(buf.capacity))
    ensures fate == Intact ==> p <= source.Length && a.Chunked() == old(source[..])[..p] && source[p..] == old(source[..])[p..]
  {
    hide AircraftTrace.ChunksValid, AircraftTrace.Chunked, StatesIn, Underway, ReadSoFar, RoundFate, Taken, After,
         KeptPoints, ChunkSize, Rounds;
    rest, p, fate := len, 0, Intact;
    ghost var s, shared, lent, cap := source[..], buf.lent == source, buf.lent, buf.capacity;
    Unstarted(a, s, len, cap);
    while rest > KeptPoints(a.cfg)
      invariant a.ChunksValid() && SFOUR * p + rest == len && StatesIn(a.traceChunks) == SFOUR * p
      invariant (len > 0 ==> rest > 0) && (buf.lent == null || buf.lent == lent)
      invariant shared && fate == Intact ==> buf.lent == source && buf.capacity == cap
      invariant !shared ==> fate == Intact && buf.lent != source
      invariant shared ==> Underway(a.cfg, s, len, cap, p, a.traceChunks, fate)
      invariant fate == Intact ==> ReadSoFar(s, source[..], a.Chunked(), p)
    {
      ghost var before, chunks, chunked := source[..], a.traceChunks, a.Chunked();
      RoomForRound(a.cfg, s, p, rest);
      var res, harm := SetChunk(a, source, p, rest, buf);
      if fate == Intact {
        if shared {
          UnderwayStep(a.cfg, s, before, len, cap, p, chunks, chunked, harm);
        }
        if harm == Intact {
          ReadStep(s, before, source[..], chunked, p, p + res / SFOUR);
        }
        fate := harm;
      }
      if shared && fate != Intact {
        HarmStays(a.cfg, s, len, cap, p, chunks, fate, p + res / SFOUR, a.traceChunks);
      }
      rest := rest - res;
      p := p + res / SFOUR;
    }
    Finished(a.cfg, s, source[..], len, cap, p, a.traceChunks, a.Chunked(), fate, shared);
  }

  // As long as no harm has been done, what remains decides; the first harm is final.
  ghost predicate Underway(cfg: Settings, s: seq<FourState>, len: nat, cap: nat, p: nat, chunks: seq<StateChunk>, fate: Fate) {
    && cfg.chunkPoints > 0 && SFOUR * p <= len && GetFourStates(len) <= |s|
    && Rounds(cfg, s, 0, len, [], cap) == if fate == Intact then Rounds(cfg, s, p, len - SFOUR * p, chunks, cap) else fate
  }

  // The first p groups are compressed, the others still there.
  ghost predicate ReadSoFar(s: seq<FourState>, now: seq<FourState>, chunked: seq<FourState>, p: nat) {
    p <= |s| == |now| && chunked == s[..p] && now[p..] == s[p..]
  }

  lemma Unstarted(a: AircraftTrace, s: seq<FourState>, len: nat, cap: nat)
    requires a.ChunksValid() && a.traceChunks == [] && GetFourStates(len) <= |s|
    ensures StatesIn(a.traceChunks) == 0 && a.cfg.chunkPoints > 0
    ensures Underway(a.cfg, s, len, cap, 0, a.traceChunks, Intact) && ReadSoFar(s, s, a.Chunked(), 0)
  {
    hide Rounds, Codec.Lawful, Memory.Lawful;
  }

  lemma RoomForRound(cfg: Settings, s: seq<FourState>, p: nat, rest: nat)
    requires rest > KeptPoints(cfg) && GetFourStates(SFOUR * p + rest) <= |s|
    ensures p + ChunkSize(cfg) / SFOUR <= |s|
  {
  }

  lemma UnderwayStep(cfg: Settings, s: seq<FourState>, now: seq<FourState>, len: nat, cap: nat, p: nat,
                     chunks: seq<StateChunk>, chunked: seq<FourState>, harm: Fate)
    requires Underway(cfg, s, len, cap, p, chunks, Intact) && ReadSoFar(s, now, chunked, p) && len - SFOUR * p > KeptPoints(cfg)
    requires p + ChunkSize(cfg) / SFOUR <= |s| && harm == RoundFate(cfg, now, p, chunks, cap)
    ensures harm == Intact ==>
              Underway(cfg, s, len, cap, p + |Taken(cfg, now, p, chunks)|, After(cfg, now, p, chunks), harm)
    ensures harm != Intact ==> Underway(cfg, s, len, cap, p, chunks, harm)
  {
    hide Rounds, RoundFate, Taken, After, KeptPoints, ChunkSize;
    RoundStep(cfg, s, p, len - SFOUR * p, chunks, cap);
    SameRound(cfg, s, now, p, chunks, cap);
  }

  lemma HarmStays(cfg: Settings, s: seq<FourState>, len: nat, cap: nat, p: nat, chunks: seq<StateChunk>, fate: Fate,
                  q: nat, longer: seq<StateChunk>)
    requires Underway(cfg, s, len, cap, p, chunks, fate) && fate != Intact && SFOUR * q <= len
    ensures Underway(cfg, s, len, cap, q, longer, fate)
  {
    hide Rounds;
  }

  lemma ReadStep(s: seq<FourState>, before: seq<FourState>, after: seq<FourState>, chunked: seq<FourState>, p: nat, q: nat)
    requires ReadSoFar(s, before, chunked, p) && p <= q <= |s| == |after| && after[q..] == before[q..]
    ensures ReadSoFar(s, after, chunked + before[p..q], q)
  {
    assert before[p..][..q - p] == before[p..q] && s[p..][..q - p] == s[p..q];
    assert before[p..][q - p..] == before[q..] && s[p..][q - p..] == s[q..];
    assert s[..p] + s[p..q] == s[..q];
  }

  lemma Finished(cfg: Settings, s: seq<FourState>, now: seq<FourState>, len: nat, cap: nat, p: nat,
                 chunks: seq<StateChunk>, chunked: seq<FourState>, fate: Fate, shared: bool)
    requires SFOUR * p <= len && len - SFOUR * p <= KeptPoints(cfg)
    requires shared ==> Underway(cfg, s, len, cap, p, chunks, fate)
    requires fate == Intact ==> ReadSoFar(s, now, chunked, p)
    ensures shared ==> cfg.chunkPoints > 0 && GetFourStates(len) <= |s| && fate == Rounds(cfg, s, 0, len, [], cap)
    ensures fate == Intact ==> p <= |s| == |now| && chunked == s[..p] && now[p..] == s[p..]
  {
  }

  // One round.
  method SetChunk(a: AircraftTrace, source: array<FourState>, p: nat, rest: nat, buf: Scratch) returns (res: nat, ghost fate: Fate)
    requires a.ChunksValid() && a.cfg.chunkPoints > 0 && rest > KeptPoints(a.cfg) && p + ChunkSize(a.cfg) / SFOUR <= source.Length
    modifies a`traceChunks, a`traceChunkLen, a`traceChunkOverallBytes, buf, buf.lent
    ensures a.ChunksValid() && 0 < res < rest && res % SFOUR == 0 && p + res / SFOUR <= source.Length
    ensures StatesIn(a.traceChunks) == old(StatesIn(a.traceChunks)) + res && (buf.lent == null || buf.lent == old(buf.lent))
    ensures old(buf.lent) != source ==> fate == Intact && source[..] == old(source[..]) && buf.lent != source
    ensures old(buf.lent) == source ==>
              var s, chunks := old(source[..]), old(a.traceChunks);
              && fate == RoundFate(a.cfg, s, p, chunks, old(buf.capacity))
              && (fate == Intact ==>
                    && buf.lent == source && buf.capacity == old(buf.capacity)
                    && res == SFOUR * |Taken(a.cfg, s, p, chunks)| && a.traceChunks == After(a.cfg, s, p, chunks))
    ensures var q := p + res / SFOUR;
            fate == Intact ==> a.Chunked() == old(a.Chunked()) + old(source[..])[p..q] && source[q..] == old(source[..])[q..]
  {
    hide Codec.Lawful, Memory.Lawful, ChunksOk, Unpacked, StatesIn, BytesIn, Accepted, Extends, Need, Longer;
    ghost var s, chunks, shared, cap := source[..], a.traceChunks, buf.lent == source, buf.capacity;
    LawfulMemory(a.cfg);
    ghost var data;
    res, data := a.CompressChunk(source, p, ChunkSize(a.cfg), buf);
    fate := Intact;
    if shared {
      fate := RoundFate(a.cfg, s, p, chunks, cap);
      if fate == Intact {
        RoundSpares(a.cfg, s, p, chunks, cap, s, source[..]);
      }
    }
  }

  // A round only depends on the groups not read yet.
  lemma SameRound(cfg: Settings, s: seq<FourState>, now: seq<FourState>, p: nat, chunks: seq<StateChunk>, cap: nat)
    requires cfg.chunkPoints > 0 && p + ChunkSize(cfg) / SFOUR <= |s| == |now| && now[p..] == s[p..]
    ensures Taken(cfg, now, p, chunks) == Taken(cfg, s, p, chunks) && After(cfg, now, p, chunks) == After(cfg, s, p, chunks)
    ensures RoundFate(cfg, now, p, chunks, cap) == RoundFate(cfg, s, p, chunks, cap)
  {
    hide Accepted, Extends, Need, Longer;
    var n := ChunkSize(cfg) / SFOUR;
    assert now[p..][..n] == Offered(cfg, now, p) && s[p..][..n] == Offered(cfg, s, p);
  }

  // All rounds only depend on the groups that hold the points.
  lemma {:induction false} RoundsPrefix(cfg: Settings, s: seq<FourState>, t: seq<FourState>, p: nat, rest: nat,
                                        chunks: seq<StateChunk>, cap: nat)
    requires cfg.chunkPoints > 0 && GetFourStates(SFOUR * p + rest) <= |t| <= |s| && t == s[..|t|]
    ensures Rounds(cfg, s, p, rest, chunks, cap) == Rounds(cfg, t, p, rest, chunks, cap)
    decreases rest
  {
    hide Rounds, RoundFate, Taken, After;
    if rest <= KeptPoints(cfg) {
      FewRemain(cfg, s, p, rest, chunks, cap);
      FewRemain(cfg, t, p, rest, chunks, cap);
    } else {
      RoundStep(cfg, s, p, rest, chunks, cap);
      RoundStep(cfg, t, p, rest, chunks, cap);
      SameOffers(cfg, s, t, p, chunks, cap);
      var n := |Taken(cfg, t, p, chunks)|;
      RoundsPrefix(cfg, s, t, p + n, rest - SFOUR * n, After(cfg, t, p, chunks), cap);
    }
  }

  lemma SameOffers(cfg: Settings, s: seq<FourState>, t: seq<FourState>, p: nat, chunks: seq<StateChunk>, cap: nat)
    requires cfg.chunkPoints > 0 && p + ChunkSize(cfg) / SFOUR <= |t| <= |s| && t == s[..|t|]
    ensures Taken(cfg, t, p, chunks) == Taken(cfg, s, p, chunks) && After(cfg, t, p, chunks) == After(cfg, s, p, chunks)
    ensures RoundFate(cfg, t, p, chunks, cap) == RoundFate(cfg, s, p, chunks, cap)
  {
    hide Accepted, Extends, Need, Longer;
    assert Offered(cfg, t, p) == Offered(cfg, s, p);
  }

  lemma RoundStep(cfg: Settings, s: seq<FourState>, p: nat, rest: nat, chunks: seq<StateChunk>, cap: nat)
    requires cfg.chunkPoints > 0 && GetFourStates(SFOUR * p + rest) <= |s| && rest > KeptPoints(cfg)
    ensures p + ChunkSize(cfg) / SFOUR <= |s| && SFOUR * |Taken(cfg, s, p, chunks)| < rest
    ensures var fate, n := RoundFate(cfg, s, p, chunks, cap), |Taken(cfg, s, p, chunks)|;
            Rounds(cfg, s, p, rest, chunks, cap)
            == if fate != Intact then fate else Rounds(cfg, s, p + n, rest - SFOUR * n, After(cfg, s, p, chunks), cap)
  {
    hide RoundFate, Taken, After;
  }

  // What a round that does no harm leaves of the points not read yet.
  lemma RoundSpares(cfg: Settings, s: seq<FourState>, p: nat, chunks: seq<StateChunk>, cap: nat,
                    before: seq<FourState>, after: seq<FourState>)
    requires cfg.memory.Lawful() && cfg.chunkPoints > 0 && p + ChunkSize(cfg) / SFOUR <= |s| == |before|
    requires RoundFate(cfg, s, p, chunks, cap) == Intact
    requires var longer := After(cfg, s, p, chunks); after == cfg.memory.cover(longer[|longer| - 1].compressed, before)
    ensures var q := p + |Taken(cfg, s, p, chunks)|; |after| == |before| && after[q..] == before[q..]
  {
    hide Taken, After, Need;
    var longer, q := After(cfg, s, p, chunks), p + |Taken(cfg, s, p, chunks)|;
    var b := longer[|longer| - 1].compressed;
    Sparing(cfg.memory, b, before, q);
  }

  lemma Sparing(m: Memory, b: Blob, g: seq<FourState>, q: nat)
    requires m.Lawful() && q <= |g| && |b| <= m.Bytes(q)
    ensures |m.cover(b, g)| == |g| && m.cover(b, g)[q..] == g[q..]
  {
    assert m.Spared(b, g, m.cover(b, g));
    forall k | q <= k < |g| ensures m.cover(b, g)[k] == g[k] {
      BytesGrow(m, q, k);
      assert m.Untouched(b, k);
    }
  }

  // Copies n groups from group p on, also from behind the source's memory.
  method Fill(cfg: Settings, t: array<FourState>, source: array<FourState>, p: nat, n: nat) returns (ghost pastEnd: bool)
    requires n <= t.Length && t != source
    modifies t
    ensures pastEnd <==> n > 0 && p + n > source.Length
    ensures forall i :: 0 <= i < n && p + i < source.Length ==> t[i] == source[p + i]
  {
    pastEnd := n > 0 && p + n > source.Length;
    forall i | 0 <= i < n {
      t[i] := if p + i < source.Length then source[p + i] else cfg.memory.stale(p + i);
    }
  }

  lemma NothingLeft(a: AircraftTrace, s: seq<FourState>, cap: nat)
    requires a.Valid() && a.traceChunks == []
    ensures a.ChunksValid() && a.cfg.chunkPoints > 0 && StatesIn(a.traceChunks) == 0
    ensures Rounds(a.cfg, s, 0, 0, [], cap) == Intact && Points(s, 0) == []
  {
  }

  lemma TailCopied(source: seq<FourState>, current: seq<FourState>, p: nat, len: nat)
    requires SFOUR * p <= len && GetFourStates(len) <= |source|
    requires var n := GetFourStates(len - SFOUR * p); n <= |current| && current[..n] == source[p..p + n]
    ensures AllPoints(source[..p]) + Points(current, len - SFOUR * p) == Points(source, len)
  {
    var n := GetFourStates(len - SFOUR * p);
    PointsSplit(source, p, len);
    assert source[p..][..n] == source[p..p + n];
    PointsAgree(current, source[p..], len - SFOUR * p);
  }

  // ---------------------------------------------------------------- when the source stays intact

  // Few points are not compressed at all.  If one chunk is, all depends on its size.
  lemma OneRound(cfg: Settings, s: seq<FourState>, len: nat, cap: nat)
    requires cfg.chunkPoints > 0 && GetFourStates(len) <= |s| && len <= ChunkSize(cfg) + KeptPoints(cfg)
    ensures var n := ChunkSize(cfg) / SFOUR;
            Rounds(cfg, s, 0, len, [], cap) == Intact
            <==> len <= KeptPoints(cfg)
                 || (cfg.memory.bound(cfg.memory.Bytes(n)) <= cap
                     && |Compress(cfg.codec, s[..n])| <= cfg.memory.Bytes(n))
  {
    if len > KeptPoints(cfg) {
      RoundStep(cfg, s, 0, len, [], cap);
      var offered := Offered(cfg, s, 0);
      assert offered[..|offered|] == offered;
    }
  }

  // Above that number, whatever the codec: a first chunk larger than its groups reaches those read next.
  lemma FirstTooLarge(cfg: Settings, s: seq<FourState>, len: nat, cap: nat)
    requires cfg.chunkPoints > 0 && GetFourStates(len) <= |s| && len > KeptPoints(cfg)
    requires var n := ChunkSize(cfg) / SFOUR;
             cfg.memory.bound(cfg.memory.Bytes(n)) <= cap && |Compress(cfg.codec, s[..n])| > cfg.memory.Bytes(n)
    ensures Rounds(cfg, s, 0, len, [], cap) == Overwritten
  {
    RoundStep(cfg, s, 0, len, [], cap);
    var offered := Offered(cfg, s, 0);
    assert offered[..|offered|] == offered;
  }

  // No run of groups is larger when compressed.
  ghost predicate Shrinks(cfg: Settings, s: seq<FourState>) {
    forall i, j :: 0 <= i < j <= |s| ==> |Compress(cfg.codec, s[i..j])| <= cfg.memory.Bytes(j - i)
  }

  // The buffer holds the bound for up to a chunk's groups on top of the other groups.
  ghost predicate Roomy(cfg: Settings, n: nat, cap: nat) {
    forall k :: 0 < k <= n && k <= ChunkSize(cfg) / SFOUR ==> Bounded(cfg, n, k, cap)
  }

  predicate Bounded(cfg: Settings, n: nat, k: nat, cap: nat)
    requires k <= n
  {
    cfg.memory.bound(cfg.memory.Bytes(k)) + cfg.memory.Bytes(n - k) <= cap
  }

  // Compressed bytes never catch up with the groups read if compression does not expand.
  lemma {:induction false} ShrinkingIsIntact(cfg: Settings, s: seq<FourState>, p: nat, rest: nat, chunks: seq<StateChunk>, cap: nat)
    requires cfg.chunkPoints > 0 && GetFourStates(SFOUR * p + rest) <= |s| && Shrinks(cfg, s) && Roomy(cfg, |s|, cap)
    requires chunks != [] ==> chunks[|chunks| - 1].compressedSize == |chunks[|chunks| - 1].compressed| <= cfg.memory.Bytes(p)
    ensures Rounds(cfg, s, p, rest, chunks, cap) == Intact
    decreases rest
  {
    hide Rounds, Shrinks, Roomy, Accepted, Extends, Taken, RoundFate, After;
    if rest <= KeptPoints(cfg) {
      FewRemain(cfg, s, p, rest, chunks, cap);
    } else {
      RoundStep(cfg, s, p, rest, chunks, cap);
      var n := |Taken(cfg, s, p, chunks)|;
      RoundShrinks(cfg, s, p, chunks, cap);
      ShrinkingIsIntact(cfg, s, p + n, rest - SFOUR * n, After(cfg, s, p, chunks), cap);
    }
  }

  lemma FewRemain(cfg: Settings, s: seq<FourState>, p: nat, rest: nat, chunks: seq<StateChunk>, cap: nat)
    requires cfg.chunkPoints > 0 && GetFourStates(SFOUR * p + rest) <= |s| && rest <= KeptPoints(cfg)
    ensures Rounds(cfg, s, p, rest, chunks, cap) == Intact
  {
  }

  lemma RoundShrinks(cfg: Settings, s: seq<FourState>, p: nat, chunks: seq<StateChunk>, cap: nat)
    requires cfg.chunkPoints > 0 && p + ChunkSize(cfg) / SFOUR <= |s| && Shrinks(cfg, s) && Roomy(cfg, |s|, cap)
    requires chunks != [] ==> chunks[|chunks| - 1].compressedSize == |chunks[|chunks| - 1].compressed| <= cfg.memory.Bytes(p)
    ensures RoundFate(cfg, s, p, chunks, cap) == Intact
    ensures var longer := After(cfg, s, p, chunks);
            longer[|longer| - 1].compressedSize == |longer[|longer| - 1].compressed|
            <= cfg.memory.Bytes(p + |Taken(cfg, s, p, chunks)|)
  {
    hide Accepted, Extends, Taken, Shrinks, Roomy, After, Need, Longer, Compress;
    hide Memory.Bytes;
    var g := Taken(cfg, s, p, chunks);
    LastAfter(cfg, s, p, chunks);
    SmallEnough(cfg, s, p, p + |g|, |s|, cap);
    BytesAdd(cfg.memory, p, |g|);
    BytesGrow(cfg.memory, p, |s| - |g|);
  }

  lemma SmallEnough(cfg: Settings, s: seq<FourState>, p: nat, q: nat, n: nat, cap: nat)
    requires Shrinks(cfg, s) && Roomy(cfg, n, cap) && p < q <= |s| == n && q - p <= ChunkSize(cfg) / SFOUR
    ensures |Compress(cfg.codec, s[p..q])| <= cfg.memory.Bytes(q - p)
    ensures cfg.memory.bound(cfg.memory.Bytes(q - p)) + cfg.memory.Bytes(n - (q - p)) <= cap
  {
    assert Bounded(cfg, n, q - p, cap);
  }

  // The chunk written in a round: the frames of the chunk it extends, and a new one.
  lemma LastAfter(cfg: Settings, s: seq<FourState>, p: nat, chunks: seq<StateChunk>)
    requires cfg.chunkPoints > 0 && p + ChunkSize(cfg) / SFOUR <= |s|
    ensures var longer, g, joins := After(cfg, s, p, chunks), Taken(cfg, s, p, chunks), Extends(chunks, Offered(cfg, s, p), cfg);
            var last := longer[|longer| - 1];
            && last.compressed == (if joins then chunks[|chunks| - 1].compressed else []) + Compress(cfg.codec, g)
            && last.compressedSize == |last.compressed| && (joins ==> chunks != [])
            && Need(chunks, Offered(cfg, s, p), cfg)
               == cfg.memory.bound(cfg.memory.Bytes(|g|)) + (if joins then chunks[|chunks| - 1].compressedSize else 0)
  {
    hide Accepted, Extension, Taken;
  }

  lemma TimesAdds(a: nat, b: nat, c: nat)
    ensures a * (b + c) == a * b + a * c
  {
  }

  // A whole trace of n full groups in a buffer just made for it: the copy of the remaining points, one
  // slot more than there are, leaves the buffer exactly if there are fewer than eight groups.
  lemma CopyPastEnd(n: nat, m: Memory)
    requires m.groupSize > 0
    ensures GetFourStates(SFOUR * n + 1) > Slots(m, Grown(0, m.Bytes(n))) <==> n < 8
  {
    var size := m.groupSize;
    if n > 0 {
      TimesGrows(size, 1, n);
      NineEighths(n, size);
    }
  }

  lemma NineEighths(n: nat, size: nat)
    requires size > 0
    ensures size * n * 9 / 8 / size == n * 9 / 8
  {
    var m := n * 9 / 8;
    Scaled(size, n, m);
    EighthBetween(size * n * 9, size * m, size);
    TimesAdds(size, m, 1);
    QuotientIs(size * n * 9 / 8, size, m);
  }

  lemma Scaled(a: nat, n: nat, m: nat)
    requires 8 * m <= n * 9 < 8 * m + 8 && a > 0
    ensures 8 * (a * m) <= a * n * 9 < 8 * (a * m) + 8 * a
  {
    TimesGrows(a, 0, n * 9 - 8 * m);
    TimesGrows(a, n * 9 - 8 * m + 1, 8);
  }

  lemma EighthBetween(b: nat, x: nat, a: nat)
    requires 8 * x <= b < 8 * x + 8 * a
    ensures x <= b / 8 < x + a
  {
  }

  lemma QuotientIs(a: nat, size: nat, m: nat)
    requires size > 0 && size * m <= a < size * (m + 1)
    ensures a / size == m
  {
    var q := a / size;
    if q < m {
      TimesGrows(size, q + 1, m);
    } else if q > m {
      TimesGrows(size, m + 1, q);
    }
  }
}
