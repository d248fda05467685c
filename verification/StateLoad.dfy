// Reading saved aircraft state back.  Malformed input is handled as the loader handles it; the
// contracts say what comes out if the input is what was saved.
module StateLoad {
  import opened TraceModel
  import opened StateBlob
  import opened StateSave

  // b is found at position p of data.
  ghost predicate Sits(data: Bytes, p: nat, b: Bytes) {
    p + |b| <= |data| && data[p..p + |b|] == b
  }

  lemma SitsParts(data: Bytes, p: nat, a: Bytes, b: Bytes)
    requires Sits(data, p, a + b)
    ensures Sits(data, p, a) && Sits(data, p + |a|, b)
  {
    assert data[p..p + |a + b|][..|a|] == a;
    assert data[p..p + |a + b|][|a|..] == b;
  }

  lemma SitsInside(data: Bytes, p: nat, b: Bytes)
    requires Sits(data, p, b)
    ensures p + |b| <= |data| && data[p..p + |b|] == b
  {
  }

  // A word, if enough bytes are left.
  method ReadWord(data: Bytes, p: nat, k: nat, ghost n: nat) returns (v: int)
    requires p + k <= |data|
    ensures n < Limit(k) && Sits(data, p, Word(n, k)) ==> v == n
  {
    v := Value(data[p..p + k]);
    if n < Limit(k) {
      WordValue(n, k);
    }
  }

  // A chunk can be read if its struct and its data are there.
  ghost predicate ChunkThere(L: Layout, data: Bytes, p: nat) {
    var q := p + L.chunkSize;
    q <= |data| && q + L.unpackChunk(data[p..q]).compressedSize <= |data|
  }

  // The next one follows its padding, if there is one.
  ghost function PastChunk(L: Layout, data: Bytes, p: nat): nat
    requires ChunkThere(L, data, p)
  {
    p + L.chunkSize + RoundUp8(L.unpackChunk(data[p..p + L.chunkSize]).compressedSize)
  }

  ghost predicate ChunksThere(L: Layout, data: Bytes, p: nat, n: nat)
    decreases n
  {
    n == 0 || (ChunkThere(L, data, p) && ChunksThere(L, data, PastChunk(L, data, p), n - 1))
  }

  // One chunk with its data; q may point past the end if the padding is missing.
  method LoadChunk(L: Layout, data: Bytes, p: nat, ghost c: Codec, ghost saved: StateChunk)
    returns (q: nat, chunk: StateChunk, ok: bool)
    requires L.Lawful()
    ensures q >= p && (ok <==> ChunkThere(L, data, p)) && (ok ==> q == PastChunk(L, data, p))
    ensures ChunkOk(c, saved) && L.chunkFits(saved) && Sits(data, p, ChunkBytes(L, saved)) ==>
              ok && chunk == saved && q == p + |ChunkBytes(L, saved)|
  {
    hide Layout.Lawful, Sits, ChunkOk, ChunkBytes, RoundUp8;
    ghost var good := ChunkOk(c, saved) && L.chunkFits(saved) && Sits(data, p, ChunkBytes(L, saved));
    if good {
      ChunkSized(c, saved);
      ChunkParts(L, data, p, saved);
    }
    q, chunk, ok := p, ZERO_CHUNK, false;
    if |data| - p < L.chunkSize {
      return;
    }
    chunk := L.unpackChunk(data[p..p + L.chunkSize]);
    q := p + L.chunkSize;
    if |data| - q < chunk.compressedSize {
      return;
    }
    chunk := chunk.(compressed := data[q..q + chunk.compressedSize]);
    q := q + RoundUp8(chunk.compressedSize);
    ok := true;
  }

  lemma ChunkSized(c: Codec, e: StateChunk)
    requires ChunkOk(c, e)
    ensures e.compressedSize == |e.compressed|
  {
  }

  lemma ChunkParts(L: Layout, data: Bytes, p: nat, e: StateChunk)
    requires L.Lawful() && L.chunkFits(e) && e.compressedSize == |e.compressed| && Sits(data, p, ChunkBytes(L, e))
    ensures var q := p + L.chunkSize;
            && q + |e.compressed| <= |data| && |ChunkBytes(L, e)| == L.chunkSize + RoundUp8(|e.compressed|)
            && L.unpackChunk(data[p..q]) == e.(compressed := []) && data[q..q + |e.compressed|] == e.compressed
  {
    hide Layout.Lawful, Sits, ChunkBytes, RoundUp8;
    ChunkPacked(L, e);
    ThreeParts(L, e);
    var pad := Zeros(RoundUp8(|e.compressed|) - |e.compressed|);
    SitsParts(data, p, L.packChunk(e) + e.compressed, pad);
    SitsParts(data, p, L.packChunk(e), e.compressed);
    SitsThere(data, p, L.packChunk(e));
    SitsThere(data, p + L.chunkSize, e.compressed);
  }

  lemma ThreeParts(L: Layout, e: StateChunk)
    ensures RoundUp8(|e.compressed|) >= |e.compressed|
    ensures ChunkBytes(L, e) == (L.packChunk(e) + e.compressed) + Zeros(RoundUp8(|e.compressed|) - |e.compressed|)
  {
  }

  lemma SitsThere(data: Bytes, p: nat, b: Bytes)
    requires Sits(data, p, b)
    ensures p + |b| <= |data| && data[p..p + |b|] == b
  {
  }

  lemma ChunkPacked(L: Layout, e: StateChunk)
    requires L.Lawful() && L.chunkFits(e)
    ensures |L.packChunk(e)| == L.chunkSize && L.unpackChunk(L.packChunk(e)) == e.(compressed := [])
  {
  }

  method LoadChunks(L: Layout, data: Bytes, p: nat, n: nat, ghost c: Codec, ghost saved: seq<StateChunk>)
    returns (q: nat, chunks: seq<StateChunk>, ok: bool, discard: bool)
    requires L.Lawful()
    ensures q >= p && (ok <==> ChunksThere(L, data, p, n))
    ensures ok ==> |chunks| == n && (discard <==> Ragged(chunks))
    ensures |saved| == n && ChunksOk(c, saved) && ChunksFit(L, saved) && Sits(data, p, ChunksBytes(L, saved)) ==>
              ok && !discard && chunks == saved && q == p + |ChunksBytes(L, saved)|
  {
    ghost var good := |saved| == n && ChunksOk(c, saved) && ChunksFit(L, saved) && Sits(data, p, ChunksBytes(L, saved));
    hide Layout.Lawful, Sits, ChunkOk, ChunkBytes, ChunksBytes, ChunkThere, PastChunk, Ragged;
    q, chunks, ok, discard := p, [], true, false;
    RaggedStep([], ZERO_CHUNK);
    NoBytes(L);
    for k := 0 to n
      invariant q >= p && ok && |chunks| == k && ChunksThere(L, data, p, n) == ChunksThere(L, data, q, n - k)
      invariant discard <==> Ragged(chunks)
      invariant good ==> !discard && chunks == saved[..k] && q == p + |ChunksBytes(L, saved[..k])|
    {
      if good {
        ChunkSits(L, data, p, saved, k);
        WholeGroups(c, saved[k]);
      }
      var chunk;
      ghost var next := if k < |saved| then saved[k] else ZERO_CHUNK;
      q, chunk, ok := LoadChunk(L, data, q, c, next);
      if !ok {
        return;
      }
      RaggedStep(chunks, chunk);
      chunks := chunks + [chunk];
      if chunk.numStates % SFOUR != 0 {
        discard := true;
      }
    }
  }

  // Some chunk does not hold whole groups.
  ghost predicate Ragged(chunks: seq<StateChunk>) {
    exists k :: 0 <= k < |chunks| && chunks[k].numStates % SFOUR != 0
  }

  lemma RaggedStep(chunks: seq<StateChunk>, chunk: StateChunk)
    ensures Ragged(chunks + [chunk]) <==> Ragged(chunks) || chunk.numStates % SFOUR != 0
    ensures !Ragged([])
  {
    var longer := chunks + [chunk];
    assert longer[|chunks|] == chunk;
    if Ragged(chunks) {
      var k :| 0 <= k < |chunks| && chunks[k].numStates % SFOUR != 0;
      assert longer[k] == chunks[k];
    }
  }

  lemma WholeGroups(c: Codec, chunk: StateChunk)
    requires ChunkOk(c, chunk)
    ensures chunk.numStates % SFOUR == 0
  {
  }

  lemma ChunkSits(L: Layout, data: Bytes, p: nat, chunks: seq<StateChunk>, k: nat)
    requires k < |chunks| && Sits(data, p, ChunksBytes(L, chunks))
    ensures Sits(data, p + |ChunksBytes(L, chunks[..k])|, ChunkBytes(L, chunks[k]))
    ensures |ChunksBytes(L, chunks[..k + 1])| == |ChunksBytes(L, chunks[..k])| + |ChunkBytes(L, chunks[k])|
  {
    ChunksStep(L, chunks, k);
    ChunksJoin(L, chunks, k + 1);
    hide ChunksBytes, ChunkBytes;
    SitsParts(data, p, ChunksBytes(L, chunks[..k + 1]), ChunksBytes(L, chunks[k + 1..]));
    SitsParts(data, p, ChunksBytes(L, chunks[..k]), ChunkBytes(L, chunks[k]));
  }

  lemma {:induction false} ChunksJoin(L: Layout, chunks: seq<StateChunk>, k: nat)
    requires k <= |chunks|
    ensures ChunksBytes(L, chunks) == ChunksBytes(L, chunks[..k]) + ChunksBytes(L, chunks[k..])
  {
    if k > 0 {
      assert chunks[..k][1..] == chunks[1..][..k - 1] && chunks[1..][k - 1..] == chunks[k..];
      ChunksJoin(L, chunks[1..], k - 1);
      JoinAssoc(ChunkBytes(L, chunks[0]), ChunksBytes(L, chunks[1..][..k - 1]), ChunksBytes(L, chunks[k..]));
    } else {
      assert chunks[..0] == [] && chunks[0..] == chunks;
    }
  }

  method LoadGroups(L: Layout, data: Bytes, p: nat, n: nat, ghost saved: seq<FourState>)
    returns (q: nat, groups: seq<FourState>, ok: bool)
    requires L.Lawful()
    ensures q >= p && (ok ==> |groups| == n)
    ensures |saved| == n && GroupsFit(L, saved) && Sits(data, p, GroupsBytes(L, saved)) ==>
              ok && groups == saved && q == p + |GroupsBytes(L, saved)|
  {
    hide Layout.Lawful, Sits, GroupsBytes, GroupsFit;
    ghost var good := |saved| == n && GroupsFit(L, saved) && Sits(data, p, GroupsBytes(L, saved));
    GroupsBytesSize(L, saved);
    q, groups, ok := p, [], true;
    for k := 0 to n
      invariant q >= p && |groups| == k
      invariant good ==> ok && groups == saved[..k] && q == p + L.groupSize * k
    {
      if good {
        GroupSits(L, data, p, saved, k);
      }
      if |data| - q < L.groupSize {
        return q, groups, false;
      }
      groups := groups + [L.unpackGroup(data[q..q + L.groupSize])];
      q := q + L.groupSize;
    }
  }

  lemma {:induction false} GroupSits(L: Layout, data: Bytes, p: nat, groups: seq<FourState>, k: nat)
    requires L.Lawful() && GroupsFit(L, groups) && k < |groups| && Sits(data, p, GroupsBytes(L, groups))
    ensures var q := p + L.groupSize * k;
            && q + L.groupSize <= |data| && L.unpackGroup(data[q..q + L.groupSize]) == groups[k]
            && L.groupSize * (k + 1) == L.groupSize * k + L.groupSize
    decreases k
  {
    hide Layout.Lawful, Sits, GroupsBytes;
    var size := L.groupSize;
    FirstGroup(L, groups);
    SitsParts(data, p, L.packGroup(groups[0]), GroupsBytes(L, groups[1..]));
    OneMore(size, k);
    if k > 0 {
      OneMore(size, k - 1);
      GroupSits(L, data, p + size, groups[1..], k - 1);
    } else {
      SitsInside(data, p, L.packGroup(groups[0]));
      assert size * 0 == 0;
    }
  }

  lemma FirstGroup(L: Layout, groups: seq<FourState>)
    requires L.Lawful() && groups != [] && GroupsFit(L, groups)
    ensures GroupsBytes(L, groups) == L.packGroup(groups[0]) + GroupsBytes(L, groups[1..]) && GroupsFit(L, groups[1..])
    ensures |L.packGroup(groups[0])| == L.groupSize && L.unpackGroup(L.packGroup(groups[0])) == groups[0]
  {
    GroupPacked(L, groups[0]);
  }

  lemma GroupPacked(L: Layout, g: FourState)
    requires L.Lawful() && L.groupFits(g)
    ensures |L.packGroup(g)| == L.groupSize && L.unpackGroup(L.packGroup(g)) == g
  {
  }

  // An aircraft in the form it is saved in.
  ghost predicate Settled(L: Layout, c: Codec, a: Craft) {
    Consistent(c, a) && a == Saved(a) && Fits(L, a)
  }

  // An aircraft without its trace.
  function WithoutTrace(r: Record): Craft {
    Craft(r.(traceLen := 0, traceChunkLen := 0, traceCurrentLen := 0, tracePosBuffered := false), [], [])
  }

  // The struct's bytes, cut or filled up to the present size.
  function Fitted(b: Bytes, size: nat): Bytes {
    if |b| >= size then b[..size] else b + Zeros(size - |b|)
  }

  // One entry, the magic word before it already read.  None if not even the fixed part is there.
  method LoadAircraft(L: Layout, data: Bytes, p: nat, keepTraces: bool, ghost c: Codec, ghost a: Craft)
    returns (q: nat, craft: seq<Craft>)
    requires L.Lawful() && p <= |data|
    ensures q >= p && |craft| <= 1
    ensures keepTraces && Settled(L, c, a) && Sits(data, p, EntryTail(L, a)) ==>
              craft == [a] && q == p + |EntryTail(L, a)|
  {
    hide Layout.Lawful, Sits, EntryTail, TraceBytes, Word, Value, Settled, Fitted, Limit;
    ghost var good := Settled(L, c, a) && Sits(data, p, EntryTail(L, a));
    if good {
      GroupsSaved(L, c, a);
      EntryParts(L, data, p, a);
    }
    q, craft := p, [];
    if |data| - q < WORD {
      return;
    }
    var oldSize := ReadWord(data, q, WORD, L.recordSize);
    q := q + WORD;
    if oldSize < 0 || |data| - q < oldSize {
      return;
    }
    var r := L.unpackRecord(Fitted(data[q..q + oldSize], L.recordSize)).(tail := [], tracePosBuffered := false);
    q := q + oldSize;
    if r.traceLen == 0 {
      return q, [WithoutTrace(r)];
    }
    var loaded;
    q, loaded := LoadTrace(L, data, q, r, c, a);
    craft := [if keepTraces then loaded else WithoutTrace(r)];
  }

  method LoadTrace(L: Layout, data: Bytes, p: nat, r: Record, ghost c: Codec, ghost a: Craft) returns (q: nat, craft: Craft)
    requires L.Lawful()
    ensures q >= p
    ensures craft == WithoutTrace(r)
            || (craft.rec == r && |craft.chunks| == r.traceChunkLen && |craft.current| == GetFourStates(r.traceCurrentLen)
                && !Ragged(craft.chunks))
    ensures Settled(L, c, a) && r == a.rec && r.traceLen > 0 && Sits(data, p, TraceBytes(L, a)) ==>
              craft == a && q == p + |TraceBytes(L, a)|
  {
    hide Layout.Lawful, Sits, TraceBytes, Word, Value, ChunksBytes, GroupsBytes, Settled, ChunksOk, Limit, Ragged, ChunksThere;
    ghost var good := Settled(L, c, a) && r == a.rec && r.traceLen > 0 && Sits(data, p, TraceBytes(L, a));
    if good {
      TraceParts(L, data, p, a);
      GroupsSaved(L, c, a);
    }
    q, craft := p, WithoutTrace(r);
    if |data| - q < WORD {
      return;
    }
    var oldFourStateSize := ReadWord(data, q, WORD, L.groupSize);
    q := q + WORD;
    if oldFourStateSize != L.groupSize {
      return;
    }
    var chunks, groups, ok, discard;
    q, chunks, ok, discard := LoadChunks(L, data, q, r.traceChunkLen, c, a.chunks);
    if !ok {
      return;
    }
    q, groups, ok := LoadGroups(L, data, q, GetFourStates(r.traceCurrentLen), a.current);
    if !ok || discard {
      return;
    }
    craft := Craft(r, chunks, groups);
  }

  lemma GroupsSaved(L: Layout, c: Codec, a: Craft)
    requires Settled(L, c, a)
    ensures |a.current| == GetFourStates(a.rec.traceCurrentLen) && !a.rec.tracePosBuffered && a.rec.tail == []
    ensures a.rec.traceChunkLen == |a.chunks| && ChunksOk(c, a.chunks) && Fits(L, a)
    ensures a.rec.traceLen == 0 ==> a == WithoutTrace(a.rec)
  {
    if a.chunks != [] { assert ChunkOk(c, a.chunks[|a.chunks| - 1]); }
  }

  lemma SmallStructs(L: Layout)
    requires L.Lawful()
    ensures L.recordSize < 0x8000_0000 && L.groupSize < 0x8000_0000
  {
  }

  lemma TraceParts(L: Layout, data: Bytes, p: nat, a: Craft)
    requires L.Lawful() && a.rec.traceLen > 0 && Sits(data, p, TraceBytes(L, a))
    ensures p + WORD <= |data| && L.groupSize < Limit(WORD) && Sits(data, p, Word(L.groupSize, WORD))
    ensures Sits(data, p + WORD, ChunksBytes(L, a.chunks))
    ensures Sits(data, p + WORD + |ChunksBytes(L, a.chunks)|, GroupsBytes(L, a.current))
    ensures |TraceBytes(L, a)| == WORD + |ChunksBytes(L, a.chunks)| + |GroupsBytes(L, a.current)|
  {
    hide Layout.Lawful, Word, Limit, ChunksBytes, GroupsBytes, Sits;
    Limits();
    SmallStructs(L);
    SitsParts(data, p, Word(L.groupSize, WORD) + ChunksBytes(L, a.chunks), GroupsBytes(L, a.current));
    SitsParts(data, p, Word(L.groupSize, WORD), ChunksBytes(L, a.chunks));
    SitsInside(data, p, Word(L.groupSize, WORD));
  }

  lemma EntryParts(L: Layout, data: Bytes, p: nat, a: Craft)
    requires L.Lawful() && L.recordFits(a.rec) && Sits(data, p, EntryTail(L, a))
    ensures p + WORD <= |data| && L.recordSize < Limit(WORD) && Sits(data, p, Word(L.recordSize, WORD))
    ensures var q := p + WORD + L.recordSize;
            && q <= |data| && |EntryTail(L, a)| == WORD + L.recordSize + |TraceBytes(L, a)|
            && (a.rec.traceLen == 0 ==> TraceBytes(L, a) == [])
            && L.unpackRecord(Fitted(data[p + WORD..q], L.recordSize)) == a.rec
            && Sits(data, q, TraceBytes(L, a))
  {
    hide Layout.Lawful, Word, Limit, TraceBytes;
    Limits();
    RecordSize(L, a.rec);
    NoTraceBytes(L, a);
    var size, rec := Word(L.recordSize, WORD), L.packRecord(a.rec);
    SitsParts(data, p, size + rec, TraceBytes(L, a));
    SitsParts(data, p, size, rec);
    FittedExact(rec);
  }

  lemma FittedExact(b: Bytes)
    ensures Fitted(b, |b|) == b
  {
  }

  // ---------------------------------------------------------------- frames and files

  ghost predicate AllSettled(L: Layout, c: Codec, crafts: seq<Craft>) {
    forall i :: 0 <= i < |crafts| ==> Settled(L, c, crafts[i])
  }

  // Reads entries up to the mark at the end of the frame; -1 for anything else.
  method LoadAircrafts(L: Layout, data: Bytes, keepTraces: bool, ghost c: Codec, ghost crafts: seq<Craft>)
    returns (count: int, loaded: seq<Craft>)
    requires L.Lawful()
    ensures keepTraces && AllSettled(L, c, crafts) && data == FrameBytes(L, crafts) ==> count == |crafts| && loaded == crafts
  {
    hide Layout.Lawful, FrameBytes, EntriesBytes, EntryBytes, EntryTail, Word, Value, Settled, Sits;
    ghost var good := keepTraces && AllSettled(L, c, crafts) && data == FrameBytes(L, crafts);
    count, loaded := 0, [];
    NoBytes(L);
    var p: nat := 0;
    if good {
      FrameAt(L, data, crafts, 0);
    }
    while |data| - p > 0
      invariant good ==> 0 <= count <= |crafts| && loaded == crafts[..count] && p == |EntriesBytes(L, crafts[..count])| < |data|
      decreases |data| - p
    {
      ghost var k := count;
      if good {
        FrameAt(L, data, crafts, k);
      }
      var value := 0;
      if |data| - p >= WORD {
        ghost var expected := if good && k < |crafts| then STATE_SAVE_MAGIC else STATE_SAVE_MAGIC_END;
        MagicSmall();
        value := ReadWord(data, p, WORD, expected);
        p := p + WORD;
      }
      if value != STATE_SAVE_MAGIC {
        if value != STATE_SAVE_MAGIC_END {
          return -1, loaded;
        }
        break;
      }
      var craft;
      ghost var next := if good && k < |crafts| then crafts[k] else WithoutTrace(PlainRecord());
      p, craft := LoadAircraft(L, data, p, keepTraces, c, next);
      loaded := loaded + craft;
      count := count + 1;
      if good {
        FrameAt(L, data, crafts, count);
      }
    }
  }

  function PlainRecord(): Record {
    Record(0, [], [], false, 0, 0, 0, 0, false)
  }

  lemma MagicSmall()
    ensures STATE_SAVE_MAGIC < Limit(WORD) && STATE_SAVE_MAGIC_END < Limit(WORD)
  {
    Limits();
  }

  // What comes next in a frame of which k entries have been read.
  lemma FrameAt(L: Layout, data: Bytes, crafts: seq<Craft>, k: int)
    requires 0 <= k <= |crafts| && data == FrameBytes(L, crafts)
    ensures var p := |EntriesBytes(L, crafts[..k])|;
            && p + WORD <= |data|
            && (k == |crafts| ==> Sits(data, p, Word(STATE_SAVE_MAGIC_END, WORD)))
            && (k < |crafts| ==>
                  && Sits(data, p, Word(STATE_SAVE_MAGIC, WORD)) && Sits(data, p + WORD, EntryTail(L, crafts[k]))
                  && |EntriesBytes(L, crafts[..k + 1])| == p + WORD + |EntryTail(L, crafts[k])|)
  {
    hide EntriesBytes, Word, EntryTail;
    if k == |crafts| {
      assert crafts[..k] == crafts;
      SitsParts(data, 0, EntriesBytes(L, crafts), Word(STATE_SAVE_MAGIC_END, WORD));
    } else {
      assert crafts[..k + 1] == crafts[..k] + [crafts[k]];
      EntriesSnoc(L, crafts[..k], crafts[k]);
      EntriesPrefix(L, crafts, k + 1);
      var rest :| EntriesBytes(L, crafts) == EntriesBytes(L, crafts[..k + 1]) + rest;
      SitsParts(data, 0, EntriesBytes(L, crafts), Word(STATE_SAVE_MAGIC_END, WORD));
      SitsParts(data, 0, EntriesBytes(L, crafts[..k + 1]), rest);
      SitsParts(data, 0, EntriesBytes(L, crafts[..k]), EntryBytes(L, crafts[k]));
      SitsParts(data, |EntriesBytes(L, crafts[..k])|, Word(STATE_SAVE_MAGIC, WORD), EntryTail(L, crafts[k]));
    }
  }

  lemma {:induction false} EntriesPrefix(L: Layout, crafts: seq<Craft>, k: nat)
    requires k <= |crafts|
    ensures exists rest :: EntriesBytes(L, crafts) == EntriesBytes(L, crafts[..k]) + rest
  {
    hide *;
    if k == |crafts| {
      assert crafts[..k] == crafts;
      assert EntriesBytes(L, crafts) == EntriesBytes(L, crafts[..k]) + [];
    } else {
      var most, last := crafts[..|crafts| - 1], crafts[|crafts| - 1];
      EntriesPrefix(L, most, k);
      assert most[..k] == crafts[..k] && most + [last] == crafts;
      var rest :| EntriesBytes(L, most) == EntriesBytes(L, crafts[..k]) + rest;
      EntriesSnoc(L, most, last);
      JoinAssoc(EntriesBytes(L, crafts[..k]), rest, EntryBytes(L, last));
      assert EntriesBytes(L, crafts) == EntriesBytes(L, crafts[..k]) + (rest + EntryBytes(L, last));
    }
  }

  ghost predicate FramesSettled(L: Layout, c: Codec, frames: seq<seq<Craft>>) {
    forall k :: 0 <= k < |frames| ==> AllSettled(L, c, frames[k])
  }

  // Reads a state file: every aircraft of every frame, in order.
  method LoadBlob(L: Layout, file: Bytes, keepTraces: bool, ghost c: Codec, ghost frames: seq<seq<Craft>>)
    returns (ok: bool, loaded: seq<Craft>)
    requires L.Lawful()
    ensures keepTraces && FramesSettled(L, c, frames) && FramesFit(L, frames) && file == FileBytes(L, frames) ==>
              ok && loaded == Flatten(frames)
  {
    hide Layout.Lawful, FrameBytes, FileBytes, Word, Value, AllSettled, Sits, Flatten, Limit;
    ghost var good := keepTraces && FramesSettled(L, c, frames) && FramesFit(L, frames) && file == FileBytes(L, frames);
    loaded := [];
    NoBytes(L);
    NoneFlat();
    var p: nat, k: nat := 0, 0;
    while |file| - p > 0
      invariant good ==> k <= |frames| && loaded == Flatten(frames[..k]) && p == |FileBytes(L, frames[..k])|
      decreases |file| - p
    {
      ghost var frame := if good && k < |frames| then FrameBytes(L, frames[k]) else [];
      ghost var crafts := if good && k < |frames| then frames[k] else [];
      if good {
        AllRead(L, frames, k);
        FileAt(L, file, frames, k);
        assert frames[..k + 1] == frames[..k] + [frames[k]];
        FlattenSnoc(frames[..k], frames[k]);
      }
      if |file| - p < 2 * HALF {
        return false, loaded;
      }
      var compressedLen := ReadWord(file, p, HALF, |L.compress(frame)|);
      var uncompressedLen := ReadWord(file, p + HALF, HALF, |frame|);
      p := p + 2 * HALF;
      if compressedLen < 0 || |file| - p < compressedLen {
        return false, loaded;
      }
      var data := L.decompress(file[p..p + compressedLen]);
      if |data| != uncompressedLen {
        return false, loaded;
      }
      var count, more := LoadAircrafts(L, data, keepTraces, c, crafts);
      loaded := loaded + more;
      if count < 0 {
        return false, loaded;
      }
      p := p + compressedLen;
      k := k + 1;
    }
    if good && k < |frames| {
      FileAt(L, file, frames, k);
    }
    assert frames[..|frames|] == frames;
    ok := true;
  }

  lemma AllRead(L: Layout, frames: seq<seq<Craft>>, k: nat)
    requires k <= |frames|
    ensures k == |frames| ==> FileBytes(L, frames[..k]) == FileBytes(L, frames)
  {
    assert frames[..|frames|] == frames;
  }

  // The frame after the first k.
  lemma FileAt(L: Layout, file: Bytes, frames: seq<seq<Craft>>, k: nat)
    requires L.Lawful() && k < |frames| && file == FileBytes(L, frames) && FramesFit(L, frames)
    ensures var p, f := |FileBytes(L, frames[..k])|, FrameBytes(L, frames[k]);
            var z := L.compress(f);
            && p + 2 * HALF + |z| <= |file| && |z| < Limit(HALF) && |f| < Limit(HALF)
            && Sits(file, p, Word(|z|, HALF)) && Sits(file, p + HALF, Word(|f|, HALF))
            && L.decompress(file[p + 2 * HALF..p + 2 * HALF + |z|]) == f
            && |FileBytes(L, frames[..k + 1])| == p + 2 * HALF + |z|
  {
    hide FrameBytes, FileBytes, Word, Limit, Layout.Lawful;
    var f, head := FrameBytes(L, frames[k]), FileBytes(L, frames[..k]);
    var z := L.compress(f);
    FrameCompressed(L, f);
    assert frames[..k + 1] == frames[..k] + [frames[k]];
    FileSnoc(L, frames[..k], frames[k]);
    FilePrefix(L, frames, k + 1);
    var rest :| FileBytes(L, frames) == FileBytes(L, frames[..k + 1]) + rest;
    StoredAt(file, head, Word(|z|, HALF), Word(|f|, HALF), z, rest);
  }

  lemma StoredAt(file: Bytes, head: Bytes, a: Bytes, b: Bytes, z: Bytes, rest: Bytes)
    requires file == (head + (a + b + z)) + rest
    ensures Sits(file, |head|, a) && Sits(file, |head| + |a|, b) && Sits(file, |head| + |a| + |b|, z)
  {
    SitsParts(file, 0, head + (a + b + z), rest);
    SitsParts(file, 0, head, a + b + z);
    SitsParts(file, |head|, a + b, z);
    SitsParts(file, |head|, a, b);
  }

  lemma FrameCompressed(L: Layout, f: Bytes)
    requires L.Lawful() && |f| < 0x8000_0000
    ensures |L.compress(f)| < Limit(HALF) && |f| < Limit(HALF) && L.decompress(L.compress(f)) == f
  {
    Limits();
  }

  lemma {:induction false} FilePrefix(L: Layout, frames: seq<seq<Craft>>, k: nat)
    requires k <= |frames|
    ensures exists rest :: FileBytes(L, frames) == FileBytes(L, frames[..k]) + rest
  {
    hide *;
    if k == |frames| {
      assert frames[..k] == frames;
      assert FileBytes(L, frames) == FileBytes(L, frames[..k]) + [];
    } else {
      var most, last := frames[..|frames| - 1], frames[|frames| - 1];
      FilePrefix(L, most, k);
      assert most[..k] == frames[..k] && most + [last] == frames;
      var rest :| FileBytes(L, most) == FileBytes(L, frames[..k]) + rest;
      FileSnoc(L, most, last);
      JoinAssoc(FileBytes(L, frames[..k]), rest, Stored(L, FrameBytes(L, last)));
      assert FileBytes(L, frames) == FileBytes(L, frames[..k]) + (rest + Stored(L, FrameBytes(L, last)));
    }
  }

  // ---------------------------------------------------------------- the round trip

  // Saving a range of buckets and loading the file yields each aircraft of the range once, with the
  // buffered point at the end of its trace, exactly if every frame can be written.
  method SaveAndLoad(L: Layout, c: Codec, buckets: seq<seq<Craft>>, start: nat, end: nat, stateChunkSize: nat)
    returns (loaded: seq<Craft>, ok: bool)
    requires L.Lawful() && start < end <= |buckets| && WORD <= stateChunkSize < 0x8000_0000
    requires forall j, i :: start <= j < end && 0 <= i < |buckets[j]| ==> Storable(L, c, buckets[j][i])
    ensures var crafts := InBuckets(buckets, start, end);
            && (ok <==> AllWritable(L, Frames(L, crafts, stateChunkSize), stateChunkSize))
            && ((forall a :: a in crafts ==> SizeState(L, Saved(a)) <= stateChunkSize) ==> ok)
            && (ok ==> |loaded| == |crafts| && forall i :: 0 <= i < |crafts| ==> Restored(c, crafts[i], loaded[i]))
    ensures !ok ==> loaded == []
  {
    hide Layout.Lawful, FileBytes, FrameBytes, Flatten, Settled, FramesFit, FramesSettled, Restored, Storable, SizeState, Saved,
      SavedAll, Frames, AllWritable, Pack;
    ghost var crafts := InBuckets(buckets, start, end);
    AllStorable(L, c, buckets, start, end);
    if forall a :: a in crafts ==> SizeState(L, Saved(a)) <= stateChunkSize {
      SmallIsWritable(L, c, crafts, stateChunkSize);
    }
    var file, _, saved := SaveBlob(L, c, buckets, start, end, stateChunkSize);
    ok, loaded := saved, [];
    if saved {
      ghost var frames := Frames(L, crafts, stateChunkSize);
      FramesHold(L, crafts, stateChunkSize);
      SavedSettled(L, c, crafts);
      SettledFrames(L, c, frames);
      var complete;
      complete, loaded := LoadBlob(L, file, true, c, frames);
    }
  }

  // An aircraft as it comes back: its trace ends with the point that was buffered, and if there was one
  // the recent trace is to be written.
  ghost predicate Restored(c: Codec, a: Craft, b: Craft) {
    var n := if a.rec.tracePosBuffered then 1 else 0;
    && Consistent(c, a) && Consistent(c, b) && b.rec.addr == a.rec.addr && b.rec.body == a.rec.body
    && TraceOf(c, b) == TraceOf(c, a) + BufferedOf(c, a) && BufferedOf(c, b) == []
    && b.rec.writeRecent == (a.rec.writeRecent || n > 0) && b.rec.traceWriteCounter == a.rec.traceWriteCounter + n
  }

  lemma {:induction false} AllStorable(L: Layout, c: Codec, buckets: seq<seq<Craft>>, start: nat, end: nat)
    requires start <= end <= |buckets|
    requires forall j, i :: start <= j < end && 0 <= i < |buckets[j]| ==> Storable(L, c, buckets[j][i])
    ensures forall i :: 0 <= i < |InBuckets(buckets, start, end)| ==> Storable(L, c, InBuckets(buckets, start, end)[i])
  {
    hide Storable;
    if start == end {
      assert buckets[start..end] == [];
    } else {
      AllStorable(L, c, buckets, start, end - 1);
      NextBucket(buckets, start, end - 1);
    }
  }

  lemma SavedSettled(L: Layout, c: Codec, crafts: seq<Craft>)
    requires forall i :: 0 <= i < |crafts| ==> Storable(L, c, crafts[i])
    ensures AllSettled(L, c, SavedAll(crafts)) && |SavedAll(crafts)| == |crafts|
    ensures forall i :: 0 <= i < |crafts| ==> Restored(c, crafts[i], SavedAll(crafts)[i])
  {
    hide TraceOf, BufferedOf, Consistent;
    forall i | 0 <= i < |crafts|
      ensures Settled(L, c, Saved(crafts[i])) && Restored(c, crafts[i], Saved(crafts[i]))
    {
      SavedTrace(c, crafts[i]);
      SavedTwice(c, crafts[i]);
    }
  }

  lemma SavedTwice(c: Codec, a: Craft)
    requires Consistent(c, a)
    ensures Saved(Saved(a)) == Saved(a)
  {
    var k := GetFourStates(Saved(a).rec.traceCurrentLen);
    assert a.current[..k][..k] == a.current[..k];
  }

  lemma {:induction false} SettledFrames(L: Layout, c: Codec, frames: seq<seq<Craft>>)
    requires AllSettled(L, c, Flatten(frames))
    ensures FramesSettled(L, c, frames)
  {
    if frames != [] {
      hide Settled;
      var most, last := frames[..|frames| - 1], frames[|frames| - 1];
      var n := |Flatten(most)|;
      assert forall i :: 0 <= i < n ==> Flatten(frames)[i] == Flatten(most)[i];
      assert forall i :: 0 <= i < |last| ==> Flatten(frames)[n + i] == last[i];
      SettledFrames(L, c, most);
      assert forall k :: 0 <= k < |most| ==> most[k] == frames[k];
    }
  }
}
