// Writing a range of buckets into one state file.
module StateSave {
  import opened TraceModel
  import opened StateBlob

  // Sizes are C ints; twice the size of an aircraft must be one.
  ghost predicate Storable(L: Layout, c: Codec, a: Craft) {
    Consistent(c, a) && Fits(L, Saved(a)) && 2 * SizeState(L, Saved(a)) < 0x8000_0000
  }

  // Copies b to position p.
  method Put(buf: array<byte>, p: nat, b: Bytes) returns (q: nat)
    requires p + |b| <= buf.Length
    modifies buf
    ensures q == p + |b| && buf[..q] == old(buf[..p]) + b
  {
    forall i | 0 <= i < |b| {
      buf[p + i] := b[i];
    }
    q := p + |b|;
  }

  method PutChunks(L: Layout, buf: array<byte>, p: nat, chunks: seq<StateChunk>) returns (q: nat)
    requires p + |ChunksBytes(L, chunks)| <= buf.Length
    modifies buf
    ensures q == p + |ChunksBytes(L, chunks)| && buf[..q] == old(buf[..p]) + ChunksBytes(L, chunks)
  {
    hide ChunksBytes;
    ghost var start := buf[..p];
    q := p;
    NoBytes(L);
    for k := 0 to |chunks|
      invariant q == p + |ChunksBytes(L, chunks[..k])| && p <= q <= buf.Length && buf[..q] == start + ChunksBytes(L, chunks[..k])
    {
      ChunksStep(L, chunks, k);
      q := PutChunk(L, buf, q, chunks[k]);
      JoinAssoc(start, ChunksBytes(L, chunks[..k]), ChunkBytes(L, chunks[k]));
    }
    assert chunks[..|chunks|] == chunks;
  }

  lemma NoBytes(L: Layout)
    ensures ChunksBytes(L, []) == [] && GroupsBytes(L, []) == [] && EntriesBytes(L, []) == [] && FileBytes(L, []) == []
  {
  }

  lemma ChunksStep(L: Layout, chunks: seq<StateChunk>, k: nat)
    requires k < |chunks|
    ensures ChunksBytes(L, chunks[..k + 1]) == ChunksBytes(L, chunks[..k]) + ChunkBytes(L, chunks[k])
    ensures |ChunksBytes(L, chunks[..k + 1])| <= |ChunksBytes(L, chunks)|
  {
    assert chunks[..k + 1] == chunks[..k] + [chunks[k]];
    ChunksSnoc(L, chunks[..k], chunks[k]);
    ChunksPrefix(L, chunks, k + 1);
  }

  lemma {:induction false} ChunksPrefix(L: Layout, chunks: seq<StateChunk>, k: nat)
    requires k <= |chunks|
    ensures |ChunksBytes(L, chunks[..k])| <= |ChunksBytes(L, chunks)|
  {
    if k > 0 {
      assert chunks[..k][1..] == chunks[1..][..k - 1];
      ChunksPrefix(L, chunks[1..], k - 1);
    }
  }

  method PutChunk(L: Layout, buf: array<byte>, p: nat, chunk: StateChunk) returns (q: nat)
    requires p + |ChunkBytes(L, chunk)| <= buf.Length
    modifies buf
    ensures q == p + |ChunkBytes(L, chunk)| && buf[..q] == old(buf[..p]) + ChunkBytes(L, chunk)
  {
    ghost var start := buf[..p];
    q := Put(buf, p, L.packChunk(chunk));
    q := Put(buf, q, chunk.compressed);
    var padBytes := RoundUp8(|chunk.compressed|) - |chunk.compressed|;
    q := Put(buf, q, Zeros(padBytes));
    JoinAssoc(start, L.packChunk(chunk), chunk.compressed);
    JoinAssoc(start, L.packChunk(chunk) + chunk.compressed, Zeros(padBytes));
  }

  method PutGroups(L: Layout, buf: array<byte>, p: nat, groups: seq<FourState>) returns (q: nat)
    requires p + |GroupsBytes(L, groups)| <= buf.Length
    modifies buf
    ensures q == p + |GroupsBytes(L, groups)| && buf[..q] == old(buf[..p]) + GroupsBytes(L, groups)
  {
    // one copy of adjacent structs
    q := Put(buf, p, GroupsBytes(L, groups));
  }

  // Writes the entry of an aircraft.
  method PutEntry(L: Layout, buf: array<byte>, p: nat, copy: Craft) returns (q: nat)
    requires p + |EntryBytes(L, copy)| <= buf.Length
    modifies buf
    ensures q == p + |EntryBytes(L, copy)| && buf[..q] == old(buf[..p]) + EntryBytes(L, copy)
  {
    hide Word, TraceBytes;
    ghost var start := buf[..p];
    var magic, size, rec := Word(STATE_SAVE_MAGIC, WORD), Word(L.recordSize, WORD), L.packRecord(copy.rec);
    q := Put(buf, p, magic);
    q := Put(buf, q, size);
    q := Put(buf, q, rec);
    if copy.rec.traceLen > 0 {
      q := PutTrace(L, buf, q, copy);
    }
    NoTraceBytes(L, copy);
    JoinFive(start, magic, size, rec, TraceBytes(L, copy));
  }

  lemma NoTraceBytes(L: Layout, a: Craft)
    ensures a.rec.traceLen == 0 ==> TraceBytes(L, a) == []
  {
  }

  lemma JoinFive<T>(a: seq<T>, b: seq<T>, c: seq<T>, d: seq<T>, e: seq<T>)
    ensures (((a + b) + c) + d) + e == a + (b + (c + d + e))
  {
  }

  method PutTrace(L: Layout, buf: array<byte>, p: nat, copy: Craft) returns (q: nat)
    requires copy.rec.traceLen > 0 && p + |TraceBytes(L, copy)| <= buf.Length
    modifies buf
    ensures q == p + |TraceBytes(L, copy)| && buf[..q] == old(buf[..p]) + TraceBytes(L, copy)
  {
    hide Word, ChunksBytes, GroupsBytes;
    ghost var start := buf[..p];
    var size := Word(L.groupSize, WORD);
    q := Put(buf, p, size);
    q := PutChunks(L, buf, q, copy.chunks);
    q := PutGroups(L, buf, q, copy.current);
    JoinAssoc(start, size, ChunksBytes(L, copy.chunks));
    JoinAssoc(start, size + ChunksBytes(L, copy.chunks), GroupsBytes(L, copy.current));
  }

  // The frame being filled: room for the mark at its end always remains.
  ghost predicate Filling(L: Layout, buf: array<byte>, p: nat, alloc: nat, pending: seq<Craft>)
    reads buf
  {
    && p + WORD <= alloc <= buf.Length && alloc < 0x8000_0000
    && p == |EntriesBytes(L, pending)| && buf[..p] == EntriesBytes(L, pending)
  }

  // How aircraft are spread over frames: the frames done, the one being filled, the size of the buffer,
  // and the size that later buffers start with.
  datatype Packing = Packing(frames: seq<seq<Craft>>, pending: seq<Craft>, alloc: nat, chunkSize: nat)

  function PackOne(L: Layout, k: Packing, a: Craft): Packing {
    var size := SizeState(L, Saved(a));
    if |EntriesBytes(L, k.pending)| + size <= k.alloc then k.(pending := k.pending + [Saved(a)])
    else if size <= k.alloc then k.(frames := k.frames + [k.pending], pending := [Saved(a)])
    else
      var larger := if 2 * size > k.chunkSize then 2 * size else k.chunkSize;
      Packing(k.frames + [k.pending], [Saved(a)], larger, larger)
  }

  function Pack(L: Layout, crafts: seq<Craft>, chunkSize: nat): Packing {
    if crafts == [] then Packing([], [], chunkSize, chunkSize)
    else PackOne(L, Pack(L, crafts[..|crafts| - 1], chunkSize), crafts[|crafts| - 1])
  }

  function Frames(L: Layout, crafts: seq<Craft>, chunkSize: nat): seq<seq<Craft>> {
    Pack(L, crafts, chunkSize).frames + [Pack(L, crafts, chunkSize).pending]
  }

  // The compressed frame fits into the output buffer, which keeps the size it was made with.
  ghost predicate Writable(L: Layout, frame: seq<Craft>, chunkSize: nat) {
    |L.compress(FrameBytes(L, frame))| <= L.bound(chunkSize)
  }

  ghost predicate AllWritable(L: Layout, frames: seq<seq<Craft>>, chunkSize: nat) {
    forall k :: 0 <= k < |frames| ==> Writable(L, frames[k], chunkSize)
  }

  // Ends the frame, compresses it and appends it to the file, unless the output buffer is too small.
  method Flush(L: Layout, buf: array<byte>, p: nat, ghost alloc: nat, file: Bytes, zstOutAlloc: nat,
               ghost frames: seq<seq<Craft>>, ghost pending: seq<Craft>) returns (written: Bytes, ok: bool)
    requires L.Lawful() && Filling(L, buf, p, alloc, pending) && file == FileBytes(L, frames)
    modifies buf
    ensures ok <==> |L.compress(FrameBytes(L, pending))| <= zstOutAlloc
    ensures written == if ok then FileBytes(L, frames + [pending]) else []
    ensures |FrameBytes(L, pending)| < 0x8000_0000
  {
    hide EntriesBytes, FileBytes, Word, Layout.Lawful;
    var q := Put(buf, p, Word(STATE_SAVE_MAGIC_END, WORD));
    assert q <= alloc;
    FileSnoc(L, frames, pending);
    assert buf[..q] == FrameBytes(L, pending);
    ok := |L.compress(buf[..q])| <= zstOutAlloc;
    written := if ok then file + Stored(L, buf[..q]) else [];
  }

  // Saves one aircraft, in a new frame if it does not fit into the present one, in a larger buffer
  // if it does not fit into any.
  method SaveCraft(L: Layout, ghost c: Codec, a: Craft, buf0: array<byte>, p0: nat, alloc0: nat, chunkSize0: nat, file0: Bytes,
                   zstOutAlloc: nat, ghost k: Packing)
    returns (buf: array<byte>, p: nat, alloc: nat, chunkSize: nat, file: Bytes, ok: bool)
    requires L.Lawful() && Storable(L, c, a) && Underway(L, buf0, p0, alloc0, chunkSize0, file0, k)
    modifies buf0
    ensures buf == buf0 || fresh(buf)
    ensures ok <==> PackOne(L, k, a).frames == k.frames || |L.compress(FrameBytes(L, k.pending))| <= zstOutAlloc
    ensures ok ==> Underway(L, buf, p, alloc, chunkSize, file, PackOne(L, k, a))
  {
    hide EntriesBytes, EntryBytes, FileBytes, FrameBytes, Layout.Lawful, SizeState, Consistent, Saved, Stored;
    SavedIsSaved(L, c, a);
    buf, p, alloc, chunkSize, file, ok := buf0, p0, alloc0, chunkSize0, file0, true;
    var copy := Saved(a);
    var sizeState := SizeState(L, copy);
    ghost var pending := k.pending;
    if p + sizeState > alloc {
      file, ok := Flush(L, buf, p, alloc, file, zstOutAlloc, k.frames, k.pending);
      OneLonger(k.frames, k.pending);
      if !ok {
        return;
      }
      if sizeState > alloc {
        alloc := if 2 * sizeState > chunkSize then 2 * sizeState else chunkSize;
        chunkSize := alloc;
        buf := new byte[alloc](_ => 0);
      }
      p, pending := 0, [];
      NoBytes(L);
      assert pending + [copy] == [copy];
    }
    EntriesSnoc(L, pending, copy);
    p := PutEntry(L, buf, p, copy);
  }

  lemma OneLonger<T>(s: seq<T>, t: T)
    ensures s + [t] != s
  {
    assert |s + [t]| == |s| + 1;
  }

  // The buffer and the file are as far as the packing.
  ghost predicate Underway(L: Layout, buf: array<byte>, p: nat, alloc: nat, chunkSize: nat, file: Bytes, k: Packing)
    reads buf
  {
    && Filling(L, buf, p, alloc, k.pending) && file == FileBytes(L, k.frames) && FramesFit(L, k.frames)
    && alloc == k.alloc && chunkSize == k.chunkSize && WORD <= chunkSize < 0x8000_0000
  }

  lemma SavedIsSaved(L: Layout, c: Codec, a: Craft)
    requires L.Lawful() && Storable(L, c, a)
    ensures |EntryBytes(L, Saved(a))| + WORD <= SizeState(L, Saved(a)) < 0x4000_0000
  {
    hide Layout.Lawful, SizeState, EntryBytes, Consistent;
    SavedTrace(c, a);
    SavedTwice(a);
    SpareWord(L, c, Saved(a));
  }

  lemma SavedTwice(a: Craft)
    ensures Saved(Saved(a)) == Saved(a)
  {
    var k := GetFourStates(Saved(a).rec.traceCurrentLen);
    if k <= |a.current| {
      assert a.current[..k][..k] == a.current[..k];
    }
  }

  // The aircraft of some buckets in the order they are saved.
  function InBuckets(buckets: seq<seq<Craft>>, start: nat, end: nat): seq<Craft>
    requires start <= end <= |buckets|
  {
    Flatten(buckets[start..end])
  }

  lemma NextBucket(buckets: seq<seq<Craft>>, start: nat, j: nat)
    requires start <= j < |buckets|
    ensures InBuckets(buckets, start, j + 1) == InBuckets(buckets, start, j) + buckets[j]
  {
    assert buckets[start..j + 1] == buckets[start..j] + [buckets[j]];
    FlattenSnoc(buckets[start..j], buckets[j]);
  }

  lemma SavedSnoc(crafts: seq<Craft>, a: Craft)
    ensures SavedAll(crafts + [a]) == SavedAll(crafts) + [Saved(a)]
  {
  }

  // Every frame is below 2 GB.
  ghost predicate FramesFit(L: Layout, frames: seq<seq<Craft>>) {
    forall k :: 0 <= k < |frames| ==> |FrameBytes(L, frames[k])| < 0x8000_0000
  }

  // Writes the aircraft of the buckets from start on, if every frame can be written; otherwise there is
  // no file.
  method SaveBlob(L: Layout, ghost c: Codec, buckets: seq<seq<Craft>>, start: nat, end: nat, stateChunkSize: nat)
    returns (file: Bytes, chunkSize: nat, ok: bool)
    requires L.Lawful() && start < end <= |buckets| && WORD <= stateChunkSize < 0x8000_0000
    requires forall j, i :: start <= j < end && 0 <= i < |buckets[j]| ==> Storable(L, c, buckets[j][i])
    ensures var frames := Frames(L, InBuckets(buckets, start, end), stateChunkSize);
            && (ok <==> AllWritable(L, frames, stateChunkSize))
            && (ok ==> file == FileBytes(L, frames) && FramesFit(L, frames))
    ensures ok ==> chunkSize == Pack(L, InBuckets(buckets, start, end), stateChunkSize).chunkSize
    ensures !ok ==> file == []
  {
    hide EntriesBytes, FileBytes, FrameBytes, Layout.Lawful, Storable, Pack, PackOne, Frames, AllWritable, Writable, FramesFit,
      InBuckets, Underway, Filling;
    ghost var crafts := InBuckets(buckets, start, end);
    chunkSize, ok := stateChunkSize, true;
    var alloc, p, zstOutAlloc := chunkSize, 0, L.bound(chunkSize);
    var buf := new byte[alloc](_ => 0);
    file := [];
    NothingSaved(L, buf, buckets, start, chunkSize);
    ghost var done: seq<Craft> := [];
    for j := start to end
      invariant fresh(buf) && done == InBuckets(buckets, start, j)
      invariant Underway(L, buf, p, alloc, chunkSize, file, Pack(L, done, stateChunkSize))
      invariant AllWritable(L, Pack(L, done, stateChunkSize).frames, stateChunkSize)
    {
      ghost var before := done;
      assert before + buckets[j][..0] == before;
      for i := 0 to |buckets[j]|
        invariant fresh(buf) && done == before + buckets[j][..i]
        invariant Underway(L, buf, p, alloc, chunkSize, file, Pack(L, done, stateChunkSize))
        invariant AllWritable(L, Pack(L, done, stateChunkSize).frames, stateChunkSize)
      {
        ghost var a, k := buckets[j][i], Pack(L, done, stateChunkSize);
        OneMoreCraft(L, buckets, start, j, i, end, done, stateChunkSize);
        buf, p, alloc, chunkSize, file, ok := SaveCraft(L, c, buckets[j][i], buf, p, alloc, chunkSize, file, zstOutAlloc, k);
        WritableOrNot(L, done, a, crafts, stateChunkSize);
        if !ok {
          file := [];
          return;
        }
        done := done + [a];
      }
      NextBucket(buckets, start, j);
      assert buckets[j][..|buckets[j]|] == buckets[j];
    }
    ghost var k := Pack(L, crafts, stateChunkSize);
    LastFrame(L, buf, p, alloc, chunkSize, file, crafts, stateChunkSize);
    file, ok := Flush(L, buf, p, alloc, file, zstOutAlloc, k.frames, k.pending);
    LastWritable(L, crafts, stateChunkSize);
  }

  lemma NothingSaved(L: Layout, buf: array<byte>, buckets: seq<seq<Craft>>, start: nat, chunkSize: nat)
    requires start <= |buckets| && WORD <= chunkSize < 0x8000_0000 && buf.Length == chunkSize
    ensures InBuckets(buckets, start, start) == []
    ensures Underway(L, buf, 0, chunkSize, chunkSize, [], Pack(L, [], chunkSize))
    ensures AllWritable(L, Pack(L, [], chunkSize).frames, chunkSize)
  {
    assert buckets[start..start] == [];
  }

  lemma OneMoreCraft(L: Layout, buckets: seq<seq<Craft>>, start: nat, j: nat, i: nat, end: nat, done: seq<Craft>, chunkSize: nat)
    requires start <= j < end <= |buckets| && i < |buckets[j]| && done == InBuckets(buckets, start, j) + buckets[j][..i]
    ensures done + [buckets[j][i]] == InBuckets(buckets, start, j) + buckets[j][..i + 1] <= InBuckets(buckets, start, end)
    ensures Pack(L, done + [buckets[j][i]], chunkSize) == PackOne(L, Pack(L, done, chunkSize), buckets[j][i])
  {
    hide InBuckets, PackOne;
    var a := buckets[j][i];
    assert done + [a] == InBuckets(buckets, start, j) + (buckets[j][..i] + [a]) && buckets[j][..i] + [a] == buckets[j][..i + 1];
    assert (done + [a])[..|done|] == done;
    NextBucket(buckets, start, j);
    assert buckets[j] == buckets[j][..i + 1] + buckets[j][i + 1..];
    FirstBuckets(buckets, start, j + 1, end);
  }

  lemma {:induction false} FirstBuckets(buckets: seq<seq<Craft>>, start: nat, j: nat, end: nat)
    requires start <= j <= end <= |buckets|
    ensures InBuckets(buckets, start, j) <= InBuckets(buckets, start, end)
    decreases end - j
  {
    if j < end {
      NextBucket(buckets, start, j);
      FirstBuckets(buckets, start, j + 1, end);
    }
  }

  // Frames that are done stay as they are.
  lemma {:induction false} FramesGrow(L: Layout, some: seq<Craft>, all: seq<Craft>, chunkSize: nat)
    requires some <= all
    ensures Pack(L, some, chunkSize).frames <= Pack(L, all, chunkSize).frames
  {
    hide Pack, PackOne;
    if |some| == |all| {
      assert some == all;
    } else {
      var most, a := all[..|all| - 1], all[|all| - 1];
      FramesGrow(L, some, most, chunkSize);
      PackStep(L, most, a, chunkSize);
      assert all == most + [a];
    }
  }

  lemma PackStep(L: Layout, crafts: seq<Craft>, a: Craft, chunkSize: nat)
    ensures var k, n := Pack(L, crafts, chunkSize), Pack(L, crafts + [a], chunkSize);
            n == PackOne(L, k, a) && (n.frames == k.frames || n.frames == k.frames + [k.pending])
  {
    assert (crafts + [a])[..|crafts|] == crafts;
    hide SizeState, Saved, EntriesBytes;
  }

  // A frame that cannot be written is one of all frames.
  lemma WritableOrNot(L: Layout, done: seq<Craft>, a: Craft, all: seq<Craft>, chunkSize: nat)
    requires done + [a] <= all && AllWritable(L, Pack(L, done, chunkSize).frames, chunkSize)
    ensures var k, n := Pack(L, done, chunkSize), Pack(L, done + [a], chunkSize);
            var ok := n.frames == k.frames || |L.compress(FrameBytes(L, k.pending))| <= L.bound(chunkSize);
            && (ok ==> AllWritable(L, n.frames, chunkSize))
            && (!ok ==> !AllWritable(L, Frames(L, all, chunkSize), chunkSize))
  {
    hide Pack, FrameBytes;
    PackStep(L, done, a, chunkSize);
    FramesGrow(L, done + [a], all, chunkSize);
    var k, n := Pack(L, done, chunkSize), Pack(L, done + [a], chunkSize);
    if n.frames != k.frames && |L.compress(FrameBytes(L, k.pending))| > L.bound(chunkSize) {
      assert n.frames[|k.frames|] == k.pending;
      assert Frames(L, all, chunkSize)[|k.frames|] == k.pending;
      assert !Writable(L, Frames(L, all, chunkSize)[|k.frames|], chunkSize);
    }
  }

  lemma LastFrame(L: Layout, buf: array<byte>, p: nat, alloc: nat, size: nat, file: Bytes, crafts: seq<Craft>, chunkSize: nat)
    requires Underway(L, buf, p, alloc, size, file, Pack(L, crafts, chunkSize))
    ensures var k := Pack(L, crafts, chunkSize);
            Filling(L, buf, p, alloc, k.pending) && file == FileBytes(L, k.frames) && FramesFit(L, k.frames) && size == k.chunkSize
  {
    hide Pack, Filling, FileBytes, FramesFit;
  }

  lemma LastWritable(L: Layout, crafts: seq<Craft>, chunkSize: nat)
    requires AllWritable(L, Pack(L, crafts, chunkSize).frames, chunkSize) && FramesFit(L, Pack(L, crafts, chunkSize).frames)
    requires |FrameBytes(L, Pack(L, crafts, chunkSize).pending)| < 0x8000_0000
    ensures FramesFit(L, Frames(L, crafts, chunkSize))
    ensures AllWritable(L, Frames(L, crafts, chunkSize), chunkSize)
            <==> |L.compress(FrameBytes(L, Pack(L, crafts, chunkSize).pending))| <= L.bound(chunkSize)
    ensures FileBytes(L, Frames(L, crafts, chunkSize))
            == FileBytes(L, Pack(L, crafts, chunkSize).frames + [Pack(L, crafts, chunkSize).pending])
  {
    hide Pack, FrameBytes, FileBytes;
    var k, all := Pack(L, crafts, chunkSize), Frames(L, crafts, chunkSize);
    assert all[|k.frames|] == k.pending;
    if AllWritable(L, all, chunkSize) {
      assert Writable(L, all[|k.frames|], chunkSize);
    }
  }

  // The frames together hold each aircraft once, in order.
  lemma {:induction false} FramesHold(L: Layout, crafts: seq<Craft>, chunkSize: nat)
    ensures Flatten(Frames(L, crafts, chunkSize)) == SavedAll(crafts)
  {
    PackHolds(L, crafts, chunkSize);
    FlattenSnoc(Pack(L, crafts, chunkSize).frames, Pack(L, crafts, chunkSize).pending);
  }

  lemma {:induction false} PackHolds(L: Layout, crafts: seq<Craft>, chunkSize: nat)
    ensures var k := Pack(L, crafts, chunkSize); Flatten(k.frames) + k.pending == SavedAll(crafts)
  {
    hide SizeState, EntriesBytes, Saved, SavedAll, Flatten;
    if crafts == [] {
      NoneFlat();
    } else {
      var most, a := crafts[..|crafts| - 1], crafts[|crafts| - 1];
      var k := Pack(L, most, chunkSize);
      PackHolds(L, most, chunkSize);
      FlattenSnoc(k.frames, k.pending);
      SavedSnoc(most, a);
      assert crafts == most + [a];
    }
  }

  lemma NoneFlat()
    ensures Flatten<Craft>([]) == [] && SavedAll([]) == []
  {
  }

  // Nothing goes wrong if no aircraft is larger than the buffers are at first.
  lemma SmallIsWritable(L: Layout, c: Codec, crafts: seq<Craft>, chunkSize: nat)
    requires L.Lawful() && WORD <= chunkSize && forall a :: a in crafts ==> Storable(L, c, a) && SizeState(L, Saved(a)) <= chunkSize
    ensures AllWritable(L, Frames(L, crafts, chunkSize), chunkSize)
  {
    hide Pack, FrameBytes, Layout.Lawful, Storable, SizeState, Saved;
    SmallFrames(L, c, crafts, chunkSize);
    var frames := Frames(L, crafts, chunkSize);
    forall k | 0 <= k < |frames| ensures Writable(L, frames[k], chunkSize) {
      BoundGrows(L, FrameBytes(L, frames[k]), chunkSize);
    }
  }

  lemma BoundGrows(L: Layout, b: Bytes, n: nat)
    requires L.Lawful() && |b| <= n
    ensures |L.compress(b)| <= L.bound(n)
  {
  }

  lemma {:induction false} SmallFrames(L: Layout, c: Codec, crafts: seq<Craft>, chunkSize: nat)
    requires L.Lawful() && WORD <= chunkSize && forall a :: a in crafts ==> Storable(L, c, a) && SizeState(L, Saved(a)) <= chunkSize
    ensures var k := Pack(L, crafts, chunkSize);
            k.alloc == chunkSize && |FrameBytes(L, k.pending)| <= chunkSize
            && forall i :: 0 <= i < |k.frames| ==> |FrameBytes(L, k.frames[i])| <= chunkSize
  {
    hide Layout.Lawful, Storable, SizeState, EntryBytes, Saved, Word;
    if crafts != [] {
      var most, a := crafts[..|crafts| - 1], crafts[|crafts| - 1];
      SmallFrames(L, c, most, chunkSize);
      var k := Pack(L, most, chunkSize);
      assert a in crafts;
      SavedIsSaved(L, c, a);
      EntriesSnoc(L, k.pending, Saved(a));
      EntriesSnoc(L, [], Saved(a));
      assert [] + [Saved(a)] == [Saved(a)];
    }
  }

  // An aircraft alone is saved if and only if its frame, compressed, is within the bound for the size that
  // the buffers have at first, however large its own buffer has become.
  lemma OneCraft(L: Layout, c: Codec, a: Craft, chunkSize: nat)
    requires L.Lawful() && Storable(L, c, a) && WORD <= chunkSize
    ensures AllWritable(L, Frames(L, [a], chunkSize), chunkSize) <==> Writable(L, [Saved(a)], chunkSize)
  {
    hide SizeState, EntryBytes, EntriesBytes, Layout.Lawful, Storable, Writable, Saved;
    NoBytes(L);
    EmptyWritable(L, chunkSize);
    assert [a][..0] == [] && Pack(L, [], chunkSize) == Packing([], [], chunkSize, chunkSize);
    assert Pack(L, [a], chunkSize) == PackOne(L, Pack(L, [], chunkSize), a);
    var k, frames := Pack(L, [a], chunkSize), Frames(L, [a], chunkSize);
    var none: seq<Craft> := [];
    assert none + [Saved(a)] == [Saved(a)] && [] + [none] == [none];
    assert k.pending == [Saved(a)] && (k.frames == [] || k.frames == [none]);
    assert frames == [[Saved(a)]] || frames == [none, [Saved(a)]];
    assert frames[|frames| - 1] == [Saved(a)];
  }

  lemma EmptyWritable(L: Layout, chunkSize: nat)
    requires L.Lawful() && WORD <= chunkSize
    ensures Writable(L, [], chunkSize)
  {
    NoBytes(L);
    BoundGrows(L, FrameBytes(L, []), chunkSize);
  }

  // Once a save has got through, the size that later buffers start with covers every aircraft: saving them
  // again succeeds.
  lemma SecondSaveSucceeds(L: Layout, c: Codec, crafts: seq<Craft>, chunkSize: nat)
    requires L.Lawful() && WORD <= chunkSize && forall a :: a in crafts ==> Storable(L, c, a)
    ensures var larger := Pack(L, crafts, chunkSize).chunkSize;
            larger >= chunkSize && AllWritable(L, Frames(L, crafts, larger), larger)
  {
    hide Layout.Lawful, Storable, SizeState, Saved, Pack, AllWritable;
    SizeCovers(L, crafts, chunkSize);
    SmallIsWritable(L, c, crafts, Pack(L, crafts, chunkSize).chunkSize);
  }

  lemma {:induction false} SizeCovers(L: Layout, crafts: seq<Craft>, chunkSize: nat)
    ensures var k := Pack(L, crafts, chunkSize);
            k.alloc == k.chunkSize >= chunkSize && forall a :: a in crafts ==> SizeState(L, Saved(a)) <= k.chunkSize
  {
    hide SizeState, Saved, EntriesBytes;
    if crafts != [] {
      SizeCovers(L, crafts[..|crafts| - 1], chunkSize);
      assert crafts == crafts[..|crafts| - 1] + [crafts[|crafts| - 1]];
    }
  }
}
