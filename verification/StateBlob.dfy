// The layout of saved aircraft state: words, aircraft, frames, files.
module StateBlob {
  import opened TraceModel

  const STATE_SAVE_MAGIC: nat := 0x7ba09e63757314ce
  const STATE_SAVE_MAGIC_END: nat := STATE_SAVE_MAGIC + 1
  const WORD: nat := 8 // bytes in a uint64_t
  const HALF: nat := 4 // bytes in a uint32_t

  type Bytes = Blob

  // n as k bytes, least significant first.
  function Word(n: nat, k: nat): (b: Bytes)
    ensures |b| == k
  {
    if k == 0 then [] else [n % 0x100] + Word(n / 0x100, k - 1)
  }

  function Value(b: Bytes): nat {
    if b == [] then 0 else b[0] + 0x100 * Value(b[1..])
  }

  function Limit(k: nat): nat {
    if k == 0 then 1 else 0x100 * Limit(k - 1)
  }

  lemma {:induction false} WordValue(n: nat, k: nat)
    requires n < Limit(k)
    ensures Value(Word(n, k)) == n
  {
    if k > 0 { WordValue(n / 0x100, k - 1); }
  }

  lemma Limits()
    ensures Limit(HALF) == 0x1_0000_0000 && Limit(WORD) == 0x1_0000_0000_0000_0000
  {
    assert Limit(2) == 0x1_0000;
    assert Limit(4) == 0x1_0000_0000;
    assert Limit(6) == 0x1_0000_0000_0000;
  }

  // The fixed part of an aircraft; tail stands for the fields that are zeroed when saved, writeRecent
  // for the bit of trace_write that asks for the recent trace to be written.
  datatype Record = Record(addr: nat, body: seq<int>, tail: seq<int>, writeRecent: bool, traceWriteCounter: int,
                           traceLen: nat, traceChunkLen: nat, traceCurrentLen: nat, tracePosBuffered: bool)

  datatype Craft = Craft(rec: Record, chunks: seq<StateChunk>, current: seq<FourState>)

  // Struct layouts and the compression library, as functions on bytes.  Structs have room for the
  // values that fit into their fields.
  datatype Layout = Layout(
    recordSize: nat, packRecord: Record -> Bytes, unpackRecord: Bytes -> Record, recordFits: Record -> bool,
    chunkSize: nat, packChunk: StateChunk -> Bytes, unpackChunk: Bytes -> StateChunk, chunkFits: StateChunk -> bool,
    groupSize: nat, packGroup: FourState -> Bytes, unpackGroup: Bytes -> FourState, groupFits: FourState -> bool,
    compress: Bytes -> Bytes, decompress: Bytes -> Bytes, bound: nat -> nat)
  {
    // A chunk is packed without the data it points to.  Frames below 2 GB compress to below 4 GB, and
    // never to more than the bound for their size.
    ghost predicate Lawful() {
      && 0 < recordSize < 0x8000_0000 && 0 < chunkSize < 0x8000_0000 && 0 < groupSize < 0x8000_0000
      && (forall r :: |packRecord(r)| == recordSize && (recordFits(r) ==> unpackRecord(packRecord(r)) == r))
      && (forall c :: |packChunk(c)| == chunkSize && (chunkFits(c) ==> unpackChunk(packChunk(c)) == c.(compressed := [])))
      && (forall g :: |packGroup(g)| == groupSize && (groupFits(g) ==> unpackGroup(packGroup(g)) == g))
      && (forall b :: |b| < 0x8000_0000 ==> |compress(b)| < 0x1_0000_0000 && decompress(compress(b)) == b)
      && (forall b :: |compress(b)| <= bound(|b|))
      && (forall m, n :: 0 <= m <= n ==> bound(m) <= bound(n))
    }
  }

  function RoundUp8(n: nat): nat {
    (n + 7) / 8 * 8
  }

  function Zeros(n: nat): (z: Bytes)
    ensures |z| == n
  {
    seq(n, _ => 0)
  }

  // ---------------------------------------------------------------- one aircraft

  ghost predicate ChunksFit(L: Layout, chunks: seq<StateChunk>) {
    forall k :: 0 <= k < |chunks| ==> L.chunkFits(chunks[k])
  }

  ghost predicate GroupsFit(L: Layout, groups: seq<FourState>) {
    forall k :: 0 <= k < |groups| ==> L.groupFits(groups[k])
  }

  ghost predicate Fits(L: Layout, a: Craft) {
    L.recordFits(a.rec) && ChunksFit(L, a.chunks) && GroupsFit(L, a.current)
  }

  ghost predicate Consistent(c: Codec, a: Craft) {
    && a.rec.traceChunkLen == |a.chunks| && ChunksOk(c, a.chunks)
    && a.rec.traceLen == StatesIn(a.chunks) + a.rec.traceCurrentLen
    && GetFourStates(a.rec.traceCurrentLen + (if a.rec.tracePosBuffered then 1 else 0)) <= |a.current|
  }

  // The trace and the buffered point of an aircraft.
  ghost function TraceOf(c: Codec, a: Craft): seq<Point>
    requires Consistent(c, a)
  {
    Points(Unpacked(c, a.chunks), SFOUR * |Unpacked(c, a.chunks)|) + Points(a.current, a.rec.traceCurrentLen)
  }

  ghost function BufferedOf(c: Codec, a: Craft): seq<Point>
    requires Consistent(c, a)
  {
    if a.rec.tracePosBuffered then [PointAt(a.current, a.rec.traceCurrentLen)] else []
  }

  // What is saved: the buffered point used, the tail zeroed, only the groups in use.
  function Saved(a: Craft): Craft
  {
    var n := if a.rec.tracePosBuffered then 1 else 0;
    var r := a.rec.(traceLen := a.rec.traceLen + n, traceCurrentLen := a.rec.traceCurrentLen + n, tracePosBuffered := false,
                    writeRecent := a.rec.writeRecent || n > 0, traceWriteCounter := a.rec.traceWriteCounter + n, tail := []);
    var k := GetFourStates(r.traceCurrentLen);
    Craft(r, a.chunks, if k <= |a.current| then a.current[..k] else a.current)
  }

  lemma SavedTrace(c: Codec, a: Craft)
    requires Consistent(c, a)
    ensures Consistent(c, Saved(a)) && TraceOf(c, Saved(a)) == TraceOf(c, a) + BufferedOf(c, a)
    ensures BufferedOf(c, Saved(a)) == []
  {
    hide ChunkOk, Unpacked, StatesIn, PointAt;
    var n, m := a.rec.traceCurrentLen, Saved(a).rec.traceCurrentLen;
    var k := GetFourStates(m);
    PointsAgree(a.current[..k], a.current, m);
    if a.rec.tracePosBuffered {
      assert Points(a.current, m) == Points(a.current, n) + [PointAt(a.current, n)];
    }
  }

  function ChunkBytes(L: Layout, chunk: StateChunk): Bytes {
    L.packChunk(chunk) + chunk.compressed + Zeros(RoundUp8(|chunk.compressed|) - |chunk.compressed|)
  }

  function ChunksBytes(L: Layout, chunks: seq<StateChunk>): Bytes {
    if chunks == [] then [] else ChunkBytes(L, chunks[0]) + ChunksBytes(L, chunks[1..])
  }

  function GroupsBytes(L: Layout, groups: seq<FourState>): Bytes {
    if groups == [] then [] else L.packGroup(groups[0]) + GroupsBytes(L, groups[1..])
  }

  function TraceBytes(L: Layout, a: Craft): Bytes {
    if a.rec.traceLen == 0 then []
    else Word(L.groupSize, WORD) + ChunksBytes(L, a.chunks) + GroupsBytes(L, a.current)
  }

  function EntryTail(L: Layout, a: Craft): Bytes {
    Word(L.recordSize, WORD) + L.packRecord(a.rec) + TraceBytes(L, a)
  }

  // The entry of an aircraft as it is saved.
  function EntryBytes(L: Layout, a: Craft): Bytes {
    Word(STATE_SAVE_MAGIC, WORD) + EntryTail(L, a)
  }

  // ---------------------------------------------------------------- the size reserved

  function ChunksSize(L: Layout, chunks: seq<StateChunk>): nat {
    if chunks == [] then 0 else L.chunkSize + RoundUp8(chunks[0].compressedSize) + ChunksSize(L, chunks[1..])
  }

  function SizeState(L: Layout, a: Craft): nat {
    L.recordSize + ChunksSize(L, a.chunks) + L.groupSize * GetFourStates(a.rec.traceCurrentLen) + 4 * WORD
  }

  lemma {:induction false} ChunksBytesSize(L: Layout, c: Codec, chunks: seq<StateChunk>)
    requires L.Lawful() && ChunksOk(c, chunks)
    ensures |ChunksBytes(L, chunks)| == ChunksSize(L, chunks)
  {
    if chunks != [] {
      assert ChunkOk(c, chunks[0]);
      ChunksBytesSize(L, c, chunks[1..]);
    }
  }

  lemma {:induction false} GroupsBytesSize(L: Layout, groups: seq<FourState>)
    requires L.Lawful()
    ensures |GroupsBytes(L, groups)| == L.groupSize * |groups|
  {
    if groups != [] {
      GroupsBytesSize(L, groups[1..]);
      OneMore(L.groupSize, |groups| - 1);
    }
  }

  lemma OneMore(a: nat, n: nat)
    ensures a + a * n == a * (n + 1)
  {
  }

  // The size reserved always leaves a word for the mark at the end of the frame.
  lemma SpareWord(L: Layout, c: Codec, a: Craft)
    requires L.Lawful() && Consistent(c, a) && a == Saved(a)
    ensures |EntryBytes(L, a)| + WORD <= SizeState(L, a)
  {
    ChunksBytesSize(L, c, a.chunks);
    GroupsBytesSize(L, a.current);
    RecordSize(L, a.rec);
    hide ChunksBytes, GroupsBytes, ChunksSize, Layout.Lawful, Word, ChunksOk, StatesIn;
  }

  lemma RecordSize(L: Layout, r: Record)
    requires L.Lawful()
    ensures |L.packRecord(r)| == L.recordSize < 0x8000_0000
    ensures L.recordFits(r) ==> L.unpackRecord(L.packRecord(r)) == r
  {
  }

  // ---------------------------------------------------------------- frames and files

  function EntriesBytes(L: Layout, crafts: seq<Craft>): Bytes {
    if crafts == [] then [] else EntriesBytes(L, crafts[..|crafts| - 1]) + EntryBytes(L, crafts[|crafts| - 1])
  }

  function FrameBytes(L: Layout, crafts: seq<Craft>): Bytes {
    EntriesBytes(L, crafts) + Word(STATE_SAVE_MAGIC_END, WORD)
  }

  // Lengths after and before compression, then the compressed frame.
  function Stored(L: Layout, frame: Bytes): Bytes {
    var z := L.compress(frame);
    Word(|z|, HALF) + Word(|frame|, HALF) + z
  }

  function FileBytes(L: Layout, frames: seq<seq<Craft>>): Bytes {
    if frames == [] then [] else FileBytes(L, frames[..|frames| - 1]) + Stored(L, FrameBytes(L, frames[|frames| - 1]))
  }

  function Flatten<T>(s: seq<seq<T>>): seq<T> {
    if s == [] then [] else Flatten(s[..|s| - 1]) + s[|s| - 1]
  }

  function SavedAll(crafts: seq<Craft>): seq<Craft> {
    seq(|crafts|, i requires 0 <= i < |crafts| => Saved(crafts[i]))
  }

  lemma FlattenSnoc<T>(s: seq<seq<T>>, t: seq<T>)
    ensures Flatten(s + [t]) == Flatten(s) + t
  {
    assert (s + [t])[..|s|] == s;
  }

  lemma EntriesSnoc(L: Layout, crafts: seq<Craft>, a: Craft)
    ensures EntriesBytes(L, crafts + [a]) == EntriesBytes(L, crafts) + EntryBytes(L, a)
  {
    assert (crafts + [a])[..|crafts|] == crafts;
  }

  lemma FileSnoc(L: Layout, frames: seq<seq<Craft>>, f: seq<Craft>)
    ensures FileBytes(L, frames + [f]) == FileBytes(L, frames) + Stored(L, FrameBytes(L, f))
  {
    assert (frames + [f])[..|frames|] == frames;
  }

  lemma {:induction false} ChunksSnoc(L: Layout, chunks: seq<StateChunk>, c: StateChunk)
    ensures ChunksBytes(L, chunks + [c]) == ChunksBytes(L, chunks) + ChunkBytes(L, c)
  {
    if chunks != [] {
      assert (chunks + [c])[1..] == chunks[1..] + [c];
      ChunksSnoc(L, chunks[1..], c);
    }
  }
}
