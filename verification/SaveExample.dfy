// An aircraft with a long trace whose frame does not fit into the output buffer.
module SaveExample {
  import opened TraceModel
  import opened StateBlob
  import opened StateSave

  lemma BoundMonotone(m: nat, n: nat)
    requires m <= n
    ensures m <= CompressBound(m) <= CompressBound(n)
  {
  }

  // Structs of common sizes, for aircraft with one record and one kind of chunk, and data that does not
  // compress.
  ghost function Incompressible(r: Record, chunk: StateChunk): Layout {
    Layout(1024, (x: Record) => Zeros(1024), (b: Bytes) => r, (x: Record) => x == r,
           40, (x: StateChunk) => Zeros(40), (b: Bytes) => chunk.(compressed := []), (x: StateChunk) => x == chunk,
           208, (g: FourState) => Zeros(208), (b: Bytes) => ZERO_FOUR, (g: FourState) => false,
           (b: Bytes) => b, (b: Bytes) => b, (n: nat) => CompressBound(n))
  }

  lemma IncompressibleIsLawful(r: Record, chunk: StateChunk)
    ensures Incompressible(r, chunk).Lawful()
  {
    hide CompressBound;
    forall m: nat, n: nat | m <= n ensures m <= CompressBound(m) <= CompressBound(n) {
      BoundMonotone(m, n);
    }
  }

  function Copies(chunk: StateChunk, k: nat): (s: seq<StateChunk>)
    ensures |s| == k && forall i :: 0 <= i < k ==> s[i] == chunk
  {
    seq(k, _ => chunk)
  }

  // A trace of nothing but chunks.
  function Chunked(chunk: StateChunk, k: nat): Craft {
    Craft(Record(0, [], [], false, 0, StatesIn(Copies(chunk, k)), k, 0, false), Copies(chunk, k), [])
  }

  lemma ChunkedIs(c: Codec, chunk: StateChunk, k: nat)
    requires ChunkOk(c, chunk) && k > 0
    ensures var a := Chunked(chunk, k); Consistent(c, a) && Saved(a) == a && a.rec.traceLen > 0
  {
    hide ChunkOk;
    assert Copies(chunk, k)[k - 1] == chunk;
    assert chunk.numStates > 0 by { assert ChunkOk(c, chunk); HasPoints(c, chunk); }
  }

  lemma HasPoints(c: Codec, chunk: StateChunk)
    requires ChunkOk(c, chunk)
    ensures chunk.numStates > 0 && chunk.compressedSize == |chunk.compressed|
  {
  }

  function Padded(chunk: StateChunk): (z: nat)
    ensures z >= 40
  {
    40 + RoundUp8(chunk.compressedSize)
  }

  lemma {:induction false} CopiesSize(L: Layout, chunk: StateChunk, k: nat)
    requires L.chunkSize == 40
    ensures ChunksSize(L, Copies(chunk, k)) == k * Padded(chunk)
  {
    if k > 0 {
      assert Copies(chunk, k)[1..] == Copies(chunk, k - 1);
      CopiesSize(L, chunk, k - 1);
      Times(k - 1, Padded(chunk));
    }
  }

  lemma Times(k: nat, z: nat)
    ensures (k + 1) * z == k * z + z
  {
  }

  // As many chunks as take more than m bytes.
  function Enough(m: nat, z: nat): (k: nat)
    requires z > 0
    ensures k > 0
  {
    m / z + 1
  }

  lemma EnoughIs(m: nat, z: nat)
    requires z > 0
    ensures m < Enough(m, z) * z <= m + z
  {
    var q := m / z;
    Times(q, z);
    assert m == q * z + m % z;
  }

  // Whatever the size of the buffers at first, however the chunks of the trace were compressed: with chunks
  // for twice that size the file is given up.
  lemma SaveFails(c: Codec, chunk: StateChunk, n: nat)
    requires ChunkOk(c, chunk) && |chunk.compressed| <= 0x10_0000
    requires 12 * 1024 * 1024 <= n <= 500 * 1024 * 1024
    ensures var a := Chunked(chunk, Enough(2 * n, Padded(chunk)));
            var L := Incompressible(a.rec, chunk);
            L.Lawful() && Storable(L, c, a) && !AllWritable(L, Frames(L, [a], n), n)
  {
    hide Enough, Padded, CompressBound, ChunkOk, Layout.Lawful, Writable, FrameBytes, Storable, SizeState, Consistent, Saved,
      AllWritable, Frames;
    var a := Chunked(chunk, Enough(2 * n, Padded(chunk)));
    var L := Incompressible(a.rec, chunk);
    IncompressibleIsLawful(a.rec, chunk);
    Sizes(L, c, chunk, n, a);
    OneCraft(L, c, a, n);
    BoundSmall(n);
    TooLarge(L, n, [Saved(a)]);
  }

  lemma TooLarge(L: Layout, n: nat, frame: seq<Craft>)
    requires L.bound(n) < |L.compress(FrameBytes(L, frame))|
    ensures !Writable(L, frame, n)
  {
  }

  lemma BoundSmall(n: nat)
    requires 0x2_0000 <= n
    ensures CompressBound(n) <= 2 * n
  {
  }

  lemma Sizes(L: Layout, c: Codec, chunk: StateChunk, n: nat, a: Craft)
    requires ChunkOk(c, chunk) && |chunk.compressed| <= 0x10_0000 && 12 * 1024 * 1024 <= n <= 500 * 1024 * 1024
    requires a == Chunked(chunk, Enough(2 * n, Padded(chunk))) && L == Incompressible(a.rec, chunk) && L.Lawful()
    ensures Storable(L, c, a) && 2 * n < |FrameBytes(L, [Saved(a)])|
  {
    hide ChunkOk, Layout.Lawful, StatesIn, ChunksBytes, ChunksSize, GroupsBytes, Consistent, Saved;
    var k := Enough(2 * n, Padded(chunk));
    ChunkedIs(c, chunk, k);
    CopiesSize(L, chunk, k);
    EnoughIs(2 * n, Padded(chunk));
    HasPoints(c, chunk);
    EntryAtLeast(L, c, a);
    EntriesSnoc(L, [], a);
    assert [] + [a] == [a];
  }

  lemma EntryAtLeast(L: Layout, c: Codec, a: Craft)
    requires L.Lawful() && Consistent(c, a) && a.rec.traceLen > 0
    ensures |EntryBytes(L, a)| >= ChunksSize(L, a.chunks)
  {
    hide ChunksSize, ChunkOk, Layout.Lawful, StatesIn, ChunksBytes, GroupsBytes;
    ChunksBytesSize(L, c, a.chunks);
  }
}
