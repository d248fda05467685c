// The trace of an aircraft: points stored in groups of four, groups stored in compressed chunks.
module TraceModel {
  const SFOUR: nat := 4

  datatype State = State(timestamp: int, fields: seq<int>)

  // Four states that share one record of the fields that change slowly.
  datatype FourState = FourState(no0: State, no1: State, no2: State, no3: State, zeroAll: seq<int>) {
    function No(k: nat): State {
      if k == 0 then no0 else if k == 1 then no1 else if k == 2 then no2 else no3
    }

    function With(k: nat, s: State): FourState {
      if k == 0 then this.(no0 := s)
      else if k == 1 then this.(no1 := s)
      else if k == 2 then this.(no2 := s)
      else this.(no3 := s)
    }

    function Last(): State {
      no3
    }
  }

  const ZERO_STATE: State := State(0, [])
  const ZERO_FOUR: FourState := FourState(ZERO_STATE, ZERO_STATE, ZERO_STATE, ZERO_STATE, [])

  // What a position in the trace stands for.
  datatype Point = Point(state: State, all: seq<int>)

  function GetFourStates(points: nat): nat {
    (points + SFOUR - 1) / SFOUR
  }

  function AlignSFOUR(value: nat): nat {
    GetFourStates(value) * SFOUR
  }

  function GetState(g: seq<FourState>, i: nat): State
    requires i < SFOUR * |g|
  {
    g[i / SFOUR].No(i % SFOUR)
  }

  function PointAt(g: seq<FourState>, i: nat): Point
    requires i < SFOUR * |g|
  {
    Point(GetState(g, i), g[i / SFOUR].zeroAll)
  }

  // The first n points of a run of groups.
  function Points(g: seq<FourState>, n: nat): (t: seq<Point>)
    requires n <= SFOUR * |g|
    ensures |t| == n
  {
    seq(n, i requires 0 <= i < n => PointAt(g, i))
  }

  lemma PointsJoin(g: seq<FourState>, h: seq<FourState>, n: nat)
    requires n <= SFOUR * |h|
    ensures Points(g + h, SFOUR * |g| + n) == Points(g, SFOUR * |g|) + Points(h, n)
  {
    forall i | 0 <= i < n ensures PointAt(g + h, SFOUR * |g| + i) == PointAt(h, i) {
      assert (SFOUR * |g| + i) / SFOUR == |g| + i / SFOUR;
    }
  }

  lemma PointsAgree(g: seq<FourState>, h: seq<FourState>, n: nat)
    requires GetFourStates(n) <= |g| && GetFourStates(n) <= |h|
    requires g[..GetFourStates(n)] == h[..GetFourStates(n)]
    ensures Points(g, n) == Points(h, n)
  {
    forall i | 0 <= i < n ensures PointAt(g, i) == PointAt(h, i) {
      var k := i / SFOUR;
      assert g[k] == g[..GetFourStates(n)][k] && h[k] == h[..GetFourStates(n)][k];
    }
  }

  // Whole groups taken from the front.
  lemma PointsSplit(g: seq<FourState>, k: nat, n: nat)
    requires SFOUR * k <= n <= SFOUR * |g|
    ensures Points(g, n) == Points(g[..k], SFOUR * k) + Points(g[k..], n - SFOUR * k)
  {
    PointsJoin(g[..k], g[k..], n - SFOUR * k);
    assert g[..k] + g[k..] == g;
  }

  // ---------------------------------------------------------------- chunks

  type byte = x: int | 0 <= x < 0x100
  type Blob = seq<byte>

  // The compression library.  isZstd tells zstd data from the older format; frames holds of the
  // concatenations of zstd frames, to which further frames may be appended.
  datatype Codec = Codec(compress: seq<FourState> -> Blob, decompress: Blob -> seq<FourState>,
                         isZstd: Blob -> bool, frames: Blob -> bool)
  {
    ghost predicate Lawful() {
      && (forall g :: isZstd(compress(g)) && frames(compress(g)) && decompress(compress(g)) == g)
      && (forall x, g :: frames(x) ==>
            && isZstd(x + compress(g)) && frames(x + compress(g))
            && decompress(x + compress(g)) == decompress(x) + g)
    }
  }

  // The size that zstd never exceeds for n bytes.
  function CompressBound(n: nat): nat {
    n + n / 256 + (if n < 0x2_0000 then (0x2_0000 - n) / 0x800 else 0)
  }

  function Compress(c: Codec, g: seq<FourState>): Blob {
    c.compress(g)
  }

  function Decompress(c: Codec, x: Blob): seq<FourState> {
    c.decompress(x)
  }

  lemma CompressedFrame(c: Codec, g: seq<FourState>)
    requires c.Lawful()
    ensures c.isZstd(Compress(c, g)) && c.frames(Compress(c, g)) && Decompress(c, Compress(c, g)) == g
  {
  }

  lemma FrameAppended(c: Codec, x: Blob, g: seq<FourState>)
    requires c.Lawful() && c.frames(x)
    ensures var y := x + Compress(c, g);
            c.isZstd(y) && c.frames(y) && Decompress(c, y) == Decompress(c, x) + g
  {
  }

  datatype StateChunk = StateChunk(compressed: Blob, compressedSize: nat, numStates: nat,
                                   firstTimestamp: int, lastTimestamp: int)

  const ZERO_CHUNK: StateChunk := StateChunk([], 0, 0, 0, 0)

  ghost predicate ChunkOk(c: Codec, chunk: StateChunk) {
    var g := Decompress(c, chunk.compressed);
    && chunk.compressedSize == |chunk.compressed| && (c.isZstd(chunk.compressed) ==> c.frames(chunk.compressed))
    && 0 < chunk.numStates == SFOUR * |g|
    && chunk.firstTimestamp == g[0].no0.timestamp && chunk.lastTimestamp == g[|g| - 1].Last().timestamp
  }

  ghost predicate ChunksOk(c: Codec, chunks: seq<StateChunk>) {
    forall k :: 0 <= k < |chunks| ==> ChunkOk(c, chunks[k])
  }

  ghost function Unpacked(c: Codec, chunks: seq<StateChunk>): seq<FourState> {
    if chunks == [] then []
    else Unpacked(c, chunks[..|chunks| - 1]) + Decompress(c, chunks[|chunks| - 1].compressed)
  }

  function StatesIn(chunks: seq<StateChunk>): nat {
    if chunks == [] then 0 else StatesIn(chunks[..|chunks| - 1]) + chunks[|chunks| - 1].numStates
  }

  function BytesIn(chunks: seq<StateChunk>): nat {
    if chunks == [] then 0 else BytesIn(chunks[..|chunks| - 1]) + chunks[|chunks| - 1].compressedSize
  }

  lemma UnpackedSnoc(c: Codec, chunks: seq<StateChunk>, chunk: StateChunk)
    ensures Unpacked(c, chunks + [chunk]) == Unpacked(c, chunks) + Decompress(c, chunk.compressed)
    ensures StatesIn(chunks + [chunk]) == StatesIn(chunks) + chunk.numStates
    ensures BytesIn(chunks + [chunk]) == BytesIn(chunks) + chunk.compressedSize
  {
    assert (chunks + [chunk])[..|chunks|] == chunks;
  }

  lemma {:induction false} UnpackedSplit(c: Codec, chunks: seq<StateChunk>, k: nat)
    requires k <= |chunks|
    ensures Unpacked(c, chunks) == Unpacked(c, chunks[..k]) + Unpacked(c, chunks[k..])
    ensures StatesIn(chunks) == StatesIn(chunks[..k]) + StatesIn(chunks[k..])
    ensures BytesIn(chunks) == BytesIn(chunks[..k]) + BytesIn(chunks[k..])
  {
    if k == |chunks| {
      assert chunks[..k] == chunks && chunks[k..] == [];
    } else {
      hide *;
      var n := |chunks| - 1;
      var most, last := chunks[..n], chunks[n];
      UnpackedSplit(c, most, k);
      assert most[..k] == chunks[..k];
      assert chunks == most + [last] && chunks[k..] == most[k..] + [last];
      UnpackedSnoc(c, most, last);
      UnpackedSnoc(c, most[k..], last);
      JoinAssoc(Unpacked(c, chunks[..k]), Unpacked(c, most[k..]), Decompress(c, last.compressed));
    }
  }

  lemma JoinAssoc<T>(a: seq<T>, b: seq<T>, c: seq<T>)
    ensures (a + b) + c == a + (b + c)
  {
  }

  lemma {:induction false} UnpackedLength(c: Codec, chunks: seq<StateChunk>)
    requires ChunksOk(c, chunks)
    ensures StatesIn(chunks) == SFOUR * |Unpacked(c, chunks)|
  {
    if chunks != [] { UnpackedLength(c, chunks[..|chunks| - 1]); }
  }

  // ---------------------------------------------------------------- order in time

  ghost predicate Sorted(t: seq<Point>) {
    forall i, j :: 0 <= i < j < |t| ==> t[i].state.timestamp <= t[j].state.timestamp
  }

  ghost predicate AllBefore(t: seq<Point>, ts: int) {
    forall i :: 0 <= i < |t| ==> t[i].state.timestamp < ts
  }

  // In an ordered trace everything up to an old point is old.
  lemma OldPrefix(t: seq<Point>, n: nat, ts: int)
    requires Sorted(t) && n <= |t| && (n > 0 ==> t[n - 1].state.timestamp < ts)
    ensures AllBefore(t[..n], ts)
  {
  }

  lemma JoinedAt(g: seq<FourState>, h: seq<FourState>, i: nat)
    requires i < SFOUR * (|g| + |h|)
    ensures PointAt(g + h, i) == if i < SFOUR * |g| then PointAt(g, i) else PointAt(h, i - SFOUR * |g|)
  {
    if i >= SFOUR * |g| {
      var j := i - SFOUR * |g|;
      assert i / SFOUR == |g| + j / SFOUR && i % SFOUR == j % SFOUR;
    }
  }

  // The timestamps kept with a chunk are those of its first and last point.
  lemma ChunkBounds(c: Codec, chunks: seq<StateChunk>, k: nat)
    requires ChunksOk(c, chunks) && k < |chunks|
    ensures var u, m, n := Unpacked(c, chunks), StatesIn(chunks[..k]), StatesIn(chunks[..k + 1]);
            && m < n <= SFOUR * |u|
            && PointAt(u, m).state.timestamp == chunks[k].firstTimestamp
            && PointAt(u, n - 1).state.timestamp == chunks[k].lastTimestamp
  {
    hide Unpacked, StatesIn, BytesIn, PointAt, Decompress, ChunkOk;
    var d := Decompress(c, chunks[k].compressed);
    ChunkEnds(c, chunks[k]);
    assert chunks[..k + 1] == chunks[..k] + [chunks[k]];
    UnpackedSnoc(c, chunks[..k], chunks[k]);
    UnpackedSplit(c, chunks, k + 1);
    UnpackedLength(c, chunks[..k]);
    UnpackedLength(c, chunks[..k + 1]);
    EndsIn(Unpacked(c, chunks[..k]), d, Unpacked(c, chunks[k + 1..]));
  }

  lemma ChunkEnds(c: Codec, chunk: StateChunk)
    requires ChunkOk(c, chunk)
    ensures var d := Decompress(c, chunk.compressed);
            && 0 < chunk.numStates == SFOUR * |d| && chunk.firstTimestamp == d[0].no0.timestamp
            && chunk.lastTimestamp == d[|d| - 1].Last().timestamp
  {
  }

  lemma EndsIn(u: seq<FourState>, d: seq<FourState>, v: seq<FourState>)
    requires |d| > 0
    ensures PointAt((u + d) + v, SFOUR * |u|).state == d[0].no0
    ensures PointAt((u + d) + v, SFOUR * |u + d| - 1).state == d[|d| - 1].Last()
  {
    EndsOf(d);
    hide PointAt;
    JoinedAt(u + d, v, SFOUR * |u|);
    JoinedAt(u + d, v, SFOUR * |u + d| - 1);
    JoinedAt(u, d, SFOUR * |u|);
    JoinedAt(u, d, SFOUR * |u + d| - 1);
  }

  lemma EndsOf(g: seq<FourState>)
    requires |g| > 0
    ensures PointAt(g, 0).state == g[0].no0 && PointAt(g, SFOUR * |g| - 1).state == g[|g| - 1].Last()
  {
    assert (SFOUR * |g| - 1) / SFOUR == |g| - 1 && (SFOUR * |g| - 1) % SFOUR == 3;
  }
}
