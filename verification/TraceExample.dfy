// A compression library that satisfies the laws, and a source that is overwritten while it is read.
module TraceExample {
  import opened TraceModel
  import opened TraceScratch
  import opened TraceStore
  import opened TraceEdit
  import opened TraceRewrite

  // ---------------------------------------------------------------- an encoding without separators

  // The digits of i to base 4, the lowest first, and an end mark; a mark before them if i is negative.
  function IntBytes(i: int): (b: Blob)
    ensures |b| > 0
    decreases i < 0, if i < 0 then -i else i
  {
    if i == 0 then [0] else [Mark(i)] + IntBytes(Less(i))
  }

  function Mark(i: int): byte {
    if i == 0 then 0 else if i > 0 then 1 + i % 4 else 5
  }

  function Less(i: int): (j: int)
    ensures i > 0 ==> 0 <= j < i
    ensures i <= 0 ==> j == -i
  {
    if i > 0 then i / 4 else -i
  }

  function FieldsBytes(fields: seq<int>): (b: Blob)
    ensures |b| > 0
  {
    if fields == [] then [0] else [1] + (IntBytes(fields[0]) + FieldsBytes(fields[1..]))
  }

  function StateBytes(s: State): Blob {
    IntBytes(s.timestamp) + FieldsBytes(s.fields)
  }

  function GroupBytes(g: FourState): (b: Blob) {
    StateBytes(g.no0) + (StateBytes(g.no1) + (StateBytes(g.no2) + (StateBytes(g.no3) + FieldsBytes(g.zeroAll))))
  }

  function Encoded(g: seq<FourState>): Blob {
    if g == [] then [] else GroupBytes(g[0]) + Encoded(g[1..])
  }

  lemma {:induction false} IntOnce(i: int, j: int, r: Blob, s: Blob)
    requires IntBytes(i) + r == IntBytes(j) + s
    ensures i == j && r == s
    decreases i < 0, if i < 0 then -i else i
  {
    hide IntBytes, Mark, Less;
    IntStart(i, r);
    IntStart(j, s);
    SameInt(i, j);
    if i != 0 {
      IntOnce(Less(i), Less(j), r, s);
    }
  }

  lemma IntStart(i: int, r: Blob)
    ensures var b := IntBytes(i) + r; b[0] == Mark(i) && b[1..] == if i == 0 then r else IntBytes(Less(i)) + r
  {
    if i != 0 {
      JoinAssoc([Mark(i)], IntBytes(Less(i)), r);
    }
  }

  lemma SameInt(i: int, j: int)
    ensures Mark(i) == Mark(j) && (i != 0 ==> Less(i) == Less(j)) ==> i == j
    ensures Mark(i) == Mark(j) ==> (i == 0 <==> j == 0)
  {
  }

  lemma {:induction false} FieldsOnce(f: seq<int>, g: seq<int>, r: Blob, s: Blob)
    requires FieldsBytes(f) + r == FieldsBytes(g) + s
    ensures f == g && r == s
  {
    hide IntBytes;
    assert (FieldsBytes(f) + r)[0] == (FieldsBytes(g) + s)[0];
    assert (FieldsBytes(f) + r)[1..] == (FieldsBytes(g) + s)[1..];
    if f == [] {
      assert (FieldsBytes(f) + r)[1..] == r && (FieldsBytes(g) + s)[1..] == s;
    } else {
      var a, b := IntBytes(f[0]), IntBytes(g[0]);
      assert (FieldsBytes(f) + r)[1..] == (a + FieldsBytes(f[1..])) + r == a + (FieldsBytes(f[1..]) + r);
      assert (FieldsBytes(g) + s)[1..] == (b + FieldsBytes(g[1..])) + s == b + (FieldsBytes(g[1..]) + s);
      IntOnce(f[0], g[0], FieldsBytes(f[1..]) + r, FieldsBytes(g[1..]) + s);
      FieldsOnce(f[1..], g[1..], r, s);
    }
  }

  lemma StateOnce(x: State, y: State, r: Blob, s: Blob)
    requires StateBytes(x) + r == StateBytes(y) + s
    ensures x == y && r == s
  {
    hide IntBytes, FieldsBytes;
    JoinAssoc(IntBytes(x.timestamp), FieldsBytes(x.fields), r);
    JoinAssoc(IntBytes(y.timestamp), FieldsBytes(y.fields), s);
    IntOnce(x.timestamp, y.timestamp, FieldsBytes(x.fields) + r, FieldsBytes(y.fields) + s);
    FieldsOnce(x.fields, y.fields, r, s);
  }

  lemma GroupOnce(x: FourState, y: FourState, r: Blob, s: Blob)
    requires GroupBytes(x) + r == GroupBytes(y) + s
    ensures x == y && r == s
  {
    hide StateBytes, FieldsBytes;
    GroupSpread(x, r);
    GroupSpread(y, s);
    StateOnce(x.no0, y.no0, Rest1(x, r), Rest1(y, s));
    StateOnce(x.no1, y.no1, Rest2(x, r), Rest2(y, s));
    StateOnce(x.no2, y.no2, Rest3(x, r), Rest3(y, s));
    StateOnce(x.no3, y.no3, FieldsBytes(x.zeroAll) + r, FieldsBytes(y.zeroAll) + s);
    FieldsOnce(x.zeroAll, y.zeroAll, r, s);
  }

  function Rest3(g: FourState, r: Blob): Blob {
    StateBytes(g.no3) + (FieldsBytes(g.zeroAll) + r)
  }

  function Rest2(g: FourState, r: Blob): Blob {
    StateBytes(g.no2) + Rest3(g, r)
  }

  function Rest1(g: FourState, r: Blob): Blob {
    StateBytes(g.no1) + Rest2(g, r)
  }

  lemma GroupSpread(g: FourState, r: Blob)
    ensures GroupBytes(g) + r == StateBytes(g.no0) + Rest1(g, r)
  {
    hide StateBytes, FieldsBytes;
  }

  lemma {:induction false} EncodedOnce(f: seq<FourState>, g: seq<FourState>)
    requires Encoded(f) == Encoded(g)
    ensures f == g
  {
    hide GroupBytes;
    if f != [] && g != [] {
      GroupOnce(f[0], g[0], Encoded(f[1..]), Encoded(g[1..]));
      EncodedOnce(f[1..], g[1..]);
      assert f == [f[0]] + f[1..] && g == [g[0]] + g[1..];
    } else if f != [] {
      GroupSize(f[0]);
    } else if g != [] {
      GroupSize(g[0]);
    }
  }

  // At least two bytes for each state and one for the slow record.
  lemma GroupSize(g: FourState)
    ensures |GroupBytes(g)| >= 9
  {
    hide IntBytes, FieldsBytes;
  }

  lemma {:induction false} EncodedJoin(f: seq<FourState>, g: seq<FourState>)
    ensures Encoded(f + g) == Encoded(f) + Encoded(g)
  {
    hide GroupBytes;
    if f == [] {
      assert f + g == g;
    } else {
      assert (f + g)[1..] == f[1..] + g;
      EncodedJoin(f[1..], g);
      JoinAssoc(GroupBytes(f[0]), Encoded(f[1..]), Encoded(g));
    }
  }

  ghost function Decoded(b: Blob): seq<FourState> {
    if exists g :: Encoded(g) == b then
      var g :| Encoded(g) == b;
      g
    else []
  }

  lemma DecodedIs(g: seq<FourState>)
    ensures Decoded(Encoded(g)) == g
  {
    EncodedOnce(Decoded(Encoded(g)), g);
  }

  ghost function PlainCodec(): Codec {
    Codec((g: seq<FourState>) => Encoded(g), (b: Blob) => Decoded(b), (b: Blob) => true, (b: Blob) => exists g :: Encoded(g) == b)
  }

  lemma PlainIsLawful()
    ensures PlainCodec().Lawful()
  {
    var c := PlainCodec();
    forall g ensures c.decompress(c.compress(g)) == g {
      DecodedIs(g);
    }
    forall x, g | c.frames(x)
      ensures c.frames(x + c.compress(g)) && c.decompress(x + c.compress(g)) == c.decompress(x) + g
    {
      var f :| Encoded(f) == x;
      EncodedJoin(f, g);
      DecodedIs(f);
      DecodedIs(f + g);
    }
  }

  // ---------------------------------------------------------------- a source that is overwritten

  // Groups of 160 bytes and the bound of zstd; groups that compressed bytes reach read as zero.
  ghost function PlainMemory(): Memory {
    Memory(160, (n: nat) => CompressBound(n),
           (b: Blob, g: seq<FourState>) => seq(|g|, k requires 0 <= k < |g| => if |b| <= 160 * k then g[k] else ZERO_FOUR),
           (k: nat) => ZERO_FOUR)
  }

  lemma PlainMemoryIsLawful()
    ensures PlainMemory().Lawful()
  {
    var m := PlainMemory();
    forall b, g ensures |m.cover(b, g)| == |g| && m.Spared(b, g, m.cover(b, g)) {
      forall k | 0 <= k < |g| && m.Untouched(b, k) ensures m.cover(b, g)[k] == g[k] {
        assert |b| <= 160 * k;
      }
    }
  }

  // Chunks of 256 points and 16 KB, as the program has them at least.
  ghost function PlainSettings(): Settings {
    Settings(0, 64, 4 * 64, 16 * 1024, PlainCodec(), PlainMemory())
  }

  lemma SettingsAreValid()
    ensures PlainSettings().Valid()
  {
    PlainIsLawful();
    PlainMemoryIsLawful();
    hide Codec.Lawful, Memory.Lawful;
  }

  const SINCE: int := 1_700_000_000_000 // some time in milliseconds

  function Zeros(n: nat): seq<int> {
    seq(n, _ => 0)
  }

  // One point each four seconds.
  function At(i: nat): State {
    State(SINCE + 4000 * i, Zeros(8))
  }

  function Group(k: nat): FourState {
    FourState(At(4 * k), At(4 * k + 1), At(4 * k + 2), At(4 * k + 3), Zeros(2))
  }

  function Groups(n: nat): (s: seq<FourState>)
    ensures |s| == n && forall k :: 0 <= k < n ==> s[k] == Group(k)
  {
    seq(n, k requires 0 <= k => Group(k))
  }

  function FourTo(k: nat): nat {
    if k == 0 then 1 else 4 * FourTo(k - 1)
  }

  lemma {:induction false} IntSize(i: nat, k: nat)
    requires FourTo(k) <= i < FourTo(k + 1)
    ensures |IntBytes(i)| == k + 2
  {
    if k == 0 {
      assert IntBytes(i) == [Mark(i)] + IntBytes(0);
    } else {
      IntSize(i / 4, k - 1);
    }
  }

  lemma {:induction false} ZerosSize(n: nat)
    ensures |FieldsBytes(Zeros(n))| == 2 * n + 1
  {
    if n > 0 {
      assert Zeros(n)[1..] == Zeros(n - 1);
      ZerosSize(n - 1);
      assert |IntBytes(0)| == 1;
    }
  }

  lemma PlainGroupSize(k: nat)
    requires k < 64
    ensures |GroupBytes(Group(k))| == 161
  {
    hide IntBytes, FieldsBytes, Zeros, FourTo;
    assert FourTo(20) <= SINCE && SINCE + 4000 * 256 < FourTo(21) by { FourToTwenty(); }
    IntSize(SINCE + 4000 * (4 * k), 20);
    IntSize(SINCE + 4000 * (4 * k + 1), 20);
    IntSize(SINCE + 4000 * (4 * k + 2), 20);
    IntSize(SINCE + 4000 * (4 * k + 3), 20);
    ZerosSize(8);
    ZerosSize(2);
  }

  lemma FourToTwenty()
    ensures FourTo(20) == 1_099_511_627_776 && FourTo(21) == 4_398_046_511_104
  {
    assert FourTo(10) == 0x10_0000;
  }

  lemma {:induction false} EncodedSize(n: nat)
    requires n <= 64
    ensures |Encoded(Groups(n))| == 161 * n
  {
    hide GroupBytes, Group;
    if n > 0 {
      assert Groups(n) == Groups(n - 1) + [Group(n - 1)];
      EncodedSize(n - 1);
      EncodedJoin(Groups(n - 1), [Group(n - 1)]);
      PlainGroupSize(n - 1);
      assert Encoded([Group(n - 1)]) == GroupBytes(Group(n - 1)) + Encoded([]);
    }
  }

  // A whole trace of more points than are kept, in a buffer just made for it.  The first chunk takes a byte
  // more for each of its groups, within the bound; that reaches the group read next, which is then not
  // what was there.
  lemma SourceOverwritten(n: nat)
    requires SFOUR * n > 264
    ensures var cfg, s := PlainSettings(), Groups(n);
            var m, b := cfg.memory, Compress(cfg.codec, s[..64]);
            && cfg.Valid() && KeptPoints(cfg) == 264
            && Rounds(cfg, s, 0, SFOUR * n, [], Grown(0, m.Bytes(n))) == Overwritten
            && |b| <= m.bound(m.Bytes(64)) && |m.cover(b, s)| == n && m.cover(b, s)[64] != s[64]
  {
    hide Rounds, Settings.Valid, Encoded, Group;
    var cfg, s := PlainSettings(), Groups(n);
    SettingsAreValid();
    EncodedSize(64);
    assert s[..64] == Groups(64);
    NextIsNotZero();
    FirstTooLarge(cfg, s, SFOUR * n, Grown(0, cfg.memory.Bytes(n)));
  }

  lemma NextIsNotZero()
    ensures Group(64) != ZERO_FOUR
  {
  }
}
