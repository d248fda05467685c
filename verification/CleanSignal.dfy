// A message received as it was sent: what the preamble tests and the correlations make of clean samples.
module CleanSignal {
  import opened Slicer
  import opened Demodulator

  // ---------------------------------------------------------------- bits and bytes

  function Halved(v: nat, k: nat): nat {
    if k == 0 then v else Halved(v, k - 1) / 2
  }

  // Bit n of a message, most significant first.
  predicate MessageBit(b: seq<nat>, n: nat) {
    n < 8 * |b| && Halved(b[n / 8], 7 - n % 8) % 2 == 1
  }

  // Bit n of a message that starts at u is cut out.
  predicate BitCut(m: seq<int>, u: nat, b: seq<nat>, n: nat) {
    (u + 12 * n) / 5 + 3 < |m| && BitAt(m, u + 12 * n) == MessageBit(b, n)
  }

  lemma BitOfByte(m: seq<int>, u: nat, b: seq<nat>, k: nat, i: nat)
    requires k < |b| && i < 8 && BitCut(m, u, b, 8 * k + i)
    ensures u + 12 * (8 * k + i) == u + 96 * k + 12 * i
    ensures BitAt(m, u + 96 * k + 12 * i) == (Halved(b[k], 7 - i) % 2 == 1)
  {
    hide BitAt, Halved;
    assert (8 * k + i) / 8 == k && (8 * k + i) % 8 == i;
  }

  // A byte is cut out if its bits are.
  lemma ByteOfBits(m: seq<int>, u: nat, b: seq<nat>, k: nat)
    requires k < |b| && b[k] < 0x100 && (u + 96 * k + 84) / 5 + 3 < |m|
    requires forall n: nat :: 8 * k <= n < 8 * k + 8 ==> BitCut(m, u, b, n)
    ensures ByteAt(m, u + 96 * k) == b[k]
  {
    hide BitAt, ByteAt, Halved, Slicer.If, Weighted, MessageBit, BitCut;
    var v := b[k];
    BitOfByte(m, u, b, k, 0);
    BitOfByte(m, u, b, k, 1);
    BitOfByte(m, u, b, k, 2);
    BitOfByte(m, u, b, k, 3);
    BitOfByte(m, u, b, k, 4);
    BitOfByte(m, u, b, k, 5);
    BitOfByte(m, u, b, k, 6);
    BitOfByte(m, u, b, k, 7);
    ByteBits(m, u + 96 * k);
    BitsOfByte(v);
    BitValue(Halved(v, 7), 0x80);
    BitValue(Halved(v, 6), 0x40);
    BitValue(Halved(v, 5), 0x20);
    BitValue(Halved(v, 4), 0x10);
    BitValue(Halved(v, 3), 0x08);
    BitValue(Halved(v, 2), 0x04);
    BitValue(Halved(v, 1), 0x02);
    BitValue(Halved(v, 0), 0x01);
  }

  function Weighted(v: nat, w: byte): nat {
    v % 2 * w
  }

  lemma BitValue(v: nat, w: byte)
    ensures Slicer.If(v % 2 == 1, w) == Weighted(v, w)
  {
    assert v % 2 == 0 || v % 2 == 1;
  }

  lemma BitsOfByte(v: nat)
    requires v < 0x100
    ensures v == Weighted(Halved(v, 7), 0x80) + Weighted(Halved(v, 6), 0x40) + Weighted(Halved(v, 5), 0x20)
                 + Weighted(Halved(v, 4), 0x10) + Weighted(Halved(v, 3), 0x08) + Weighted(Halved(v, 2), 0x04)
                 + Weighted(Halved(v, 1), 0x02) + Weighted(Halved(v, 0), 0x01)
  {
    hide Halved;
    HalvedStep(v, 0);
    HalvedStep(v, 1);
    HalvedStep(v, 2);
    HalvedStep(v, 3);
    HalvedStep(v, 4);
    HalvedStep(v, 5);
    HalvedStep(v, 6);
    HalvedStep(v, 7);
  }

  lemma HalvedStep(v: nat, k: nat)
    ensures Halved(v, 0) == v && Halved(v, k) == 2 * Halved(v, k + 1) + Halved(v, k) % 2
  {
  }

  // ---------------------------------------------------------------- what was sent

  // Times are in fifths of a sample.  A pulse lasts six of them; the preamble has four, and a bit one in its
  // first or in its second half.
  predicate InPreamble(d: int) {
    0 <= d < 6 || 12 <= d < 18 || 42 <= d < 48 || 54 <= d < 60
  }

  predicate InMessage(b: seq<nat>, d: int) {
    0 <= d < 96 * |b| && (MessageBit(b, d / 12) <==> d % 12 < 6)
  }

  predicate High(b: seq<nat>, start: int, f: int) {
    InPreamble(f - start) || InMessage(b, f - start - 96)
  }

  function On(b: seq<nat>, start: int, f: int): (h: int)
    ensures 0 <= h <= 1
  {
    if High(b, start, f) then 1 else 0
  }

  // How many of the fifths of sample i a pulse fills.
  function Level(b: seq<nat>, start: int, i: int): int {
    On(b, start, 5 * i) + On(b, start, 5 * i + 1) + On(b, start, 5 * i + 2) + On(b, start, 5 * i + 3) + On(b, start, 5 * i + 4)
  }

  // Samples of a message at a phase of the preamble at pa: a noise floor, and the signal for the time it is on.
  ghost predicate Clean(m: seq<int>, pa: nat, phase: nat, b: seq<nat>, noise: nat, signal: nat) {
    && 4 <= phase <= 8 && pa + 292 <= |m|
    && forall i :: pa <= i < pa + 292 ==> m[i] == noise + signal * Level(b, 5 * pa + phase - 1, i)
  }

  // ---------------------------------------------------------------- the correlations

  lemma HalfOf(b: seq<nat>, start: int, k: nat, r: nat)
    requires k < 8 * |b| && r < 12
    ensures High(b, start, start + 96 + 12 * k + r) <==> (MessageBit(b, k) <==> r < 6)
  {
    hide MessageBit;
    assert (12 * k + r) / 12 == k && (12 * k + r) % 12 == r;
  }

  // The fifths of bit k, which starts at f.
  lemma Halves(b: seq<nat>, start: int, k: nat, f: int)
    requires k < 8 * |b| && f == start + 96 + 12 * k
    ensures forall r: nat :: r < 12 ==> OnAt(b, start, f, r) == if MessageBit(b, k) == (r < 6) then 1 else 0
  {
    hide MessageBit, High;
    forall r: nat | r < 12 ensures OnAt(b, start, f, r) == if MessageBit(b, k) == (r < 6) then 1 else 0 {
      HalfOf(b, start, k, r);
    }
  }

  function OnAt(b: seq<nat>, start: int, f: int, r: int): int {
    On(b, start, f + r)
  }

  lemma LevelFrom(b: seq<nat>, start: int, f: int, r: int, i: int)
    requires f + r == 5 * i
    ensures Level(b, start, i) == OnAt(b, start, f, r) + OnAt(b, start, f, r + 1) + OnAt(b, start, f, r + 2)
                                  + OnAt(b, start, f, r + 3) + OnAt(b, start, f, r + 4)
  {
    hide On;
  }

  function Weighed(l0: int, l1: int, l2: int, l3: int, phase: nat): int
    requires phase < 5
  {
    match phase
    case 0 => 18 * l0 - 15 * l1 - 3 * l2
    case 1 => 14 * l0 - 5 * l1 - 9 * l2
    case 2 => 16 * l0 + 5 * l1 - 20 * l2
    case 3 => 7 * l0 + 11 * l1 - 18 * l2
    case 4 => 4 * l0 + 15 * l1 - 20 * l2 + l3
  }

  // Whatever the bits before and after it, a one correlates by at least 28, a zero by at most -28, or -38 where the
  // weights do not add up to zero.
  lemma BitWeighs(b: seq<nat>, start: int, k: nat, i: int, phase: nat)
    requires k < 8 * |b| && phase < 5 && 5 * i + phase == start + 96 + 12 * k
    ensures var w := Weighed(Level(b, start, i), Level(b, start, i + 1), Level(b, start, i + 2), Level(b, start, i + 3), phase);
            if MessageBit(b, k) then w >= 28 else w <= if phase == 2 then -38 else -28
  {
    hide MessageBit, High, Level;
    var f := 5 * i + phase;
    Halves(b, start, k, f);
    LevelFrom(b, start, f, 0 - phase, i);
    LevelFrom(b, start, f, 5 - phase, i + 1);
    LevelFrom(b, start, f, 10 - phase, i + 2);
    LevelFrom(b, start, f, 15 - phase, i + 3);
    match phase
    case 0 =>
    case 1 =>
    case 2 =>
    case 3 =>
    case 4 =>
  }

  lemma Scaled(m: seq<int>, i: nat, phase: nat, noise: nat, signal: nat, l0: int, l1: int, l2: int, l3: int)
    requires i + 3 < |m| && phase < 5
    requires m[i] == noise + signal * l0 && m[i + 1] == noise + signal * l1 && m[i + 2] == noise + signal * l2
    requires m[i + 3] == noise + signal * l3
    ensures Correlation(m, i, phase) == (if phase == 2 then noise else 0) + signal * Weighed(l0, l1, l2, l3, phase)
  {
    var p0, p1, p2, p3 := signal * l0, signal * l1, signal * l2, signal * l3;
    WeighedProducts(signal, l0, l1, l2, l3, phase);
  }

  lemma WeighedProducts(a: int, l0: int, l1: int, l2: int, l3: int, phase: nat)
    requires phase < 5
    ensures a * Weighed(l0, l1, l2, l3, phase) == Weighed(a * l0, a * l1, a * l2, a * l3, phase)
  {
  }

  lemma SignOf(noise: nat, signal: nat, w: int)
    requires signal > 0 && noise <= 38 * signal
    ensures w >= 28 ==> signal * w > 0
    ensures w <= -28 ==> signal * w <= 0
    ensures w <= -38 ==> noise + signal * w <= 0
  {
    if w >= 28 {
      assert signal * w >= signal * 28;
    } else if w <= -38 {
      assert signal * w <= signal * -38;
    } else if w <= -28 {
      assert signal * w <= signal * -28;
    }
  }

  // Each bit is cut out as it was sent.
  lemma BitClean(m: seq<int>, pa: nat, phase: nat, b: seq<nat>, noise: nat, signal: nat, k: nat)
    requires Clean(m, pa, phase, b, noise, signal) && signal > 0 && noise <= 38 * signal && |b| <= 14 && k < 8 * |b|
    ensures BitCut(m, 5 * (pa + 19) + phase, b, k)
  {
    hide MessageBit, Level, BitAt, Correlation, Weighed;
    var start, u := 5 * pa + phase - 1, 5 * (pa + 19) + phase + 12 * k;
    var i, p := u / 5, u % 5;
    BitWeighs(b, start, k, i, p);
    var l0, l1, l2, l3 := Level(b, start, i), Level(b, start, i + 1), Level(b, start, i + 2), Level(b, start, i + 3);
    Scaled(m, i, p, noise, signal, l0, l1, l2, l3);
    SignOf(noise, signal, Weighed(l0, l1, l2, l3, p));
    BitIs(m, i, p);
  }

  // ---------------------------------------------------------------- the preamble

  function One(c: bool): int {
    if c then 1 else 0
  }

  // The level of sample j of a preamble at a phase.
  function Shape(phase: int, j: int): int {
    var d := 5 * j + 1 - phase;
    One(InPreamble(d)) + One(InPreamble(d + 1)) + One(InPreamble(d + 2)) + One(InPreamble(d + 3)) + One(InPreamble(d + 4))
  }

  lemma ShapeIs(m: seq<int>, pa: nat, phase: nat, b: seq<nat>, noise: nat, signal: nat, j: nat)
    requires Clean(m, pa, phase, b, noise, signal) && j <= 18
    ensures m[pa + j] == noise + signal * Shape(phase, j)
  {
    hide InPreamble, On;
    var start, f := 5 * pa + phase - 1, 5 * (pa + j);
    BeforeMessage(b, start, f);
    BeforeMessage(b, start, f + 1);
    BeforeMessage(b, start, f + 2);
    BeforeMessage(b, start, f + 3);
    BeforeMessage(b, start, f + 4);
    assert Level(b, start, pa + j) == Shape(phase, j);
  }

  lemma BeforeMessage(b: seq<nat>, start: int, f: int)
    requires f - start < 96
    ensures On(b, start, f) == One(InPreamble(f - start))
  {
    hide MessageBit;
  }

  lemma QuietShape(phase: int)
    requires 4 <= phase <= 8
    ensures Shape(phase, 5) == Shape(phase, 7) == Shape(phase, 8) == Shape(phase, 14) == Shape(phase, 15) == 0
    ensures Shape(phase, 16) == Shape(phase, 17) == Shape(phase, 18) == 0
    ensures Shape(phase, 1) >= 3 && Shape(phase, 12) >= 3
  {
  }

  lemma FirstPulse(phase: int)
    requires 4 <= phase <= 8
    ensures Shape(phase, 1) == if phase <= 5 then phase else 11 - phase
  {
  }

  lemma GapShape(phase: int)
    requires 4 <= phase <= 8
    ensures Shape(phase, 2) == if phase <= 5 then 0 else phase - 5
  {
  }

  lemma SecondPulse(phase: int)
    requires 4 <= phase <= 8
    ensures Shape(phase, 3) == 9 - phase
    ensures Shape(phase, 4) == phase - 3
  {
  }

  lemma ThirdPulse(phase: int)
    requires 4 <= phase <= 8
    ensures Shape(phase, 9) == 9 - phase
    ensures Shape(phase, 10) == phase - 3
  {
  }

  lemma FourthPulse(phase: int)
    requires 4 <= phase <= 8
    ensures Shape(phase, 11) == if phase >= 7 then 0 else 7 - phase
  {
  }

  lemma LastPulse(phase: int)
    requires 4 <= phase <= 8
    ensures Shape(phase, 12) == if phase <= 6 then phase - 1 else 12 - phase
  {
  }

  // The reference level of the quiet samples is below the signal.
  predicate Audible(noise: nat, signal: nat, threshold: nat) {
    signal > 0 && noise <= 38 * signal && 5 * noise * threshold / 32 <= 19 * signal + 3 * noise
  }

  // A clean preamble passes the tests, and its phase is among those tried.
  lemma CleanPreamble(m: seq<int>, pa: nat, phase: nat, b: seq<nat>, noise: nat, signal: nat, threshold: nat)
    requires Clean(m, pa, phase, b, noise, signal) && Audible(noise, signal, threshold)
    ensures Preamble(m, pa) && phase in Phases(m, pa, threshold)
  {
    hide Shape, Clean, Mag45, Mag67, Mag8, Phases, RefLevel, Preamble;
    CleanLength(m, pa, phase, b, noise, signal);
    forall j: nat | j <= 18 ensures Shaped(m, pa, phase, noise, signal, j) {
      ShapeIs(m, pa, phase, b, noise, signal, j);
    }
    CleanTests(m, pa, phase, noise, signal);
    CleanReference(m, pa, phase, noise, signal, threshold);
    CleanMagnitude(m, pa, phase, noise, signal);
    Tried(m, pa, phase, threshold);
  }

  predicate Shaped(m: seq<int>, pa: nat, phase: nat, noise: nat, signal: nat, j: nat) {
    pa + j < |m| && m[pa + j] == noise + signal * Shape(phase, j)
  }

  lemma CleanTests(m: seq<int>, pa: nat, phase: nat, noise: nat, signal: nat)
    requires pa + 18 < |m| && 4 <= phase <= 8 && signal > 0
    requires forall j: nat :: j <= 18 ==> Shaped(m, pa, phase, noise, signal, j)
    ensures Preamble(m, pa)
  {
    hide Shape;
    QuietShape(phase);
    assert Shaped(m, pa, phase, noise, signal, 1) && Shaped(m, pa, phase, noise, signal, 7);
    assert Shaped(m, pa, phase, noise, signal, 12) && Shaped(m, pa, phase, noise, signal, 14);
    assert Shaped(m, pa, phase, noise, signal, 15);
    Strong(signal, Shape(phase, 1));
    Strong(signal, Shape(phase, 12));
  }

  lemma CleanReference(m: seq<int>, pa: nat, phase: nat, noise: nat, signal: nat, threshold: nat)
    requires pa + 18 < |m| && 4 <= phase <= 8
    requires forall j: nat :: j <= 18 ==> Shaped(m, pa, phase, noise, signal, j)
    ensures RefLevel(m, pa, threshold) == 5 * noise * threshold / 32
  {
    hide Shape;
    QuietShape(phase);
    assert Shaped(m, pa, phase, noise, signal, 5) && Shaped(m, pa, phase, noise, signal, 8);
    assert Shaped(m, pa, phase, noise, signal, 16) && Shaped(m, pa, phase, noise, signal, 17);
    assert Shaped(m, pa, phase, noise, signal, 18);
    assert m[pa + 5] + m[pa + 8] + m[pa + 16] + m[pa + 17] + m[pa + 18] == 5 * noise;
  }

  // The magnitude that belongs to a phase.
  function Magnitude(m: seq<int>, pa: nat, phase: nat): int
    requires pa + 18 < |m|
  {
    if phase <= 5 then Mag45(m, pa) else if phase <= 7 then Mag67(m, pa) else Mag8(m, pa)
  }

  lemma CleanMagnitude(m: seq<int>, pa: nat, phase: nat, noise: nat, signal: nat)
    requires pa + 18 < |m| && 4 <= phase <= 8
    requires forall j: nat :: j <= 18 ==> Shaped(m, pa, phase, noise, signal, j)
    ensures Magnitude(m, pa, phase) >= 19 * signal + 3 * noise
  {
    hide Shape;
    FirstPulse(phase);
    GapShape(phase);
    SecondPulse(phase);
    ThirdPulse(phase);
    FourthPulse(phase);
    LastPulse(phase);
    assert Shaped(m, pa, phase, noise, signal, 1) && Shaped(m, pa, phase, noise, signal, 2);
    assert Shaped(m, pa, phase, noise, signal, 3) && Shaped(m, pa, phase, noise, signal, 4);
    assert Shaped(m, pa, phase, noise, signal, 9) && Shaped(m, pa, phase, noise, signal, 10);
    assert Shaped(m, pa, phase, noise, signal, 11) && Shaped(m, pa, phase, noise, signal, 12);
    hide Shaped;
    Times(signal, phase);
  }

  // The products with the signal, for each phase.
  lemma Times(signal: nat, phase: nat)
    requires 4 <= phase <= 8
    ensures signal * (9 - phase) == 9 * signal - signal * phase && signal * (phase - 3) == signal * phase - 3 * signal
    ensures signal * (phase - 5) == signal * phase - 5 * signal && signal * (7 - phase) == 7 * signal - signal * phase
    ensures signal * (11 - phase) == 11 * signal - signal * phase && signal * (12 - phase) == 12 * signal - signal * phase
    ensures signal * (phase - 1) == signal * phase - signal && 4 * signal <= signal * phase <= 8 * signal
    ensures phase <= 5 ==> signal * phase <= 5 * signal
    ensures 6 <= phase <= 7 ==> 6 * signal <= signal * phase <= 7 * signal
    ensures phase == 8 ==> signal * phase == 8 * signal
  {
  }

  lemma Tried(m: seq<int>, pa: nat, phase: nat, threshold: nat)
    requires pa + 18 < |m| && 4 <= phase <= 8 && Magnitude(m, pa, phase) >= RefLevel(m, pa, threshold)
    ensures phase in Phases(m, pa, threshold)
  {
    hide Mag45, Mag67, Mag8, RefLevel, Demodulator.If;
    var ref := RefLevel(m, pa, threshold);
    var p, q, r := Demodulator.If(Mag45(m, pa) >= ref, [4, 5]), Demodulator.If(Mag67(m, pa) >= ref, [6, 7]),
                   Demodulator.If(Mag8(m, pa) >= ref, [8]);
    Chosen(Mag45(m, pa) >= ref, [4, 5], phase);
    Chosen(Mag67(m, pa) >= ref, [6, 7], phase);
    Chosen(Mag8(m, pa) >= ref, [8], phase);
    assert phase in p || phase in q || phase in r by {
      if phase <= 5 {
        assert [4, 5][phase - 4] == phase;
      } else if phase <= 7 {
        assert [6, 7][phase - 6] == phase;
      } else {
        assert [8][0] == phase;
      }
    }
    assert Phases(m, pa, threshold) == p + q + r;
  }

  lemma Chosen(c: bool, phases: seq<nat>, p: nat)
    ensures p in Demodulator.If(c, phases) <==> c && p in phases
  {
  }

  lemma CleanLength(m: seq<int>, pa: nat, phase: nat, b: seq<nat>, noise: nat, signal: nat)
    requires Clean(m, pa, phase, b, noise, signal)
    ensures 4 <= phase <= 8 && pa + 292 <= |m|
  {
  }

  lemma Strong(signal: nat, level: int)
    requires signal > 0 && level >= 3
    ensures signal * level > 0
  {
  }

  // ---------------------------------------------------------------- the message

  // A clean message is cut out byte for byte at its phase, and what is found at its place scores no less than
  // it does.
  lemma CleanMessage(m: seq<int>, pa: nat, phase: nat, b: seq<nat>, noise: nat, signal: nat, s: Setup)
    requires Clean(m, pa, phase, b, noise, signal) && Audible(noise, signal, s.threshold)
    requires 0 < |b| && |b| == BytesFor(b[0] / 8, s.fixing) && forall k :: 0 <= k < |b| ==> b[k] < 0x100
    ensures Preamble(m, pa) && phase in Phases(m, pa, s.threshold) && BytesAt(m, pa, phase, s) == b
    ensures BestAt(m, pa, s).score >= s.score(pa, b, 8 * |b|)
    ensures BestAt(m, pa, s).phase == phase ==> BytesAt(m, pa, BestAt(m, pa, s).phase, s) == b
  {
    hide BytesFor, ByteAt, Preamble, Phases, Clean, BestOf, BitCut;
    CleanLength(m, pa, phase, b, noise, signal);
    CleanPreamble(m, pa, phase, b, noise, signal, s.threshold);
    var u := 5 * (pa + 19) + phase;
    forall k | 0 <= k < |b| ensures (u + 96 * k + 84) / 5 + 3 < |m| && ByteAt(m, u + 96 * k) == b[k] {
      forall n: nat | 8 * k <= n < 8 * k + 8 ensures BitCut(m, u, b, n) {
        BitClean(m, pa, phase, b, noise, signal, n);
      }
      ByteOfBits(m, u, b, k);
    }
    assert ByteAt(m, u) == b[0];
    assert Sliced(m, pa, phase, |b|) == b;
    BestIsBest(m, pa, Phases(m, pa, s.threshold), s.fixing, s.score);
    assert PhaseScore(m, pa, phase, s.fixing, s.score) == s.score(pa, b, 8 * |b|);
  }
}
