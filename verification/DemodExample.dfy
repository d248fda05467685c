// Samples from which any given message is cut out, and what the program's own decoder finds in them.
module DemodExample {
  import opened CleanSignal
  import opened Bits
  import Crc
  import opened Slicer
  import opened Demodulator
  import opened CrcDamage
  import opened ErrorTable
  import opened Corrector
  import opened IcaoFilter
  import opened ModeS
  import opened MessageScore

  function Strong(on: bool): int {
    if on then 1 else 0
  }

  // Five bits, from n on, take twelve samples.  Each bit has a sample that decides the sign of its
  // correlation; for the fourth another one is strong when it is zero.
  function Pulse(b: seq<nat>, n: nat, r: nat): int
    requires |b| == MSG_BYTES
  {
    match r
    case 1 => Strong(MessageBit(b, n))
    case 3 => Strong(MessageBit(b, n + 1))
    case 6 => Strong(MessageBit(b, n + 2))
    case 8 => Strong(MessageBit(b, n + 3))
    case 9 => Strong(!MessageBit(b, n + 3))
    case 10 => Strong(MessageBit(b, n + 4))
    case _ => 0
  }

  // A preamble that only phase 8 fits, and a message that starts there.
  function Samples(b: seq<nat>): (m: seq<int>)
    requires |b| == MSG_BYTES
    ensures |m| == 400
  {
    seq(400, i requires 0 <= i < 400 =>
      if i >= 20 then Pulse(b, 5 * ((i - 20) / 12), (i - 20) % 12) else if i == 2 then 10 else if i == 1 || i == 12 then 1 else 0)
  }

  const START: nat := 103 // phase 8 of a preamble at 0, in fifths of a sample

  lemma SampleIs(b: seq<nat>, g: nat, r: nat)
    requires |b| == MSG_BYTES && g < 24 && r < 12
    ensures Samples(b)[20 + 12 * g + r] == Pulse(b, 5 * g, r)
  {
    hide Pulse;
    assert (12 * g + r) / 12 == g && (12 * g + r) % 12 == r;
  }

  // Five bits and the sample after them.
  lemma FiveBits(b: seq<nat>, g: nat)
    requires |b| == MSG_BYTES && g < 23
    ensures var m, i, n := Samples(b), 20 + 12 * g, 5 * g;
            && (SlicePhase3(m, i) > 0 <==> MessageBit(b, n)) && (SlicePhase0(m, i + 3) > 0 <==> MessageBit(b, n + 1))
            && (SlicePhase2(m, i + 5) > 0 <==> MessageBit(b, n + 2)) && (SlicePhase4(m, i + 7) > 0 <==> MessageBit(b, n + 3))
            && (SlicePhase1(m, i + 10) > 0 <==> MessageBit(b, n + 4))
  {
    hide MessageBit, Samples;
    SampleIs(b, g, 0);
    SampleIs(b, g, 1);
    SampleIs(b, g, 2);
    SampleIs(b, g, 3);
    SampleIs(b, g, 4);
    SampleIs(b, g, 5);
    SampleIs(b, g, 6);
    SampleIs(b, g, 7);
    SampleIs(b, g, 8);
    SampleIs(b, g, 9);
    SampleIs(b, g, 10);
    SampleIs(b, g, 11);
    SampleIs(b, g + 1, 0);
  }

  lemma SampleBit(b: seq<nat>, n: nat)
    requires |b| == MSG_BYTES && n < 8 * MSG_BYTES
    ensures (START + 12 * n) / 5 + 3 < 400 && BitAt(Samples(b), START + 12 * n) == MessageBit(b, n)
  {
    hide MessageBit, BitAt, Samples, SlicePhase0, SlicePhase1, SlicePhase2, SlicePhase3, SlicePhase4;
    var g, m := n / 5, Samples(b);
    var i := 20 + 12 * g;
    FiveBits(b, g);
    match n % 5
    case 0 => BitIs(m, i, 3);
    case 1 => BitIs(m, i + 3, 0);
    case 2 => BitIs(m, i + 5, 2);
    case 3 => BitIs(m, i + 7, 4);
    case 4 => BitIs(m, i + 10, 1);
  }

  lemma SampleByte(b: seq<nat>, k: nat)
    requires |b| == MSG_BYTES && k < MSG_BYTES && b[k] < 0x100
    ensures (START + 96 * k + 84) / 5 + 3 < 400 && ByteAt(Samples(b), START + 96 * k) == b[k]
  {
    hide Samples, BitAt, ByteAt, MessageBit;
    forall n: nat | 8 * k <= n < 8 * k + 8 ensures BitCut(Samples(b), START, b, n) {
      SampleBit(b, n);
    }
    ByteOfBits(Samples(b), START, b, k);
  }

  // Any fourteen bytes are cut out of their samples, whatever the threshold.
  lemma AnyMessage(b: seq<nat>, threshold: nat)
    requires |b| == MSG_BYTES && forall k :: 0 <= k < |b| ==> b[k] < 0x100
    ensures Preamble(Samples(b), 0) && Phases(Samples(b), 0, threshold) == [8] && Sliced(Samples(b), 0, 8, MSG_BYTES) == b
  {
    hide ByteAt;
    OnlyEight(b, threshold);
    var cut := Sliced(Samples(b), 0, 8, MSG_BYTES);
    forall k | 0 <= k < MSG_BYTES ensures cut[k] == b[k] {
      SampleByte(b, k);
    }
  }

  lemma OnlyEight(b: seq<nat>, threshold: nat)
    requires |b| == MSG_BYTES
    ensures Preamble(Samples(b), 0) && Phases(Samples(b), 0, threshold) == [8]
  {
    hide Pulse;
  }

  // ---------------------------------------------------------------- the decoder

  function ToFrame(b: seq<nat>): Frame {
    seq(MSG_BYTES, i requires 0 <= i < MSG_BYTES => if i < |b| && b[i] < 0x100 then b[i] else 0)
  }

  // The demodulator with the score and the verdict of the decoder.
  ghost function WithDecoder(seen: Epochs, c: Config, threshold: nat): Setup {
    Setup(c.FixesType(), threshold,
          (pa: nat, b: seq<nat>, bits: nat) => Score(ToFrame(b), seen, c, bits),
          (pa: nat, b: seq<nat>) => Verdict(ToFrame(b), seen, c) == 0)
  }

  // No message that the decoder scores is refused for its format or cut too short.
  lemma ScoredIsCutOut(raw: Frame, seen: Epochs, c: Config)
    requires c.Valid() && Score(raw, seen, c, LONG_BITS) > 0
    ensures 8 * BytesFor(DF(raw), c.FixesType()) == MessageBits(DF(FixedType(raw, c)))
  {
    hide DamageSet, PatternOf, CorrectedAA, AllBelow, Epochs.Known, Checksum, AA;
    DamagedSquitters(DF(raw));
    ScoredFormat(raw, seen, c);
  }

  lemma ScoredFormat(raw: Frame, seen: Epochs, c: Config)
    requires c.Valid() && Score(raw, seen, c, LONG_BITS) > 0
    ensures TypeFixed(raw, c) || DF(raw) in {0, 4, 5, 11, 16, 17, 18, 20, 21}
    ensures TypeFixed(raw, c) ==> c.FixesType() && NearlySquitter(DF(raw)) && MessageBits(DF(FixedType(raw, c))) == 112
  {
    hide PatternOf, CorrectedAA, AllBelow, Epochs.Known, Checksum, AA, Crc.Remainder;
  }

  lemma OnlyPhase(m: seq<int>, s: Setup)
    requires |m| > 291 && Phases(m, 0, s.threshold) == [8] && PhaseScore(m, 0, 8, s.fixing, s.score) > NO_SCORE
    ensures BestAt(m, 0, s) == Best(PhaseScore(m, 0, 8, s.fixing, s.score), 8)
  {
    hide Phases, PhaseScore;
    var none := BestOf(m, 0, [], s.fixing, s.score);
    assert [8][..0] == [];
    assert BestOf(m, 0, [8], s.fixing, s.score) == Better(m, 0, 8, s.fixing, s.score, none);
  }

  // Any long message that the decoder scores and accepts is found in its samples.
  lemma AnyFound(raw: Frame, seen: Epochs, c: Config, threshold: nat)
    requires ValidLong(DF(raw), c.FixesType()) && Score(raw, seen, c, LONG_BITS) >= 0 && Verdict(raw, seen, c) == 0
    ensures var m, s := Samples(raw), WithDecoder(seen, c, threshold);
            && MessageAt(m, 0, s) && BestAt(m, 0, s).phase == 8 && BytesAt(m, 0, 8, s) == raw
            && LengthAt(m, 0, 8, s.fixing) == MSG_BYTES && ByteAt(m, START) == raw[0]
  {
    hide ByteAt, DamageSet, Samples, Preamble, Phases, Verdict, Score, Sliced, BestAt, ValidLong;
    var m, s := Samples(raw), WithDecoder(seen, c, threshold);
    AnyMessage(raw, threshold);
    SampleByte(raw, 0);
    assert ToFrame(raw) == raw;
    assert LengthAt(m, 0, 8, s.fixing) == MSG_BYTES;
    assert PhaseScore(m, 0, 8, s.fixing, s.score) == Score(raw, seen, c, LONG_BITS);
    OnlyPhase(m, s);
  }

  // A squitter whose first bit is damaged has format 1.  It is found and repaired, whoever sent it, but only
  // as much as for a short message is skipped.
  lemma FormatOneSkipsShort(squitter: Frame, seen: Epochs, c: Config, threshold: nat)
    requires c.FixesType() && DF(squitter) == 17 && Checksum(squitter) == 0
    ensures var raw: Frame, s := Flip(squitter, 0), WithDecoder(seen, c, threshold);
            var m := Samples(raw);
            && MessageAt(m, 0, s) && BytesAt(m, 0, BestAt(m, 0, s).phase, s) == raw && FixedType(raw, c) == squitter
            && LengthAt(m, 0, BestAt(m, 0, s).phase, s.fixing) == 14 && SkippedAt(m, 0, s) == 16 * 7
  {
    hide ByteAt, DamageSet, Samples, MessageAt, BytesAt, BestAt, LengthAt, Verdict, FixedType, Checksum, Flip, Score, DF;
    var raw: Frame := Flip(squitter, 0);
    DamagedTypeRestored(squitter, 0, seen, c);
    FormatOneScore(squitter, seen, c);
    DamagedSquitters(1);
    AnyFound(raw, seen, c, threshold);
    FirstByteOne(raw);
  }

  lemma FirstByteOne(raw: Frame)
    requires DF(raw) == 1
    ensures MessageBits(raw[0] / 8) == 56
  {
  }

  lemma FormatOneScore(squitter: Frame, seen: Epochs, c: Config)
    requires c.FixesType() && DF(squitter) == 17 && Checksum(squitter) == 0
    ensures DF(Flip(squitter, 0)) == 1 && Score(Flip(squitter, 0), seen, c, LONG_BITS) >= 700
  {
    hide Xor, Crc.Remainder, BitMask;
    TypeBitFlipped(squitter[0], 0);
    FormatMask(0);
    SeventeenFlipped();
    XorAboveThree(squitter[0], BitMask(0));
    assert AsSquitter(Flip(squitter, 0)) == squitter;
    assert squitter[..14] == squitter;
  }
}
