// One message of each family that the score and the decoder's verdict judge differently.
module ScoreExamples {
  import opened Bits
  import opened Crc
  import opened CrcDamage
  import opened ErrorPatterns
  import opened ErrorCorrection
  import opened Corrector
  import opened CrcDistance
  import opened IcaoFilter
  import opened ModeS
  import opened MessageScore

  // ---------------------------------------------------------------- intact messages

  // The message completed by the checksum that makes it intact.
  function Completed(start: seq<byte>): (m: seq<byte>)
    ensures |m| == |start| + 3
  {
    start + Tail(ShiftN(Remainder(start), 24))
  }

  lemma CompletedIsIntact(start: seq<byte>)
    ensures Remainder(Completed(start)) == 0
  {
    hide Xor, Shl, Remainder, ShiftN;
    var r := ShiftN(Remainder(start), 24);
    var b0, b1, b2 := r / 0x10000, r / 0x100 % 0x100, r % 0x100;
    RemainderTail(start, b0, b1, b2);
    BytesOfWord(b0, b1, b2);
    XorAssoc(r, Shl(b0, 16), Shl(b1, 8));
    XorAssoc(r, Xor(Shl(b0, 16), Shl(b1, 8)), b2);
    XorAssoc(Shl(b0, 16), Shl(b1, 8), b2);
    XorSelf(r);
  }

  // A short or long message of the format, announcing address 0.
  function Short(df: nat): Frame
    requires df < 16
  {
    Completed([8 * df] + Zeros(3)) + Zeros(7)
  }

  function Long(df: nat): Frame
    requires 16 <= df < 32
  {
    Completed([8 * df] + Zeros(10))
  }

  lemma ShortIsIntact(df: nat)
    requires df < 16
    ensures DF(Short(df)) == df && Checksum(Short(df)) == 0 && AA(Short(df)) == 0
  {
    hide Remainder, Tail, ShiftN;
    CompletedIsIntact([8 * df] + Zeros(3));
    assert Short(df)[..7] == Completed([8 * df] + Zeros(3));
  }

  lemma LongIsIntact(df: nat)
    requires 16 <= df < 32
    ensures DF(Long(df)) == df && Checksum(Long(df)) == 0 && AA(Long(df)) == 0
  {
    hide Remainder, Tail, ShiftN;
    CompletedIsIntact([8 * df] + Zeros(10));
    assert Long(df)[..14] == Long(df);
  }

  // ---------------------------------------------------------------- the three families

  // Correction of single bits, no type repair.
  const OneBit: Config := Config(false, 1, 1, false)
  const NobodyKnown: Epochs := Epochs({}, {}, MINBITS)

  lemma SingleBit(i: nat, bits: nat)
    requires 5 <= i < bits <= 112
    ensures ErrorCorrection.Pattern([i], bits, 1, 1) && Unambiguous([i], bits, 1, 1)
  {
    SingleBitsUnambiguous([i], bits, 1);
  }

  // An all-call reply with interrogator code 1 from an unknown sender is accepted, but scores nothing.
  lemma ForeignReply()
    ensures var raw := FlipAll(Short(11), [55]);
            && DF(raw) == 11 && Checksum(raw) == 1
            && Verdict(raw, NobodyKnown, OneBit) == 0 && Score(raw, NobodyKnown, OneBit, SHORT_BITS) <= 0
  {
    hide Short, FlipAll, Checksum, AA, Unambiguous, ErrorCorrection.Pattern, Score, Verdict, Remainder, Syndrome;
    var m := Short(11);
    ShortIsIntact(11);
    SingleBit(55, SHORT_BITS);
    DamageChecksum(m, [55], 1, 1);
    SingleSyndrome([55], SHORT_BITS);
    DamagedAllCallRestored(m, [55], NobodyKnown, OneBit);
    var raw := FlipAll(m, [55]);
    LastBit();
    ScoreMatchesVerdict(raw, NobodyKnown, OneBit, SHORT_BITS);
    NotRepaired(raw);
  }

  lemma LastBit()
    ensures Power(0) == 1
  {
  }

  lemma NotRepaired(raw: Frame)
    requires DF(raw) == 11
    ensures FixedType(raw, OneBit) == raw && !NobodyKnown.Known(AA(raw))
  {
  }

  // A squitter with a wrong bit in the address of an unknown sender scores, but is not accepted.
  lemma MovedSquitter()
    ensures var raw := FlipAll(Long(17), [8]);
            && Verdict(raw, NobodyKnown, OneBit) == -1 && Score(raw, NobodyKnown, OneBit, LONG_BITS) > 0
  {
    hide Long, FlipAll, Checksum, AA, Unambiguous, ErrorCorrection.Pattern, Score, Verdict, Remainder, Syndrome, Repaired;
    var m := Long(17);
    LongIsIntact(17);
    SingleBit(8, LONG_BITS);
    DamagedSquitterRestored(m, [8], NobodyKnown, OneBit);
    DamageChecksum(m, [8], 1, 1);
    AddressMoved(m);
    ScoreMatchesVerdict(FlipAll(m, [8]), NobodyKnown, OneBit, LONG_BITS);
  }

  lemma AddressMoved(m: Frame)
    requires AA(m) == 0
    ensures AllBelow([8], 8 * MSG_BYTES) && AA(FlipAll(m, [8])) == 0x800000
  {
    hide AA, Xor, Flip;
    assert [8][..0] == [];
    assert FlipAll(m, [8]) == Flip(FlipAll(m, []), 8) == Flip(m, 8);
    FlipInAddress(m, 8);
    XorZero(Shl(1, 23));
    XorComm(0, Shl(1, 23));
    ShlPow2(23);
    Pow2Values();
  }

  // A long message of format 24 with a known address is accepted, but scores nothing.
  lemma LongFormat()
    ensures var seen := Epochs({0}, {}, MINBITS);
            Verdict(Long(24), seen, OneBit) == 0 && Score(Long(24), seen, OneBit, LONG_BITS) <= 0
  {
    LongIsIntact(24);
    hide Long, Checksum, AA, Remainder;
    assert Long(24)[0] != 0;
  }
}
