// The plausibility score of a candidate message, and how it relates to the decoder's verdict.
module MessageScore {
  import opened Bits
  import opened Crc
  import opened CrcDamage
  import opened CrcTables
  import opened ErrorTable
  import opened ErrorCorrection
  import opened Corrector
  import opened ProbedTable
  import opened IcaoFilter
  import opened ModeS

  // 1 << (31 - i)
  function AddressBit(i: nat): (w: Word)
    requires 8 <= i <= 31
    ensures w == Shl(1, 31 - i)
  {
    ShlPow2(31 - i);
    Pow2Monotone(31 - i, 23);
    Pow2Values();
    Shl(1, 31 - i)
  }

  // The announced address with the bits of the error pattern that lie in it flipped.
  function CorrectedAA(addr: Word, e: seq<nat>): Word {
    if e == [] then addr
    else
      var a, i := CorrectedAA(addr, e[..|e| - 1]), e[|e| - 1];
      if 8 <= i <= 31 then Xor24(a, AddressBit(i)) else a
  }

  lemma AddressBytes(m: Frame)
    ensures AA(m) == Xor(Shl(m[1], 16), Xor(Shl(m[2], 8), m[3]))
  {
    BytesOfWord(m[1], m[2], m[3]);
  }

  lemma BytesOfWord(b0: byte, b1: byte, b2: byte)
    ensures Xor(Shl(b0, 16), Xor(Shl(b1, 8), b2)) == 0x10000 * b0 + 0x100 * b1 + b2
  {
    hide Xor, Shl;
    Pow2Values();
    XorAdds(b1, b2, 8);
    ShlSmall(b1, 8, 8);
    ShlEight(b1);
    ShlEight(b0);
    ShlEight(Shl(b0, 8));
    ShlSum(b0, 8, 8);
    XorAdds(b0, Shl(b1, 8) + b2, 16);
  }

  // The three bytes of a checksum.
  function Tail(r: Word): (t: seq<byte>)
    ensures |t| == 3
  {
    [r / 0x10000, r / 0x100 % 0x100, r % 0x100]
  }

  lemma ShlEight(a: nat)
    ensures Shl(a, 8) == 0x100 * a
  {
    ShlSum(a, 3, 3);
    ShlSum(a, 6, 2);
    ShlThree(a);
    ShlThree(Shl(a, 3));
    var b := Shl(a, 6);
    assert Shl(b, 1) == 2 * b;
    assert Shl(b, 2) == 4 * b;
  }

  // Flipping a message bit flips the same bit of the address, or none.
  lemma FlipInAddress(m: Frame, i: nat)
    requires i < 8 * MSG_BYTES
    ensures AA(Flip(m, i)) == if 8 <= i <= 31 then Xor(AA(m), Shl(1, 31 - i)) else AA(m)
  {
    AddressBytes(m);
    AddressBytes(Flip(m, i));
    if 8 <= i <= 31 {
      var mask, k := BitMask(i), 31 - i - (7 - i % 8);
      ShlPow2(7 - i % 8);
      ShlSum(1, 7 - i % 8, k);
      assert Shl(mask, k) == Shl(1, 31 - i);
      var a, b, c := m[1], m[2], m[3];
      assert i / 8 == 1 || i / 8 == 2 || i / 8 == 3;
      hide Xor, Shl;
      if i / 8 == 1 {
        XorShl(a, mask, 16);
        XorLast(Shl(a, 16), Shl(mask, 16), Xor(Shl(b, 8), c));
      } else if i / 8 == 2 {
        XorShl(b, mask, 8);
        XorLast(Shl(b, 8), Shl(mask, 8), c);
        XorAssoc(Shl(a, 16), Xor(Shl(b, 8), c), Shl(mask, 8));
      } else {
        assert Shl(mask, 0) == mask by { ShlNone(mask); }
        XorAssoc(Shl(b, 8), c, mask);
        XorAssoc(Shl(a, 16), Xor(Shl(b, 8), c), mask);
      }
    }
  }

  lemma ShlNone(a: nat)
    ensures Shl(a, 0) == a
  {
  }

  // Correcting the decoded address is decoding the corrected message.
  lemma {:induction false} CorrectedAddress(m: Frame, e: seq<nat>)
    requires AllBelow(e, 8 * MSG_BYTES)
    ensures CorrectedAA(AA(m), e) == AA(FlipAll(m, e))
  {
    if e != [] {
      CorrectedAddress(m, e[..|e| - 1]);
      FlipInAddress(FlipAll(m, e[..|e| - 1]), e[|e| - 1]);
    }
  }

  // ---------------------------------------------------------------- the score

  // -1 not validated against a known address, -2 bad, otherwise the more the better.
  ghost function Score(raw: Frame, seen: Epochs, c: Config, validbits: nat): int {
    if validbits < SHORT_BITS then -2
    else if validbits >= LONG_BITS && TypeFixed(raw, c) then (if seen.Known(AA(AsSquitter(raw))) then 900 else 700)
    else if validbits < MessageBits(DF(raw)) || StartsWithZeros(raw) then -2
    else SquitterScore(raw, seen, c)
  }

  ghost function SquitterScore(m: Frame, seen: Epochs, c: Config): int {
    var p := PatternOf(m, c);
    if AddressParity(DF(m)) && DF(m) < 24 then (if seen.Known(Checksum(m)) then 1000 else -1)
    else if DF(m) == 11 then
      if Checksum(m) >= 0x80 then
        if !Repairable(m, c) then -2 else if seen.Known(CorrectedAA(AA(m), p.value)) then 800 else -1
      else if seen.Known(AA(m)) then (if Checksum(m) == 0 then 1600 else 1000)
      else if Checksum(m) == 0 then 750 else -1
    else if DF(m) == 17 || DF(m) == 18 then
      if p.None? then -2
      else (if seen.Known(CorrectedAA(AA(m), p.value)) then 1800 else 1400) / (|p.value| + 1)
    else -2
  }

  // The demodulator prefers, and forwards, messages that score above 0.  Exactly three families are
  // judged differently by the decoder: all-call replies with an interrogator code from unknown
  // senders (decoded, not scored), squitters whose correction changes the address to an unknown one
  // (scored, not decoded), and the long formats 24 to 31 (decoded if known, not scored).  The bits
  // there are cover either any message or one of a short format that is not to be repaired.
  lemma ScoreMatchesVerdict(raw: Frame, seen: Epochs, c: Config, validbits: nat)
    requires c.Valid()
    requires validbits >= LONG_BITS || (validbits >= SHORT_BITS && DF(raw) < 16 && !NearlySquitter(DF(raw)))
    ensures var m := FixedType(raw, c);
            var foreign := DF(m) == 11 && 0 < Checksum(m) < 0x80 && !seen.Known(AA(m));
            var moved := (DF(m) == 17 || DF(m) == 18) && AA(Repaired(m, c)) != AA(m) && !seen.Known(AA(Repaired(m, c)));
            Score(raw, seen, c, validbits) > 0
            <==> moved || (Verdict(raw, seen, c) == 0 && !foreign && DF(m) < 24)
  {
    var m := FixedType(raw, c);
    var p := PatternOf(m, c);
    hide PatternOf, FlipAll, Checksum, AA, AllBelow, CorrectedAA, Epochs.Known, Remainder;
    assert DF(raw) > 0 ==> !StartsWithZeros(raw);
    PatternSize(m, c);
    if TypeFixed(raw, c) {
      FixedIsIntact(raw);
    }
    if p.Some? {
      CorrectedAddress(m, p.value);
      NoFlips(m);
    }
  }

  // Knowing more addresses never lowers a score.
  lemma KnowingRaises(raw: Frame, seen: Epochs, more: Epochs, c: Config, validbits: nat)
    requires c.Valid() && forall x :: seen.Known(x) ==> more.Known(x)
    ensures Score(raw, seen, c, validbits) <= Score(raw, more, c, validbits)
  {
    hide PatternOf, FlipAll, Checksum, AA, AllBelow, CorrectedAA, Epochs.Known, Remainder;
    PatternSize(FixedType(raw, c), c);
    PatternSize(raw, c);
  }

  // The sender after correction.
  ghost function Corrected(raw: Frame, c: Config): nat {
    AA(Repaired(FixedType(raw, c), c))
  }

  // A squitter's score tells how many bits were corrected, those of the type included, and whether its sender
  // is known: fewer corrected bits and a known sender score higher.
  lemma SquitterScores(a: Frame, b: Frame, seen: Epochs, c: Config)
    requires c.Valid() && Squitter(FixedType(a, c)) && Squitter(FixedType(b, c))
    requires Score(a, seen, c, LONG_BITS) > 0 && Score(b, seen, c, LONG_BITS) > 0
    ensures var m, n := CorrectedBits(a, c), CorrectedBits(b, c);
            var s, t := Score(a, seen, c, LONG_BITS), Score(b, seen, c, LONG_BITS);
            var known, other := seen.Known(Corrected(a, c)), seen.Known(Corrected(b, c));
            && (m <= n && (other ==> known) ==> s >= t)
            && (m < n && (other ==> known) ==> s > t)
            && (m == n && known && !other ==> s > t)
  {
    hide Score, CorrectedBits, Corrected, Squitter, FixedType, Epochs.Known;
    SquitterScoreIs(a, seen, c);
    SquitterScoreIs(b, seen, c);
    Shares(CorrectedBits(a, c));
    Shares(CorrectedBits(b, c));
  }

  lemma Shares(n: nat)
    requires n <= 2
    ensures 1800 / (n + 1) == [1800, 900, 600][n] && 1400 / (n + 1) == [1400, 700, 466][n]
  {
  }

  predicate Squitter(m: Frame) {
    DF(m) == 17 || DF(m) == 18
  }

  lemma SquitterScoreIs(raw: Frame, seen: Epochs, c: Config)
    requires c.Valid() && Squitter(FixedType(raw, c)) && Score(raw, seen, c, LONG_BITS) > 0
    ensures var n := CorrectedBits(raw, c);
            n <= 2 && Score(raw, seen, c, LONG_BITS) == (if seen.Known(Corrected(raw, c)) then 1800 else 1400) / (n + 1)
  {
    hide PatternOf, FlipAll, Checksum, AA, AllBelow, CorrectedAA, Epochs.Known, Remainder;
    var m := FixedType(raw, c);
    PatternSize(m, c);
    if TypeFixed(raw, c) {
      FixedIsIntact(raw);
    } else if PatternOf(m, c).Some? {
      CorrectedAddress(m, PatternOf(m, c).value);
      NoFlips(m);
    }
  }

  lemma NoFlips(m: Frame)
    ensures FlipAll(m, []) == m
  {
  }

  lemma FixedIsIntact(raw: Frame)
    requires Remainder(AsSquitter(raw)) == 0
    ensures DF(AsSquitter(raw)) == 17 && Checksum(AsSquitter(raw)) == 0
  {
    assert AsSquitter(raw)[..14] == AsSquitter(raw);
    hide Remainder;
  }
}
