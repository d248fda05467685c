// What the Mode S decoder makes of a received message: type repair, error correction, acceptance
// against the address filter, and the addresses that enter the filter.
module ModeS {
  import opened Bits
  import opened Crc
  import opened CrcDamage
  import opened ErrorPatterns
  import opened ErrorTable
  import opened ErrorCorrection
  import opened Corrector
  import opened ProbedTable
  import opened IcaoFilter

  const MSG_BYTES: nat := 14
  const SHORT_BYTES: nat := 7

  // fixDF and decode_all are options; correct and detect are those of the error corrector.
  datatype Config = Config(fixDF: bool, correct: nat, detect: nat, decodeAll: bool) {
    predicate Valid() {
      correct <= MODES_MAX_BITERRORS && correct <= detect
    }

    predicate FixesType() {
      fixDF && correct > 0
    }
  }

  type Frame = m: seq<byte> | |m| == MSG_BYTES witness Zeros(14)

  // Downlink format and announced address: bits 1 to 5 and 9 to 32.
  function DF(m: Frame): nat {
    m[0] / 8
  }

  function AA(m: Frame): (a: uint32)
    ensures a < 0x1000000
  {
    var b1: nat, b2: nat, b3: nat := m[1], m[2], m[3];
    0x10000 * b1 + 0x100 * b2 + b3
  }

  function MessageBits(df: nat): nat {
    if df >= 16 then LONG_BITS else SHORT_BITS
  }

  function Checksum(m: Frame): Word {
    Remainder(m[..MessageBits(DF(m)) / 8])
  }

  predicate StartsWithZeros(m: Frame) {
    forall k :: 0 <= k < SHORT_BYTES ==> m[k] == 0
  }

  // The formats one bit away from 17.
  predicate NearlySquitter(df: nat) {
    df == 1 || df == 25 || df == 21 || df == 19 || df == 16
  }

  function AsSquitter(m: Frame): Frame {
    m[0 := m[0] % 8 + 0x88]
  }

  predicate TypeFixed(m: Frame, c: Config) {
    c.FixesType() && NearlySquitter(DF(m)) && Remainder(AsSquitter(m)) == 0
  }

  function FixedType(m: Frame, c: Config): Frame {
    if TypeFixed(m, c) then AsSquitter(m) else m
  }

  // Formats whose checksum field is overlaid with the sender's address.
  predicate AddressParity(df: nat) {
    df == 0 || df == 4 || df == 5 || df == 16 || df == 20 || df == 21 || 24 <= df <= 31
  }

  ghost predicate Correctable(e: seq<nat>, s: Word, bits: nat, c: Config) {
    Unambiguous(e, bits, c.correct, c.detect) && AllBelow(e, bits) && Syndrome(e, bits) == s
  }

  // The bits to flip for a syndrome, if it can be diagnosed.
  ghost function Diagnosed(s: Word, bits: nat, c: Config): (p: Option<seq<nat>>)
    ensures p.Some? ==> AllBelow(p.value, bits)
  {
    if s == 0 then Some([])
    else if exists e :: Correctable(e, s, bits, c) then
      var e :| Correctable(e, s, bits, c);
      Some(e)
    else None
  }

  ghost function PatternOf(m: Frame, c: Config): (p: Option<seq<nat>>)
    ensures p.Some? ==> AllBelow(p.value, 8 * MSG_BYTES)
  {
    Diagnosed(Checksum(m), MessageBits(DF(m)), c)
  }

  // The low seven bits of an all-call reply's checksum may be an interrogator's code.
  predicate Damaged(m: Frame) {
    (DF(m) == 11 && Checksum(m) >= 0x80) || ((DF(m) == 17 || DF(m) == 18) && Checksum(m) != 0)
  }

  ghost predicate Repairable(m: Frame, c: Config) {
    PatternOf(m, c).Some? && (DF(m) == 11 ==> |PatternOf(m, c).value| <= 1)
  }

  ghost function Repaired(m: Frame, c: Config): Frame {
    if Damaged(m) && Repairable(m, c) then FlipAll(m, PatternOf(m, c).value) else m
  }

  // Bits corrected on the way, the type field included.
  ghost function CorrectedBits(raw: Frame, c: Config): nat {
    var m := FixedType(raw, c);
    if TypeFixed(raw, c) then 1
    else if Damaged(m) && Repairable(m, c) then |PatternOf(m, c).value|
    else 0
  }

  lemma Undamaged(m: Frame, c: Config)
    ensures !Damaged(m) ==> Repaired(m, c) == m
  {
  }

  // 0 accepted, -1 not validated against a known address, -2 bad.
  ghost function Verdict(raw: Frame, seen: Epochs, c: Config): int {
    if StartsWithZeros(raw) then -2 else Judgement(FixedType(raw, c), seen, c)
  }

  ghost function Judgement(m: Frame, seen: Epochs, c: Config): int {
    var fixed := Repaired(m, c);
    if AddressParity(DF(m)) then (if seen.Known(Checksum(m)) then 0 else -1)
    else if DF(m) != 11 && DF(m) != 17 && DF(m) != 18 then -2
    else if !Damaged(m) then 0
    else if !Repairable(m, c) then -2
    else if !seen.Known(AA(fixed)) && (DF(m) == 11 || AA(fixed) != AA(m)) then -1
    else 0
  }

  lemma JudgedFormats(m: Frame, seen: Epochs, c: Config)
    ensures Judgement(m, seen, c) == 0 ==> AddressParity(DF(m)) || DF(m) == 11 || DF(m) == 17 || DF(m) == 18
  {
  }

  // The low seven bits of an all-call reply's checksum, unless it was corrected as one without them.
  ghost function InterrogatorCode(m: Frame, c: Config): nat {
    if Damaged(m) && Repairable(m, c) then 0 else Checksum(m) % 0x80
  }

  // A received message that announces its sender's address beyond doubt.
  predicate IntactSquitter(raw: Frame) {
    (DF(raw) == 17 || DF(raw) == 11) && Checksum(raw) == 0
  }

  // ---------------------------------------------------------------- diagnosis

  lemma CorrectableUnique(d: seq<nat>, e: seq<nat>, s: Word, bits: nat, c: Config)
    requires c.Valid() && Correctable(d, s, bits, c) && Correctable(e, s, bits, c)
    ensures d == e
  {
    hide Syndrome;
    assert ErrorCorrection.Pattern(d, bits, 1, c.detect) && SameSyndrome(d, e, bits);
  }

  lemma DiagnosedIs(e: seq<nat>, s: Word, bits: nat, c: Config)
    requires c.Valid() && s != 0 && Correctable(e, s, bits, c)
    ensures Diagnosed(s, bits, c) == Some(e)
  {
    var d := Diagnosed(s, bits, c).value;
    hide Unambiguous;
    CorrectableUnique(d, e, s, bits, c);
  }

  // The corrector's answer is the diagnosis.
  lemma DiagnosisAgrees(s: Word, bits: nat, c: Config, info: Option<ErrorInfo>)
    requires c.Valid()
    requires s == 0 ==> info == Some(NO_ERRORS)
    requires s != 0 ==> Diagnosis(s, bits, c.correct, c.detect, info)
    ensures info.Some? <==> Diagnosed(s, bits, c).Some?
    ensures info.Some? ==> Fixes(info.value, Diagnosed(s, bits, c).value)
  {
    hide Unambiguous, Syndrome;
    if s != 0 {
      match info
      case Some(x) =>
        var e :| Explains(x, e, s, bits, c.correct, c.detect);
        assert Correctable(e, s, bits, c);
        DiagnosedIs(e, s, bits, c);
      case None =>
        assert forall e :: !Correctable(e, s, bits, c);
    }
  }

  lemma {:induction false} FlipAllPrefix(m: seq<byte>, e: seq<nat>, n: nat)
    requires n <= |m| && AllBelow(e, 8 * n)
    ensures AllBelow(e, 8 * |m|) && FlipAll(m, e)[..n] == FlipAll(m[..n], e)
  {
    if e != [] {
      FlipAllPrefix(m, e[..|e| - 1], n);
      var f, i := FlipAll(m, e[..|e| - 1]), e[|e| - 1];
      assert Flip(f, i)[..n] == Flip(f[..n], i);
    }
  }

  // An accepted squitter without corrected bits and interrogator code is one received intact.
  lemma UncorrectedIsIntact(raw: Frame, seen: Epochs, c: Config)
    requires c.Valid()
    ensures var m := FixedType(raw, c);
            && ((Verdict(raw, seen, c) == 0 && CorrectedBits(raw, c) == 0
                 && (DF(m) == 17 || (DF(m) == 11 && InterrogatorCode(m, c) == 0)))
                <==> IntactSquitter(raw))
            && (IntactSquitter(raw) ==> Repaired(m, c) == raw)
  {
    var m := FixedType(raw, c);
    PatternSize(m, c);
    hide PatternOf, FlipAll, Checksum, AA, AllBelow, Remainder, Epochs.Known;
    assert DF(raw) > 0 ==> !StartsWithZeros(raw);
  }

  lemma PatternSize(m: Frame, c: Config)
    requires c.Valid()
    ensures match PatternOf(m, c)
            case Some(e) => |e| <= MODES_MAX_BITERRORS && (e == [] <==> Checksum(m) == 0)
            case None => Checksum(m) != 0
  {
  }

  // ---------------------------------------------------------------- damage and the message fields

  lemma XorSmallKeepsHigh(b: nat, mask: nat, k: nat)
    requires mask < Pow2(k)
    ensures Shr(Xor(b, mask), k) == Shr(b, k)
  {
    XorShr(b, mask, k);
    LowSmall(mask, k);
    XorZero(Shr(b, k));
  }

  // Flipping a bit after the first five keeps the downlink format.
  lemma FlipKeepsType(m: Frame, i: nat)
    requires FIRST_BIT <= i < 8 * MSG_BYTES
    ensures DF(Flip(m, i)) == DF(m)
  {
    if i < 8 {
      Pow2Monotone(7 - i, 2);
      assert Pow2(2) == 4;
      XorSmallKeepsHigh(m[0], BitMask(i), 3);
      OctalParts(m[0]);
      OctalParts(XorByte(m[0], BitMask(i)));
    }
  }

  lemma OctalParts(b: nat)
    ensures Shr(b, 3) == b / 8 && Low(b, 3) == b % 8
  {
    Split(b, 3);
    ShlThree(Shr(b, 3));
    assert Pow2(3) == 8;
  }

  lemma ShlThree(a: nat)
    ensures Shl(a, 3) == 8 * a
  {
    assert Shl(a, 1) == 2 * a;
    assert Shl(a, 2) == 4 * a;
  }

  lemma {:induction false} DamageKeepsType(m: Frame, e: seq<nat>)
    requires AllBelow(e, 8 * MSG_BYTES) && forall k :: 0 <= k < |e| ==> e[k] >= FIRST_BIT
    ensures DF(FlipAll(m, e)) == DF(m)
  {
    if e != [] {
      var most := e[..|e| - 1];
      DamageKeepsType(m, most);
      FlipKeepsType(FlipAll(m, most), e[|e| - 1]);
    }
  }

  // The checksum of a damaged intact message is the syndrome of the damage.
  lemma DamageChecksum(m: Frame, e: seq<nat>, least: nat, most: nat)
    requires Checksum(m) == 0 && ErrorCorrection.Pattern(e, MessageBits(DF(m)), least, most)
    ensures AllBelow(e, MessageBits(DF(m))) && AllBelow(e, 8 * MSG_BYTES)
    ensures DF(FlipAll(m, e)) == DF(m) && Checksum(FlipAll(m, e)) == Syndrome(e, MessageBits(DF(m)))
  {
    hide Remainder, FlipAll, Syndrome, Xor;
    PatternBelow(e, MessageBits(DF(m)), least, most);
    PatternStart(e, MessageBits(DF(m)), least, most);
    DamageKeepsType(m, e);
    var n := MessageBits(DF(m)) / 8;
    FlipAllPrefix(m, e, n);
    FlipAllRemainder(m[..n], e);
    XorComm(0, Syndrome(e, 8 * n));
    XorZero(Syndrome(e, 8 * n));
  }

  lemma PatternStart(e: seq<nat>, bits: nat, least: nat, most: nat)
    requires ErrorCorrection.Pattern(e, bits, least, most)
    ensures forall k :: 0 <= k < |e| ==> e[k] >= FIRST_BIT
  {
  }

  // ---------------------------------------------------------------- what damage a receiver undoes

  // A squitter with a correctable damage outside the format field is restored.  It is then accepted
  // unless the damage touched the address and the restored address is unknown.
  lemma DamagedSquitterRestored(m: Frame, e: seq<nat>, seen: Epochs, c: Config)
    requires c.Valid() && (DF(m) == 17 || DF(m) == 18) && Checksum(m) == 0
    requires Unambiguous(e, LONG_BITS, c.correct, c.detect)
    ensures AllBelow(e, LONG_BITS)
    ensures var raw := FlipAll(m, e);
            && FixedType(raw, c) == raw && Repaired(raw, c) == m
            && Verdict(raw, seen, c) == if AA(raw) == AA(m) || seen.Known(AA(m)) then 0 else -1
  {
    DamageChecksum(m, e, 1, c.correct);
    var raw := FlipAll(m, e);
    RestoredBy(m, e, c);
    hide Syndrome, Unambiguous, Remainder, FlipAll;
    assert raw[0] != 0;
  }

  lemma RestoredBy(m: Frame, e: seq<nat>, c: Config)
    requires c.Valid() && Checksum(m) == 0 && Unambiguous(e, MessageBits(DF(m)), c.correct, c.detect)
    ensures AllBelow(e, MessageBits(DF(m)))
    ensures Checksum(FlipAll(m, e)) != 0 && PatternOf(FlipAll(m, e), c) == Some(e)
    ensures FlipAll(FlipAll(m, e), e) == m
  {
    var bits := MessageBits(DF(m));
    DamageChecksum(m, e, 1, c.correct);
    SmallErrorsDetected(e, bits);
    FlipAllTwice(m, e);
    var s := Syndrome(e, bits);
    hide Syndrome, Unambiguous, Remainder, FlipAll;
    DiagnosedIs(e, s, bits, c);
  }

  // An all-call reply without interrogator code and with one wrong bit is restored, and accepted if
  // its address is known, unless the syndrome passes for an interrogator code.
  lemma DamagedAllCallRestored(m: Frame, e: seq<nat>, seen: Epochs, c: Config)
    requires c.Valid() && DF(m) == 11 && Checksum(m) == 0
    requires |e| == 1 && Unambiguous(e, SHORT_BITS, c.correct, c.detect)
    ensures AllBelow(e, SHORT_BITS)
    ensures var raw := FlipAll(m, e);
            if Checksum(raw) >= 0x80 then
              Repaired(raw, c) == m && Verdict(raw, seen, c) == if seen.Known(AA(m)) then 0 else -1
            else Repaired(raw, c) == raw && Verdict(raw, seen, c) == 0
  {
    DamageChecksum(m, e, 1, c.correct);
    var raw := FlipAll(m, e);
    RestoredBy(m, e, c);
    hide Syndrome, Unambiguous, Remainder, FlipAll;
    assert raw[0] != 0;
  }

  // Two wrong bits of an all-call reply are never repaired, whoever is known: such a reply is refused, or taken as it
  // is with the damage for an interrogator code.
  lemma DamagedAllCallRefused(m: Frame, e: seq<nat>, seen: Epochs, c: Config)
    requires c.Valid() && DF(m) == 11 && Checksum(m) == 0
    requires |e| == 2 && Unambiguous(e, SHORT_BITS, c.correct, c.detect)
    ensures AllBelow(e, SHORT_BITS)
    ensures var raw := FlipAll(m, e);
            Repaired(raw, c) == raw && Verdict(raw, seen, c) == if Checksum(raw) >= 0x80 then -2 else 0
  {
    DamageChecksum(m, e, 1, c.correct);
    var raw := FlipAll(m, e);
    RestoredBy(m, e, c);
    hide Syndrome, Unambiguous, Remainder, FlipAll;
    assert raw[0] != 0;
  }

  // One wrong bit in the format field of a squitter is undone, whoever sent it.
  lemma DamagedTypeRestored(m: Frame, i: nat, seen: Epochs, c: Config)
    requires c.FixesType() && DF(m) == 17 && Checksum(m) == 0 && i < FIRST_BIT
    ensures FixedType(Flip(m, i), c) == m && Verdict(Flip(m, i), seen, c) == 0
  {
    TypeBitFlipped(m[0], i);
    var raw: Frame := Flip(m, i);
    assert AsSquitter(raw) == m;
    assert m[..14] == m;
    assert raw[0] != 0;
    hide Remainder, Flip;
  }

  lemma TypeBitFlipped(b: byte, i: nat)
    requires b / 8 == 17 && i < FIRST_BIT
    ensures var d := XorByte(b, BitMask(i));
            d % 8 + 0x88 == b && NearlySquitter(d / 8)
  {
    hide Xor, Pow2;
    FormatMask(i);
    SeventeenFlipped();
    XorAboveThree(b, BitMask(i));
  }

  lemma FormatMask(i: nat)
    requires i < FIRST_BIT
    ensures BitMask(i) == 8 * [16, 8, 4, 2, 1][i]
  {
    assert Pow2(3) == 8;
    assert Pow2(7) == 128;
  }

  lemma SeventeenFlipped()
    ensures Xor(17, 16) == 1 && Xor(17, 8) == 25 && Xor(17, 4) == 21 && Xor(17, 2) == 19 && Xor(17, 1) == 16
  {
    hide Xor;
    XorStep(17, 16);
    XorSelf(8);
    XorStep(17, 8);
    XorStep(8, 4);
    XorStep(4, 2);
    XorStep(2, 1);
    XorZero(1);
    XorStep(17, 4);
    XorStep(8, 2);
    XorStep(4, 1);
    XorZero(2);
    XorStep(17, 2);
    XorStep(8, 1);
    XorZero(4);
    XorStep(17, 1);
    XorZero(8);
  }

  lemma XorAboveThree(b: nat, mask: nat)
    requires mask % 8 == 0
    ensures Xor(b, mask) / 8 == Xor(b / 8, mask / 8) && Xor(b, mask) % 8 == b % 8
  {
    XorShr(b, mask, 3);
    XorLow(b, mask, 3);
    OctalParts(b);
    OctalParts(mask);
    OctalParts(Xor(b, mask));
    XorZero(Low(b, 3));
  }
}
