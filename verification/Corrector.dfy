// The error corrector: diagnosis of a syndrome, the fix, and the end-to-end theorem.
module Corrector {
  import opened Bits
  import opened Crc
  import opened CrcDamage
  import opened CrcOrder
  import opened CrcTables
  import opened ErrorPatterns
  import opened ErrorTable
  import opened ErrorCorrection

  const SHORT_BITS: nat := 56
  const LONG_BITS: nat := 112
  const NO_ERRORS: ErrorInfo := ErrorInfo(0, 0, [0, 0])

  // What a diagnosis of a nonzero syndrome says about the message.
  ghost predicate Diagnosis(syndrome: Word, bits: nat, correct: nat, detect: nat, info: Option<ErrorInfo>) {
    match info
    case Some(x) => exists e :: Explains(x, e, syndrome, bits, correct, detect)
    case None => forall e :: Unambiguous(e, bits, correct, detect) && AllBelow(e, bits) ==> Syndrome(e, bits) != syndrome
  }

  ghost predicate Explains(x: ErrorInfo, e: seq<nat>, syndrome: Word, bits: nat, correct: nat, detect: nat) {
    Unambiguous(e, bits, correct, detect) && Describes(x, e, bits) && x.syndrome == syndrome
  }

  class ErrorCorrector {
    const tables: ChecksumTables
    const correct: nat
    const detect: nat
    const shortTable: array?<ErrorInfo>
    const shortSize: nat
    const longTable: array?<ErrorInfo>
    const longSize: nat
    ghost const shortPatterns: seq<seq<nat>>
    ghost const longPatterns: seq<seq<nat>>

    ghost const Repr: set<object>

    ghost predicate Valid()
      reads Repr
    {
      && {tables, tables.crcTable, tables.singleBitSyndrome} <= Repr
      && (shortTable != null ==> shortTable in Repr) && (longTable != null ==> longTable in Repr)
      && tables.Valid()
      && correct <= MODES_MAX_BITERRORS && correct <= detect
      && (correct == 0 ==> shortTable == null && longTable == null)
      && (correct > 0 ==> && shortTable != null && shortSize <= shortTable.Length
                          && TableFor(shortTable[..shortSize], shortPatterns, SHORT_BITS, correct, detect))
      && (correct > 0 ==> && longTable != null && longSize <= longTable.Length
                          && TableFor(longTable[..longSize], longPatterns, LONG_BITS, correct, detect))
    }

    // No correction, single bits, or two bits with detection up to four.
    constructor ModesChecksumInit(fixBits: nat)
      ensures Valid() && fresh(Repr)
      ensures correct == if fixBits <= 1 then fixBits else 2
      ensures detect == if fixBits <= 1 then fixBits else 4
    {
      hide TableFor, ChecksumTables.Valid;
      var t := new ChecksumTables.InitLookupTables();
      var c: nat := if fixBits <= 1 then fixBits else 2;
      var d: nat := if fixBits <= 1 then fixBits else 4;
      ghost var sp, lp;
      var st: array?<ErrorInfo>, ss: nat;
      var lt: array?<ErrorInfo>, ls: nat;
      st, ss, sp := PrepareErrorTable(t, SHORT_BITS, c, d);
      lt, ls, lp := PrepareErrorTable(t, LONG_BITS, c, d);
      tables, correct, detect := t, c, d;
      shortTable, shortSize, shortPatterns := st, ss, sp;
      longTable, longSize, longPatterns := lt, ls, lp;
      Repr := {t, t.crcTable, t.singleBitSyndrome}
              + (if st == null then {} else {st as object}) + (if lt == null then {} else {lt as object});
    }

    // The entry for a syndrome, if exactly one correctable pattern explains it.
    method ModesChecksumDiagnose(syndrome: Word, bitlen: nat) returns (info: Option<ErrorInfo>)
      requires Valid() && (syndrome != 0 ==> bitlen == SHORT_BITS || bitlen == LONG_BITS)
      ensures syndrome == 0 ==> info == Some(NO_ERRORS)
      ensures syndrome != 0 ==> Diagnosis(syndrome, bitlen, correct, detect, info)
    {
      if syndrome == 0 {
        return Some(NO_ERRORS);
      }
      var table, size := longTable, longSize;
      ghost var patterns := longPatterns;
      if bitlen == SHORT_BITS {
        table, size := shortTable, shortSize;
        patterns := shortPatterns;
      }
      if table == null {
        return None;
      }
      TableSorted(table[..size], patterns, bitlen, correct, detect);
      hide TableFor;
      var k := BSearch(syndrome, table, size);
      info := if k < 0 then None else Some(table[k]);
      LookupIsDiagnosis(table[..size], patterns, k, syndrome, bitlen, correct, detect);
    }
  }

  lemma TableSorted(t: seq<ErrorInfo>, patterns: seq<seq<nat>>, bits: nat, correct: nat, detect: nat)
    requires TableFor(t, patterns, bits, correct, detect)
    ensures Sorted(t)
  {
  }

  lemma LookupIsDiagnosis(t: seq<ErrorInfo>, patterns: seq<seq<nat>>, k: int, syndrome: Word,
                          bits: nat, correct: nat, detect: nat)
    requires TableFor(t, patterns, bits, correct, detect)
    requires k >= 0 ==> k < |t| && t[k].syndrome == syndrome
    requires k < 0 ==> forall j :: 0 <= j < |t| ==> t[j].syndrome != syndrome
    ensures Diagnosis(syndrome, bits, correct, detect, if k < 0 then None else Some(t[k]))
  {
    if k >= 0 {
      DescribesAt(t, patterns, bits, k);
      assert patterns[k] in patterns;
      assert Explains(t[k], patterns[k], syndrome, bits, correct, detect);
    } else {
      forall e | Unambiguous(e, bits, correct, detect) && AllBelow(e, bits) ensures Syndrome(e, bits) != syndrome {
        var j :| 0 <= j < |patterns| && patterns[j] == e;
        DescribesAt(t, patterns, bits, j);
      }
    }
  }

  // ---------------------------------------------------------------- the fix

  // The bits an entry flips.
  ghost predicate Fixes(x: ErrorInfo, e: seq<nat>) {
    x.errors == |e| <= |x.bit| && forall k :: 0 <= k < |e| ==> x.bit[k] == e[k]
  }

  method ModesChecksumFix(msg: array<byte>, info: Option<ErrorInfo>, ghost e: seq<nat>)
    requires info.Some? ==> Fixes(info.value, e) && AllBelow(e, 8 * msg.Length)
    modifies msg
    ensures info.None? ==> msg[..] == old(msg[..])
    ensures info.Some? ==> msg[..] == FlipAll(old(msg[..]), e)
  {
    if info.None? {
      return;
    }
    ghost var m := msg[..];
    for i := 0 to info.value.errors
      invariant msg[..] == FlipAll(m, e[..i])
    {
      assert e[..i + 1][..i] == e[..i] && e[..i + 1][i] == info.value.bit[i];
      FlipBit(msg, info.value.bit[i]);
    }
    assert e[..|e|] == e;
  }

  // ---------------------------------------------------------------- the end-to-end theorem

  // One or two flipped bits of a message of at most 112 bits always change its checksum.
  lemma SmallErrorsDetected(e: seq<nat>, bits: nat)
    requires Pattern(e, bits, 1, 2) && bits <= 112
    ensures AllBelow(e, bits) && Syndrome(e, bits) != 0
  {
    var p := Power(bits - 1 - e[0]);
    assert e[..1] == [e[0]];
    XorZero(p);
    PowerNonzero(bits - 1 - e[0]);
    assert Syndrome([e[0]], bits) == p;
    if |e| == 2 {
      assert e == [e[0], e[1]];
      var q := Power(bits - 1 - e[1]);
      PowersDistinct(bits - 1 - e[1], bits - 1 - e[0]);
      XorZeroIsEqual(p, q);
      SyndromeSnoc([e[0]], e[1], bits);
    } else {
      assert e == [e[0]];
    }
  }

  // Let c be a message with checksum 0 and let e flip 1 to correct of its bits.  The damage is
  // always noticed, and the diagnosis is either exactly e, so that the fix restores c, or absent;
  // it is absent exactly when another pattern of detectable size has the same syndrome.
  lemma CorrectionIsExact(c: seq<byte>, e: seq<nat>, correct: nat, detect: nat, info: Option<ErrorInfo>)
    requires |c| <= 14 && Remainder(c) == 0
    requires correct <= MODES_MAX_BITERRORS && correct <= detect && Pattern(e, 8 * |c|, 1, correct)
    requires AllBelow(e, 8 * |c|)
    requires Diagnosis(Remainder(FlipAll(c, e)), 8 * |c|, correct, detect, info)
    ensures Remainder(FlipAll(c, e)) != 0
    ensures info.Some? <==> Unambiguous(e, 8 * |c|, correct, detect)
    ensures info.Some? ==> Describes(info.value, e, 8 * |c|) && Fixes(info.value, e)
    ensures FlipAll(FlipAll(c, e), e) == c
  {
    var bits := 8 * |c|;
    FlipAllTwice(c, e);
    FlipAllRemainder(c, e);
    XorZero(Syndrome(e, bits));
    SmallErrorsDetected(e, bits);
    hide FlipAll, Syndrome, Remainder;
    match info
    case Some(x) =>
      var d :| Explains(x, d, Syndrome(e, bits), bits, correct, detect);
      assert Pattern(e, bits, 1, detect) && SameSyndrome(e, d, bits);
    case None =>
  }

  lemma SingleSyndrome(e: seq<nat>, bits: nat)
    requires Pattern(e, bits, 1, 1)
    ensures |e| == 1 && AllBelow(e, bits) && Syndrome(e, bits) == Power(bits - 1 - e[0]) && e == [e[0]]
  {
    SyndromeSnoc([], e[0], bits);
    assert [] + [e[0]] == e;
    XorZero(Power(bits - 1 - e[0]));
  }
}
