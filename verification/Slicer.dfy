// Cutting message bits out of magnitude samples: 2.4 samples, or 12 fifths, per bit.
module Slicer {
  type byte = n: nat | n < 0x100

  // The five correlation functions, one for each phase of a bit within its first sample.
  function SlicePhase0(m: seq<int>, i: nat): int
    requires i + 2 < |m|
  {
    18 * m[i] - 15 * m[i + 1] - 3 * m[i + 2]
  }

  function SlicePhase1(m: seq<int>, i: nat): int
    requires i + 2 < |m|
  {
    14 * m[i] - 5 * m[i + 1] - 9 * m[i + 2]
  }

  function SlicePhase2(m: seq<int>, i: nat): int
    requires i + 2 < |m|
  {
    16 * m[i] + 5 * m[i + 1] - 20 * m[i + 2]
  }

  function SlicePhase3(m: seq<int>, i: nat): int
    requires i + 2 < |m|
  {
    7 * m[i] + 11 * m[i + 1] - 18 * m[i + 2]
  }

  function SlicePhase4(m: seq<int>, i: nat): int
    requires i + 3 < |m|
  {
    4 * m[i] + 15 * m[i + 1] - 20 * m[i + 2] + 1 * m[i + 3]
  }

  function If(b: bool, v: byte): byte {
    if b then v else 0
  }

  // The eight bits of a byte for each phase of its first bit.  The parts are distinct bits, so that
  // their disjunction is their sum.
  function Unrolled0(m: seq<int>, ptr: nat): nat
    requires ptr + 20 < |m|
  {
    If(SlicePhase0(m, ptr) > 0, 0x80) + If(SlicePhase2(m, ptr + 2) > 0, 0x40)
    + If(SlicePhase4(m, ptr + 4) > 0, 0x20) + If(SlicePhase1(m, ptr + 7) > 0, 0x10)
    + If(SlicePhase3(m, ptr + 9) > 0, 0x08) + If(SlicePhase0(m, ptr + 12) > 0, 0x04)
    + If(SlicePhase2(m, ptr + 14) > 0, 0x02) + If(SlicePhase4(m, ptr + 16) > 0, 0x01)
  }

  function Unrolled1(m: seq<int>, ptr: nat): nat
    requires ptr + 20 < |m|
  {
    If(SlicePhase1(m, ptr) > 0, 0x80) + If(SlicePhase3(m, ptr + 2) > 0, 0x40)
    + If(SlicePhase0(m, ptr + 5) > 0, 0x20) + If(SlicePhase2(m, ptr + 7) > 0, 0x10)
    + If(SlicePhase4(m, ptr + 9) > 0, 0x08) + If(SlicePhase1(m, ptr + 12) > 0, 0x04)
    + If(SlicePhase3(m, ptr + 14) > 0, 0x02) + If(SlicePhase0(m, ptr + 17) > 0, 0x01)
  }

  function Unrolled2(m: seq<int>, ptr: nat): nat
    requires ptr + 20 < |m|
  {
    If(SlicePhase2(m, ptr) > 0, 0x80) + If(SlicePhase4(m, ptr + 2) > 0, 0x40)
    + If(SlicePhase1(m, ptr + 5) > 0, 0x20) + If(SlicePhase3(m, ptr + 7) > 0, 0x10)
    + If(SlicePhase0(m, ptr + 10) > 0, 0x08) + If(SlicePhase2(m, ptr + 12) > 0, 0x04)
    + If(SlicePhase4(m, ptr + 14) > 0, 0x02) + If(SlicePhase1(m, ptr + 17) > 0, 0x01)
  }

  function Unrolled3(m: seq<int>, ptr: nat): nat
    requires ptr + 20 < |m|
  {
    If(SlicePhase3(m, ptr) > 0, 0x80) + If(SlicePhase0(m, ptr + 3) > 0, 0x40)
    + If(SlicePhase2(m, ptr + 5) > 0, 0x20) + If(SlicePhase4(m, ptr + 7) > 0, 0x10)
    + If(SlicePhase1(m, ptr + 10) > 0, 0x08) + If(SlicePhase3(m, ptr + 12) > 0, 0x04)
    + If(SlicePhase0(m, ptr + 15) > 0, 0x02) + If(SlicePhase2(m, ptr + 17) > 0, 0x01)
  }

  function Unrolled4(m: seq<int>, ptr: nat): nat
    requires ptr + 20 < |m|
  {
    If(SlicePhase4(m, ptr) > 0, 0x80) + If(SlicePhase1(m, ptr + 3) > 0, 0x40)
    + If(SlicePhase3(m, ptr + 5) > 0, 0x20) + If(SlicePhase0(m, ptr + 8) > 0, 0x10)
    + If(SlicePhase2(m, ptr + 10) > 0, 0x08) + If(SlicePhase4(m, ptr + 12) > 0, 0x04)
    + If(SlicePhase1(m, ptr + 15) > 0, 0x02) + If(SlicePhase3(m, ptr + 17) > 0, 0x01)
  }

  // One byte from ptr at a phase, with the pointer and the phase after it.
  method SliceByte(m: seq<int>, ptr: nat, phase: nat) returns (theByte: nat, next: nat, nextPhase: nat)
    requires phase < 5 && ptr + 20 < |m|
    ensures (5 * ptr + phase + 84) / 5 + 3 < |m| && theByte == ByteAt(m, 5 * ptr + phase)
    ensures nextPhase < 5 && 5 * next + nextPhase == 5 * ptr + phase + 96
  {
    match phase
    case 0 =>
      UnrolledIs0(m, ptr);
      theByte := Unrolled0(m, ptr);
      next, nextPhase := ptr + 19, 1;
    case 1 =>
      UnrolledIs1(m, ptr);
      theByte := Unrolled1(m, ptr);
      next, nextPhase := ptr + 19, 2;
    case 2 =>
      UnrolledIs2(m, ptr);
      theByte := Unrolled2(m, ptr);
      next, nextPhase := ptr + 19, 3;
    case 3 =>
      UnrolledIs3(m, ptr);
      theByte := Unrolled3(m, ptr);
      next, nextPhase := ptr + 19, 4;
    case 4 =>
      UnrolledIs4(m, ptr);
      theByte := Unrolled4(m, ptr);
      next, nextPhase := ptr + 20, 0;
  }

  // ---------------------------------------------------------------- the simple form

  function Correlation(m: seq<int>, i: nat, phase: nat): int
    requires i + 3 < |m| && phase < 5
  {
    match phase
    case 0 => SlicePhase0(m, i)
    case 1 => SlicePhase1(m, i)
    case 2 => SlicePhase2(m, i)
    case 3 => SlicePhase3(m, i)
    case 4 => SlicePhase4(m, i)
  }

  // The bit that starts u fifths of a sample into m: the sign of the correlation at its phase.
  predicate BitAt(m: seq<int>, u: nat)
    requires u / 5 + 3 < |m|
  {
    Correlation(m, u / 5, u % 5) > 0
  }

  lemma BitIs(m: seq<int>, i: nat, phase: nat)
    requires i + 3 < |m| && phase < 5
    ensures (5 * i + phase) / 5 == i && BitAt(m, 5 * i + phase) == (Correlation(m, i, phase) > 0)
  {
  }

  // The value of the first k bits from u on, most significant first.
  function Bits(m: seq<int>, u: nat, k: nat): nat
    requires k > 0 ==> (u + 12 * (k - 1)) / 5 + 3 < |m|
  {
    if k == 0 then 0 else 2 * Bits(m, u, k - 1) + (if BitAt(m, u + 12 * (k - 1)) then 1 else 0)
  }

  function ByteAt(m: seq<int>, u: nat): nat
    requires (u + 84) / 5 + 3 < |m|
  {
    Bits(m, u, 8)
  }

  // The eight bits of a byte and where each of them is taken.
  lemma ByteBits(m: seq<int>, u: nat)
    requires (u + 84) / 5 + 3 < |m|
    ensures ByteAt(m, u) == If(BitAt(m, u), 0x80) + If(BitAt(m, u + 12), 0x40) + If(BitAt(m, u + 24), 0x20)
                            + If(BitAt(m, u + 36), 0x10) + If(BitAt(m, u + 48), 0x08) + If(BitAt(m, u + 60), 0x04)
                            + If(BitAt(m, u + 72), 0x02) + If(BitAt(m, u + 84), 0x01)
  {
    hide BitAt, Bits;
    NextBit(m, u, 1);
    NextBit(m, u, 2);
    NextBit(m, u, 3);
    NextBit(m, u, 4);
    NextBit(m, u, 5);
    NextBit(m, u, 6);
    NextBit(m, u, 7);
    NextBit(m, u, 8);
  }

  lemma NextBit(m: seq<int>, u: nat, k: nat)
    requires 0 < k <= 8 && (u + 84) / 5 + 3 < |m|
    ensures (u + 12 * (k - 1)) / 5 + 3 < |m|
    ensures Bits(m, u, k) == 2 * Bits(m, u, k - 1) + If(BitAt(m, u + 12 * (k - 1)), 1)
    ensures Bits(m, u, 0) == 0
  {
  }

  lemma UnrolledIs0(m: seq<int>, ptr: nat)
    requires ptr + 20 < |m|
    ensures (5 * ptr + 84) / 5 + 3 < |m| && Unrolled0(m, ptr) == ByteAt(m, 5 * ptr)
  {
    hide BitAt, ByteAt, SlicePhase0, SlicePhase1, SlicePhase2, SlicePhase3, SlicePhase4;
    ByteBits(m, 5 * ptr);
    BitIs(m, ptr, 0);
    BitIs(m, ptr + 2, 2);
    BitIs(m, ptr + 4, 4);
    BitIs(m, ptr + 7, 1);
    BitIs(m, ptr + 9, 3);
    BitIs(m, ptr + 12, 0);
    BitIs(m, ptr + 14, 2);
    BitIs(m, ptr + 16, 4);
  }

  lemma UnrolledIs1(m: seq<int>, ptr: nat)
    requires ptr + 20 < |m|
    ensures (5 * ptr + 85) / 5 + 3 < |m| && Unrolled1(m, ptr) == ByteAt(m, 5 * ptr + 1)
  {
    hide BitAt, ByteAt, SlicePhase0, SlicePhase1, SlicePhase2, SlicePhase3, SlicePhase4;
    ByteBits(m, 5 * ptr + 1);
    BitIs(m, ptr, 1);
    BitIs(m, ptr + 2, 3);
    BitIs(m, ptr + 5, 0);
    BitIs(m, ptr + 7, 2);
    BitIs(m, ptr + 9, 4);
    BitIs(m, ptr + 12, 1);
    BitIs(m, ptr + 14, 3);
    BitIs(m, ptr + 17, 0);
  }

  lemma UnrolledIs2(m: seq<int>, ptr: nat)
    requires ptr + 20 < |m|
    ensures (5 * ptr + 86) / 5 + 3 < |m| && Unrolled2(m, ptr) == ByteAt(m, 5 * ptr + 2)
  {
    hide BitAt, ByteAt, SlicePhase0, SlicePhase1, SlicePhase2, SlicePhase3, SlicePhase4;
    ByteBits(m, 5 * ptr + 2);
    BitIs(m, ptr, 2);
    BitIs(m, ptr + 2, 4);
    BitIs(m, ptr + 5, 1);
    BitIs(m, ptr + 7, 3);
    BitIs(m, ptr + 10, 0);
    BitIs(m, ptr + 12, 2);
    BitIs(m, ptr + 14, 4);
    BitIs(m, ptr + 17, 1);
  }

  lemma UnrolledIs3(m: seq<int>, ptr: nat)
    requires ptr + 20 < |m|
    ensures (5 * ptr + 87) / 5 + 3 < |m| && Unrolled3(m, ptr) == ByteAt(m, 5 * ptr + 3)
  {
    hide BitAt, ByteAt, SlicePhase0, SlicePhase1, SlicePhase2, SlicePhase3, SlicePhase4;
    ByteBits(m, 5 * ptr + 3);
    BitIs(m, ptr, 3);
    BitIs(m, ptr + 3, 0);
    BitIs(m, ptr + 5, 2);
    BitIs(m, ptr + 7, 4);
    BitIs(m, ptr + 10, 1);
    BitIs(m, ptr + 12, 3);
    BitIs(m, ptr + 15, 0);
    BitIs(m, ptr + 17, 2);
  }

  lemma UnrolledIs4(m: seq<int>, ptr: nat)
    requires ptr + 20 < |m|
    ensures (5 * ptr + 88) / 5 + 3 < |m| && Unrolled4(m, ptr) == ByteAt(m, 5 * ptr + 4)
  {
    hide BitAt, ByteAt, SlicePhase0, SlicePhase1, SlicePhase2, SlicePhase3, SlicePhase4;
    ByteBits(m, 5 * ptr + 4);
    BitIs(m, ptr, 4);
    BitIs(m, ptr + 3, 1);
    BitIs(m, ptr + 5, 3);
    BitIs(m, ptr + 8, 0);
    BitIs(m, ptr + 10, 2);
    BitIs(m, ptr + 12, 4);
    BitIs(m, ptr + 15, 1);
    BitIs(m, ptr + 17, 3);
  }
}
