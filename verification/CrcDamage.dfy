// Flipped bits and the syndromes they cause.
module CrcDamage {
  import opened Arith
  import opened Bits
  import opened Crc

  // x^k modulo the generator: the syndrome of a flipped bit that has k bits after it.
  function Power(k: nat): Word {
    ShiftN(1, k)
  }

  function BitMask(i: nat): (m: byte)
    ensures m == Pow2(7 - i % 8)
  {
    Pow2Values();
    Pow2Monotone(7 - i % 8, 7);
    Pow2(7 - i % 8)
  }

  lemma {:induction false} Pow2Monotone(m: nat, n: nat)
    requires m <= n
    ensures Pow2(m) <= Pow2(n)
  {
    if m < n { Pow2Monotone(m, n - 1); }
  }

  // Bit 0 is the most significant bit of the first byte.
  function Flip(msg: seq<byte>, i: nat): (r: seq<byte>)
    requires i < 8 * |msg|
    ensures |r| == |msg|
  {
    msg[i / 8 := XorByte(msg[i / 8], BitMask(i))]
  }

  function SingleBit(n: nat, i: nat): (r: seq<byte>)
    requires i < 8 * n
    ensures |r| == n
  {
    Zeros(n)[i / 8 := BitMask(i)]
  }

  lemma FlipIsXor(msg: seq<byte>, i: nat)
    requires i < 8 * |msg|
    ensures Flip(msg, i) == XorBytes(msg, SingleBit(|msg|, i))
  {
    forall k | 0 <= k < |msg|
      ensures Flip(msg, i)[k] == XorByte(msg[k], SingleBit(|msg|, i)[k])
    {
      XorZero(msg[k]);
    }
  }

  lemma {:induction false} SingleBitRemainder(n: nat, i: nat)
    requires i < 8 * n
    ensures Remainder(SingleBit(n, i)) == Power(8 * n - 1 - i)
  {
    hide Xor, Xor24, Shift, ByteStep;
    var m, msg := n - 1, SingleBit(n, i);
    if i / 8 == m {
      assert msg[..m] == Zeros(m);
      RemainderOfZeros(m);
      ByteStepIsShift(0, BitMask(i));
      ShiftNZero(8);
      SmallPower(7 - i % 8);
      XorZero(BitMask(i));
    } else {
      SingleBitRemainder(m, i);
      assert msg[..m] == SingleBit(m, i);
      ByteStepIsShift(Power(8 * m - 1 - i), 0);
      ShiftNSum(1, 8 * m - 1 - i, 8);
      XorZero(Power(8 * n - 1 - i));
    }
  }

  lemma SmallPower(k: nat)
    requires k < 24
    ensures Power(k) == Pow2(k)
  {
    Pow2Monotone(1, 24 - k);
    ShiftNSmall(1, k);
    ShlPow2(k);
  }

  lemma FlipRemainder(msg: seq<byte>, i: nat)
    requires i < 8 * |msg|
    ensures Remainder(Flip(msg, i)) == Xor(Remainder(msg), Power(8 * |msg| - 1 - i))
  {
    hide *;
    FlipIsXor(msg, i);
    RemainderLinear(msg, SingleBit(|msg|, i));
    SingleBitRemainder(|msg|, i);
  }

  // ---------------------------------------------------------------- error patterns

  predicate AllBelow(errors: seq<nat>, bits: nat) {
    forall k :: 0 <= k < |errors| ==> errors[k] < bits
  }

  function FlipAll(msg: seq<byte>, errors: seq<nat>): (r: seq<byte>)
    requires AllBelow(errors, 8 * |msg|)
    ensures |r| == |msg|
  {
    if errors == [] then msg
    else Flip(FlipAll(msg, errors[..|errors| - 1]), errors[|errors| - 1])
  }

  // The syndrome of a set of flipped bits in a message of the given number of bits.
  function Syndrome(errors: seq<nat>, bits: nat): (s: Word)
    requires AllBelow(errors, bits)
  {
    if errors == [] then 0
    else Xor24(Syndrome(errors[..|errors| - 1], bits), Power(bits - 1 - errors[|errors| - 1]))
  }

  lemma {:induction false} FlipAllRemainder(msg: seq<byte>, errors: seq<nat>)
    requires AllBelow(errors, 8 * |msg|)
    ensures Remainder(FlipAll(msg, errors)) == Xor(Remainder(msg), Syndrome(errors, 8 * |msg|))
  {
    hide Xor, Remainder, Flip, Power;
    if errors == [] {
      XorZero(Remainder(msg));
    } else {
      var n := |errors| - 1;
      FlipAllRemainder(msg, errors[..n]);
      FlipRemainder(FlipAll(msg, errors[..n]), errors[n]);
      XorAssoc(Remainder(msg), Syndrome(errors[..n], 8 * |msg|), Power(8 * |msg| - 1 - errors[n]));
    }
  }

  lemma FlipTwice(msg: seq<byte>, i: nat)
    requires i < 8 * |msg|
    ensures Flip(Flip(msg, i), i) == msg
  {
    XorCancel(msg[i / 8], BitMask(i));
  }

  lemma FlipSwap(msg: seq<byte>, i: nat, j: nat)
    requires i < 8 * |msg| && j < 8 * |msg|
    ensures Flip(Flip(msg, i), j) == Flip(Flip(msg, j), i)
  {
    hide Xor;
    if i / 8 == j / 8 {
      XorAssoc(msg[i / 8], BitMask(i), BitMask(j));
      XorComm(BitMask(i), BitMask(j));
      XorAssoc(msg[i / 8], BitMask(j), BitMask(i));
    }
  }

  lemma {:induction false} FlipPastAll(msg: seq<byte>, errors: seq<nat>, i: nat)
    requires i < 8 * |msg| && AllBelow(errors, 8 * |msg|)
    ensures FlipAll(Flip(msg, i), errors) == Flip(FlipAll(msg, errors), i)
  {
    hide Flip;
    if errors != [] {
      var n := |errors| - 1;
      FlipPastAll(msg, errors[..n], i);
      FlipSwap(FlipAll(msg, errors[..n]), i, errors[n]);
    }
  }

  // Applying a pattern twice restores the message.
  lemma {:induction false} FlipAllTwice(msg: seq<byte>, errors: seq<nat>)
    requires AllBelow(errors, 8 * |msg|)
    ensures FlipAll(FlipAll(msg, errors), errors) == msg
  {
    hide Flip;
    if errors != [] {
      var n := |errors| - 1;
      var once := FlipAll(msg, errors[..n]);
      FlipPastAll(once, errors[..n], errors[n]);
      FlipAllTwice(msg, errors[..n]);
      FlipTwice(msg, errors[n]);
    }
  }
}
