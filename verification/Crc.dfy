// The Mode S checksum of crc.c: polynomial remainders over GF(2), the byte table, and the
// syndromes of single-bit errors.
module Crc {
  import opened Bits

  type byte = b: nat | b < 256
  type Word = w: nat | w < 0x1000000 // a polynomial of degree at most 23

  const POLY: Word := 0xfff409

  // ---------------------------------------------------------------- long division, bit by bit

  function Xor24(a: Word, b: Word): (c: Word)
    ensures c == Xor(a, b)
  {
    Pow2Values();
    XorBound(a, b, 24);
    Xor(a, b)
  }

  // Multiplication by x modulo the generator x^24 + 0xfff409.
  function Shift(r: Word): Word {
    if r >= 0x800000 then Xor24(2 * r - 0x1000000, POLY) else 2 * r
  }

  function ShiftN(r: Word, n: nat): Word {
    if n == 0 then r else Shift(ShiftN(r, n - 1))
  }

  function BitStep(r: Word, bit: nat): Word
    requires bit < 2
  {
    Xor24(Shift(r), bit)
  }

  // Takes in the first bits of b, most significant bit first.
  function ByteStep(r: Word, b: byte, bits: nat): Word
    requires bits <= 8
  {
    if bits == 0 then r else BitStep(ByteStep(r, b, bits - 1), Shr(b, 8 - bits) % 2)
  }

  // The remainder of the message polynomial, first byte first.
  function Remainder(msg: seq<byte>): Word {
    if msg == [] then 0
    else ByteStep(Remainder(msg[..|msg| - 1]), msg[|msg| - 1], 8)
  }

  // ---------------------------------------------------------------- linearity

  // Shift in terms of the top bit and the 23 bits below it.
  function Folded(low: nat, top: nat): nat {
    if top == 1 then Xor(2 * low, POLY) else 2 * low
  }

  lemma ShiftFolds(r: Word)
    ensures Shift(r) == Folded(Low(r, 23), Shr(r, 23)) && Shr(r, 23) < 2
  {
    hide Xor, Pow2, Shl;
    Pow2Values();
    ShlPow2(23);
    if r >= 0x800000 {
      SplitUnique(1, r - 0x800000, 23);
    } else {
      SplitUnique(0, r, 23);
    }
  }

  lemma FoldedLinear(a: nat, b: nat, s: nat, t: nat)
    requires s < 2 && t < 2
    ensures Folded(Xor(a, b), if s == t then 0 else 1) == Xor(Folded(a, s), Folded(b, t))
  {
    hide Xor;
    var x, y := 2 * a, 2 * b;
    XorDouble(a, b);
    XorAssoc(x, POLY, y);
    XorComm(POLY, y);
    XorAssoc(x, y, POLY);
    XorSwap(x, POLY, y, POLY);
    XorSelf(POLY);
    XorZero(Xor(x, y));
  }

  lemma ShiftLinear(a: Word, b: Word)
    ensures Shift(Xor24(a, b)) == Xor24(Shift(a), Shift(b))
  {
    ShiftFolds(a);
    ShiftFolds(b);
    ShiftFolds(Xor24(a, b));
    XorShr(a, b, 23);
    XorLow(a, b, 23);
    XorBit(Shr(a, 23), Shr(b, 23));
    hide *;
    FoldedLinear(Low(a, 23), Low(b, 23), Shr(a, 23), Shr(b, 23));
  }

  lemma XorBit(s: nat, t: nat)
    requires s < 2 && t < 2
    ensures Xor(s, t) == if s == t then 0 else 1
  {
  }

  lemma {:induction false} ShiftNLinear(a: Word, b: Word, n: nat)
    ensures ShiftN(Xor24(a, b), n) == Xor24(ShiftN(a, n), ShiftN(b, n))
  {
    if n > 0 {
      ShiftNLinear(a, b, n - 1);
      hide Shift, Xor24;
      ShiftLinear(ShiftN(a, n - 1), ShiftN(b, n - 1));
    }
  }

  lemma {:induction false} ShiftNSum(r: Word, m: nat, n: nat)
    ensures ShiftN(ShiftN(r, m), n) == ShiftN(r, m + n)
  {
    hide Shift;
    if n > 0 { ShiftNSum(r, m, n - 1); }
  }

  lemma {:induction false} ShiftNZero(n: nat)
    ensures ShiftN(0, n) == 0
  {
    if n > 0 { ShiftNZero(n - 1); }
  }

  // ---------------------------------------------------------------- whole bytes

  lemma {:induction false} ShiftNSmall(a: Word, n: nat)
    requires n <= 24 && a < Pow2(24 - n)
    ensures ShiftN(a, n) == Shl(a, n)
  {
    if n > 0 {
      ShiftNSmall(a, n - 1);
      ShlSmall(a, 24 - n, n - 1);
      Pow2Values();
    }
  }

  // The bits of b taken in so far, above the bits still missing.
  lemma {:induction false} ByteStepSplit(r: Word, b: byte, bits: nat)
    requires bits <= 8
    ensures ByteStep(r, b, bits) == Xor(ShiftN(r, bits), Shr(b, 8 - bits)) && Shr(b, 8 - bits) < Pow2(bits)
  {
    hide Xor, Xor24, Shift;
    Pow2Values();
    ShrSmall(b, 8, 8 - bits);
    if bits == 0 {
      LowSmall(b, 8);
      XorZero(r);
    } else {
      ByteStepSplit(r, b, bits - 1);
      var s, t := Shr(b, 9 - bits), Shr(b, 8 - bits);
      ShrStep(b, 8 - bits);
      assert s == t / 2;
      TakeBit(ShiftN(r, bits - 1), s, t % 2);
    }
  }

  lemma TakeBit(r: Word, s: nat, bit: nat)
    requires s < 0x80 && bit < 2
    ensures BitStep(Xor24(r, s), bit) == Xor(Shift(r), 2 * s + bit)
  {
    ShiftLinear(r, s);
    XorAssoc(Shift(r), Shift(s), bit);
    assert Pow2(1) == 2 && Shl(s, 1) == 2 * s;
    XorAdds(s, bit, 1);
    hide Xor;
  }

  // Taking in a whole byte: eight shifts, then the byte in the low bits.
  lemma ByteStepIsShift(r: Word, b: byte)
    ensures ByteStep(r, b, 8) == Xor24(ShiftN(r, 8), b)
  {
    ByteStepSplit(r, b, 8);
  }

  // ---------------------------------------------------------------- linearity of the remainder

  function XorByte(b: byte, c: byte): (d: byte)
    ensures d == Xor(b, c)
  {
    Pow2Values();
    XorBound(b, c, 8);
    Xor(b, c)
  }

  function XorBytes(a: seq<byte>, b: seq<byte>): (c: seq<byte>)
    requires |a| == |b|
    ensures |c| == |a|
  {
    seq(|a|, i requires 0 <= i < |a| => XorByte(a[i], b[i]))
  }

  lemma ByteStepLinear(r: Word, s: Word, b: byte, c: byte)
    ensures ByteStep(Xor24(r, s), XorByte(b, c), 8) == Xor24(ByteStep(r, b, 8), ByteStep(s, c, 8))
  {
    hide *;
    ByteStepIsShift(Xor24(r, s), XorByte(b, c));
    ByteStepIsShift(r, b);
    ByteStepIsShift(s, c);
    ShiftNLinear(r, s, 8);
    XorSwap(ShiftN(r, 8), ShiftN(s, 8), b, c);
  }

  // The remainder of a damaged message is the remainder of the message xor that of the damage.
  lemma {:induction false} RemainderLinear(a: seq<byte>, b: seq<byte>)
    requires |a| == |b|
    ensures Remainder(XorBytes(a, b)) == Xor(Remainder(a), Remainder(b))
  {
    if a == [] {
      assert XorBytes(a, b) == [];
      XorZero(0);
    } else {
      var n := |a| - 1;
      RemainderLinear(a[..n], b[..n]);
      assert XorBytes(a, b)[..n] == XorBytes(a[..n], b[..n]);
      hide ByteStep, Xor, Xor24, XorByte;
      ByteStepLinear(Remainder(a[..n]), Remainder(b[..n]), a[n], b[n]);
    }
  }

  function Zeros(n: nat): (z: seq<byte>)
    ensures |z| == n
  {
    seq(n, i => 0)
  }

  lemma {:induction false} RemainderOfZeros(n: nat)
    ensures Remainder(Zeros(n)) == 0
  {
    if n > 0 {
      RemainderOfZeros(n - 1);
      assert Zeros(n)[..n - 1] == Zeros(n - 1);
      hide ByteStep, Xor;
      ByteStepIsShift(0, 0);
      ShiftNZero(8);
      XorZero(0);
    }
  }

  // Leading zero bytes do not change the remainder.
  lemma {:induction false} LeadingZeros(n: nat, msg: seq<byte>)
    ensures Remainder(Zeros(n) + msg) == Remainder(msg)
  {
    hide ByteStep;
    if msg == [] {
      assert Zeros(n) + msg == Zeros(n);
      RemainderOfZeros(n);
    } else {
      var m := |msg| - 1;
      LeadingZeros(n, msg[..m]);
      assert (Zeros(n) + msg)[..n + m] == Zeros(n) + msg[..m];
    }
  }

  // ---------------------------------------------------------------- the checksum's last step

  lemma RemainderStep(msg: seq<byte>, b: byte)
    ensures Remainder(msg + [b]) == Xor24(ShiftN(Remainder(msg), 8), b)
  {
    assert (msg + [b])[..|msg|] == msg;
    hide ByteStep, Xor, Xor24, ShiftN;
    ByteStepIsShift(Remainder(msg), b);
  }

  // The last three bytes enter the remainder unreduced.
  lemma RemainderTail(msg: seq<byte>, b0: byte, b1: byte, b2: byte)
    ensures Remainder(msg + [b0, b1, b2])
            == Xor(Xor(Xor(ShiftN(Remainder(msg), 24), Shl(b0, 16)), Shl(b1, 8)), b2)
  {
    assert msg + [b0, b1, b2] == msg + [b0] + [b1] + [b2];
    RemainderStep(msg, b0);
    RemainderStep(msg + [b0], b1);
    RemainderStep(msg + [b0] + [b1], b2);
    SmallBytes(b0, b1);
    hide *;
    var r := Remainder(msg);
    ShiftNLinear(ShiftN(r, 8), b0, 8);
    ShiftNSum(r, 8, 8);
    ShiftNLinear(Xor24(ShiftN(r, 16), ShiftN(b0, 8)), b1, 8);
    ShiftNLinear(ShiftN(r, 16), ShiftN(b0, 8), 8);
    ShiftNSum(r, 16, 8);
    ShiftNSum(b0, 8, 8);
  }

  lemma SmallBytes(b0: byte, b1: byte)
    ensures ShiftN(b0, 16) == Shl(b0, 16) && ShiftN(b1, 8) == Shl(b1, 8)
  {
    Pow2Values();
    ShiftNSmall(b0, 16);
    ShiftNSmall(b1, 8);
  }
}
