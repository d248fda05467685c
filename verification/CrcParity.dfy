// The generator has an even number of terms, so the checksum keeps the parity of the number of errors.
module CrcParity {
  import opened Bits
  import opened Crc
  import opened CrcDamage
  import opened ErrorPatterns
  import opened ErrorCorrection

  // An odd number of ones.
  function Odd(n: nat): bool {
    if n == 0 then false else (n % 2 == 1) != Odd(n / 2)
  }

  lemma {:induction false} OddXor(a: nat, b: nat)
    ensures Odd(Xor(a, b)) == (Odd(a) != Odd(b))
  {
    if a == 0 {
      XorZero(b);
    } else if b == 0 {
      XorZero(a);
    } else {
      OddXor(a / 2, b / 2);
      XorStep(a, b);
      hide Xor;
    }
  }

  lemma {:induction false} OddShl(a: nat, k: nat)
    ensures Odd(Shl(a, k)) == Odd(a)
  {
    if k > 0 { OddShl(a, k - 1); }
  }

  lemma OddPoly()
    ensures Odd(POLY) && Odd(1)
  {
    hide Odd;
    Digits(1);
    Nibble(0, 0xf);
    Nibble(0xf, 0xf);
    Nibble(0xff, 0xf);
    Nibble(0xfff, 4);
    Nibble(0xfff4, 0);
    Nibble(0xfff40, 9);
    Digits(0xf);
    Digits(4);
    Digits(0);
    Digits(9);
  }

  lemma Nibble(h: nat, d: nat)
    requires d < 16
    ensures Odd(16 * h + d) == (Odd(h) != Odd(d))
  {
    hide Odd;
    Digits(d);
    OddBit(h, d / 8);
    OddBit(2 * h + d / 8, d / 4 % 2);
    OddBit(4 * h + d / 4, d / 2 % 2);
    OddBit(8 * h + d / 2, d % 2);
  }

  lemma Digits(d: nat)
    requires d < 16
    ensures Odd(d) == ((d / 8 % 2 == 1) != ((d / 4 % 2 == 1) != ((d / 2 % 2 == 1) != (d % 2 == 1))))
  {
    hide Odd;
    OddBit(0, d / 8);
    OddBit(d / 8, d / 4 % 2);
    OddBit(d / 4, d / 2 % 2);
    OddBit(d / 2, d % 2);
    OddDouble(0);
  }

  lemma OddBit(m: nat, b: nat)
    requires b < 2
    ensures Odd(2 * m + b) == ((b == 1) != Odd(m))
  {
  }

  // Multiplication by x keeps the parity: the generator without its leading term is odd.
  lemma OddShift(r: Word)
    ensures Odd(Shift(r)) == Odd(r)
  {
    hide Xor, Shift, Shl, Shr, Low, Odd;
    var h, l := Shr(r, 23), Low(r, 23);
    ShiftFolds(r);
    Split(r, 23);
    XorAdds(h, l, 23);
    OddXor(Shl(h, 23), l);
    OddShl(h, 23);
    OddXor(2 * l, POLY);
    OddPoly();
    OddDouble(l);
  }

  lemma OddDouble(n: nat)
    ensures Odd(2 * n) == Odd(n) && !Odd(0)
  {
  }

  lemma {:induction false} OddPower(k: nat)
    ensures Odd(Power(k))
  {
    if k == 0 {
      OddPoly();
    } else {
      hide Shift, Odd;
      OddPower(k - 1);
      OddShift(Power(k - 1));
    }
  }

  // The syndrome of a pattern has the parity of its size, whatever the length of the message.
  lemma {:induction false} OddSyndrome(e: seq<nat>, bits: nat)
    requires AllBelow(e, bits)
    ensures Odd(Syndrome(e, bits)) == (|e| % 2 == 1)
  {
    hide Odd, Xor, Power;
    OddDouble(0);
    if e != [] {
      var most, k := e[..|e| - 1], bits - 1 - e[|e| - 1];
      OddSyndrome(most, bits);
      OddPower(k);
      OddXor(Syndrome(most, bits), Power(k));
    }
  }

  // Every odd number of flipped bits is detected, in a message of any length.
  lemma OddDamageDetected(c: seq<byte>, e: seq<nat>)
    requires Remainder(c) == 0 && AllBelow(e, 8 * |c|) && |e| % 2 == 1
    ensures Remainder(FlipAll(c, e)) != 0
  {
    hide Odd, Xor, Remainder, Syndrome;
    FlipAllRemainder(c, e);
    OddSyndrome(e, 8 * |c|);
    XorZero(Syndrome(e, 8 * |c|));
    OddDouble(0);
  }

  // Patterns of odd and even size never share a syndrome: only patterns of the same parity collide.
  lemma SameParity(d: seq<nat>, e: seq<nat>, bits: nat)
    requires SameSyndrome(d, e, bits)
    ensures |d| % 2 == |e| % 2
  {
    hide Odd, Syndrome;
    OddSyndrome(d, bits);
    OddSyndrome(e, bits);
  }
}
