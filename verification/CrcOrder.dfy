// Single and double bit errors always have a nonzero syndrome: the powers of x up to x^111 are
// nonzero and pairwise different modulo the generator.
module CrcOrder {
  import opened Arith
  import opened Bits
  import opened Crc
  import opened CrcDamage

  // The generator is odd.
  lemma ShiftParity(r: Word)
    ensures Shift(r) % 2 == if r >= 0x800000 then 1 else 0
  {
    if r >= 0x800000 { XorStep(2 * r - 0x1000000, POLY); }
  }

  lemma ShiftKernel(r: Word)
    requires Shift(r) == 0
    ensures r == 0
  {
    ShiftParity(r);
  }

  lemma ShiftInjective(a: Word, b: Word)
    requires Shift(a) == Shift(b)
    ensures a == b
  {
    ShiftLinear(a, b);
    XorZeroIsEqual(Shift(a), Shift(b));
    ShiftKernel(Xor24(a, b));
    XorZeroIsEqual(a, b);
  }

  lemma {:induction false} PowerNonzero(k: nat)
    ensures Power(k) != 0
  {
    if k > 0 {
      PowerNonzero(k - 1);
      if Power(k) == 0 { ShiftKernel(Power(k - 1)); }
    }
  }

  lemma {:induction false} PowerPeriod(m: nat, d: nat)
    requires Power(m + d) == Power(m)
    ensures Power(d) == 1
  {
    if m > 0 {
      ShiftInjective(Power(m - 1 + d), Power(m - 1));
      PowerPeriod(m - 1, d);
    }
  }

  // ---------------------------------------------------------------- evaluating Shift

  lemma {:induction false} XorFlip(a: nat, k: nat)
    ensures Xor(a, Pow2(k)) == if Shr(a, k) % 2 == 1 then a - Pow2(k) else a + Pow2(k)
  {
    XorStep(a, Pow2(k));
    if k == 0 { XorZero(a / 2); } else { XorFlip(a / 2, k - 1); }
  }

  lemma {:induction false} XorComplement(a: nat, k: nat)
    requires a < Pow2(k)
    ensures Xor(a, Pow2(k) - 1) == Pow2(k) - 1 - a
  {
    if k > 0 {
      XorComplement(a / 2, k - 1);
      XorStep(a, Pow2(k) - 1);
    }
  }

  lemma {:induction false} ShlIsProduct(a: nat, k: nat)
    ensures Shl(a, k) == Pow2(k) * a
  {
    if k > 0 {
      ShlIsProduct(a, k - 1);
      assert Pow2(k) * a == 2 * (Pow2(k - 1) * a);
    }
  }

  lemma ShrIsQuotient(a: nat, k: nat)
    ensures Shr(a, k) == a / Pow2(k)
  {
    Split(a, k);
    ShlIsProduct(Shr(a, k), k);
    ModUnique(a, Pow2(k), Shr(a, k), Low(a, k));
  }

  function Toggle(a: int, mask: int): int
    requires mask > 0
  {
    if (a / mask) % 2 == 1 then a - mask else a + mask
  }

  lemma ToggleLow(l: nat)
    requires l < 0x1000
    ensures Xor(l, 0x409) == Toggle(Toggle(Toggle(l, 0x400), 8), 1)
  {
    assert Pow2(10) == 0x400 && Pow2(3) == 8 && Pow2(0) == 1 by { assert Pow2(5) == 32; }
    ToggleIsXor(l, 10);
    var a := Xor(l, 0x400);
    ToggleIsXor(a, 3);
    ToggleIsXor(Xor(a, 8), 0);
    XorFlip(0x400, 3);
    XorFlip(0x408, 0);
    ShrIsQuotient(0x400, 3);
    XorAssoc(l, 0x400, 8);
    XorAssoc(l, 0x408, 1);
    hide Xor, Toggle;
  }

  lemma ToggleIsXor(a: nat, k: nat)
    ensures Xor(a, Pow2(k)) == Toggle(a, Pow2(k))
  {
    XorFlip(a, k);
    ShrIsQuotient(a, k);
  }

  lemma Pow2Twelve()
    ensures Pow2(12) == 0x1000
  {
    assert Pow2(6) == 64;
  }

  lemma XorPoly(h: nat, l: nat)
    requires h < 0x1000 && l < 0x1000
    ensures Xor(0x1000 * h + l, POLY) == 0x1000 * (0xfff - h) + Toggle(Toggle(Toggle(l, 0x400), 8), 1)
  {
    hide Xor, Toggle, Shl, Pow2;
    Pow2Twelve();
    ToggleLow(l);
    XorBound(l, 0x409, 12);
    XorComplement(h, 12);
    XorAdds(h, l, 12);
    XorAdds(0xfff, 0x409, 12);
    XorAdds(0xfff - h, Xor(l, 0x409), 12);
    ShlIsProduct(h, 12);
    ShlIsProduct(0xfff, 12);
    ShlIsProduct(0xfff - h, 12);
    XorShl(h, 0xfff, 12);
    XorSwap(Shl(h, 12), l, Shl(0xfff, 12), 0x409);
  }

  // ---------------------------------------------------------------- the order of x exceeds 111

  // The powers below x^130 that have the term x^23.
  predicate Top(n: nat) {
    || n == 23 || n == 24 || n == 36 || n == 39 || n == 44 || n == 46 || n == 47 || n == 50
    || n == 51 || n == 52 || n == 53 || n == 54 || n == 62 || n == 64 || n == 68 || n == 69
    || n == 70 || n == 71 || n == 72 || n == 74 || n == 75 || n == 78 || n == 81 || n == 87
    || n == 88 || n == 90 || n == 91 || n == 93 || n == 96 || n == 98 || n == 99 || n == 100
    || n == 105 || n == 106 || n == 107 || n == 109 || n == 113 || n == 116 || n == 118 || n == 119
    || n == 121 || n == 123 || n == 124 || n == 125 || n == 127 || n == 128 || n == 129
  }

  ghost predicate TopsBelow(k: nat) {
    forall n: nat :: n < k ==> (Top(n) <==> Power(n) >= 0x800000)
  }

  lemma TopsBelow24()
    ensures TopsBelow(24)
  {
    forall n: nat | n < 24 ensures Top(n) <==> Power(n) >= 0x800000 {
      hide Top;
      SmallPower(n);
      SmallTop(n);
      Pow2Values();
      Pow2Monotone(n, if n < 23 then 22 else 23);
      assert Pow2(23) == 2 * Pow2(22);
    }
  }

  lemma SmallTop(n: nat)
    requires n < 24
    ensures Top(n) <==> n == 23
  {
  }

  // One reduction, given the digits of the doubled word: the generator inverts the twelve upper
  // bits, which are h, and the bits b, c and the lowest.
  lemma Fold(k: nat, h: nat, x: nat, b: nat, m: nat, c: nat, e: nat)
    requires h < 0x1000 && x < 2 && b < 2 && m < 0x40 && c < 2 && e < 4
    requires 2 * Power(k) == 0x1000000 + 0x1000 * h + 0x800 * x + 0x400 * b + 0x10 * m + 8 * c + 2 * e
    requires TopsBelow(k) && Top(k)
    ensures Power(k + 1) == 0x1000 * (0xfff - h) + 0x800 * x + 0x400 * (1 - b) + 0x10 * m + 8 * (1 - c) + 2 * e + 1
    ensures TopsBelow(k + 1)
  {
    hide Top, TopsBelow;
    NextTop(k);
    var l := 0x800 * x + 0x400 * b + 0x10 * m + 8 * c + 2 * e;
    assert Power(k + 1) == Xor(0x1000 * h + l, POLY);
    hide *;
    XorPoly(h, l);
    TogglesOfDigits(x, b, m, c, e);
  }

  lemma TogglesOfDigits(x: nat, b: nat, m: nat, c: nat, e: nat)
    requires x < 2 && b < 2 && m < 0x40 && c < 2 && e < 4
    ensures Toggle(Toggle(Toggle(0x800 * x + 0x400 * b + 0x10 * m + 8 * c + 2 * e, 0x400), 8), 1)
            == 0x800 * x + 0x400 * (1 - b) + 0x10 * m + 8 * (1 - c) + 2 * e + 1
  {
    ToggleBit10(x, b, 0x10 * m + 8 * c + 2 * e);
    ToggleBit3(0x100 * x + 0x80 * (1 - b) + 2 * m, c, 2 * e);
    ToggleBit0(0x400 * x + 0x200 * (1 - b) + 8 * m + 4 * (1 - c) + e);
    hide Toggle;
  }

  lemma ToggleBit10(q: nat, b: nat, r: nat)
    requires b < 2 && r < 0x400
    ensures Toggle(0x800 * q + 0x400 * b + r, 0x400) == 0x800 * q + 0x400 * (1 - b) + r
  {
    ModUnique(0x800 * q + 0x400 * b + r, 0x400, 2 * q + b, r);
  }

  lemma ToggleBit3(q: nat, c: nat, r: nat)
    requires c < 2 && r < 8 && q % 2 == 0
    ensures Toggle(8 * q + 8 * c + r, 8) == 8 * q + 8 * (1 - c) + r
  {
  }

  lemma ToggleBit0(q: nat)
    ensures Toggle(2 * q, 1) == 2 * q + 1
  {
  }

  lemma NextTop(k: nat)
    requires TopsBelow(k) && (Top(k) <==> Power(k) >= 0x800000)
    ensures TopsBelow(k + 1)
  {
    hide Power, Top;
  }

  // Up to four doublings without reduction.
  lemma Double(k: nat, r: Word, n: nat)
    requires Power(k) == r && 1 <= n <= 4
    requires r < if n == 1 then 0x800000 else if n == 2 then 0x400000 else if n == 3 then 0x200000 else 0x100000
    requires TopsBelow(k) && !Top(k) && (n > 1 ==> !Top(k + 1)) && (n > 2 ==> !Top(k + 2)) && (n > 3 ==> !Top(k + 3))
    ensures Power(k + n) == if n == 1 then 2 * r else if n == 2 then 4 * r else if n == 3 then 8 * r else 16 * r
    ensures TopsBelow(k + n)
  {
    hide Xor24, Top, TopsBelow;
    NextTop(k);
    assert Power(k + 1) == 2 * r;
    if n > 1 {
      NextTop(k + 1);
      assert Power(k + 2) == 4 * r;
    }
    if n > 2 {
      NextTop(k + 2);
      assert Power(k + 3) == 8 * r;
    }
    if n > 3 {
      NextTop(k + 3);
    }
  }

  lemma Power24()
    ensures Power(24) == POLY
  {
    SmallPower(23);
    Pow2Values();
    XorZero(POLY);
  }

  lemma Powers24()
    requires Power(24) == 0xfff409 && TopsBelow(24)
    ensures Power(25) == 0x001c1b
    ensures Power(47) == 0xea04ad && TopsBelow(47)
  {
    hide ShiftN, Shift, Xor, TopsBelow;
    Fold(24, 0xffe, 1, 0, 0x01, 0, 1);
    Double(25, 0x001c1b, 4);
    Double(29, 0x01c1b0, 4);
    Double(33, 0x1c1b00, 3);
    Fold(36, 0xc1b, 0, 0, 0x00, 0, 0);
    Double(37, 0x3e4409, 2);
    Fold(39, 0xf22, 0, 0, 0x04, 1, 0);
    Double(40, 0x0dd441, 4);
    Fold(44, 0xba8, 1, 0, 0x02, 0, 0);
    Double(45, 0x457c29, 1);
    Fold(46, 0x15f, 0, 0, 0x0a, 0, 2);
  }

  lemma Powers47()
    requires Power(47) == 0xea04ad && TopsBelow(47)
    ensures Power(48) == 0x2bfd53
    ensures Power(54) == 0xff38b7 && TopsBelow(54)
  {
    hide ShiftN, Shift, Xor, TopsBelow;
    Fold(47, 0xd40, 1, 0, 0x15, 1, 1);
    Double(48, 0x2bfd53, 2);
    Fold(50, 0x5fe, 1, 0, 0x29, 1, 0);
    Fold(51, 0x403, 1, 1, 0x12, 0, 1);
    Fold(52, 0x7f9, 0, 0, 0x25, 0, 3);
    Fold(53, 0x00c, 1, 1, 0x0b, 1, 3);
  }

  lemma Powers54()
    requires Power(54) == 0xff38b7 && TopsBelow(54)
    ensures Power(71) == 0x91c77f && TopsBelow(71)
  {
    hide ShiftN, Shift, Xor, TopsBelow;
    Fold(54, 0xfe7, 0, 0, 0x16, 1, 3);
    Double(55, 0x018567, 4);
    Double(59, 0x185670, 3);
    Fold(62, 0x856, 0, 1, 0x30, 0, 0);
    Double(63, 0x7a9309, 1);
    Fold(64, 0xea4, 1, 1, 0x02, 0, 2);
    Double(65, 0x15b82d, 3);
    Fold(68, 0x5b8, 0, 0, 0x2d, 0, 0);
    Fold(69, 0x48e, 1, 1, 0x1b, 0, 1);
    Fold(70, 0x6e3, 0, 0, 0x37, 0, 3);
  }

  lemma Powers71()
    requires Power(71) == 0x91c77f && TopsBelow(71)
    ensures Power(72) == 0xdc7af7
    ensures Power(81) == 0xfdb444 && TopsBelow(81)
  {
    hide ShiftN, Shift, Xor, TopsBelow;
    Fold(71, 0x238, 1, 1, 0x2f, 1, 3);
    Fold(72, 0xb8f, 0, 1, 0x1e, 1, 3);
    Double(73, 0x4701e7, 1);
    Fold(74, 0x1c0, 0, 1, 0x39, 1, 2);
    Fold(75, 0xc7e, 0, 1, 0x32, 1, 1);
    Double(76, 0x381323, 2);
    Fold(78, 0xc09, 1, 0, 0x11, 1, 0);
    Double(79, 0x3f6d11, 2);
  }

  lemma Powers81()
    requires Power(81) == 0xfdb444 && TopsBelow(81)
    ensures Power(93) == 0xe5f186 && TopsBelow(93)
  {
    hide ShiftN, Shift, Xor, TopsBelow;
    Fold(81, 0xfb6, 1, 0, 0x08, 1, 0);
    Double(82, 0x049c81, 4);
    Double(86, 0x49c810, 1);
    Fold(87, 0x272, 0, 0, 0x04, 0, 0);
    Fold(88, 0xb1a, 1, 0, 0x09, 0, 1);
    Double(89, 0x4e5c9b, 1);
    Fold(90, 0x397, 0, 0, 0x26, 1, 2);
    Fold(91, 0x8d0, 1, 1, 0x0c, 1, 1);
    Double(92, 0x72f8c3, 1);
  }

  lemma Powers93()
    requires Power(93) == 0xe5f186 && TopsBelow(93)
    ensures Power(94) == 0x341705
    ensures Power(105) == 0xb0e2f0 && TopsBelow(105)
  {
    hide ShiftN, Shift, Xor, TopsBelow;
    Fold(93, 0xcbe, 0, 0, 0x30, 1, 2);
    Double(94, 0x341705, 2);
    Fold(96, 0xa0b, 1, 0, 0x02, 1, 0);
    Double(97, 0x5f4c21, 1);
    Fold(98, 0x7d3, 0, 0, 0x08, 0, 2);
    Fold(99, 0x058, 1, 0, 0x11, 1, 1);
    Fold(100, 0xf4f, 1, 0, 0x22, 0, 3);
    Double(101, 0x0b0e2f, 4);
  }

  lemma Powers105()
    requires Power(105) == 0xb0e2f0 && TopsBelow(105)
    ensures Power(116) == 0xd96d64 && TopsBelow(116)
  {
    hide ShiftN, Shift, Xor, TopsBelow;
    Fold(105, 0x61c, 0, 1, 0x1e, 0, 0);
    Fold(106, 0x3c6, 0, 0, 0x3d, 0, 1);
    Fold(107, 0x872, 1, 1, 0x3b, 0, 3);
    Double(108, 0x78dbbf, 1);
    Fold(109, 0xe36, 1, 1, 0x2f, 1, 2);
    Double(110, 0x1c9af5, 3);
    Fold(113, 0xc9a, 1, 1, 0x35, 0, 0);
    Double(114, 0x365b59, 2);
  }

  lemma Powers116()
    requires Power(116) == 0xd96d64 && TopsBelow(116)
    ensures Power(117) == 0x4d2ec1 && Power(122) == 0x5a5c45 && TopsBelow(122)
  {
    hide ShiftN, Shift, Xor, TopsBelow;
    Fold(116, 0xb2d, 1, 0, 0x2c, 1, 0);
    Double(117, 0x4d2ec1, 1);
    Fold(118, 0x34b, 1, 0, 0x30, 0, 2);
    Fold(119, 0x969, 1, 1, 0x21, 1, 1);
    Double(120, 0x696a13, 1);
    Fold(121, 0xa5a, 1, 0, 0x04, 1, 2);
  }

  lemma Powers122()
    requires Power(122) == 0x5a5c45 && TopsBelow(122)
    ensures TopsBelow(130)
  {
    hide ShiftN, Shift, Xor, TopsBelow;
    Double(122, 0x5a5c45, 1);
    Fold(123, 0x697, 0, 0, 0x11, 0, 2);
    Fold(124, 0x2d0, 1, 0, 0x23, 1, 1);
    Fold(125, 0xa5f, 1, 1, 0x06, 0, 3);
    Double(126, 0x5a086f, 1);
    Fold(127, 0x682, 0, 0, 0x1b, 1, 2);
    Fold(128, 0x2fa, 1, 0, 0x36, 1, 1);
    Fold(129, 0xa0b, 1, 1, 0x2c, 0, 3);
  }

  // Sample points at most 24 apart.  At none of them is the power a power of two, so no exponent
  // in between has power one.
  ghost predicate Sample(q: nat) {
    Power(q) % 2 == 1 && Power(q) > 1
  }

  lemma Samples()
    ensures Sample(24) && Sample(48) && Sample(72) && Sample(94) && Sample(117) && TopsBelow(130)
  {
    hide ShiftN, TopsBelow;
    TopsBelow24();
    Power24();
    Powers24();
    Powers47();
    Powers54();
    Powers71();
    Powers81();
    Powers93();
    Powers105();
    Powers116();
    Powers122();
  }

  lemma NotOneBefore(q: nat, d: nat)
    requires Sample(q) && d <= q < d + 24
    ensures Power(d) != 1
  {
    hide ShiftN, Pow2;
    ShiftNSum(1, d, q - d);
    SmallPower(q - d);
    EvenPower(q - d);
  }

  lemma {:induction false} EvenPower(k: nat)
    ensures Pow2(k) == 1 || Pow2(k) % 2 == 0
  {
    if k > 0 {
      EvenDouble(Pow2(k - 1));
    }
  }

  lemma EvenDouble(p: nat)
    ensures 2 * p % 2 == 0
  {
  }

  lemma PowerNotOne(d: nat)
    requires 1 <= d <= 111
    ensures Power(d) != 1
  {
    Samples();
    hide Power, Sample;
    if d <= 24 { NotOneBefore(24, d); }
    else if d <= 48 { NotOneBefore(48, d); }
    else if d <= 72 { NotOneBefore(72, d); }
    else if d <= 94 { NotOneBefore(94, d); }
    else { NotOneBefore(117, d); }
  }

  // Different single bits of a message have different syndromes.
  lemma PowersDistinct(m: nat, n: nat)
    requires m < n <= 111
    ensures Power(m) != Power(n)
  {
    if Power(m) == Power(n) {
      PowerPeriod(m, n - m);
      PowerNotOne(n - m);
    }
  }
}
