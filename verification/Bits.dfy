// C's unsigned bit operations on natural numbers: xor by its binary recursion, shifts and masks
// as division, multiplication and remainder by powers of two.
module Bits {
  import opened Arith

  function Pow2(k: nat): (p: nat)
    ensures p > 0
  {
    if k == 0 then 1 else 2 * Pow2(k - 1)
  }

  function Xor(a: nat, b: nat): nat {
    if a == 0 && b == 0 then 0
    else 2 * Xor(a / 2, b / 2) + (if a % 2 == b % 2 then 0 else 1)
  }

  lemma XorStep(a: nat, b: nat)
    ensures Xor(a, b) / 2 == Xor(a / 2, b / 2)
    ensures Xor(a, b) % 2 == if a % 2 == b % 2 then 0 else 1
  {
  }

  lemma {:induction false} XorComm(a: nat, b: nat)
    ensures Xor(a, b) == Xor(b, a)
  {
    if a != 0 || b != 0 { XorComm(a / 2, b / 2); }
  }

  lemma {:induction false} XorZero(a: nat)
    ensures Xor(a, 0) == a && Xor(0, a) == a
  {
    if a != 0 { XorZero(a / 2); }
  }

  lemma {:induction false} XorSelf(a: nat)
    ensures Xor(a, a) == 0
  {
    if a != 0 { XorSelf(a / 2); }
  }

  lemma {:induction false} XorAssoc(a: nat, b: nat, c: nat)
    ensures Xor(Xor(a, b), c) == Xor(a, Xor(b, c))
    decreases a + b + c
  {
    XorStep(a, b);
    XorStep(b, c);
    if a == 0 && b == 0 {
      XorZero(c);
      XorZero(Xor(b, c));
    } else if b == 0 && c == 0 {
      XorZero(a);
      XorZero(Xor(a, b));
    } else {
      XorAssoc(a / 2, b / 2, c / 2);
      XorStep(Xor(a, b), c);
      XorStep(a, Xor(b, c));
    }
  }

  // The middle two of four words change places.
  lemma XorSwap(w: nat, x: nat, y: nat, z: nat)
    ensures Xor(Xor(w, x), Xor(y, z)) == Xor(Xor(w, y), Xor(x, z))
  {
    hide Xor;
    XorAssoc(w, x, Xor(y, z));
    XorAssoc(x, y, z);
    XorComm(x, y);
    XorAssoc(y, x, z);
    XorAssoc(w, y, Xor(x, z));
  }

  lemma XorLast(a: nat, d: nat, b: nat)
    ensures Xor(Xor(a, d), b) == Xor(Xor(a, b), d)
  {
    hide Xor;
    XorAssoc(a, d, b);
    XorComm(d, b);
    XorAssoc(a, b, d);
  }

  lemma XorCancel(a: nat, b: nat)
    ensures Xor(Xor(a, b), b) == a
  {
    hide Xor;
    XorAssoc(a, b, b);
    XorSelf(b);
    XorZero(a);
  }

  lemma XorZeroIsEqual(a: nat, b: nat)
    ensures Xor(a, b) == 0 <==> a == b
  {
    hide Xor;
    if Xor(a, b) == 0 {
      XorCancel(a, b);
      XorZero(b);
    }
    XorSelf(a);
  }

  // a << k
  function Shl(a: nat, k: nat): nat {
    if k == 0 then a else 2 * Shl(a, k - 1)
  }

  // a >> k
  function Shr(a: nat, k: nat): nat {
    if k == 0 then a else Shr(a / 2, k - 1)
  }

  // a & (2^k - 1)
  function Low(a: nat, k: nat): (r: nat)
    ensures r < Pow2(k)
  {
    if k == 0 then 0 else 2 * Low(a / 2, k - 1) + a % 2
  }

  lemma {:induction false} Split(a: nat, k: nat)
    ensures a == Shl(Shr(a, k), k) + Low(a, k)
  {
    if k > 0 { Split(a / 2, k - 1); }
  }

  lemma {:induction false} SplitUnique(high: nat, low: nat, k: nat)
    requires low < Pow2(k)
    ensures Shr(Shl(high, k) + low, k) == high && Low(Shl(high, k) + low, k) == low
  {
    if k > 0 { SplitUnique(high, low / 2, k - 1); }
  }

  // The bits above and below position k do not mix.
  lemma {:induction false} XorShr(a: nat, b: nat, k: nat)
    ensures Shr(Xor(a, b), k) == Xor(Shr(a, k), Shr(b, k))
  {
    hide Xor;
    if k > 0 {
      XorShr(a / 2, b / 2, k - 1);
      XorStep(a, b);
    }
  }

  lemma LowHalf(a: nat, k: nat)
    requires k > 0
    ensures Low(a, k) / 2 == Low(a / 2, k - 1) && Low(a, k) % 2 == a % 2
  {
  }

  lemma LowDouble(a: nat, k: nat)
    ensures Low(2 * a, k + 1) == 2 * Low(a, k)
  {
  }

  lemma {:induction false} XorLow(a: nat, b: nat, k: nat)
    ensures Low(Xor(a, b), k) == Xor(Low(a, k), Low(b, k))
  {
    hide Xor;
    if k == 0 {
      XorZero(0);
    } else {
      XorLow(a / 2, b / 2, k - 1);
      XorStep(a, b);
      XorStep(Low(a, k), Low(b, k));
      LowHalf(a, k);
      LowHalf(b, k);
      LowHalf(Xor(a, b), k);
      hide Low;
    }
  }

  lemma {:induction false} XorBound(a: nat, b: nat, k: nat)
    requires a < Pow2(k) && b < Pow2(k)
    ensures Xor(a, b) < Pow2(k)
  {
    if k > 0 { XorBound(a / 2, b / 2, k - 1); }
  }

  // Words without common bits add up.
  lemma {:induction false} XorAdds(high: nat, low: nat, k: nat)
    requires low < Pow2(k)
    ensures Xor(Shl(high, k), low) == Shl(high, k) + low
  {
    hide Xor;
    if k == 0 {
      XorZero(high);
    } else {
      XorAdds(high, low / 2, k - 1);
      XorStep(Shl(high, k), low);
    }
  }

  lemma {:induction false} ShlSum(a: nat, m: nat, n: nat)
    ensures Shl(Shl(a, m), n) == Shl(a, m + n)
  {
    if n > 0 { ShlSum(a, m, n - 1); }
  }

  lemma {:induction false} XorShl(a: nat, b: nat, k: nat)
    ensures Xor(Shl(a, k), Shl(b, k)) == Shl(Xor(a, b), k)
  {
    hide Xor;
    if k > 0 {
      XorShl(a, b, k - 1);
      XorDouble(Shl(a, k - 1), Shl(b, k - 1));
    }
  }

  lemma XorDouble(a: nat, b: nat)
    ensures Xor(2 * a, 2 * b) == 2 * Xor(a, b)
  {
    XorStep(2 * a, 2 * b);
  }

  lemma Pow2Values()
    ensures Pow2(8) == 0x100 && Pow2(16) == 0x10000 && Pow2(23) == 0x800000 && Pow2(24) == 0x1000000
  {
    assert Pow2(4) == 0x10;
    assert Pow2(8) == 0x100;
    assert Pow2(12) == 0x1000;
    assert Pow2(16) == 0x10000;
    assert Pow2(20) == 0x100000;
    assert Pow2(23) == 0x800000;
  }

  lemma {:induction false} ShlPow2(k: nat)
    ensures Shl(1, k) == Pow2(k) && Shl(0, k) == 0
  {
    if k > 0 { ShlPow2(k - 1); }
  }

  lemma {:induction false} LowSmall(a: nat, k: nat)
    requires a < Pow2(k)
    ensures Low(a, k) == a && Shr(a, k) == 0
  {
    if k > 0 { LowSmall(a / 2, k - 1); }
  }

  lemma {:induction false} LowLow(a: nat, m: nat, k: nat)
    requires k <= m
    ensures Low(Low(a, m), k) == Low(a, k)
  {
    if k > 0 { LowLow(a / 2, m - 1, k - 1); }
  }

  lemma {:induction false} BitOfLow(a: nat, m: nat, k: nat)
    requires k < m
    ensures Shr(Low(a, m), k) % 2 == Shr(a, k) % 2
  {
    if k > 0 { BitOfLow(a / 2, m - 1, k - 1); }
  }

  lemma {:induction false} ShrSmall(a: nat, m: nat, k: nat)
    requires k <= m && a < Pow2(m)
    ensures Shr(a, k) < Pow2(m - k)
  {
    if k > 0 { ShrSmall(a / 2, m - 1, k - 1); }
  }

  lemma {:induction false} ShrStep(a: nat, k: nat)
    ensures Shr(a, k + 1) == Shr(a, k) / 2
  {
    if k > 0 { ShrStep(a / 2, k - 1); }
  }

  lemma {:induction false} ShlSmall(a: nat, m: nat, k: nat)
    requires a < Pow2(m)
    ensures Shl(a, k) < Pow2(m + k)
  {
    if k > 0 { ShlSmall(a, m, k - 1); }
  }

  lemma {:induction false} ShlAdd(a: nat, b: nat, k: nat)
    ensures Shl(a + b, k) == Shl(a, k) + Shl(b, k)
  {
    if k > 0 { ShlAdd(a, b, k - 1); }
  }

  lemma {:induction false} LowShl(a: nat, k: nat, m: nat)
    ensures Low(Shl(a, k), m + k) == Shl(Low(a, m), k)
  {
    if k > 0 { LowShl(a, k - 1, m); }
  }
}
