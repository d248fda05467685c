// Sets of flipped bits as strictly increasing sequences, their enumeration, and their number.
module ErrorPatterns {
  import opened Arith

  // e continues prefix by at least one and at most max - |prefix| positions, increasing, in [lo, hi).
  ghost predicate Extends(e: seq<nat>, prefix: seq<nat>, lo: nat, hi: nat, max: nat) {
    && |prefix| < |e| <= max
    && prefix == e[..|prefix|]
    && (forall k :: |prefix| <= k < |e| ==> lo <= e[k] < hi)
    && (forall k :: |prefix| < k < |e| ==> e[k - 1] < e[k])
  }

  // Either lo is the next position or it does not occur.
  lemma ExtendsCases(e: seq<nat>, prefix: seq<nat>, lo: nat, hi: nat, max: nat)
    requires Extends(e, prefix, lo, hi, max)
    ensures e == prefix + [lo] || Extends(e, prefix + [lo], lo + 1, hi, max) || Extends(e, prefix, lo + 1, hi, max)
  {
    var n := |prefix|;
    FirstIsLeast(e, n);
    if e[n] == lo {
      assert e[..n + 1] == prefix + [lo];
      if |e| == n + 1 { assert e == prefix + [lo]; }
    }
  }

  lemma ExtendsFirst(e: seq<nat>, prefix: seq<nat>, lo: nat, hi: nat, max: nat)
    requires Extends(e, prefix + [lo], lo + 1, hi, max) && lo < hi
    ensures Extends(e, prefix, lo, hi, max)
  {
    assert e[..|prefix|] == (prefix + [lo])[..|prefix|] == prefix;
    assert e[|prefix|] == e[..|prefix| + 1][|prefix|] == lo;
  }

  // The patterns of at most max flipped bits in [lo, hi), in the order the source visits them.
  ghost function Patterns(lo: nat, hi: nat, prefix: seq<nat>, max: nat): seq<seq<nat>>
    decreases hi - lo
  {
    if |prefix| >= max || lo >= hi then []
    else [prefix + [lo]] + Patterns(lo + 1, hi, prefix + [lo], max) + Patterns(lo + 1, hi, prefix, max)
  }

  lemma {:induction false} PatternsSound(lo: nat, hi: nat, prefix: seq<nat>, max: nat, e: seq<nat>)
    requires e in Patterns(lo, hi, prefix, max)
    ensures Extends(e, prefix, lo, hi, max)
    decreases hi - lo
  {
    if e != prefix + [lo] {
      if e in Patterns(lo + 1, hi, prefix + [lo], max) {
        PatternsSound(lo + 1, hi, prefix + [lo], max, e);
        assert e[..|prefix|] == (prefix + [lo])[..|prefix|] == prefix;
        assert e[|prefix|] == e[..|prefix| + 1][|prefix|];
      } else {
        PatternsSound(lo + 1, hi, prefix, max, e);
      }
    }
  }

  lemma {:induction false} PatternsComplete(lo: nat, hi: nat, prefix: seq<nat>, max: nat, e: seq<nat>)
    requires Extends(e, prefix, lo, hi, max)
    ensures e in Patterns(lo, hi, prefix, max)
    decreases hi - lo
  {
    var n := |prefix|;
    if e[n] == lo {
      assert e[..n + 1] == prefix + [lo];
      if |e| == n + 1 {
        assert e == prefix + [lo];
      } else {
        FirstIsLeast(e, n);
        PatternsComplete(lo + 1, hi, prefix + [lo], max, e);
      }
    } else {
      FirstIsLeast(e, n);
      PatternsComplete(lo + 1, hi, prefix, max, e);
    }
  }

  lemma {:induction false} FirstIsLeast(e: seq<nat>, n: nat)
    requires n < |e| && forall k :: n < k < |e| ==> e[k - 1] < e[k]
    ensures forall k :: n < k < |e| ==> e[n] < e[k]
    decreases |e|
  {
    if |e| > n + 1 {
      var d := e[..|e| - 1];
      FirstIsLeast(d, n);
      if |d| > n + 1 { assert e[n] < e[|d| - 1]; }
    }
  }

  ghost predicate NoDuplicates<T>(s: seq<T>) {
    forall i, j :: 0 <= i < j < |s| ==> s[i] != s[j]
  }

  lemma JoinDistinct<T>(s: seq<T>, t: seq<T>)
    requires NoDuplicates(s) && NoDuplicates(t) && forall x :: x in s ==> x !in t
    ensures NoDuplicates(s + t)
  {
    forall i, j | 0 <= i < |s| <= j < |s + t| ensures (s + t)[i] != (s + t)[j] {
      assert s[i] in s && t[j - |s|] in t;
    }
  }

  lemma {:induction false} PatternsDistinct(lo: nat, hi: nat, prefix: seq<nat>, max: nat)
    ensures NoDuplicates(Patterns(lo, hi, prefix, max))
    decreases hi - lo
  {
    if |prefix| < max && lo < hi {
      var first, with, without := [prefix + [lo]], Patterns(lo + 1, hi, prefix + [lo], max), Patterns(lo + 1, hi, prefix, max);
      PatternsDistinct(lo + 1, hi, prefix + [lo], max);
      PatternsDistinct(lo + 1, hi, prefix, max);
      forall e | e in with ensures |e| > |prefix| + 1 && e[|prefix|] == lo {
        PatternsSound(lo + 1, hi, prefix + [lo], max, e);
        assert e[|prefix|] == e[..|prefix| + 1][|prefix|];
      }
      forall e | e in without ensures |e| > |prefix| && e[|prefix|] > lo {
        PatternsSound(lo + 1, hi, prefix, max, e);
      }
      JoinDistinct(first, with);
      JoinDistinct(first + with, without);
    }
  }

  // ---------------------------------------------------------------- counting

  ghost function Binomial(n: nat, k: nat): nat {
    if k == 0 then 1 else if n == 0 then 0 else Binomial(n - 1, k - 1) + Binomial(n - 1, k)
  }

  // C(n, 1) + ... + C(n, m)
  ghost function BinomialSum(n: nat, m: nat): nat {
    if m == 0 then 0 else BinomialSum(n, m - 1) + Binomial(n, m)
  }

  lemma {:induction false} PascalSum(n: nat, m: nat)
    requires n > 0 && m > 0
    ensures BinomialSum(n, m) == 1 + BinomialSum(n - 1, m - 1) + BinomialSum(n - 1, m)
  {
    if m > 1 {
      PascalSum(n, m - 1);
    } else {
      assert BinomialSum(n - 1, 1) == BinomialSum(n - 1, 0) + Binomial(n - 1, 1);
      assert BinomialSum(n, 1) == BinomialSum(n, 0) + Binomial(n, 1);
      assert Binomial(n, 1) == Binomial(n - 1, 0) + Binomial(n - 1, 1);
    }
  }

  lemma {:induction false} BinomialSumZero(m: nat)
    ensures BinomialSum(0, m) == 0
  {
    if m > 0 { BinomialSumZero(m - 1); }
  }

  // There is one pattern for each nonempty set of at most max - |prefix| positions.
  lemma {:induction false} PatternCount(lo: nat, hi: nat, prefix: seq<nat>, max: nat)
    requires |prefix| <= max
    ensures |Patterns(lo, hi, prefix, max)| == BinomialSum(if lo < hi then hi - lo else 0, max - |prefix|)
    decreases hi - lo
  {
    if lo >= hi {
      BinomialSumZero(max - |prefix|);
    } else if |prefix| < max {
      PatternCount(lo + 1, hi, prefix + [lo], max);
      PatternCount(lo + 1, hi, prefix, max);
      PascalSum(hi - lo, max - |prefix|);
    }
  }

  // The recurrence behind the source's division: it is exact.
  lemma {:induction false} Absorption(n: nat, k: nat)
    requires n > 0 && k > 0
    ensures k * Binomial(n, k) == n * Binomial(n - 1, k - 1)
  {
    if n == 1 {
      BinomialOfZero(k);
    } else if k == 1 {
      Absorption(n - 1, 1);
    } else {
      Absorption(n - 1, k);
      Absorption(n - 1, k - 1);
      AbsorptionStep(n, k, Binomial(n - 1, k), Binomial(n - 1, k - 1), Binomial(n - 2, k - 1), Binomial(n - 2, k - 2));
    }
  }

  lemma BinomialOfZero(k: nat)
    requires k > 0
    ensures Binomial(0, k) == 0 && (k > 1 ==> Binomial(0, k - 1) == 0) && Binomial(1, k) == if k == 1 then 1 else 0
  {
  }

  lemma AbsorptionStep(n: nat, k: nat, a: nat, b: nat, c: nat, d: nat)
    requires n >= 2 && k >= 2 && b == d + c
    requires k * a == (n - 1) * c && (k - 1) * b == (n - 1) * d
    ensures k * (b + a) == n * b
  {
    assert k * (b + a) == k * b + (n - 1) * c;
    assert k * b == b + (n - 1) * d;
    assert (n - 1) * d + (n - 1) * c == (n - 1) * b;
  }

  lemma {:induction false} NextBinomial(n: nat, k: nat)
    requires 0 < k <= n
    ensures Binomial(n, k - 1) * (n - (k - 1)) == k * Binomial(n, k)
  {
    Absorption(n, k);
    if k == 1 {
      BinomialOne(n);
    } else {
      Absorption(n, k - 1);
      NextBinomialStep(n, k, Binomial(n, k - 1), Binomial(n - 1, k - 1), Binomial(n - 1, k - 2), k * Binomial(n, k));
    }
  }

  lemma {:induction false} BinomialOne(n: nat)
    ensures Binomial(n, 1) == n
  {
    if n > 0 { BinomialOne(n - 1); }
  }

  lemma NextBinomialStep(n: nat, k: nat, a: nat, b: nat, c: nat, kd: nat)
    requires k > 0 && a == c + b && kd == n * b && (k - 1) * a == n * c
    ensures a * (n - (k - 1)) == kd
  {
    assert a * (n - (k - 1)) == n * a - (k - 1) * a;
    assert n * a == n * c + n * b;
  }

  // (n k) by a loop that multiplies before it divides.
  method Combinations(n: int, k: nat) returns (result: nat)
    ensures result == if n >= 0 then Binomial(n, k) else if k == 0 then 1 else 0
  {
    if k == 0 || k == n {
      BinomialDiagonal(k);
      return 1;
    }
    if k > n {
      if n >= 0 { BinomialAbove(n, k); }
      return 0;
    }
    result := 1;
    var m := n;
    for i := 1 to k + 1
      invariant m == n - (i - 1)
      invariant result == Binomial(n, i - 1)
    {
      NextBinomial(n, i);
      ModUnique(result * m, i, Binomial(n, i), 0);
      result := result * m / i;
      m := m - 1;
    }
  }

  lemma {:induction false} BinomialAbove(n: nat, k: nat)
    requires k > n
    ensures Binomial(n, k) == 0
  {
    if n > 0 {
      BinomialAbove(n - 1, k - 1);
      BinomialAbove(n - 1, k);
    }
  }

  lemma {:induction false} BinomialDiagonal(k: nat)
    ensures Binomial(k, k) == 1
  {
    if k > 0 {
      BinomialDiagonal(k - 1);
      BinomialAbove(k - 1, k);
    }
  }
}
