// Diagnosing and fixing bit errors with the tables: a corrected message is the transmitted one.
module ErrorCorrection {
  import opened Bits
  import opened Crc
  import opened CrcDamage
  import opened CrcOrder
  import opened CrcTables
  import opened ErrorPatterns
  import opened ErrorTable

  datatype Option<T> = None | Some(value: T)

  // e flips between least and most bits of a message, none of them in the downlink format.
  ghost predicate Pattern(e: seq<nat>, bits: nat, least: nat, most: nat) {
    Extends(e, [], FIRST_BIT, bits, most) && least <= |e|
  }

  lemma PatternBelow(e: seq<nat>, bits: nat, least: nat, most: nat)
    requires Pattern(e, bits, least, most)
    ensures AllBelow(e, bits)
  {
  }

  ghost predicate SameSyndrome(d: seq<nat>, e: seq<nat>, bits: nat) {
    AllBelow(d, bits) && AllBelow(e, bits) && Syndrome(d, bits) == Syndrome(e, bits)
  }

  // e is correctable, and no other pattern of detectable size has its syndrome.
  ghost predicate Unambiguous(e: seq<nat>, bits: nat, correct: nat, detect: nat) {
    && Pattern(e, bits, 1, correct)
    && forall d :: Pattern(d, bits, 1, detect) && SameSyndrome(d, e, bits) ==> d == e
  }

  // The table's entries describe exactly the unambiguous patterns, in order of their syndromes.
  ghost predicate TableFor(t: seq<ErrorInfo>, patterns: seq<seq<nat>>, bits: nat, correct: nat, detect: nat) {
    && StrictlySorted(t) && DescribesAll(t, patterns, bits)
    && forall e :: e in patterns <==> Unambiguous(e, bits, correct, detect)
  }

  // ---------------------------------------------------------------- correctness of the construction

  // The enumerated patterns, in any order.
  ghost predicate Enumerated(s: seq<ErrorInfo>, patterns: seq<seq<nat>>, bits: nat, correct: nat) {
    && DescribesAll(s, patterns, bits) && NoDuplicates(patterns)
    && forall e :: e in patterns <==> Pattern(e, bits, 1, correct)
  }

  lemma EnumerationComplete(s: seq<ErrorInfo>, bits: nat, correct: nat)
    requires DescribesAll(s, Patterns(FIRST_BIT, bits, [], correct), bits)
    ensures Enumerated(s, Patterns(FIRST_BIT, bits, [], correct), bits, correct)
  {
    var patterns := Patterns(FIRST_BIT, bits, [], correct);
    PatternsDistinct(FIRST_BIT, bits, [], correct);
    forall e ensures e in patterns <==> Pattern(e, bits, 1, correct) {
      if e in patterns { PatternsSound(FIRST_BIT, bits, [], correct, e); }
      if Pattern(e, bits, 1, correct) { PatternsComplete(FIRST_BIT, bits, [], correct, e); }
    }
  }

  lemma DescribesUnique(x: ErrorInfo, y: ErrorInfo, d: seq<nat>, e: seq<nat>, bits: nat)
    requires Describes(x, d, bits) && Describes(y, e, bits)
    ensures x == y <==> d == e
  {
    if x == y {
      forall k | 0 <= k < |d| ensures d[k] == e[k] { assert x.bit[k] == y.bit[k]; }
    }
    if d == e {
      assert x.bit == y.bit;
    }
  }

  lemma DescribesAt(s: seq<ErrorInfo>, patterns: seq<seq<nat>>, bits: nat, k: int)
    requires DescribesAll(s, patterns, bits) && 0 <= k < |s|
    ensures |s| == |patterns| && Describes(s[k], patterns[k], bits)
    ensures AllBelow(patterns[k], bits) && s[k].syndrome == Syndrome(patterns[k], bits)
    ensures s[k].errors == |patterns[k]|
  {
  }

  lemma EntriesDistinct(s: seq<ErrorInfo>, patterns: seq<seq<nat>>, bits: nat)
    requires DescribesAll(s, patterns, bits)
    ensures NoDuplicates(s) <==> NoDuplicates(patterns)
  {
    forall i, j | 0 <= i < j < |s| ensures s[i] == s[j] <==> patterns[i] == patterns[j] {
      DescribesUnique(s[i], s[j], patterns[i], patterns[j], bits);
    }
  }

  lemma MultisetOfDistinct<T>(s: seq<T>, t: seq<T>)
    requires NoDuplicates(s) && multiset(s) == multiset(t)
    ensures NoDuplicates(t)
  {
    forall i, j | 0 <= i < j < |t| ensures t[i] != t[j] {
      AtMostOnce(s, t[i]);
      assert t == t[..i] + [t[i]] + t[i + 1..j] + [t[j]] + t[j + 1..];
    }
  }

  lemma {:induction false} AtMostOnce<T>(s: seq<T>, x: T)
    requires NoDuplicates(s)
    ensures multiset(s)[x] <= 1
  {
    if s != [] {
      var n := |s| - 1;
      AtMostOnce(s[..n], x);
      assert s == s[..n] + [s[n]];
      assert x in multiset(s[..n]) <==> x in s[..n];
    }
  }

  // Sorting permutes the patterns along with the entries.
  lemma EnumerationPermuted(s: seq<ErrorInfo>, patterns: seq<seq<nat>>, t: seq<ErrorInfo>, bits: nat, correct: nat)
    returns (permuted: seq<seq<nat>>)
    requires Enumerated(s, patterns, bits, correct) && multiset(s) == multiset(t)
    ensures Enumerated(t, permuted, bits, correct)
  {
    EntriesDistinct(s, patterns, bits);
    MultisetOfDistinct(s, t);
    permuted := PermutedPatterns(s, patterns, t, bits);
    EntriesDistinct(t, permuted, bits);
    hide DescribesAll, Pattern, NoDuplicates;
    forall e ensures e in permuted <==> e in patterns {
      SamePatterns(s, patterns, t, permuted, bits, e);
      SamePatterns(t, permuted, s, patterns, bits, e);
    }
  }

  lemma PermutedPatterns(s: seq<ErrorInfo>, patterns: seq<seq<nat>>, t: seq<ErrorInfo>, bits: nat)
    returns (permuted: seq<seq<nat>>)
    requires DescribesAll(s, patterns, bits) && multiset(s) == multiset(t)
    ensures DescribesAll(t, permuted, bits)
  {
    hide Describes;
    permuted := [];
    for k := 0 to |t|
      invariant |permuted| == k && forall j :: 0 <= j < k ==> Describes(t[j], permuted[j], bits)
    {
      assert t[k] in multiset(s);
      var m :| 0 <= m < |s| && s[m] == t[k];
      permuted := permuted + [patterns[m]];
    }
  }

  lemma SamePatterns(s: seq<ErrorInfo>, p: seq<seq<nat>>, t: seq<ErrorInfo>, q: seq<seq<nat>>, bits: nat, e: seq<nat>)
    requires DescribesAll(s, p, bits) && DescribesAll(t, q, bits) && multiset(s) == multiset(t)
    ensures e in p ==> e in q
  {
    if e in p {
      var m :| 0 <= m < |p| && p[m] == e;
      assert s[m] in multiset(t);
      var k :| 0 <= k < |t| && t[k] == s[m];
      DescribesUnique(s[m], t[k], e, q[k], bits);
    }
  }

  // An entry is alone exactly if its pattern is unambiguous among the correctable ones.
  lemma AloneIsUnambiguous(s: seq<ErrorInfo>, patterns: seq<seq<nat>>, k: int, bits: nat, correct: nat)
    requires Enumerated(s, patterns, bits, correct) && 0 <= k < |s|
    ensures |s| == |patterns| && (Alone(s, k) <==> Unambiguous(patterns[k], bits, correct, correct))
  {
    DescribesAt(s, patterns, bits, k);
    var e := patterns[k];
    assert e in patterns;
    hide Pattern, DescribesAll, Syndrome;
    if Alone(s, k) {
      forall d | Pattern(d, bits, 1, correct) && SameSyndrome(d, e, bits) ensures d == e {
        var m :| 0 <= m < |patterns| && patterns[m] == d;
        DescribesAt(s, patterns, bits, m);
      }
    }
    if Unambiguous(e, bits, correct, correct) {
      forall m | 0 <= m < |s| && m != k ensures s[m].syndrome != s[k].syndrome {
        DescribesAt(s, patterns, bits, m);
        var d := patterns[m];
        assert d in patterns && d != e;
        assert SameSyndrome(d, e, bits) == (s[m].syndrome == s[k].syndrome);
      }
    }
  }

  // What compaction keeps of the entries it keeps of the patterns.
  lemma CompactedPatterns(t: seq<ErrorInfo>, s: seq<ErrorInfo>, kept: seq<int>, keep: seq<bool>,
                          patterns: seq<seq<nat>>, bits: nat)
    returns (q: seq<seq<nat>>)
    requires Compacted(t, s, kept, keep, |s|) && DescribesAll(s, patterns, bits)
    ensures DescribesAll(t, q, bits)
    ensures forall e :: e in q <==> exists k :: 0 <= k < |patterns| && keep[k] && patterns[k] == e
  {
    hide Describes;
    q := seq(|kept|, i requires 0 <= i < |kept| => patterns[kept[i]]);
    forall e | e in q ensures exists k :: 0 <= k < |patterns| && keep[k] && patterns[k] == e {
      var i :| 0 <= i < |q| && q[i] == e;
      assert keep[kept[i]] && patterns[kept[i]] == e;
    }
    forall k | 0 <= k < |patterns| && keep[k] ensures patterns[k] in q {
      var i :| 0 <= i < |kept| && kept[i] == k;
      assert q[i] == patterns[k];
    }
  }

  lemma CompactedSorted(t: seq<ErrorInfo>, s: seq<ErrorInfo>, kept: seq<int>)
    requires Sorted(s) && Compacted(t, s, kept, AloneFlags(s), |s|)
    ensures StrictlySorted(t)
  {
    forall i, j | 0 <= i < j < |t| ensures t[i].syndrome < t[j].syndrome {
      assert Alone(s, kept[i]);
    }
  }

  lemma CollisionsDropped(t: seq<ErrorInfo>, s: seq<ErrorInfo>, kept: seq<int>, patterns: seq<seq<nat>>, bits: nat, correct: nat)
    returns (q: seq<seq<nat>>)
    requires Enumerated(s, patterns, bits, correct) && Sorted(s) && Compacted(t, s, kept, AloneFlags(s), |s|)
    ensures TableFor(t, q, bits, correct, correct)
  {
    CompactedSorted(t, s, kept);
    q := CompactedPatterns(t, s, kept, AloneFlags(s), patterns, bits);
    hide Compacted, Alone, DescribesAll, Sorted, StrictlySorted, Pattern;
    forall k | 0 <= k < |s| { AloneIsUnambiguous(s, patterns, k, bits, correct); }
    forall e ensures e in q <==> Unambiguous(e, bits, correct, correct) {
      if Unambiguous(e, bits, correct, correct) {
        var k :| 0 <= k < |patterns| && patterns[k] == e;
      }
    }
  }

  ghost predicate HitByDetectable(syndrome: Word, bits: nat, correct: nat, detect: nat) {
    Hit(syndrome, FIRST_BIT, bits, [], correct + 1, detect)
  }

  lemma StillUnambiguous(syndrome: Word, e: seq<nat>, bits: nat, correct: nat, detect: nat)
    requires correct <= detect && Unambiguous(e, bits, correct, correct)
    requires AllBelow(e, bits) && Syndrome(e, bits) == syndrome
    ensures Unambiguous(e, bits, correct, detect) <==> !HitByDetectable(syndrome, bits, correct, detect)
  {
    hide Syndrome;
    if HitByDetectable(syndrome, bits, correct, detect) {
      var d :| HitBy(syndrome, d, FIRST_BIT, bits, [], correct + 1, detect);
      assert Pattern(d, bits, 1, detect) && SameSyndrome(d, e, bits) && |d| > |e|;
    } else {
      forall d | Pattern(d, bits, 1, detect) && SameSyndrome(d, e, bits) ensures d == e {
        HitByLarger(syndrome, d, bits, correct, detect);
      }
    }
  }

  lemma HitByLarger(syndrome: Word, d: seq<nat>, bits: nat, correct: nat, detect: nat)
    requires Pattern(d, bits, 1, detect) && AllBelow(d, bits) && Syndrome(d, bits) == syndrome
    ensures if |d| > correct then HitBy(syndrome, d, FIRST_BIT, bits, [], correct + 1, detect)
            else Pattern(d, bits, 1, correct)
  {
  }

  lemma DetectLess(e: seq<nat>, bits: nat, correct: nat, detect: nat)
    requires correct <= detect && Unambiguous(e, bits, correct, detect)
    ensures Unambiguous(e, bits, correct, correct)
  {
    forall d | Pattern(d, bits, 1, correct) ensures Pattern(d, bits, 1, detect) {}
  }

  lemma UnflaggedUnlessHit(s: seq<ErrorInfo>, patterns: seq<seq<nat>>, k: int, bits: nat, correct: nat, detect: nat)
    requires TableFor(s, patterns, bits, correct, correct) && correct <= detect && 0 <= k < |s|
    ensures |patterns| == |s|
    ensures var f := FlagAll(s, FIRST_BIT, bits, [], correct + 1, detect);
            && (f[k].errors != -1 <==> Unambiguous(patterns[k], bits, correct, detect))
            && (f[k].errors != -1 ==> f[k] == s[k])
  {
    DescribesAt(s, patterns, bits, k);
    assert patterns[k] in patterns;
    StillUnambiguous(s[k].syndrome, patterns[k], bits, correct, detect);
  }

  // Dropping the entries that a larger detectable pattern hits.
  lemma FlaggedDropped(t: seq<ErrorInfo>, s: seq<ErrorInfo>, kept: seq<int>, patterns: seq<seq<nat>>,
                       bits: nat, correct: nat, detect: nat)
    returns (q: seq<seq<nat>>)
    requires correct <= detect && TableFor(s, patterns, bits, correct, correct)
    requires var f := FlagAll(s, FIRST_BIT, bits, [], correct + 1, detect);
             Compacted(t, f, kept, UnflaggedFlags(f), |s|)
    ensures TableFor(t, q, bits, correct, detect)
  {
    var f := FlagAll(s, FIRST_BIT, bits, [], correct + 1, detect);
    forall k | 0 <= k < |s| { UnflaggedUnlessHit(s, patterns, k, bits, correct, detect); }
    FlagKeepsOrder(s, FIRST_BIT, bits, [], correct + 1, detect);
    CompactedInOrder(t, f, kept, UnflaggedFlags(f));
    hide FlagAll, StrictlySorted, DescribesAll, Pattern;
    assert Compacted(t, s, kept, UnflaggedFlags(f), |s|);
    q := CompactedPatterns(t, s, kept, UnflaggedFlags(f), patterns, bits);
    forall e ensures e in q <==> Unambiguous(e, bits, correct, detect) {
      if Unambiguous(e, bits, correct, detect) {
        DetectLess(e, bits, correct, detect);
        var k :| 0 <= k < |patterns| && patterns[k] == e;
      }
    }
  }

  lemma CompactedInOrder(t: seq<ErrorInfo>, s: seq<ErrorInfo>, kept: seq<int>, keep: seq<bool>)
    requires StrictlySorted(s) && Compacted(t, s, kept, keep, |s|)
    ensures StrictlySorted(t)
  {
  }

  // ---------------------------------------------------------------- building the table

  lemma PatternsFit(bits: nat, correct: nat)
    ensures |Patterns(FIRST_BIT, bits, [], correct)| == BinomialSum(if bits > 5 then bits - 5 else 0, correct)
  {
    PatternCount(FIRST_BIT, bits, [], correct);
  }

  lemma NothingCollides(s: seq<ErrorInfo>)
    requires FlagCount(s) == 0
    ensures forall k :: 0 <= k < |s| ==> s[k].errors != -1
  {
    if s != [] {
      NothingCollides(s[..|s| - 1]);
      assert forall k :: 0 <= k < |s| - 1 ==> s[k] == s[..|s| - 1][k];
    }
  }

  lemma {:induction false} NoneFlagged(s: seq<ErrorInfo>)
    requires forall k :: 0 <= k < |s| ==> s[k].errors != -1
    ensures FlagCount(s) == 0
  {
    if s != [] { NoneFlagged(s[..|s| - 1]); }
  }

  lemma KeepAll(s: seq<ErrorInfo>) returns (kept: seq<int>)
    requires forall k :: 0 <= k < |s| ==> s[k].errors != -1
    ensures Compacted(s, s, kept, UnflaggedFlags(s), |s|)
  {
    kept := seq(|s|, k => k);
    assert forall m :: 0 <= m < |s| ==> kept[m] == m;
  }

  // Builds the table for messages of the given length; null stands for no table at all.
  method PrepareErrorTable(tables: ChecksumTables, bits: nat, correct: nat, detect: nat)
    returns (table: array?<ErrorInfo>, size: nat, ghost patterns: seq<seq<nat>>)
    requires tables.Valid()
    requires bits <= 112 && correct <= MODES_MAX_BITERRORS && detect >= correct
    ensures correct == 0 ==> table == null && size == 0
    ensures correct > 0 ==> table != null && fresh(table) && size <= table.Length
                            && TableFor(table[..size], patterns, bits, correct, detect)
  {
    if correct == 0 {
      return null, 0, [];
    }
    var maxsize := 0;
    ghost var n := if bits > 5 then bits - 5 else 0;
    for i := 1 to correct + 1
      invariant maxsize == BinomialSum(n, i - 1)
    {
      var count := Combinations(bits - 5, i);
      BinomialAbove(0, i);
      maxsize := maxsize + count;
    }
    PatternsFit(bits, correct);
    table, size, patterns := BuildTable(tables, bits, correct, maxsize);
    if detect > correct {
      size, patterns := DropDetectable(tables, table, size, bits, correct, detect, patterns);
    }
  }

  // Enumeration, sorting and removal of the collisions among correctable patterns.
  method BuildTable(tables: ChecksumTables, bits: nat, correct: nat, maxsize: nat)
    returns (table: array<ErrorInfo>, size: nat, ghost patterns: seq<seq<nat>>)
    requires tables.Valid() && bits <= 112 && correct <= MODES_MAX_BITERRORS
    requires maxsize == |Patterns(FIRST_BIT, bits, [], correct)|
    ensures fresh(table) && size <= table.Length
    ensures TableFor(table[..size], patterns, bits, correct, correct)
  {
    table := new ErrorInfo[maxsize];
    var base := ErrorInfo(0, 0, [-1, -1]);
    assert Describes(base, [], bits);
    hide Describes, Sorted, Patterns, ChecksumTables.Valid, Compacted, AloneFlags, DescribesAll, Enumerated, TableFor;
    // the first five bits, the downlink format, are left out
    var used := PrepareSubtable(tables, table, 0, 112 - bits, FIRST_BIT, bits, base, 0, correct, []);
    ghost var s := table[..used];
    assert table[0..used] == s;
    EnumerationComplete(s, bits, correct);
    QSort(table, used);
    ghost var permuted := EnumerationPermuted(s, Patterns(FIRST_BIT, bits, [], correct), table[..used], bits, correct);
    ghost var sorted := table[..used];
    ghost var kept;
    size, kept := DropCollisions(table, used);
    patterns := CollisionsDropped(table[..size], sorted, kept, permuted, bits, correct);
  }

  // Removal of the entries that collide with an error that is to be detected but not corrected.
  method DropDetectable(tables: ChecksumTables, table: array<ErrorInfo>, used: nat, bits: nat,
                        correct: nat, detect: nat, ghost patterns: seq<seq<nat>>)
    returns (size: nat, ghost remaining: seq<seq<nat>>)
    requires tables.Valid() && bits <= 112 && correct < detect
    requires used <= table.Length && TableFor(table[..used], patterns, bits, correct, correct)
    modifies table
    ensures size <= table.Length && TableFor(table[..size], remaining, bits, correct, detect)
  {
    ghost var s := table[..used];
    NoneFlaggedYet(s, patterns, bits, correct);
    hide StrictlySorted, ChecksumTables.Valid, Compacted, FlagAll, Hit, UnflaggedFlags, DescribesAll, Unambiguous, FlagCount;
    var flagged := FlagCollisions(tables, table, used, 112 - bits, FIRST_BIT, bits, 0, 1, correct + 1, detect, []);
    ghost var kept;
    if flagged > 0 {
      size, kept := DropFlagged(table, used);
    } else {
      size := used;
      NothingCollides(table[..used]);
      kept := KeepAll(table[..used]);
    }
    remaining := FlaggedDropped(table[..size], s, kept, patterns, bits, correct, detect);
  }

  lemma NoneFlaggedYet(s: seq<ErrorInfo>, patterns: seq<seq<nat>>, bits: nat, correct: nat)
    requires DescribesAll(s, patterns, bits)
    ensures FlagCount(s) == 0
  {
    forall k | 0 <= k < |s| { DescribesAt(s, patterns, bits, k); }
    NoneFlagged(s);
  }
}
