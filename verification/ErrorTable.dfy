// Building the table that maps a syndrome to the only error pattern that explains it.
module ErrorTable {
  import opened Bits
  import opened Crc
  import opened CrcDamage
  import opened CrcTables
  import opened ErrorPatterns

  const MODES_MAX_BITERRORS: nat := 2
  const FIRST_BIT: nat := 5 // errors in the downlink format are not corrected

  datatype ErrorInfo = ErrorInfo(syndrome: Word, errors: int, bit: seq<int>)

  // entry describes the pattern e in a message of the given number of bits.
  ghost predicate Describes(entry: ErrorInfo, e: seq<nat>, bits: nat) {
    && AllBelow(e, bits) && |e| <= MODES_MAX_BITERRORS
    && entry.syndrome == Syndrome(e, bits) && entry.errors == |e|
    && |entry.bit| == MODES_MAX_BITERRORS
    && forall k :: 0 <= k < MODES_MAX_BITERRORS ==> entry.bit[k] == if k < |e| then e[k] else -1
  }

  lemma SyndromeSnoc(e: seq<nat>, i: nat, bits: nat)
    requires AllBelow(e, bits) && i < bits
    ensures AllBelow(e + [i], bits) && Syndrome(e + [i], bits) == Xor(Syndrome(e, bits), Power(bits - 1 - i))
  {
    assert (e + [i])[..|e|] == e;
  }

  lemma NextEntry(base: ErrorInfo, prefix: seq<nat>, i: nat, bits: nat)
    requires Describes(base, prefix, bits) && |prefix| < MODES_MAX_BITERRORS && i < bits
    ensures Describes(ErrorInfo(Xor24(base.syndrome, Power(bits - 1 - i)), |prefix| + 1, base.bit[|prefix| := i]),
                      prefix + [i], bits)
  {
    SyndromeSnoc(prefix, i, bits);
    hide Syndrome, Power, Xor;
  }

  // ---------------------------------------------------------------- enumeration

  ghost predicate DescribesAll(entries: seq<ErrorInfo>, patterns: seq<seq<nat>>, bits: nat) {
    |entries| == |patterns| && forall k :: 0 <= k < |patterns| ==> Describes(entries[k], patterns[k], bits)
  }

  lemma DescribesJoin(s: seq<ErrorInfo>, t: seq<ErrorInfo>, p: seq<seq<nat>>, q: seq<seq<nat>>, bits: nat)
    requires DescribesAll(s, p, bits) && DescribesAll(t, q, bits)
    ensures DescribesAll(s + t, p + q, bits)
  {
  }

  // The entries written so far describe the patterns up to those that start at i or later.
  ghost predicate Progress(entries: seq<ErrorInfo>, i: nat, lo: nat, hi: nat, prefix: seq<nat>, max: nat) {
    var all, rest := Patterns(lo, hi, prefix, max), Patterns(i, hi, prefix, max);
    && |entries| + |rest| == |all| && all[|entries|..] == rest
    && DescribesAll(entries, all[..|entries|], hi)
  }

  lemma ProgressStep(entries: seq<ErrorInfo>, more: seq<ErrorInfo>,
                     i: nat, lo: nat, hi: nat, prefix: seq<nat>, max: nat)
    requires i < hi && |prefix| < max && Progress(entries, i, lo, hi, prefix, max)
    requires DescribesAll(more, [prefix + [i]] + Patterns(i + 1, hi, prefix + [i], max), hi)
    ensures Progress(entries + more, i + 1, lo, hi, prefix, max)
  {
    var all, done := Patterns(lo, hi, prefix, max), Patterns(lo, hi, prefix, max)[..|entries|];
    var with, without := [prefix + [i]] + Patterns(i + 1, hi, prefix + [i], max), Patterns(i + 1, hi, prefix, max);
    assert Patterns(i, hi, prefix, max) == with + without;
    hide Patterns, Describes, DescribesAll;
    DescribesJoin(entries, more, done, with, hi);
    assert |more| == |with| by { SameLength(more, with, hi); }
    assert all == done + with + without;
    assert all[..|entries| + |more|] == done + with;
  }

  lemma SameLength(entries: seq<ErrorInfo>, patterns: seq<seq<nat>>, bits: nat)
    requires DescribesAll(entries, patterns, bits)
    ensures |entries| == |patterns|
  {
  }

  lemma ProgressStart(lo: nat, hi: nat, prefix: seq<nat>, max: nat)
    ensures Progress([], lo, lo, hi, prefix, max)
  {
  }

  lemma ProgressDone(entries: seq<ErrorInfo>, i: nat, lo: nat, hi: nat, prefix: seq<nat>, max: nat)
    requires Progress(entries, i, lo, hi, prefix, max) && (|prefix| >= max || i >= hi)
    ensures DescribesAll(entries, Patterns(lo, hi, prefix, max), hi)
    ensures |entries| == |Patterns(lo, hi, prefix, max)|
  {
    assert Patterns(lo, hi, prefix, max)[..|entries|] == Patterns(lo, hi, prefix, max);
  }

  lemma ProgressRoom(entries: seq<ErrorInfo>, i: nat, lo: nat, hi: nat, prefix: seq<nat>, max: nat)
    requires i < hi && |prefix| < max && Progress(entries, i, lo, hi, prefix, max)
    ensures |entries| + 1 + |Patterns(i + 1, hi, prefix + [i], max)| <= |Patterns(lo, hi, prefix, max)|
  {
  }

  // Fills table[n..next] with the patterns that extend prefix, whose entry is base.
  method PrepareSubtable(tables: ChecksumTables, table: array<ErrorInfo>, n: nat, offset: nat,
                         startbit: nat, endbit: nat, base: ErrorInfo, errorBit: nat, maxErrors: nat,
                         ghost prefix: seq<nat>)
    returns (next: nat)
    requires tables.Valid()
    requires endbit <= 112 && offset == 112 - endbit && maxErrors <= MODES_MAX_BITERRORS
    requires errorBit == |prefix| && Describes(base, prefix, endbit)
    requires n + |Patterns(startbit, endbit, prefix, maxErrors)| <= table.Length
    modifies table
    ensures next == n + |Patterns(startbit, endbit, prefix, maxErrors)|
    ensures DescribesAll(table[n..next], Patterns(startbit, endbit, prefix, maxErrors), endbit)
    ensures table[..n] == old(table[..n])
    decreases if startbit < endbit then endbit - startbit else 0, 1
  {
    next := n;
    ProgressStart(startbit, endbit, prefix, maxErrors);
    hide Describes, DescribesAll, Progress, Patterns, ChecksumTables.Valid;
    if errorBit >= maxErrors {
      ProgressDone([], startbit, startbit, endbit, prefix, maxErrors);
      assert table[n..next] == [];
      return;
    }
    assert table[n..next] == [];
    var i := startbit;
    while i < endbit
      invariant startbit <= i && n <= next <= table.Length
      invariant Progress(table[n..next], i, startbit, endbit, prefix, maxErrors)
      invariant table[..n] == old(table[..n])
    {
      ghost var before, from := table[..next], next;
      ProgressRoom(before[n..], i, startbit, endbit, prefix, maxErrors);
      next := PrepareBranch(tables, table, next, offset, i, endbit, base, errorBit, maxErrors, prefix);
      ProgressStep(before[n..], table[from..next], i, startbit, endbit, prefix, maxErrors);
      assert table[n..next] == before[n..] + table[from..next];
      assert table[..n] == before[..n];
      i := i + 1;
    }
    ProgressDone(table[n..next], i, startbit, endbit, prefix, maxErrors);
  }

  // The body of the source's loop: the pattern prefix + [i], then everything that extends it.
  method PrepareBranch(tables: ChecksumTables, table: array<ErrorInfo>, n: nat, offset: nat,
                       i: nat, endbit: nat, base: ErrorInfo, errorBit: nat, maxErrors: nat,
                       ghost prefix: seq<nat>)
    returns (next: nat)
    requires tables.Valid()
    requires i < endbit <= 112 && offset == 112 - endbit && errorBit < maxErrors <= MODES_MAX_BITERRORS
    requires errorBit == |prefix| && Describes(base, prefix, endbit)
    requires n + 1 + |Patterns(i + 1, endbit, prefix + [i], maxErrors)| <= table.Length
    modifies table
    ensures next == n + 1 + |Patterns(i + 1, endbit, prefix + [i], maxErrors)|
    ensures DescribesAll(table[n..next], [prefix + [i]] + Patterns(i + 1, endbit, prefix + [i], maxErrors), endbit)
    ensures table[..n] == old(table[..n])
    decreases endbit - i, 0
  {
    assert |base.bit| == MODES_MAX_BITERRORS;
    SyndromeEntry(tables, i + offset);
    NextEntry(base, prefix, i, endbit);
    hide Describes, DescribesAll, Patterns, ChecksumTables.Valid;
    table[n] := ErrorInfo(Xor24(base.syndrome, tables.singleBitSyndrome[i + offset]), errorBit + 1, base.bit[errorBit := i]);
    ghost var before := table[..n + 1];
    next := PrepareSubtable(tables, table, n + 1, offset, i + 1, endbit, table[n], errorBit + 1, maxErrors, prefix + [i]);
    OneDescribed(before[n], prefix + [i], endbit);
    DescribesJoin([before[n]], table[n + 1..next], [prefix + [i]], Patterns(i + 1, endbit, prefix + [i], maxErrors), endbit);
    assert table[..n] == before[..n];
    assert table[n..next] == [before[n]] + table[n + 1..next];
  }

  lemma SyndromeEntry(tables: ChecksumTables, k: nat)
    requires tables.Valid() && k < 112
    ensures tables.singleBitSyndrome.Length == 112 && tables.singleBitSyndrome[k] == Power(111 - k)
  {
  }

  lemma OneDescribed(entry: ErrorInfo, e: seq<nat>, bits: nat)
    requires Describes(entry, e, bits)
    ensures DescribesAll([entry], [e], bits)
  {
  }

  // ---------------------------------------------------------------- sorting and searching

  ghost predicate Sorted(s: seq<ErrorInfo>) {
    forall i, j :: 0 <= i < j < |s| ==> s[i].syndrome <= s[j].syndrome
  }

  ghost predicate StrictlySorted(s: seq<ErrorInfo>) {
    forall i, j :: 0 <= i < j < |s| ==> s[i].syndrome < s[j].syndrome
  }

  function Insert(x: ErrorInfo, s: seq<ErrorInfo>): seq<ErrorInfo> {
    if s == [] || x.syndrome <= s[0].syndrome then [x] + s else [s[0]] + Insert(x, s[1..])
  }

  lemma {:induction false} InsertSorts(x: ErrorInfo, s: seq<ErrorInfo>)
    requires Sorted(s)
    ensures Sorted(Insert(x, s)) && multiset(Insert(x, s)) == multiset(s) + multiset{x}
  {
    if s != [] {
      assert s == [s[0]] + s[1..];
      if x.syndrome > s[0].syndrome {
        InsertSorts(x, s[1..]);
        PrependSorted(s[0], Insert(x, s[1..]), x, s[1..]);
      }
    }
  }

  lemma PrependSorted(y: ErrorInfo, r: seq<ErrorInfo>, x: ErrorInfo, s: seq<ErrorInfo>)
    requires Sorted(r) && multiset(r) == multiset(s) + multiset{x}
    requires y.syndrome <= x.syndrome && forall k :: 0 <= k < |s| ==> y.syndrome <= s[k].syndrome
    ensures Sorted([y] + r) && multiset([y] + r) == multiset([y] + s) + multiset{x}
  {
    forall k | 0 <= k < |r| ensures y.syndrome <= r[k].syndrome {
      assert r[k] in multiset(r);
    }
  }

  function InsertionSort(s: seq<ErrorInfo>): seq<ErrorInfo> {
    if s == [] then [] else Insert(s[0], InsertionSort(s[1..]))
  }

  lemma {:induction false} InsertionSorts(s: seq<ErrorInfo>)
    ensures Sorted(InsertionSort(s)) && multiset(InsertionSort(s)) == multiset(s)
  {
    if s != [] {
      InsertionSorts(s[1..]);
      InsertSorts(s[0], InsertionSort(s[1..]));
      assert s == [s[0]] + s[1..];
    }
  }

  // The C library's qsort: callers only learn that the result is some sorted permutation.
  method QSort(table: array<ErrorInfo>, n: nat)
    requires n <= table.Length
    modifies table
    ensures Sorted(table[..n]) && multiset(table[..n]) == multiset(old(table[..n]))
    ensures forall k :: n <= k < table.Length ==> table[k] == old(table[k])
  {
    var s := InsertionSort(table[..n]);
    InsertionSorts(table[..n]);
    assert |s| == |multiset(s)| == |multiset(table[..n])| == n;
    forall k | 0 <= k < n {
      table[k] := s[k];
    }
    assert table[..n] == s;
  }

  // The C library's bsearch: -1 stands for NULL.
  method BSearch(key: Word, table: array<ErrorInfo>, n: nat) returns (k: int)
    requires n <= table.Length && Sorted(table[..n])
    ensures k >= 0 ==> k < n && table[k].syndrome == key
    ensures k < 0 ==> forall j :: 0 <= j < n ==> table[j].syndrome != key
  {
    var lo, hi := 0, n;
    while lo < hi
      invariant 0 <= lo <= hi <= n
      invariant forall j :: 0 <= j < lo ==> table[j].syndrome < key
      invariant forall j :: hi <= j < n ==> table[j].syndrome > key
    {
      var mid := (lo + hi) / 2;
      ghost var s := table[..n];
      assert forall j :: 0 <= j < n ==> table[j] == s[j];
      if table[mid].syndrome == key {
        return mid;
      } else if table[mid].syndrome < key {
        lo := mid + 1;
      } else {
        hi := mid;
      }
    }
    k := -1;
  }

  // ---------------------------------------------------------------- collisions among correctable patterns

  // No other entry has the syndrome of entry k.
  ghost predicate Alone(s: seq<ErrorInfo>, k: int) {
    0 <= k < |s| && forall m :: 0 <= m < |s| && m != k ==> s[m].syndrome != s[k].syndrome
  }

  // Compaction in progress: t lists, in order, the entries of s before i that are to be kept.
  ghost predicate Compacted(t: seq<ErrorInfo>, s: seq<ErrorInfo>, kept: seq<int>, keep: seq<bool>, i: int) {
    && |t| == |kept| && |keep| == |s|
    && (forall k :: 0 <= k < |kept| ==> 0 <= kept[k] < i && kept[k] < |s| && keep[kept[k]] && t[k] == s[kept[k]])
    && (forall k, m :: 0 <= k < m < |kept| ==> kept[k] < kept[m])
    && (forall m :: 0 <= m < i && m < |s| && keep[m] ==> m in kept)
  }

  lemma NothingKept(s: seq<ErrorInfo>, keep: seq<bool>)
    requires |keep| == |s|
    ensures Compacted([], s, [], keep, 0)
  {
  }

  lemma CompactKeep(t: seq<ErrorInfo>, s: seq<ErrorInfo>, kept: seq<int>, keep: seq<bool>, i: int)
    requires Compacted(t, s, kept, keep, i) && 0 <= i < |s| && keep[i]
    ensures Compacted(t + [s[i]], s, kept + [i], keep, i + 1)
  {
  }

  lemma CompactSkip(t: seq<ErrorInfo>, s: seq<ErrorInfo>, kept: seq<int>, keep: seq<bool>, i: int, next: int)
    requires Compacted(t, s, kept, keep, i) && 0 <= i <= next <= |s|
    requires forall m :: i <= m < next ==> !keep[m]
    ensures Compacted(t, s, kept, keep, next)
  {
  }

  ghost function AloneFlags(s: seq<ErrorInfo>): (keep: seq<bool>)
    ensures |keep| == |s| && forall k :: 0 <= k < |s| ==> keep[k] == Alone(s, k)
  {
    seq(|s|, k => Alone(s, k))
  }

  // In-place compaction that skips every run of equal syndromes as a whole.
  method DropCollisions(table: array<ErrorInfo>, used: nat) returns (j: nat, ghost kept: seq<int>)
    requires used <= table.Length && Sorted(table[..used])
    modifies table
    ensures j <= used
    ensures Compacted(table[..j], old(table[..used]), kept, AloneFlags(old(table[..used])), used)
  {
    hide Compacted, Alone, AloneFlags, Sorted;
    ghost var s := table[..used];
    ghost var keep := AloneFlags(s);
    NothingKept(s, keep);
    assert table[..0] == [];
    var i := 0;
    j, kept := 0, [];
    while i < used
      invariant 0 <= j <= i <= used && forall k :: i <= k < used ==> table[k] == s[k]
      invariant 0 < i < used ==> s[i - 1].syndrome < s[i].syndrome
      invariant Compacted(table[..j], s, kept, keep, i)
    {
      var next := i + 1;
      if i < used - 1 && table[i + 1].syndrome == table[i].syndrome {
        // skip over this entry and all collisions
        next := EndOfRun(table, i, used, s);
        RunNotAlone(s, i, next - 1);
        CompactSkip(table[..j], s, kept, keep, i, next);
      } else {
        BoundaryAlone(s, i);
        CompactKeep(table[..j], s, kept, keep, i);
        MoveEntry(table, i, j, used);
        j, kept := j + 1, kept + [i];
      }
      NextDiffers(s, next - 1);
      i := next;
    }
  }

  method MoveEntry(table: array<ErrorInfo>, i: nat, j: nat, used: nat)
    requires j <= i < used <= table.Length
    modifies table
    ensures table[..j + 1] == old(table[..j]) + [old(table[i])]
    ensures forall k :: i < k < used ==> table[k] == old(table[k])
  {
    if i != j {
      table[j] := table[i];
    }
  }

  // One past the last entry that has the syndrome of entry i.
  method EndOfRun(table: array<ErrorInfo>, i: nat, used: nat, ghost s: seq<ErrorInfo>) returns (next: nat)
    requires i + 1 < used <= table.Length && |s| == used && forall k :: i <= k < used ==> table[k] == s[k]
    requires table[i + 1].syndrome == table[i].syndrome
    ensures i + 1 < next <= used
    ensures forall k :: i <= k < next ==> s[k].syndrome == s[i].syndrome
    ensures next < used ==> s[next].syndrome != s[next - 1].syndrome
  {
    next := i + 1;
    while next < used && table[next].syndrome == table[next - 1].syndrome
      invariant i + 1 <= next <= used && (next == i + 1 ==> table[next].syndrome == table[i].syndrome)
      invariant forall k :: i <= k < next ==> s[k].syndrome == s[i].syndrome
    {
      next := next + 1;
    }
  }

  lemma NextDiffers(s: seq<ErrorInfo>, i: int)
    requires Sorted(s) && 0 <= i < |s|
    ensures i + 1 < |s| && s[i + 1].syndrome != s[i].syndrome ==> s[i].syndrome < s[i + 1].syndrome
  {
  }

  lemma RunNotAlone(s: seq<ErrorInfo>, first: int, last: int)
    requires 0 <= first < last < |s| && forall k :: first <= k <= last ==> s[k].syndrome == s[first].syndrome
    ensures forall m :: first <= m <= last ==> !Alone(s, m)
  {
    forall m | first <= m <= last ensures !Alone(s, m) {
      var other := if m == first then last else first;
      assert s[other].syndrome == s[m].syndrome;
    }
  }

  lemma BoundaryAlone(s: seq<ErrorInfo>, i: int)
    requires Sorted(s) && 0 <= i < |s|
    requires i > 0 ==> s[i - 1].syndrome < s[i].syndrome
    requires i < |s| - 1 ==> s[i + 1].syndrome != s[i].syndrome
    ensures Alone(s, i)
  {
    forall m | 0 <= m < |s| && m != i ensures s[m].syndrome != s[i].syndrome {
      if m < i - 1 { assert s[m].syndrome <= s[i - 1].syndrome; }
      if m > i { assert s[i].syndrome <= s[i + 1].syndrome <= s[m].syndrome; }
    }
  }

  // ---------------------------------------------------------------- collisions with detectable patterns

  // Some pattern that extends prefix and has first to last errors has this syndrome.
  ghost predicate Hit(syndrome: Word, lo: nat, hi: nat, prefix: seq<nat>, first: nat, last: nat) {
    exists e :: HitBy(syndrome, e, lo, hi, prefix, first, last)
  }

  ghost predicate HitBy(syndrome: Word, e: seq<nat>, lo: nat, hi: nat, prefix: seq<nat>, first: nat, last: nat) {
    Extends(e, prefix, lo, hi, last) && first <= |e| && AllBelow(e, hi) && Syndrome(e, hi) == syndrome
  }

  lemma HitStep(syndrome: Word, lo: nat, hi: nat, prefix: seq<nat>, first: nat, last: nat)
    requires lo < hi && |prefix| < last && AllBelow(prefix, hi)
    ensures AllBelow(prefix + [lo], hi)
    ensures Hit(syndrome, lo, hi, prefix, first, last) ==
            (|| (first <= |prefix| + 1 && syndrome == Syndrome(prefix + [lo], hi))
             || Hit(syndrome, lo + 1, hi, prefix + [lo], first, last)
             || Hit(syndrome, lo + 1, hi, prefix, first, last))
  {
    var e0 := prefix + [lo];
    hide Syndrome;
    if Hit(syndrome, lo, hi, prefix, first, last) {
      var e :| HitBy(syndrome, e, lo, hi, prefix, first, last);
      ExtendsCases(e, prefix, lo, hi, last);
      if e != e0 {
        if Extends(e, e0, lo + 1, hi, last) {
          assert HitBy(syndrome, e, lo + 1, hi, e0, first, last);
        } else {
          assert HitBy(syndrome, e, lo + 1, hi, prefix, first, last);
        }
      }
    }
    if first <= |prefix| + 1 && syndrome == Syndrome(e0, hi) {
      assert HitBy(syndrome, e0, lo, hi, prefix, first, last);
    }
    if Hit(syndrome, lo + 1, hi, e0, first, last) {
      var e :| HitBy(syndrome, e, lo + 1, hi, e0, first, last);
      ExtendsFirst(e, prefix, lo, hi, last);
      assert HitBy(syndrome, e, lo, hi, prefix, first, last);
    }
    if Hit(syndrome, lo + 1, hi, prefix, first, last) {
      var e :| HitBy(syndrome, e, lo + 1, hi, prefix, first, last);
      assert HitBy(syndrome, e, lo, hi, prefix, first, last);
    }
  }

  ghost function Flagged(entry: ErrorInfo, hit: bool): ErrorInfo {
    if hit then entry.(errors := -1) else entry
  }

  ghost function FlagAll(s: seq<ErrorInfo>, lo: nat, hi: nat, prefix: seq<nat>, first: nat, last: nat): seq<ErrorInfo> {
    seq(|s|, k requires 0 <= k < |s| => Flagged(s[k], Hit(s[k].syndrome, lo, hi, prefix, first, last)))
  }

  ghost function FlagOne(s: seq<ErrorInfo>, syndrome: Word): seq<ErrorInfo> {
    seq(|s|, k requires 0 <= k < |s| => Flagged(s[k], s[k].syndrome == syndrome))
  }

  // The effect of the patterns that start with prefix + [lo].
  ghost function FlagFrom(s: seq<ErrorInfo>, lo: nat, hi: nat, prefix: seq<nat>, first: nat, last: nat): seq<ErrorInfo>
    requires lo < hi && AllBelow(prefix, hi)
  {
    var one := if first <= |prefix| + 1 then FlagOne(s, Syndrome(prefix + [lo], hi)) else s;
    FlagAll(one, lo + 1, hi, prefix + [lo], first, last)
  }

  lemma FlagStep(s: seq<ErrorInfo>, lo: nat, hi: nat, prefix: seq<nat>, first: nat, last: nat)
    requires lo < hi && |prefix| < last && AllBelow(prefix, hi)
    ensures AllBelow(prefix + [lo], hi)
    ensures FlagAll(s, lo, hi, prefix, first, last)
            == FlagAll(FlagFrom(s, lo, hi, prefix, first, last), lo + 1, hi, prefix, first, last)
  {
    forall k | 0 <= k < |s| { HitStep(s[k].syndrome, lo, hi, prefix, first, last); }
    hide Syndrome, Hit;
  }

  lemma FlagDone(s: seq<ErrorInfo>, lo: nat, hi: nat, prefix: seq<nat>, first: nat, last: nat)
    requires lo >= hi || |prefix| >= last
    ensures FlagAll(s, lo, hi, prefix, first, last) == s
  {
    forall syndrome ensures !Hit(syndrome, lo, hi, prefix, first, last) {
      forall e ensures !HitBy(syndrome, e, lo, hi, prefix, first, last) {
        if |e| > |prefix| && lo >= hi { assert !(lo <= e[|prefix|] < hi); }
      }
    }
  }

  ghost function FlagCount(s: seq<ErrorInfo>): nat {
    if s == [] then 0
    else FlagCount(s[..|s| - 1]) + if s[|s| - 1].errors == -1 then 1 else 0
  }

  lemma {:induction false} FlagCountUpdate(s: seq<ErrorInfo>, k: nat)
    requires k < |s| && s[k].errors != -1
    ensures FlagCount(s[k := s[k].(errors := -1)]) == FlagCount(s) + 1
  {
    var n, t := |s| - 1, s[k := s[k].(errors := -1)];
    if k == n {
      assert t[..n] == s[..n];
    } else {
      FlagCountUpdate(s[..n], k);
      assert t[..n] == s[..n][k := s[k].(errors := -1)];
    }
  }

  lemma FlagKeepsOrder(s: seq<ErrorInfo>, lo: nat, hi: nat, prefix: seq<nat>, first: nat, last: nat)
    requires StrictlySorted(s)
    ensures StrictlySorted(FlagAll(s, lo, hi, prefix, first, last))
  {
  }

  // Marks the entry with this syndrome, if there is one, and counts it if it was not marked before.
  method FlagEntry(table: array<ErrorInfo>, size: nat, syndrome: Word) returns (count: nat)
    requires size <= table.Length && StrictlySorted(table[..size])
    modifies table
    ensures table[..size] == FlagOne(old(table[..size]), syndrome)
    ensures count == FlagCount(table[..size]) - FlagCount(old(table[..size]))
  {
    ghost var s := table[..size];
    var k := BSearch(syndrome, table, size);
    count := 0;
    if k >= 0 && table[k].errors != -1 {
      count := 1;
      FlagCountUpdate(s, k);
      table[k] := table[k].(errors := -1);
      assert table[..size] == s[k := s[k].(errors := -1)];
    }
    assert forall j :: 0 <= j < size ==> s[j] == old(table[j]);
  }

  method FlagCollisions(tables: ChecksumTables, table: array<ErrorInfo>, size: nat, offset: nat,
                        startbit: nat, endbit: nat, baseSyndrome: Word, errorBit: nat,
                        firstError: nat, lastError: nat, ghost prefix: seq<nat>)
    returns (count: nat)
    requires tables.Valid()
    requires endbit <= 112 && offset == 112 - endbit
    requires size <= table.Length && StrictlySorted(table[..size])
    requires errorBit == |prefix| + 1 && AllBelow(prefix, endbit) && baseSyndrome == Syndrome(prefix, endbit)
    modifies table
    ensures table[..size] == FlagAll(old(table[..size]), startbit, endbit, prefix, firstError, lastError)
    ensures count == FlagCount(table[..size]) - FlagCount(old(table[..size]))
    decreases if startbit < endbit then endbit - startbit else 0, 1
  {
    hide *;
    count := 0;
    ghost var s := table[..size];
    if errorBit > lastError {
      FlagDone(s, startbit, endbit, prefix, firstError, lastError);
      return;
    }
    var i := startbit;
    while i < endbit
      invariant startbit <= i && StrictlySorted(table[..size])
      invariant FlagAll(table[..size], i, endbit, prefix, firstError, lastError)
                == FlagAll(s, startbit, endbit, prefix, firstError, lastError)
      invariant count == FlagCount(table[..size]) - FlagCount(s)
    {
      FlagStep(table[..size], i, endbit, prefix, firstError, lastError);
      var more := FlagBranch(tables, table, size, offset, i, endbit, baseSyndrome, errorBit, firstError, lastError, prefix);
      count := count + more;
      i := i + 1;
    }
    FlagDone(table[..size], i, endbit, prefix, firstError, lastError);
  }

  // The body of the source's loop: the pattern prefix + [i], then everything that extends it.
  method FlagBranch(tables: ChecksumTables, table: array<ErrorInfo>, size: nat, offset: nat,
                    i: nat, endbit: nat, baseSyndrome: Word, errorBit: nat,
                    firstError: nat, lastError: nat, ghost prefix: seq<nat>)
    returns (count: nat)
    requires tables.Valid()
    requires i < endbit <= 112 && offset == 112 - endbit
    requires size <= table.Length && StrictlySorted(table[..size])
    requires errorBit == |prefix| + 1 && AllBelow(prefix, endbit) && baseSyndrome == Syndrome(prefix, endbit)
    modifies table
    ensures table[..size] == FlagFrom(old(table[..size]), i, endbit, prefix, firstError, lastError)
    ensures StrictlySorted(table[..size])
    ensures count == FlagCount(table[..size]) - FlagCount(old(table[..size]))
    decreases endbit - i, 0
  {
    hide Syndrome, Power, FlagAll, FlagOne, StrictlySorted, Extends, ChecksumTables.Valid;
    SyndromeEntry(tables, i + offset);
    SyndromeSnoc(prefix, i, endbit);
    var syndrome := Xor24(baseSyndrome, tables.singleBitSyndrome[i + offset]);
    FlagOneKeepsOrder(table[..size], syndrome);
    count := 0;
    if errorBit >= firstError {
      count := FlagEntry(table, size, syndrome);
    }
    FlagKeepsOrder(table[..size], i + 1, endbit, prefix + [i], firstError, lastError);
    var more := FlagCollisions(tables, table, size, offset, i + 1, endbit, syndrome, errorBit + 1,
                               firstError, lastError, prefix + [i]);
    count := count + more;
  }

  lemma FlagOneKeepsOrder(s: seq<ErrorInfo>, syndrome: Word)
    requires StrictlySorted(s)
    ensures StrictlySorted(FlagOne(s, syndrome))
  {
  }

  ghost function UnflaggedFlags(s: seq<ErrorInfo>): (keep: seq<bool>)
    ensures |keep| == |s| && forall k :: 0 <= k < |s| ==> keep[k] == (s[k].errors != -1)
  {
    seq(|s|, k requires 0 <= k < |s| => s[k].errors != -1)
  }

  // In-place compaction that drops the flagged entries.
  method DropFlagged(table: array<ErrorInfo>, used: nat) returns (j: nat, ghost kept: seq<int>)
    requires used <= table.Length
    modifies table
    ensures j <= used
    ensures Compacted(table[..j], old(table[..used]), kept, UnflaggedFlags(old(table[..used])), used)
  {
    ghost var s := table[..used];
    ghost var keep := UnflaggedFlags(s);
    assert Compacted([], s, [], keep, 0);
    hide Compacted, UnflaggedFlags;
    j, kept := 0, [];
    for i := 0 to used
      invariant 0 <= j <= i && forall k :: i <= k < used ==> table[k] == s[k]
      invariant Compacted(table[..j], s, kept, keep, i)
    {
      if table[i].errors != -1 {
        CompactKeep(table[..j], s, kept, keep, i);
        MoveEntry(table, i, j, used);
        j, kept := j + 1, kept + [i];
      } else {
        CompactSkip(table[..j], s, kept, keep, i, i + 1);
      }
    }
  }
}
