// The cache of printed trace points behind the recent-trace JSON.
module TraceCache {
  // A trace point without its leg marker, which may change later: timestamp, the other fields, and
  // the slow record that is printed with each fourth point.
  datatype Sample = Sample(ts: int, body: seq<int>, all: seq<int>)

  // Prints a point, with or without the slow record, for a leg marker and a reference time.
  datatype Printer = Printer(render: (Sample, bool, int, int) -> string) {
    ghost predicate NeverEmpty() {
      forall s, withAll, leg, ref :: |render(s, withAll, leg, ref)| > 0
    }
  }

  const SFOUR: nat := 4
  const HOURS: int := 3600000

  // The point at position i of a trace, printed from scratch.
  function Printed(pr: Printer, h: seq<Sample>, i: nat, leg: int, ref: int): string
    requires i < |h|
  {
    pr.render(h[i], i % SFOUR == 0, leg, ref)
  }

  function Concat(texts: seq<string>): string {
    if texts == [] then "" else Concat(texts[..|texts| - 1]) + texts[|texts| - 1]
  }

  lemma ConcatSnoc(texts: seq<string>, t: string)
    ensures Concat(texts + [t]) == Concat(texts) + t
  {
    assert (texts + [t])[..|texts|] == texts;
  }

  lemma {:induction false} ConcatSplit(texts: seq<string>, k: nat)
    requires k <= |texts|
    ensures Concat(texts) == Concat(texts[..k]) + Concat(texts[k..])
  {
    if k == |texts| {
      assert texts[..k] == texts && texts[k..] == [];
    } else {
      var most, last := texts[..|texts| - 1], texts[|texts| - 1];
      ConcatSplit(most, k);
      assert most[..k] == texts[..k] && texts[k..] == most[k..] + [last] && texts == most + [last];
      ConcatSnoc(most, last);
      ConcatSnoc(most[k..], last);
    }
  }

  // Where the text of entry k starts.
  function Start(texts: seq<string>, k: nat): nat
    requires k <= |texts|
  {
    |Concat(texts[..k])|
  }

  lemma StartNext(texts: seq<string>, k: nat)
    requires k < |texts|
    ensures Start(texts, k + 1) == Start(texts, k) + |texts[k]|
  {
    assert texts[..k + 1] == texts[..k] + [texts[k]];
    ConcatSnoc(texts[..k], texts[k]);
  }


  datatype CacheEntry = CacheEntry(ts: int, offset: int, len: int, legMarker: int)

  ghost predicate Distinct(h: seq<Sample>) {
    forall i, j :: 0 <= i < j < |h| ==> h[i].ts != h[j].ts
  }

  // Entry k describes text k, the print of point base + k.
  ghost predicate EntryOk(e: CacheEntry, texts: seq<string>, k: nat, pr: Printer, h: seq<Sample>, i: nat, ref: int)
    requires k < |texts| && i < |h|
  {
    && e.ts == h[i].ts && e.offset == Start(texts, k) && e.len == |texts[k]|
    && texts[k] == Printed(pr, h, i, e.legMarker, ref)
  }

  ghost predicate EntriesOk(e: seq<CacheEntry>, texts: seq<string>, pr: Printer, h: seq<Sample>, base: nat, ref: int) {
    && |texts| <= |e| && base + |texts| <= |h|
    && forall k :: 0 <= k < |texts| ==> EntryOk(e[k], texts, k, pr, h, base + k, ref)
  }

  // Entries without the first m, with their offsets moved down.
  ghost predicate Shifted(shorter: seq<CacheEntry>, e: seq<CacheEntry>, m: nat, n: nat, dist: int) {
    && n <= |shorter| && m + n <= |e|
    && forall x :: 0 <= x < n ==> shorter[x] == e[m + x].(offset := e[m + x].offset - dist)
  }

  lemma TextsSplit(e: seq<CacheEntry>, texts: seq<string>, pr: Printer, h: seq<Sample>, base: nat, ref: int, m: nat)
    requires EntriesOk(e, texts, pr, h, base, ref) && m < |texts|
    ensures |texts| <= |e| && e[m].offset == Start(texts, m)
    ensures Start(texts, m) + |Concat(texts[m..])| == |Concat(texts)| == e[|texts| - 1].offset + e[|texts| - 1].len
    ensures Concat(texts)[Start(texts, m)..] == Concat(texts[m..])
  {
    hide Concat, Printed;
    ConcatSplit(texts, m);
    StartNext(texts, |texts| - 1);
    assert texts[..|texts|] == texts;
    assert EntryOk(e[m], texts, m, pr, h, base + m, ref);
  }

  lemma EntriesShifted(e: seq<CacheEntry>, shorter: seq<CacheEntry>, texts: seq<string>, pr: Printer, h: seq<Sample>,
                       base: nat, ref: int, m: nat)
    requires EntriesOk(e, texts, pr, h, base, ref) && m < |texts|
    requires |shorter| == |e| && Shifted(shorter, e, m, |texts| - m, Start(texts, m))
    ensures EntriesOk(shorter, texts[m..], pr, h, base + m, ref)
  {
    hide Concat, Printed;
    forall x | 0 <= x < |texts| - m ensures EntryOk(shorter[x], texts[m..], x, pr, h, base + m + x, ref) {
      ConcatSplit(texts[..m + x], m);
      assert texts[..m + x][..m] == texts[..m] && texts[..m + x][m..] == texts[m..][..x];
      assert EntryOk(e[m + x], texts, m + x, pr, h, base + (m + x), ref);
    }
  }

  lemma Truncated(e: seq<CacheEntry>, json: string, texts: seq<string>, pr: Printer, h: seq<Sample>, base: nat, ref: int, k: nat)
    requires EntriesOk(e, texts, pr, h, base, ref) && k <= |texts| && Concat(texts) <= json
    ensures EntriesOk(e, texts[..k], pr, h, base, ref)
    ensures Concat(texts[..k]) <= json && |Concat(texts[..k])| <= |Concat(texts)|
    ensures |texts| <= |e| && |Concat(texts[..k])| == if k == 0 then 0 else e[k - 1].offset + e[k - 1].len
  {
    ConcatSplit(texts, k);
    if k > 0 {
      StartNext(texts, k - 1);
      assert EntryOk(e[k - 1], texts, k - 1, pr, h, base + k - 1, ref);
    } else {
      assert texts[..0] == [];
    }
    hide Concat, Printed;
    forall x | 0 <= x < k ensures EntryOk(e[x], texts[..k], x, pr, h, base + x, ref) {
      assert texts[..k][..x] == texts[..x];
      assert EntryOk(e[x], texts, x, pr, h, base + x, ref);
    }
  }

  lemma Appended(e: seq<CacheEntry>, texts: seq<string>, text: string, leg: int, pr: Printer, h: seq<Sample>, base: nat, ref: int)
    requires EntriesOk(e, texts, pr, h, base, ref) && |texts| < |e| && base + |texts| < |h|
    requires text == Printed(pr, h, base + |texts|, leg, ref)
    ensures var last := CacheEntry(h[base + |texts|].ts, |Concat(texts)|, |text|, leg);
            EntriesOk(e[|texts| := last], texts + [text], pr, h, base, ref)
    ensures Concat(texts + [text]) == Concat(texts) + text
  {
    hide Concat, Printed;
    ConcatSnoc(texts, text);
    var last := CacheEntry(h[base + |texts|].ts, |Concat(texts)|, |text|, leg);
    var n, f, longer := |texts|, e[|texts| := last], texts + [text];
    assert longer[..n] == texts;
    forall x | 0 <= x <= n ensures EntryOk(f[x], longer, x, pr, h, base + x, ref) {
      if x < n {
        assert longer[..x] == texts[..x];
        assert EntryOk(e[x], texts, x, pr, h, base + x, ref);
      }
    }
  }

  method ShiftEntries(e: array<CacheEntry>, m: nat, n: nat)
    requires m + n <= e.Length
    modifies e
    ensures forall x :: 0 <= x < n ==> e[x] == old(e[m + x])
  {
    forall x | 0 <= x < n {
      e[x] := e[m + x];
    }
  }

  method ShiftText(json: array<char>, dist: nat, n: nat)
    requires dist + n <= json.Length
    modifies json
    ensures json[..n] == old(json[dist..dist + n])
  {
    forall x | 0 <= x < n {
      json[x] := json[dist + x];
    }
  }

  method Rebase(e: array<CacheEntry>, n: nat, dist: int)
    requires n <= e.Length
    modifies e
    ensures forall x :: 0 <= x < n ==> e[x] == old(e[x]).(offset := old(e[x]).offset - dist)
  {
    for x := 0 to n
      invariant forall j :: 0 <= j < x ==> e[j] == old(e[j]).(offset := old(e[j]).offset - dist)
      invariant forall j :: x <= j < n ==> e[j] == old(e[j])
    {
      e[x] := e[x].(offset := e[x].offset - dist);
    }
  }

  // Entries f to k - 1 have the leg markers from position first on.
  ghost predicate LegsAgree(e: seq<CacheEntry>, f: nat, k: nat, legs: seq<int>, first: nat) {
    && f <= k <= |e| && first + (k - f) <= |legs|
    && forall j :: f <= j < k ==> e[j].legMarker == legs[first + (j - f)]
  }

  lemma NoLegsYet(e: seq<CacheEntry>, f: nat, legs: seq<int>, first: nat)
    requires f <= |e| && first <= |legs|
    ensures LegsAgree(e, f, f, legs, first)
  {
  }

  lemma LegsStep(e: seq<CacheEntry>, after: seq<CacheEntry>, f: nat, k: nat, legs: seq<int>, first: nat, more: bool)
    requires LegsAgree(e, f, k, legs, first) && |after| == |e| && forall j :: 0 <= j < k ==> after[j] == e[j]
    requires more ==> k < |e| && first + (k - f) < |legs| && after[k].legMarker == legs[first + (k - f)]
    ensures LegsAgree(after, f, if more then k + 1 else k, legs, first)
  {
  }

  class Cache {
    const printer: Printer
    const recentPoints: nat
    const cachePoints: nat
    var entries: array?<CacheEntry>
    var json: array?<char>
    var jsonMax: nat
    var entriesLen: nat
    var firstRecentCache: nat
    var referenceTs: int
    // the points of the trace since it was started, pruned ones included
    ghost var history: seq<Sample>
    ghost var base: nat
    // the point that times are relative to
    ghost var refAt: nat
    ghost var texts: seq<string>

    // The buffer holds the printed texts without gaps.
    ghost predicate Valid()
      reads this, entries, json
    {
      && printer.NeverEmpty() && 0 < recentPoints && recentPoints + 8 <= cachePoints
      && Distinct(history) && |texts| == entriesLen
      && (entries == null <==> json == null) && (entries == null ==> entriesLen == 0)
      && (entries != null ==>
        && entries.Length == cachePoints && json.Length == jsonMax
        && EntriesOk(entries[..], texts, printer, history, base, referenceTs)
        && (texts != [] ==> |Concat(texts)| + 2 <= jsonMax && Anchored()) && Concat(texts) <= json[..])
    }

    // Times are relative to a point that is not behind the first one in the cache.
    ghost predicate Anchored()
      reads this
    {
      refAt <= base && refAt < |history| && history[refAt].ts == referenceTs
    }

    constructor (printer: Printer, recentPoints: nat, cachePoints: nat)
      requires printer.NeverEmpty() && 0 < recentPoints && recentPoints + 8 <= cachePoints
      ensures Valid() && history == []
    {
      this.printer, this.recentPoints, this.cachePoints := printer, recentPoints, cachePoints;
      entries, json, jsonMax, entriesLen, firstRecentCache, referenceTs := null, null, 0, 0, 0, 0;
      history, base, refAt, texts := [], 0, 0, [];
    }

    // The entry with a timestamp, if any.
    method FindTs(ts: int) returns (found: bool, k: nat)
      requires Valid()
      ensures found ==> k < entriesLen && entries != null && entries[k].ts == ts
      ensures !found ==> forall j :: 0 <= j < entriesLen ==> entries[j].ts != ts
    {
      k := 0;
      while k < entriesLen
        invariant k <= entriesLen && forall j :: 0 <= j < k ==> entries[j].ts != ts
      {
        if entries[k].ts == ts {
          return true, k;
        }
        k := k + 1;
      }
      found := false;
    }

    // Removes the first entries and their text.
    method DropFront(moveIndexes: nat, moveDist: nat, moveBytes: nat)
      requires Valid() && entries != null && 0 < moveIndexes < entriesLen
      requires moveDist == entries[moveIndexes].offset
      requires moveBytes == entries[entriesLen - 1].offset + entries[entriesLen - 1].len - moveDist
      modifies `entriesLen, `base, `texts, entries, json
      ensures Valid() && entriesLen == old(entriesLen) - moveIndexes
      ensures base == old(base) + moveIndexes && texts == old(texts)[moveIndexes..]
    {
      hide Printed, Printer.NeverEmpty, Concat, Distinct, EntriesOk, Start;
      ghost var e, t, m := entries[..], texts, moveIndexes;
      TextsSplit(e, t, printer, history, base, referenceTs, m);
      assert e[m] == entries[moveIndexes] && e[|t| - 1] == entries[entriesLen - 1];
      DroppedText(json[..], t, moveDist, moveBytes, m);
      entriesLen := entriesLen - moveIndexes;
      ShiftEntries(entries, moveIndexes, entriesLen);
      ShiftText(json, moveDist, moveBytes);
      Rebase(entries, entriesLen, moveDist);
      EntriesShifted(e, entries[..], t, printer, history, base, referenceTs, m);
      base, texts := base + m, t[m..];
    }

    // Prints point i as entry k, replacing all entries from k on, unless the buffer is full.
    method PrintEntry(k: nat, state: Sample, withAll: bool, legMarker: int, ghost i: nat) returns (ok: bool)
      requires Valid() && entries != null && Anchored() && k <= entriesLen && k < cachePoints && i == base + k < |history|
      requires state == history[i] && withAll == (i % SFOUR == 0)
      modifies `entriesLen, `texts, entries, json
      ensures Valid()
      ensures var text := Printed(printer, history, i, legMarker, referenceTs);
              && ok == (|Concat(old(texts)[..k])| + |text| + 2 <= jsonMax)
              && texts == if ok then old(texts)[..k] + [text] else old(texts)[..k]
      ensures forall j :: 0 <= j < k ==> entries[j] == old(entries[j])
      ensures ok ==> entries[k].ts == history[i].ts && entries[k].legMarker == legMarker
      ensures !ok && k < old(entriesLen) ==> entries[k] == old(entries[k])
    {
      hide Printer.NeverEmpty, Concat, Distinct, EntriesOk, Start;
      Truncated(entries[..], json[..], texts, printer, history, base, referenceTs, k);
      entriesLen := k;
      ghost var t := texts[..k];
      texts := t;
      ghost var e := entries[..];
      var p := if k == 0 then 0 else entries[k - 1].offset + entries[k - 1].len;
      var text := printer.render(state, withAll, legMarker, referenceTs);
      assert text == Printed(printer, history, i, legMarker, referenceTs);
      var q := Sprint(json, p, text);
      if q + 1 >= jsonMax {
        return false;
      }
      entries[k] := CacheEntry(state.ts, p, q - p, legMarker);
      Appended(e, t, text, legMarker, printer, history, base, referenceTs);
      assert entries[..] == e[k := CacheEntry(state.ts, p, q - p, legMarker)];
      entriesLen := k + 1;
      texts := t + [text];
      ok := true;
    }

    // The trace has grown since the last time.
    ghost method Extend(h: seq<Sample>)
      requires Valid() && history <= h && Distinct(h)
      modifies `history
      ensures Valid() && history == h
    {
      hide Printer.NeverEmpty, Concat, Start, Distinct;
      if entries != null {
        HistoryExtended(entries[..], texts, printer, history, h, base, referenceTs);
      }
      history := h;
    }

    method Allocate()
      requires Valid() && entries == null
      modifies this
      ensures Valid() && entries != null && fresh(entries) && fresh(json) && history == old(history) && entriesLen == 0
    {
      jsonMax := cachePoints * 35 * 8;
      entries := new CacheEntry[cachePoints](_ => CacheEntry(0, 0, 0, 0));
      json := new char[jsonMax](_ => '\0');
      entriesLen, firstRecentCache, referenceTs := 0, 0, 0;
      base, texts := 0, [];
    }

    // Makes room by removing the entries before f.  None of the two sanity checks can fail.
    method Compact(f: nat, recent: nat) returns (resetCache: bool)
      requires Valid() && entries != null && f < entriesLen && recent <= recentPoints && f + recent > cachePoints
      modifies `entriesLen, `base, `texts, entries, json
      ensures Valid() && !resetCache
      ensures base == old(base) + f && texts == old(texts)[f..]
    {
      hide Printed, Concat, Distinct;
      resetCache := false;
      Legal(f);
      var moveIndexes := f;
      var moveDist := entries[moveIndexes].offset;
      var last := entries[entriesLen - 1];
      var moveBytes := (last.offset + last.len) - moveDist;
      if entriesLen > cachePoints || moveIndexes <= 0 || moveIndexes > entriesLen {
        resetCache := true;
      }
      if moveDist + moveBytes > jsonMax || moveBytes <= 0 || moveDist <= 0 {
        resetCache := true;
      }
      if !resetCache {
        DropFront(moveIndexes, moveDist, moveBytes);
      }
    }

    // Any two neighbouring entries have text between their offsets.
    lemma Legal(f: nat)
      requires Valid() && entries != null && 0 < f < entriesLen
      ensures var dist, last := entries[f].offset, entries[entriesLen - 1];
              0 < dist < last.offset + last.len <= jsonMax
    {
      hide Printed, Concat, Start, Distinct;
      var e, n := entries[..], entriesLen;
      TextsSplit(e, texts, printer, history, base, referenceTs, f);
      NeverEmptyText(e, texts, printer, history, base, referenceTs, f - 1);
      NeverEmptyText(e, texts, printer, history, base, referenceTs, n - 1);
      StartPositive(texts, f);
      LastTextCounts(texts[f..]);
      assert e[f] == entries[f] && e[n - 1] == entries[n - 1];
    }

    // Finds the entry of the first recent point, making room behind it, or starts the cache afresh.
    method Align(firstTs: int, recent: nat, ghost at: nat)
      requires Valid() && entries != null && 0 < recent <= recentPoints
      requires at + recent == |history| && history[at].ts == firstTs
      modifies `entriesLen, `base, `texts, `firstRecentCache, `referenceTs, `refAt, entries, json
      ensures Valid() && firstRecentCache <= entriesLen && base + firstRecentCache == at
      ensures firstRecentCache + recent <= cachePoints
      ensures entriesLen > firstRecentCache || (entriesLen == 0 && firstRecentCache == 0)
      ensures Anchored() && (referenceTs != 0 ==> firstTs <= referenceTs + 8 * HOURS)
    {
      hide Printed, Concat, EntryOk, Printer.NeverEmpty;
      var found, f := FindTs(firstTs);
      var resetCache := !found;
      if found {
        FoundAt(entries[..], texts, printer, history, base, referenceTs, f, at);
        var usableCachePoints := entriesLen - f;
        var newEntryCount := recent - usableCachePoints;
        if entriesLen + newEntryCount > cachePoints {
          resetCache := Compact(f, recent);
          f := 0;
        }
      }
      if referenceTs != 0 && firstTs > referenceTs + 8 * HOURS {
        resetCache := true;
      }
      if resetCache {
        referenceTs := firstTs;
        f := 0;
        entriesLen := 0;
        base, refAt, texts := at, at, [];
        assert Concat(texts) == "" by { NothingPrinted(); }
      }
      firstRecentCache := f;
    }

    // Entry k is due for the recent point k - firstRecentCache; those before it are up to date.
    ghost predicate Due(tb: seq<Sample>, legs: seq<int>, first: nat, s: nat, k: nat)
      reads this, entries, json
    {
      && Valid() && entries != null && Anchored() && |legs| == |tb| && s % SFOUR == 0 && s + |tb| == |history| && history[s..] == tb
      && base + firstRecentCache == s + first && firstRecentCache <= k <= entriesLen
      && first + (k - firstRecentCache) <= |tb| && firstRecentCache + (|tb| - first) <= cachePoints
      && LegsAgree(entries[..], firstRecentCache, k, legs, first)
    }

    // Goes through the recent points and prints those not cached with their present leg marker.
    method Refresh(tb: seq<Sample>, legs: seq<int>, firstRecent: nat, ghost s: nat)
      requires Due(tb, legs, firstRecent, s, firstRecentCache) && firstRecent < |tb| == |legs| && s + |tb| == |history|
      requires entriesLen > firstRecentCache || (entriesLen == 0 && firstRecentCache == 0)
      modifies `entriesLen, `texts, entries, json
      ensures Due(tb, legs, firstRecent, s, entriesLen)
      ensures entriesLen > 0 ==> OffsetAt(firstRecentCache)
      ensures var i := firstRecent + (entriesLen - firstRecentCache);
              i < |tb| ==> Full(s + i, legs[i])
    {
      hide Due, OffsetAt, Full;
      var i, k: nat, fits := firstRecent, firstRecentCache, true;
      while i < |tb| && fits
        invariant Due(tb, legs, firstRecent, s, k) && firstRecent <= i <= |tb| && k - firstRecentCache == i - firstRecent
        invariant fits ==> entriesLen > firstRecentCache || (entriesLen == 0 == firstRecentCache == k)
        invariant !fits ==> i < |tb| && entriesLen == k && s + i < |history| && Full(s + i, legs[i])
        invariant !fits && entriesLen > 0 ==> OffsetAt(firstRecentCache)
        decreases |tb| - i, fits
      {
        fits := RefreshNext(tb, legs, firstRecent, s, i, k);
        if fits {
          i, k := i + 1, k + 1;
        }
      }
      if fits {
        AllDone(tb, legs, firstRecent, s, k);
      }
    }

    lemma AllDone(tb: seq<Sample>, legs: seq<int>, first: nat, s: nat, k: nat)
      requires Due(tb, legs, first, s, k) && first + (k - firstRecentCache) == |tb| && first < |tb|
      ensures entries != null && k == entriesLen && OffsetAt(firstRecentCache)
    {
      hide Printed, Concat, Start;
      OffsetKept(firstRecentCache);
    }

    method RefreshNext(tb: seq<Sample>, legs: seq<int>, first: nat, ghost s: nat, i: nat, k: nat) returns (fits: bool)
      requires Due(tb, legs, first, s, k) && k - firstRecentCache == i - first && i < |tb|
      requires entriesLen > firstRecentCache || (entriesLen == 0 == firstRecentCache == k)
      modifies `entriesLen, `texts, entries, json
      ensures Due(tb, legs, first, s, if fits then k + 1 else k) && s + i < |history|
      ensures fits ==> entriesLen > firstRecentCache
      ensures !fits ==> entriesLen == k && Full(s + i, legs[i])
      ensures !fits && entriesLen > 0 ==> OffsetAt(firstRecentCache)
    {
      hide OffsetAt, Printed, Full, LegsAgree, Printer.NeverEmpty, Distinct, EntriesOk, Concat;
      assert tb[i] == history[s + i] && (s + i) % SFOUR == i % SFOUR;
      OffsetKept(firstRecentCache);
      ghost var before := entries[..];
      fits := RefreshEntry(k, tb[i], i % SFOUR == 0, legs[i], s + i);
      OffsetKept(firstRecentCache);
      LegsStep(before, entries[..], firstRecentCache, k, legs, first, fits);
    }

    // Keeps entry k if it is up to date, prints it anew otherwise.
    method RefreshEntry(k: nat, state: Sample, withAll: bool, legMarker: int, ghost i: nat) returns (fits: bool)
      requires Valid() && entries != null && Anchored() && k <= entriesLen && k < cachePoints && i == base + k < |history|
      requires state == history[i] && withAll == (i % SFOUR == 0)
      modifies `entriesLen, `texts, entries, json
      ensures Valid() && k <= entriesLen && texts[..k] == old(texts[..k])
      ensures forall j :: 0 <= j < k ==> entries[j] == old(entries[j])
      ensures if fits then entriesLen > k && entries[k].legMarker == legMarker else entriesLen == k && Full(i, legMarker)
      ensures !fits && k < old(entriesLen) ==> OffsetAt(k)
    {
      hide Printed, Concat, Start, EntryOk, Distinct, Printer.NeverEmpty;
      if k < entriesLen && entries[k].ts == state.ts && entries[k].legMarker == legMarker {
        return true;
      }
      OffsetKept(k);
      fits := PrintEntry(k, state, withAll, legMarker, i);
    }

    // The bookkeeping of entry k, valid or not, starts where the texts before it end.
    ghost predicate OffsetAt(k: nat)
      reads this, entries
    {
      entries != null && k <= |texts| && k < entries.Length && entries[k].offset == Start(texts, k)
    }

    lemma OffsetKept(k: nat)
      requires Valid() && entries != null && k <= entriesLen
      ensures k < entriesLen ==> OffsetAt(k) && Start(texts, k) == Start(texts[..k], k)
    {
      assert texts[..k][..k] == texts[..k];
      assert k < entriesLen ==> EntryOk(entries[k], texts, k, printer, history, base + k, referenceTs);
    }

    // The next point does not fit into the buffer.
    ghost predicate Full(i: nat, leg: int)
      requires i < |history|
      reads this
    {
      |Concat(texts)| + |Printed(printer, history, i, leg, referenceTs)| + 2 > jsonMax
    }

    // Brings the cache up to date with a reassembled trace, the part of h from s on.
    method CheckTraceCache(tb: seq<Sample>, legs: seq<int>, mayAllocate: bool, ghost s: nat, ghost h: seq<Sample>)
      requires Valid() && history <= h && Distinct(h)
      requires tb != [] && |legs| == |tb| && s % SFOUR == 0 && s + |tb| == |h| && h[s..] == tb
      modifies this, entries, json
      ensures Valid() && history == h && (entries != null && entriesLen > 0 ==> UpToDate(tb, legs, s))
    {
      hide Printed, Concat, Start, EntriesOk, Distinct, Printer.NeverEmpty;
      Extend(h);
      if entries == null {
        if !mayAllocate {
          return;
        }
        Allocate();
      }
      var firstRecent := if |tb| > recentPoints then |tb| - recentPoints else 0;
      Align(tb[firstRecent].ts, |tb| - firstRecent, s + firstRecent);
      NoLegsYet(entries[..], firstRecentCache, legs, firstRecent);
      Refresh(tb, legs, firstRecent, s);
    }

    // The entries from firstRecentCache on are the recent points as they would be printed now, all
    // of them or as many as fit.
    ghost predicate UpToDate(tb: seq<Sample>, legs: seq<int>, s: nat)
      requires Valid() && entries != null && 0 < |tb| == |legs| && s + |tb| == |history|
      reads this, entries, json
    {
      var first := if |tb| > recentPoints then |tb| - recentPoints else 0;
      var n := entriesLen - firstRecentCache;
      && 0 <= n <= |tb| - first && base + firstRecentCache == s + first && firstRecentCache < cachePoints
      && OffsetAt(firstRecentCache)
      && LegsAgree(entries[..], firstRecentCache, entriesLen, legs, first)
      && (n < |tb| - first ==> Full(s + first + n, legs[first + n]))
      && Anchored() && (referenceTs != 0 ==> tb[first].ts <= referenceTs + 8 * HOURS)
    }
  }

  // ---------------------------------------------------------------- the recent-trace JSON

  // The points from first to last - 1, printed one after the other.
  function PrintedRun(pr: Printer, tb: seq<Sample>, legs: seq<int>, first: nat, last: nat, ref: int): string
    requires first <= last <= |tb| == |legs|
  {
    if first == last then ""
    else PrintedRun(pr, tb, legs, first, last - 1, ref) + Printed(pr, tb, last - 1, legs[last - 1], ref)
  }

  // The cached texts of consecutive points are those points printed from scratch.
  lemma {:induction false} CachedRun(texts: seq<string>, e: seq<CacheEntry>, pr: Printer, h: seq<Sample>, base: nat, ref: int,
                                     tb: seq<Sample>, legs: seq<int>, s: nat, f: nat, first: nat, n: nat)
    requires EntriesOk(e, texts, pr, h, base, ref) && f + n <= |texts| && |legs| == |tb| && first + n <= |tb|
    requires s % SFOUR == 0 && s + |tb| == |h| && h[s..] == tb && base + f == s + first
    requires LegsAgree(e, f, f + n, legs, first)
    ensures Concat(texts[f..f + n]) == PrintedRun(pr, tb, legs, first, first + n, ref)
  {
    hide EntriesOk, Concat, Start, Printed;
    if n == 0 {
      NothingPrinted();
      assert texts[f..f + n] == [];
    } else {
      CachedRun(texts, e, pr, h, base, ref, tb, legs, s, f, first, n - 1);
      var k := f + n - 1;
      assert texts[f..f + n] == texts[f..k] + [texts[k]];
      ConcatSnoc(texts[f..k], texts[k]);
      EntryAt(e, texts, pr, h, base, ref, k);
      SamePrint(pr, h, tb, s, first + n - 1, legs[first + n - 1], ref);
    }
  }

  // Positions in the history and in the reassembled trace differ by whole groups.
  lemma SamePrint(pr: Printer, h: seq<Sample>, tb: seq<Sample>, s: nat, i: nat, leg: int, ref: int)
    requires s % SFOUR == 0 && s + |tb| == |h| && h[s..] == tb && i < |tb|
    ensures Printed(pr, h, s + i, leg, ref) == Printed(pr, tb, i, leg, ref)
  {
    assert h[s + i] == tb[i] && (s + i) % SFOUR == i % SFOUR;
  }

  lemma EntryAt(e: seq<CacheEntry>, texts: seq<string>, pr: Printer, h: seq<Sample>, base: nat, ref: int, k: nat)
    requires EntriesOk(e, texts, pr, h, base, ref) && k < |texts|
    ensures |texts| <= |e| && base + |texts| <= |h| && EntryOk(e[k], texts, k, pr, h, base + k, ref)
  {
  }

  // The time that the points from at on are relative to is that of one of them or before them, and the first
  // of them is at most eight hours later.
  ghost predicate Reference(h: seq<Sample>, at: nat, ref: int)
    requires at < |h|
  {
    (exists r: nat :: r <= at && h[r].ts == ref) && (ref != 0 ==> h[at].ts <= ref + 8 * HOURS)
  }

  lemma CachedReference(cache: Cache, tb: seq<Sample>, legs: seq<int>, s: nat, at: nat)
    requires cache.Valid() && cache.entries != null && 0 < |tb| == |legs| && s + |tb| == |cache.history|
    requires cache.history[s..] == tb && cache.UpToDate(tb, legs, s)
    requires at == s + if |tb| > cache.recentPoints then |tb| - cache.recentPoints else 0
    ensures Reference(cache.history, at, cache.referenceTs)
  {
    hide EntriesOk, Concat, Distinct, Printer.NeverEmpty;
    assert cache.history[at] == tb[at - s];
    assert cache.history[cache.refAt].ts == cache.referenceTs;
  }

  lemma OwnReference(h: seq<Sample>, at: nat)
    requires at < |h|
    ensures Reference(h, at, h[at].ts)
  {
  }

  // The points of the recent-trace file and the time they are relative to.  With or without the
  // cache they are the recent points printed from scratch; only a full cache cuts them short.
  method GenerateRecent(cache: Cache, tb: seq<Sample>, legs: seq<int>, mayAllocate: bool, now: int, ghost s: nat, ghost h: seq<Sample>)
    returns (referenceTs: int, body: string, ghost n: nat)
    requires cache.Valid() && cache.history <= h && Distinct(h)
    requires |legs| == |tb| && s % SFOUR == 0 && s + |tb| == |h| && h[s..] == tb
    modifies cache, cache.entries, cache.json
    ensures cache.Valid() && (tb == [] ==> referenceTs == now && body == "")
    ensures tb != [] ==> Reference(h, s + (if |tb| > cache.recentPoints then |tb| - cache.recentPoints else 0), referenceTs)
    ensures var first := if |tb| > cache.recentPoints then |tb| - cache.recentPoints else 0;
            && n <= |tb| - first && body == PrintedRun(cache.printer, tb, legs, first, first + n, referenceTs)
            && (n < |tb| - first ==>
                  cache.entries != null && s + first + n < |cache.history| && referenceTs == cache.referenceTs
                  && cache.Full(s + first + n, legs[first + n]))
  {
    hide Cache.Valid, Cache.UpToDate, Cache.Full, PrintedRun;
    Settled(cache);
    if tb == [] {
      NoneCopied(cache.printer, tb, legs, now);
      return now, "", 0;
    }
    var start := if |tb| > cache.recentPoints then |tb| - cache.recentPoints else 0;
    var firstStamp := tb[start].ts;
    assert h[s + start] == tb[start];
    OwnReference(h, s + start);
    referenceTs := firstStamp;
    var cached := false;
    if firstStamp != 0 {
      cache.CheckTraceCache(tb, legs, mayAllocate, s, h);
      cached := cache.entries != null && cache.entriesLen > 0;
    }
    hide Reference;
    if cached {
      referenceTs := cache.referenceTs;
      CachedReference(cache, tb, legs, s, s + start);
      body := CopyCached(cache, tb, legs, s, start);
      n := cache.entriesLen - cache.firstRecentCache;
    } else {
      body := PrintAll(cache.printer, tb, legs, start, referenceTs);
      n := |tb| - start;
    }
  }

  lemma NoneCopied(pr: Printer, tb: seq<Sample>, legs: seq<int>, ref: int)
    requires tb == [] && legs == []
    ensures PrintedRun(pr, tb, legs, 0, 0, ref) == ""
  {
  }

  lemma Settled(cache: Cache)
    requires cache.Valid()
    ensures cache.recentPoints > 0
  {
  }

  method PrintAll(pr: Printer, tb: seq<Sample>, legs: seq<int>, start: nat, ref: int) returns (body: string)
    requires start <= |tb| == |legs|
    ensures body == PrintedRun(pr, tb, legs, start, |tb|, ref)
  {
    body := "";
    for i := start to |tb|
      invariant body == PrintedRun(pr, tb, legs, start, i, ref)
    {
      body := body + pr.render(tb[i], i % SFOUR == 0, legs[i], ref);
    }
  }

  method CopyCached(cache: Cache, tb: seq<Sample>, legs: seq<int>, ghost s: nat, ghost start: nat) returns (body: string)
    requires cache.Valid() && cache.entries != null && cache.entriesLen > 0
    requires 0 < |tb| == |legs| && s % SFOUR == 0 && s + |tb| == |cache.history| && cache.history[s..] == tb
    requires start == if |tb| > cache.recentPoints then |tb| - cache.recentPoints else 0
    requires cache.UpToDate(tb, legs, s)
    ensures var n := cache.entriesLen - cache.firstRecentCache;
            && 0 <= n <= |tb| - start && body == PrintedRun(cache.printer, tb, legs, start, start + n, cache.referenceTs)
            && (n < |tb| - start ==> s + start + n < |cache.history| && cache.Full(s + start + n, legs[start + n]))
    ensures ShortPoints(cache.printer, tb, legs, start, cache.referenceTs) ==> |body| <= POINT_ROOM * (|tb| - start)
  {
    hide Concat, EntriesOk, Distinct, Printer.NeverEmpty, Printed, EntryOk;
    var f := cache.firstRecentCache;
    ghost var n := cache.entriesLen - f;
    EntryAt(cache.entries[..], cache.texts, cache.printer, cache.history, cache.base, cache.referenceTs, cache.entriesLen - 1);
    var first, last := cache.entries[f], cache.entries[cache.entriesLen - 1];
    CopiedText(cache.json[..], cache.entries[..], cache.texts, cache.printer, cache.history, cache.base, cache.referenceTs, f);
    var bytes := last.offset - first.offset + last.len;
    body := cache.json[first.offset..first.offset + bytes];
    CachedRun(cache.texts, cache.entries[..], cache.printer, cache.history, cache.base, cache.referenceTs, tb, legs, s, f, start, n);
    assert cache.texts[f..f + n] == cache.texts[f..];
    if ShortPoints(cache.printer, tb, legs, start, cache.referenceTs) {
      RunFits(cache.printer, tb, legs, start, start + n, cache.referenceTs);
    }
  }

  // The reply has room for this much text of each recent point, besides that for what comes before.
  const POINT_ROOM: nat := 300

  ghost predicate ShortPoints(pr: Printer, tb: seq<Sample>, legs: seq<int>, first: nat, ref: int)
    requires |legs| == |tb|
  {
    forall i :: first <= i < |tb| ==> |pr.render(tb[i], i % SFOUR == 0, legs[i], ref)| <= POINT_ROOM
  }

  // The cached text is copied without a check.  It fits if no point takes more than its share.
  lemma {:induction false} RunFits(pr: Printer, tb: seq<Sample>, legs: seq<int>, first: nat, last: nat, ref: int)
    requires first <= last <= |tb| == |legs| && ShortPoints(pr, tb, legs, first, ref)
    ensures |PrintedRun(pr, tb, legs, first, last, ref)| <= POINT_ROOM * (last - first) <= POINT_ROOM * (|tb| - first)
  {
    if first < last {
      RunFits(pr, tb, legs, first, last - 1, ref);
    }
  }

  lemma CopiedText(json: string, e: seq<CacheEntry>, texts: seq<string>, pr: Printer, h: seq<Sample>, base: nat, ref: int, f: nat)
    requires EntriesOk(e, texts, pr, h, base, ref) && texts != [] && f <= |texts| && Concat(texts) <= json
    ensures |texts| <= |e|
    ensures var last := e[|texts| - 1];
            && Start(texts, f) <= last.offset + last.len == |Concat(texts)| <= |json|
            && json[Start(texts, f)..last.offset + last.len] == Concat(texts[f..])
  {
    hide Concat, EntriesOk, Printed;
    var n := |texts|;
    EntryAt(e, texts, pr, h, base, ref, n - 1);
    StartNext(texts, n - 1);
    assert texts[..n] == texts;
    ConcatSplit(texts, f);
    TextFrom(json, Concat(texts[..f]), Concat(texts[f..]), Concat(texts));
  }

  lemma TextFrom(json: string, a: string, b: string, all: string)
    requires all == a + b && all <= json
    ensures json[|a|..|all|] == b
  {
    assert json[..|all|] == all;
  }

  lemma NeverEmptyText(e: seq<CacheEntry>, texts: seq<string>, pr: Printer, h: seq<Sample>, base: nat, ref: int, k: nat)
    requires EntriesOk(e, texts, pr, h, base, ref) && pr.NeverEmpty() && k < |texts|
    ensures |texts[k]| > 0
  {
    assert EntryOk(e[k], texts, k, pr, h, base + k, ref);
  }

  lemma LastTextCounts(texts: seq<string>)
    requires texts != [] && |texts[|texts| - 1]| > 0
    ensures |Concat(texts)| > 0
  {
  }

  lemma StartPositive(texts: seq<string>, k: nat)
    requires 0 < k <= |texts| && |texts[k - 1]| > 0
    ensures Start(texts, k) > 0
  {
    LastTextCounts(texts[..k]);
  }

  lemma NothingPrinted()
    ensures Concat([]) == ""
  {
  }

  // Timestamps being distinct, the entry found is that of the point looked for.
  lemma FoundAt(e: seq<CacheEntry>, texts: seq<string>, pr: Printer, h: seq<Sample>, base: nat, ref: int, f: nat, at: nat)
    requires EntriesOk(e, texts, pr, h, base, ref) && Distinct(h) && f < |texts| && at < |h| && e[f].ts == h[at].ts
    ensures base + f == at
  {
    assert EntryOk(e[f], texts, f, pr, h, base + f, ref);
  }

  lemma HistoryExtended(e: seq<CacheEntry>, texts: seq<string>, pr: Printer, h: seq<Sample>, longer: seq<Sample>, base: nat, ref: int)
    requires EntriesOk(e, texts, pr, h, base, ref) && h <= longer
    ensures EntriesOk(e, texts, pr, longer, base, ref)
  {
    hide Concat, Start;
    forall k | 0 <= k < |texts| ensures EntryOk(e[k], texts, k, pr, longer, base + k, ref) {
      assert EntryOk(e[k], texts, k, pr, h, base + k, ref);
    }
  }

  // Writes text at p as far as it fits; returns where it ends, at most the end of the buffer.
  method Sprint(json: array<char>, p: nat, text: string) returns (q: nat)
    requires p <= json.Length
    modifies json
    ensures q == if p + |text| <= json.Length then p + |text| else json.Length
    ensures json[..p] == old(json[..p]) && (q < json.Length ==> json[..q] == old(json[..p]) + text)
  {
    forall x | 0 <= x < |text| && p + x + 1 < json.Length {
      json[p + x] := text[x];
    }
    q := if p + |text| <= json.Length then p + |text| else json.Length;
  }

  lemma DroppedText(json: string, texts: seq<string>, dist: nat, n: nat, m: nat)
    requires m < |texts| && Concat(texts) <= json && dist == Start(texts, m) && dist + n == |Concat(texts)|
    requires Concat(texts)[Start(texts, m)..] == Concat(texts[m..])
    ensures json[dist..dist + n] == Concat(texts[m..])
  {
    assert json[..|Concat(texts)|] == Concat(texts);
    assert json[dist..dist + n] == json[..dist + n][dist..];
  }
}
