// From matches to the reply: the chain of filters, the size of the buffer, the copy loop.
module ApiReply {
  import opened ApiSearch

  const API_REQ_PADSTART: nat := 2048
  const MARGIN: nat := 1024
  const CIRCLE_EXTRA: nat := 30 // per match, for distance and direction

  // The cached JSON of an aircraft is "\n{...},".
  ghost predicate Cached(json: string, e: Entry) {
    e.len >= 3 && e.offset + e.len <= |json|
  }

  function Json(json: string, e: Entry): string {
    if e.offset + e.len <= |json| then json[e.offset..e.offset + e.len] else ""
  }

  // Entries of the list in the order in which their JSON was generated.
  ghost predicate InJsonOrder(list: seq<Entry>) {
    forall i, j :: 0 <= i < j < |list| ==> list[i].offset + list[i].len <= list[j].offset
  }

  // All entries from the first to the last: their JSON lies between two offsets.
  lemma {:induction false} JsonSpan(list: seq<Entry>)
    requires InJsonOrder(list) && list != []
    ensures list[0].offset + JsonSize(list) <= list[|list| - 1].offset + list[|list| - 1].len
  {
    if |list| > 1 {
      var most := list[..|list| - 1];
      JsonSpan(most);
      assert most[|most| - 1].offset + most[|most| - 1].len <= list[|list| - 1].offset;
    } else {
      assert list[..0] == [];
    }
  }

  // One of the filters of a request: keeps the entries that satisfy it, in order.
  method FilterMatches(matches: seq<Entry>, keep: Entry -> bool, allocBase: nat) returns (filtered: seq<Entry>, alloc: nat)
    ensures filtered == Filter(matches, keep) && alloc == allocBase + JsonSize(filtered)
  {
    hide Filter, JsonSize;
    alloc := allocBase;
    var kept := new Entry[|matches|](i requires 0 <= i < |matches| => matches[i]);
    var count := 0;
    NoEntries(keep);
    assert kept[..0] == [];
    for i := 0 to |matches|
      invariant count <= i && kept[..count] == Filter(matches[..i], keep) && alloc == allocBase + JsonSize(kept[..count])
    {
      var e := matches[i];
      assert matches[..i + 1] == matches[..i] + [e];
      FilterSnoc(matches[..i], e, keep);
      if keep(e) {
        FilterSnoc(kept[..count], e, keep);
        kept[count] := e;
        assert kept[..count + 1] == kept[..count] + [e];
        count := count + 1;
        alloc := alloc + e.len;
      }
    }
    assert matches[..|matches|] == matches;
    filtered := kept[..count];
  }

  function FilterAll(list: seq<Entry>, filters: seq<Entry -> bool>): seq<Entry> {
    if filters == [] then list else Filter(FilterAll(list, filters[..|filters| - 1]), filters[|filters| - 1])
  }

  lemma {:induction false} FilterAllSizes(list: seq<Entry>, filters: seq<Entry -> bool>)
    ensures |FilterAll(list, filters)| <= |list| && JsonSize(FilterAll(list, filters)) <= JsonSize(list)
  {
    if filters != [] {
      FilterAllSizes(list, filters[..|filters| - 1]);
      FilterSizes(FilterAll(list, filters[..|filters| - 1]), filters[|filters| - 1]);
    }
  }

  // An entry passes the chain exactly if it was there and passes every filter.
  lemma {:induction false} FilterAllKeeps(list: seq<Entry>, filters: seq<Entry -> bool>, e: Entry)
    ensures e in FilterAll(list, filters) <==> e in list && forall k :: 0 <= k < |filters| ==> filters[k](e)
  {
    if filters != [] {
      var n := |filters| - 1;
      FilterAllKeeps(list, filters[..n], e);
      FilterKeeps(FilterAll(list, filters[..n]), filters[n], e);
      assert forall k :: 0 <= k < n ==> filters[..n][k] == filters[k];
    }
  }

  // ---------------------------------------------------------------- the text

  // What is added to a match of a circle search in place of the closing "},".
  datatype Texts = Texts(header: string, footer: string, circle: bool, place: Entry -> string) {
    // The header is followed by room for a hundred bytes; a distance and direction fit their share.
    ghost predicate Bounded() {
      && 0 < |header| && |header| + |footer| + 100 < MARGIN
      && (forall e :: 2 <= |place(e)| <= CIRCLE_EXTRA + 2)
    }

    function One(json: string, e: Entry): string {
      var j := Json(json, e);
      if circle && |j| >= 2 then j[..|j| - 2] + place(e) else j
    }
  }

  function AllTexts(t: Texts, json: string, matches: seq<Entry>): string {
    if matches == [] then "" else AllTexts(t, json, matches[..|matches| - 1]) + t.One(json, matches[|matches| - 1])
  }

  function WithoutComma(s: string): string {
    if s != "" && s[|s| - 1] == ',' then s[..|s| - 1] else s
  }

  // The whole reply: no match left out or cut short.
  function Reply(t: Texts, json: string, matches: seq<Entry>): string {
    WithoutComma(t.header + AllTexts(t, json, matches)) + t.footer
  }

  // Texts with a comma between them and none at the end.
  function Joined(texts: seq<string>): string {
    if texts == [] then ""
    else if |texts| == 1 then texts[0]
    else Joined(texts[..|texts| - 1]) + "," + texts[|texts| - 1]
  }

  // The texts of the matches, each without its comma.
  function Objects(t: Texts, json: string, matches: seq<Entry>): (objects: seq<string>)
    ensures |objects| == |matches|
  {
    seq(|matches|, i requires 0 <= i < |matches| =>
      var one := t.One(json, matches[i]); if one == "" then "" else one[..|one| - 1])
  }

  ghost predicate EndsWithComma(s: string) {
    s != "" && s[|s| - 1] == ','
  }

  // If each text ends with a comma, the reply is a list: its objects are separated by commas, and none is
  // left at the end.
  lemma ReplyIsList(t: Texts, json: string, matches: seq<Entry>)
    requires t.header != "" && !EndsWithComma(t.header)
    requires forall e :: e in matches ==> EndsWithComma(t.One(json, e))
    ensures Reply(t, json, matches) == t.header + Joined(Objects(t, json, matches)) + t.footer
  {
    hide AllTexts, Joined, Objects, Texts.One;
    TextsJoined(t, json, matches);
    var all, joined := AllTexts(t, json, matches), Joined(Objects(t, json, matches));
    if matches != [] {
      assert t.header + all == (t.header + joined) + ",";
    } else {
      assert t.header + all == t.header == t.header + joined;
    }
  }

  lemma {:induction false} TextsJoined(t: Texts, json: string, matches: seq<Entry>)
    requires forall e :: e in matches ==> EndsWithComma(t.One(json, e))
    ensures var joined := Joined(Objects(t, json, matches));
            if matches == [] then AllTexts(t, json, matches) == joined == "" else AllTexts(t, json, matches) == joined + ","
  {
    hide Texts.One, Joined;
    if matches == [] {
      JoinedSnoc([""], 0);
    } else {
      var n := |matches| - 1;
      var one := t.One(json, matches[n]);
      TextsJoined(t, json, matches[..n]);
      var objects := Objects(t, json, matches);
      assert objects[..n] == Objects(t, json, matches[..n]);
      assert one == objects[n] + ",";
      JoinedSnoc(objects, n);
    }
  }

  lemma JoinedSnoc(texts: seq<string>, n: nat)
    requires |texts| == n + 1
    ensures Joined(texts) == if n == 0 then texts[0] else Joined(texts[..n]) + "," + texts[n]
    ensures Joined([]) == ""
  {
  }

  function Extra(t: Texts, n: nat): nat {
    if t.circle then CIRCLE_EXTRA * n else 0
  }

  // The text of the first k matches fits into what was reserved for them.
  lemma {:induction false} TextsFit(t: Texts, json: string, matches: seq<Entry>, k: nat)
    requires t.Bounded() && k <= |matches| && forall e :: e in matches ==> Cached(json, e)
    ensures |AllTexts(t, json, matches[..k])| <= JsonSize(matches[..k]) + Extra(t, k)
  {
    hide JsonSize, AllTexts, Cached, Texts.Bounded, Texts.One;
    NoTexts(t, json, matches);
    if k > 0 {
      TextsFit(t, json, matches, k - 1);
      var e := matches[k - 1];
      assert e in matches;
      NextText(t, json, matches, k - 1);
      OneFits(t, json, e);
    }
  }

  lemma OneFits(t: Texts, json: string, e: Entry)
    requires t.Bounded() && Cached(json, e)
    ensures |t.One(json, e)| <= e.len + Extra(t, 1)
  {
  }

  lemma NextText(t: Texts, json: string, matches: seq<Entry>, k: nat)
    requires k < |matches|
    ensures AllTexts(t, json, matches[..k + 1]) == AllTexts(t, json, matches[..k]) + t.One(json, matches[k])
    ensures JsonSize(matches[..k + 1]) == JsonSize(matches[..k]) + matches[k].len <= JsonSize(matches)
  {
    hide Texts.One, JsonSize;
    assert matches[..k + 1][..k] == matches[..k];
    NextSize(matches, k);
  }

  lemma NextSize(matches: seq<Entry>, k: nat)
    requires k < |matches|
    ensures JsonSize(matches[..k + 1]) == JsonSize(matches[..k]) + matches[k].len <= JsonSize(matches)
  {
    hide JsonSize, Filter;
    assert matches[..k + 1] == matches[..k] + [matches[k]];
    assert matches[..k + 1] + matches[k + 1..] == matches;
    FilterSnoc(matches[..k], matches[k], _ => true);
    FilterJoin(matches[..k + 1], matches[k + 1..], _ => true);
  }

  // ---------------------------------------------------------------- the buffer

  // Copies text to p.
  method Put(buf: array<char>, p: nat, text: string) returns (q: nat)
    requires p + |text| <= buf.Length && API_REQ_PADSTART <= p
    modifies buf
    ensures q == p + |text| && buf[API_REQ_PADSTART..q] == old(buf[API_REQ_PADSTART..p]) + text
  {
    forall i | 0 <= i < |text| {
      buf[p + i] := text[i];
    }
    q := p + |text|;
  }

  // Writes the JSON reply.  alloc covers the matches and, for a circle search, their extra text;
  // then the buffer is never too small and the loop never stops early.
  method WriteReply(t: Texts, json: string, matches: seq<Entry>, alloc: nat) returns (buf: array<char>, len: nat)
    requires t.Bounded() && forall e :: e in matches ==> Cached(json, e)
    requires alloc >= API_REQ_PADSTART + MARGIN + JsonSize(matches) + Extra(t, |matches|)
    ensures API_REQ_PADSTART <= len <= buf.Length == alloc && buf[API_REQ_PADSTART..len] == Reply(t, json, matches)
  {
    hide JsonSize, AllTexts, Texts.One, Cached;
    buf := new char[alloc](_ => ' ');
    var p := Put(buf, API_REQ_PADSTART, t.header);
    assert buf[API_REQ_PADSTART..p] == t.header;
    p := PutMatches(t, json, matches, buf, p);
    p := TrimComma(buf, p);
    hide WithoutComma;
    len := Put(buf, p, t.footer);
  }

  method TrimComma(buf: array<char>, p: nat) returns (q: nat)
    requires API_REQ_PADSTART < p <= buf.Length
    ensures API_REQ_PADSTART <= q <= p && buf[API_REQ_PADSTART..q] == WithoutComma(buf[API_REQ_PADSTART..p])
  {
    q := if buf[p - 1] == ',' then p - 1 else p;
  }

  method PutMatches(t: Texts, json: string, matches: seq<Entry>, buf: array<char>, p0: nat) returns (p: nat)
    requires t.Bounded() && forall e :: e in matches ==> Cached(json, e)
    requires buf.Length >= API_REQ_PADSTART + MARGIN + JsonSize(matches) + Extra(t, |matches|)
    requires p0 == API_REQ_PADSTART + |t.header|
    modifies buf
    ensures p0 <= p && p + |t.footer| <= buf.Length
    ensures buf[API_REQ_PADSTART..p] == old(buf[API_REQ_PADSTART..p0]) + AllTexts(t, json, matches)
  {
    hide JsonSize, AllTexts, Texts.One, Cached;
    p := p0;
    NoTexts(t, json, matches);
    ghost var start := buf[API_REQ_PADSTART..p0];
    for i := 0 to |matches|
      invariant p0 <= p == p0 + |AllTexts(t, json, matches[..i])| <= buf.Length
      invariant buf[API_REQ_PADSTART..p] == start + AllTexts(t, json, matches[..i])
    {
      var e := matches[i];
      TextsFit(t, json, matches, i);
      NextText(t, json, matches, i);
      assert e in matches;
      OneFits(t, json, e);
      // the source stops here if p + e.len + 100 >= alloc
      assert p + e.len + 100 < buf.Length;
      p := PutMatch(t, json, e, buf, p);
      JoinTexts(start, AllTexts(t, json, matches[..i]), t.One(json, e));
    }
    assert matches[..|matches|] == matches;
    TextsFit(t, json, matches, |matches|);
  }

  lemma NoTexts(t: Texts, json: string, matches: seq<Entry>)
    ensures AllTexts(t, json, matches[..0]) == ""
  {
  }

  lemma JoinTexts(a: string, b: string, c: string)
    ensures (a + b) + c == a + (b + c)
  {
  }

  method PutMatch(t: Texts, json: string, e: Entry, buf: array<char>, p: nat) returns (q: nat)
    requires Cached(json, e) && API_REQ_PADSTART <= p && p + e.len + 100 < buf.Length && t.Bounded()
    modifies buf
    ensures q == p + |t.One(json, e)| && buf[API_REQ_PADSTART..q] == old(buf[API_REQ_PADSTART..p]) + t.One(json, e)
  {
    ghost var before, j := buf[API_REQ_PADSTART..p], Json(json, e);
    q := Put(buf, p, Json(json, e));
    if t.circle {
      assert buf[API_REQ_PADSTART..q - 2] == buf[API_REQ_PADSTART..q][..q - 2 - API_REQ_PADSTART];
      q := q - 2;
      assert (before + j)[..|before| + |j| - 2] == before + j[..|j| - 2];
      q := Put(buf, q, t.place(e));
      JoinTexts(before, j[..|j| - 2], t.place(e));
    }
  }

  // ---------------------------------------------------------------- a request

  // What the first stage finds: matches of a search, or a whole range of the list.
  datatype Found = Search(matches: seq<Entry>) | Range(list: seq<Entry>)

  function Matches(f: Found): seq<Entry> {
    match f
    case Search(m) => m
    case Range(l) => l
  }

  // The reply to a request: everything found that passes every filter, complete.  The filters
  // recompute a size of their own; the buffer keeps the size of the first stage.
  method ApiReq(t: Texts, json: string, found: Found, filters: seq<Entry -> bool>) returns (buf: array<char>, len: nat)
    requires t.Bounded() && forall e :: e in Matches(found) ==> Cached(json, e)
    requires found.Range? ==> InJsonOrder(found.list)
    ensures API_REQ_PADSTART <= len <= buf.Length
    ensures buf[API_REQ_PADSTART..len] == Reply(t, json, FilterAll(Matches(found), filters))
  {
    hide JsonSize, Filter, FilterAll, AllTexts, Reply;
    var allocBase := API_REQ_PADSTART + MARGIN;
    var alloc := SizeOf(found, allocBase);
    var matches := Matches(found);
    if t.circle {
      alloc := alloc + |matches| * CIRCLE_EXTRA;
    }
    FilterAllStart(matches, filters);
    for k := 0 to |filters|
      invariant matches == FilterAll(Matches(found), filters[..k])
    {
      FilterAllNext(Matches(found), filters, k);
      var inner;
      matches, inner := FilterMatches(matches, filters[k], allocBase);
    }
    assert filters[..|filters|] == filters;
    FilterAllSizes(Matches(found), filters);
    forall e | e in matches ensures Cached(json, e) {
      FilterAllKeeps(Matches(found), filters, e);
    }
    buf, len := WriteReply(t, json, matches, alloc);
  }

  method SizeOf(found: Found, allocBase: nat) returns (alloc: nat)
    requires found.Range? ==> InJsonOrder(found.list)
    ensures alloc >= allocBase + JsonSize(Matches(found))
  {
    var matches := Matches(found);
    if found.Range? {
      alloc := allocBase;
      if |matches| > 0 {
        JsonSpan(matches);
        var first, last := matches[0], matches[|matches| - 1];
        alloc := alloc + last.offset + last.len - first.offset;
      }
    } else {
      alloc := SumSizes(matches, allocBase);
    }
  }

  method SumSizes(matches: seq<Entry>, allocBase: nat) returns (alloc: nat)
    ensures alloc == allocBase + JsonSize(matches)
  {
    alloc := allocBase;
    for i := 0 to |matches|
      invariant alloc == allocBase + JsonSize(matches[..i])
    {
      assert matches[..i + 1] == matches[..i] + [matches[i]];
      FilterSnoc(matches[..i], matches[i], _ => true);
      alloc := alloc + matches[i].len;
    }
    assert matches[..|matches|] == matches;
  }

  lemma FilterAllStart(list: seq<Entry>, filters: seq<Entry -> bool>)
    ensures FilterAll(list, filters[..0]) == list
  {
  }

  lemma FilterAllNext(list: seq<Entry>, filters: seq<Entry -> bool>, k: nat)
    requires k < |filters|
    ensures FilterAll(list, filters[..k + 1]) == Filter(FilterAll(list, filters[..k]), filters[k])
  {
    assert filters[..k + 1][..k] == filters[..k];
  }

  // ---------------------------------------------------------------- the binary reply

  // Fixed-size elements, one for each match.
  function Elements(bin: Entry -> seq<int>, matches: seq<Entry>): seq<int> {
    if matches == [] then [] else Elements(bin, matches[..|matches| - 1]) + bin(matches[|matches| - 1])
  }

  lemma {:induction false} ElementsSize(bin: Entry -> seq<int>, matches: seq<Entry>, size: nat)
    requires forall e :: |bin(e)| == size
    ensures |Elements(bin, matches)| == size * |matches|
  {
    if matches != [] {
      ElementsSize(bin, matches[..|matches| - 1], size);
      OneElement(size, |matches| - 1);
    }
  }

  lemma OneElement(size: nat, n: nat)
    ensures size * (n + 1) == size * n + size
  {
  }

  lemma NextElement(bin: Entry -> seq<int>, matches: seq<Entry>, k: nat)
    requires k < |matches|
    ensures Elements(bin, matches[..k + 1]) == Elements(bin, matches[..k]) + bin(matches[k])
  {
    assert matches[..k + 1][..k] == matches[..k];
  }

  lemma Distribute(a: nat, b: nat, c: nat)
    ensures a * (b + c) == a * b + a * c
  {
  }

  lemma ElementsFit(size: nat, k: nat, n: nat)
    requires k < n
    ensures size * k + size <= size * n
  {
    OneElement(size, k);
    Distribute(size, k + 1, n - k - 1);
  }

  // The details, filled up with zeros.
  function FirstElement(details: seq<int>, size: nat): (b: seq<int>)
    requires |details| <= size
    ensures |b| == size
  {
    details + seq(size - |details|, _ => 0)
  }

  // Writes the binary reply: an element of details, filled up with zeros, and one for each match.  The
  // buffer has room for one more, and the loop never stops early.
  method WriteBinary(elementSize: nat, details: seq<int>, bin: Entry -> seq<int>, matches: seq<Entry>)
    returns (buf: array<int>, len: nat)
    requires |details| <= elementSize && forall e :: |bin(e)| == elementSize
    ensures len == API_REQ_PADSTART + elementSize + elementSize * |matches| && len + elementSize == buf.Length
    ensures buf[API_REQ_PADSTART..len] == FirstElement(details, elementSize) + Elements(bin, matches)
  {
    hide Elements, FirstElement;
    var all: nat := elementSize * |matches|;
    buf := new int[API_REQ_PADSTART + 2 * elementSize + all](_ => 0);
    PutFirst(elementSize, details, buf);
    len := PutElements(elementSize, bin, matches, buf, API_REQ_PADSTART + elementSize, FirstElement(details, elementSize));
  }

  method PutFirst(elementSize: nat, details: seq<int>, buf: array<int>)
    requires |details| <= elementSize && API_REQ_PADSTART + elementSize <= buf.Length
    requires forall i :: 0 <= i < buf.Length ==> buf[i] == 0
    modifies buf
    ensures buf[API_REQ_PADSTART..API_REQ_PADSTART + elementSize] == FirstElement(details, elementSize)
  {
    var _ := PutBytes(buf, API_REQ_PADSTART, details);
  }

  // The elements of all matches, behind what was written first.
  method PutElements(elementSize: nat, bin: Entry -> seq<int>, matches: seq<Entry>, buf: array<int>, start: nat, ghost first: seq<int>)
    returns (p: nat)
    requires forall e :: |bin(e)| == elementSize
    requires API_REQ_PADSTART <= start && start + elementSize * |matches| <= buf.Length && buf[API_REQ_PADSTART..start] == first
    modifies buf
    ensures p == start + elementSize * |matches| && buf[API_REQ_PADSTART..p] == first + Elements(bin, matches)
  {
    hide Elements;
    p := start;
    NoElements(bin);
    assert matches[..0] == [] && first + [] == first;
    for i := 0 to |matches|
      invariant p == start + elementSize * i <= buf.Length
      invariant buf[API_REQ_PADSTART..p] == first + Elements(bin, matches[..i])
    {
      ElementsFit(elementSize, i, |matches|);
      OneElement(elementSize, i);
      if p + elementSize > buf.Length {
        break;
      }
      NextElement(bin, matches, i);
      p := PutBytes(buf, p, bin(matches[i]));
      JoinBytes(first, Elements(bin, matches[..i]), bin(matches[i]));
    }
    assert matches[..|matches|] == matches;
  }

  lemma JoinBytes(a: seq<int>, b: seq<int>, c: seq<int>)
    ensures (a + b) + c == a + (b + c)
  {
  }

  lemma NoElements(bin: Entry -> seq<int>)
    ensures Elements(bin, []) == []
  {
  }

  method PutBytes(buf: array<int>, p: nat, b: seq<int>) returns (q: nat)
    requires API_REQ_PADSTART <= p && p + |b| <= buf.Length
    modifies buf
    ensures q == p + |b| && buf[API_REQ_PADSTART..q] == old(buf[API_REQ_PADSTART..p]) + b
    ensures forall i :: 0 <= i < |b| ==> buf[p + i] == b[i]
    ensures forall i :: q <= i < buf.Length ==> buf[i] == old(buf[i])
  {
    forall i | 0 <= i < |b| {
      buf[p + i] := b[i];
    }
    q := p + |b|;
  }
}
