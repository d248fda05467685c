// Runs of additions: which positions end up in the trace.
module TraceRun {
  import opened TraceModel
  import opened TraceStore
  import opened TraceAdd

  // A position offered, with what is decided about it and how much room there is.
  datatype Offer = Offer(now: int, d: Decision, again: Decision, spare: nat, first: bool)

  predicate Stale(s: Track) {
    s.trace != [] && s.buffered != [] && s.buffered[0].state.timestamp < s.trace[|s.trace| - 1].state.timestamp
  }

  // The buffered point goes into the trace before the position.
  predicate Uses(s: Track, o: Offer) {
    !o.first && !Stale(s) && s.buffered != [] && o.d.outcome == SaveState && o.d.preferBuffered
  }

  // What is decided about the position itself.
  function Final(s: Track, o: Offer): Decision {
    if Uses(s, o) then o.again else if o.first then Decision(SaveState, false, false, o.d.fields, o.d.all) else o.d
  }

  predicate Taken(s: Track, o: Offer) {
    !Final(s, o).duplicate && o.spare > if Uses(s, o) then 1 else 0
  }

  predicate Stores(s: Track, o: Offer) {
    Taken(s, o) && Final(s, o).outcome != NoSave
  }

  predicate Buffers(s: Track, o: Offer) {
    Taken(s, o) && Final(s, o).outcome == NoSave
  }

  // Neither takes the position nor touches the buffered point.
  predicate Idle(s: Track, o: Offer) {
    !Taken(s, o) && !Uses(s, o) && (o.first || !Stale(s))
  }

  function Position(s: Track, o: Offer): State {
    State(o.now, Final(s, o).fields)
  }

  function Added(s: Track, o: Offer): Track {
    Add(s, o.now, o.d, o.again, o.spare, o.first)
  }

  // Each fourth point brings its own slow record, the others have that of the point before.
  predicate SlowRecord(t: seq<Point>, d: Decision) {
    t != [] && t[|t| - 1].all == if |t| % SFOUR == 1 then d.all else if |t| > 1 then t[|t| - 2].all else t[0].all
  }

  // One addition: the trace keeps what it had, takes the buffered point if that is used, and then the position
  // if that is saved.  A position that is taken but not saved is the buffered one afterwards.
  lemma AddOutcome(s: Track, o: Offer)
    requires |s.buffered| <= 1
    ensures var r := Added(s, o);
            var used, stored := if Uses(s, o) then 1 else 0, if Stores(s, o) then 1 else 0;
            && |r.trace| == |s.trace| + used + stored && s.trace <= r.trace
            && (Uses(s, o) ==> r.trace[|s.trace|] == s.buffered[0])
            && (Stores(s, o) ==> r.trace[|r.trace| - 1].state == Position(s, o) && r.buffered == [])
            && (Buffers(s, o) ==> |r.buffered| == 1 && r.buffered[0].state == Position(s, o))
            && (Taken(s, o) ==> SlowRecord(r.trace + r.buffered, Final(s, o)))
            && (!Taken(s, o) ==> r.buffered == if Idle(s, o) then s.buffered else [])
  {
    hide Put, NextPoint, SlowRecord;
    var c := if o.first then s else DropStale(s);
    var flushed := Track(c.trace + c.buffered, []);
    PutOutcome(flushed, o.now, o.again, o.spare > 1);
    PutOutcome(c, o.now, Final(s, o), o.spare > 0);
  }

  // Storing or buffering the position itself.
  lemma PutOutcome(t: Track, now: int, d: Decision, room: bool)
    ensures var r := Put(t, now, d, room);
            if d.duplicate || !room then r == t
            else
              && SlowRecord(r.trace + r.buffered, d)
              && if d.outcome == NoSave then r.trace == t.trace && |r.buffered| == 1 && r.buffered[0].state == State(now, d.fields)
                 else |r.trace| == |t.trace| + 1 && t.trace <= r.trace && r.trace[|t.trace|].state == State(now, d.fields)
                      && r.buffered == []
  {
    var p := NextPoint(t.trace, now, d);
    assert t.trace + [p] + [] == t.trace + [p];
  }

  // ---------------------------------------------------------------- runs

  function Run(s: Track, offers: seq<Offer>): Track {
    if offers == [] then s else Added(Run(s, offers[..|offers| - 1]), offers[|offers| - 1])
  }

  // The track that offer k finds.
  function Before(s: Track, offers: seq<Offer>, k: nat): Track
    requires k <= |offers|
  {
    Run(s, offers[..k])
  }

  predicate StoredAt(s: Track, offers: seq<Offer>, i: nat)
    requires i < |offers|
  {
    Stores(Before(s, offers, i), offers[i])
  }

  predicate BufferedAt(s: Track, offers: seq<Offer>, i: nat)
    requires i < |offers|
  {
    Buffers(Before(s, offers, i), offers[i])
  }

  predicate IdleAt(s: Track, offers: seq<Offer>, i: nat)
    requires i < |offers|
  {
    Idle(Before(s, offers, i), offers[i])
  }

  predicate UsesAt(s: Track, offers: seq<Offer>, i: nat)
    requires i < |offers|
  {
    Uses(Before(s, offers, i), offers[i])
  }

  // Position i is buffered and still so when offer k comes.
  ghost predicate Waiting(s: Track, offers: seq<Offer>, i: nat, k: nat)
    requires k <= |offers|
  {
    i < k && BufferedAt(s, offers, i) && forall j :: i < j < k ==> IdleAt(s, offers, j)
  }

  // Position i was saved, or was buffered and then used.
  ghost predicate Kept(s: Track, offers: seq<Offer>, i: nat) {
    i < |offers| && (StoredAt(s, offers, i) || exists k :: i < k < |offers| && UsesAt(s, offers, k) && Waiting(s, offers, i, k))
  }

  function PositionAt(s: Track, offers: seq<Offer>, i: nat): State
    requires i < |offers|
  {
    Position(Before(s, offers, i), offers[i])
  }

  ghost predicate Increasing(kept: seq<nat>) {
    forall i, j :: 0 <= i < j < |kept| ==> kept[i] < kept[j]
  }

  // The trace is what it was, followed by exactly the positions kept, in the order they were offered.
  ghost predicate Holds(s: Track, offers: seq<Offer>, r: Track, kept: seq<nat>) {
    && Increasing(kept) && (forall i: nat :: i in kept <==> Kept(s, offers, i))
    && |r.trace| == |s.trace| + |kept| && s.trace <= r.trace
    && forall j :: 0 <= j < |kept| ==> kept[j] < |offers| && r.trace[|s.trace| + j].state == PositionAt(s, offers, kept[j])
  }

  // The buffered point is the position that waits.
  ghost predicate WaitingIs(s: Track, offers: seq<Offer>, r: Track) {
    && |r.buffered| <= 1
    && (r.buffered == [] ==> forall i: nat :: !Waiting(s, offers, i, |offers|))
    && (r.buffered != [] ==> exists i: nat :: i < |offers| && Waiting(s, offers, i, |offers|) && r.buffered[0].state == PositionAt(s, offers, i))
  }

  // What happens to an offer does not depend on later ones.
  lemma Earlier(s: Track, offers: seq<Offer>, n: nat)
    requires n <= |offers|
    ensures forall i: nat :: i < n ==>
              && StoredAt(s, offers[..n], i) == StoredAt(s, offers, i) && BufferedAt(s, offers[..n], i) == BufferedAt(s, offers, i)
              && IdleAt(s, offers[..n], i) == IdleAt(s, offers, i) && UsesAt(s, offers[..n], i) == UsesAt(s, offers, i)
              && PositionAt(s, offers[..n], i) == PositionAt(s, offers, i)
  {
    hide Run, Stores, Buffers, Idle, Uses, Position;
    forall i: nat | i < n ensures Before(s, offers[..n], i) == Before(s, offers, i) {
      assert offers[..n][..i] == offers[..i];
    }
  }

  lemma EarlierWaiting(s: Track, offers: seq<Offer>, n: nat, i: nat, k: nat)
    requires n <= |offers| && k <= n
    ensures Waiting(s, offers[..n], i, k) <==> Waiting(s, offers, i, k)
  {
    hide StoredAt, BufferedAt, IdleAt, UsesAt, PositionAt;
    Earlier(s, offers, n);
  }

  lemma Fates(s: Track, offers: seq<Offer>, i: nat)
    requires i < |offers|
    ensures IdleAt(s, offers, i) ==> !StoredAt(s, offers, i) && !BufferedAt(s, offers, i) && !UsesAt(s, offers, i)
    ensures !(StoredAt(s, offers, i) && BufferedAt(s, offers, i))
  {
    hide Before, Final, Uses;
  }

  // At most one position waits, and those kept so far came before it.
  lemma OneWaits(s: Track, offers: seq<Offer>, w: nat, i: nat)
    requires Waiting(s, offers, w, |offers|)
    ensures Waiting(s, offers, i, |offers|) ==> i == w
    ensures Kept(s, offers, i) ==> i < w
  {
    hide StoredAt, BufferedAt, IdleAt, UsesAt;
    Fates(s, offers, w);
    if i < |offers| {
      Fates(s, offers, i);
    }
    if Kept(s, offers, i) && i >= w && !StoredAt(s, offers, i) {
      var k :| i < k < |offers| && UsesAt(s, offers, k) && Waiting(s, offers, i, k);
      Fates(s, offers, k);
    }
  }

  // The positions kept after one more offer.
  lemma KeptSnoc(s: Track, offers: seq<Offer>, n: nat, i: nat)
    requires |offers| == n + 1
    ensures Kept(s, offers, i)
            <==> Kept(s, offers[..n], i) || (i == n && StoredAt(s, offers, n))
                 || (UsesAt(s, offers, n) && Waiting(s, offers[..n], i, n))
  {
    hide StoredAt, BufferedAt, IdleAt, UsesAt, PositionAt, Waiting;
    Earlier(s, offers, n);
    forall k: nat | k <= n ensures Waiting(s, offers[..n], i, k) <==> Waiting(s, offers, i, k) {
      EarlierWaiting(s, offers, n, i, k);
    }
    WaitsBefore(s, offers, i, n);
  }

  lemma WaitsBefore(s: Track, offers: seq<Offer>, i: nat, k: nat)
    requires k <= |offers|
    ensures Waiting(s, offers, i, k) ==> i < k
  {
  }

  lemma WaitingSnoc(s: Track, offers: seq<Offer>, n: nat, i: nat)
    requires |offers| == n + 1
    ensures Waiting(s, offers, i, |offers|)
            <==> (i == n && BufferedAt(s, offers, n)) || (Waiting(s, offers[..n], i, n) && IdleAt(s, offers, n))
  {
    hide StoredAt, BufferedAt, IdleAt, UsesAt, PositionAt;
    EarlierWaiting(s, offers, n, i, n);
  }

  // Over any run of additions, the trace is extended by exactly the positions saved and the buffered ones
  // used, in order.
  lemma {:induction false} RunKeeps(s: Track, offers: seq<Offer>) returns (kept: seq<nat>)
    requires s.buffered == []
    ensures Holds(s, offers, Run(s, offers), kept) && WaitingIs(s, offers, Run(s, offers))
  {
    hide Holds, WaitingIs, Added, Stores, Buffers, Idle, Uses;
    if offers == [] {
      kept := [];
      NothingOffered(s);
    } else {
      var n := |offers| - 1;
      kept := RunKeeps(s, offers[..n]);
      kept := OneMore(s, offers, n, kept);
    }
  }

  lemma NothingOffered(s: Track)
    requires s.buffered == []
    ensures Holds(s, [], s, []) && WaitingIs(s, [], s)
  {
  }

  lemma OneMore(s: Track, offers: seq<Offer>, n: nat, before: seq<nat>) returns (kept: seq<nat>)
    requires |offers| == n + 1
    requires Holds(s, offers[..n], Run(s, offers[..n]), before) && WaitingIs(s, offers[..n], Run(s, offers[..n]))
    ensures Holds(s, offers, Run(s, offers), kept) && WaitingIs(s, offers, Run(s, offers))
  {
    hide Added, Stores, Buffers, Idle, Uses, Waiting, Kept, Taken, Position, Holds, PositionAt;
    var used: seq<nat> := [];
    if UsesAt(s, offers, n) {
      var w := TheWaiting(s, offers, n);
      used := [w];
    }
    kept := before + used + (if StoredAt(s, offers, n) then [n] else []);
    HoldsSnoc(s, offers, n, before, used, kept);
    WaitingIsSnoc(s, offers, n);
  }

  // The position that waits for offer n, if it is used.
  lemma TheWaiting(s: Track, offers: seq<Offer>, n: nat) returns (w: nat)
    requires |offers| == n + 1 && WaitingIs(s, offers[..n], Run(s, offers[..n])) && UsesAt(s, offers, n)
    ensures w < n && Waiting(s, offers[..n], w, n) && Run(s, offers[..n]).buffered != []
    ensures Run(s, offers[..n]).buffered[0].state == PositionAt(s, offers, w)
    ensures forall i: nat :: (Waiting(s, offers[..n], i, n) ==> i == w) && (Kept(s, offers[..n], i) ==> i < w)
  {
    hide Added, Stores, Buffers, Idle, Waiting, Kept, Taken, Position, PositionAt;
    Earlier(s, offers, n);
    w :| w < n && Waiting(s, offers[..n], w, n)
      && Run(s, offers[..n]).buffered[0].state == PositionAt(s, offers[..n], w);
    forall i: nat ensures (Waiting(s, offers[..n], i, n) ==> i == w) && (Kept(s, offers[..n], i) ==> i < w) {
      OneWaits(s, offers[..n], w, i);
    }
  }

  lemma HoldsSnoc(s: Track, offers: seq<Offer>, n: nat, before: seq<nat>, used: seq<nat>, kept: seq<nat>)
    requires |offers| == n + 1 && Holds(s, offers[..n], Run(s, offers[..n]), before)
    requires |Run(s, offers[..n]).buffered| <= 1
    requires if UsesAt(s, offers, n) then
               && |used| == 1 && used[0] < n && Waiting(s, offers[..n], used[0], n)
               && Run(s, offers[..n]).buffered != []
               && Run(s, offers[..n]).buffered[0].state == PositionAt(s, offers, used[0])
               && (forall i: nat :: (Waiting(s, offers[..n], i, n) ==> i == used[0]) && (Kept(s, offers[..n], i) ==> i < used[0]))
             else used == []
    requires kept == before + used + if StoredAt(s, offers, n) then [n] else []
    ensures Holds(s, offers, Run(s, offers), kept)
  {
    hide Added, Stores, Buffers, Idle, Uses, Waiting, Kept, Taken, Position, Run, PositionAt, SlowRecord;
    var t, o := Run(s, offers[..n]), offers[n];
    RunSnoc(s, offers, n);
    AddOutcome(t, o);
    Earlier(s, offers, n);
    forall i: nat ensures i in kept <==> Kept(s, offers, i) {
      KeptSnoc(s, offers, n, i);
    }
    KeptEarlier(s, offers[..n], before);
    PositionIs(s, offers, n);
    var r := Run(s, offers);
    assert forall j :: 0 <= j < |before| ==> before[j] in before && Kept(s, offers[..n], before[j]);
    assert Increasing(kept);
    assert r.trace[..|t.trace|] == t.trace;
    assert s.trace <= r.trace;
    forall j | 0 <= j < |kept| ensures kept[j] < |offers| && r.trace[|s.trace| + j].state == PositionAt(s, offers, kept[j]) {
      if j < |before| {
        assert r.trace[|s.trace| + j] == t.trace[|s.trace| + j];
      }
    }
  }

  lemma RunSnoc(s: Track, offers: seq<Offer>, n: nat)
    requires |offers| == n + 1
    ensures Run(s, offers) == Added(Run(s, offers[..n]), offers[n]) && Before(s, offers, n) == Run(s, offers[..n])
  {
  }

  lemma PositionIs(s: Track, offers: seq<Offer>, n: nat)
    requires n < |offers|
    ensures PositionAt(s, offers, n) == Position(Before(s, offers, n), offers[n])
  {
  }

  lemma KeptEarlier(s: Track, offers: seq<Offer>, kept: seq<nat>)
    requires forall i: nat :: i in kept <==> Kept(s, offers, i)
    ensures forall j :: 0 <= j < |kept| ==> kept[j] < |offers|
  {
    forall j | 0 <= j < |kept| ensures kept[j] < |offers| {
      assert Kept(s, offers, kept[j]);
    }
  }

  lemma WaitingIsSnoc(s: Track, offers: seq<Offer>, n: nat)
    requires |offers| == n + 1 && WaitingIs(s, offers[..n], Run(s, offers[..n]))
    ensures WaitingIs(s, offers, Run(s, offers))
  {
    hide Added, Stores, Buffers, Idle, Uses, Waiting, Kept, Taken, Position, Run, PositionAt, SlowRecord;
    var t, o := Run(s, offers[..n]), offers[n];
    RunSnoc(s, offers, n);
    AddOutcome(t, o);
    Fated(t, o);
    Earlier(s, offers, n);
    PositionIs(s, offers, n);
    if BufferedAt(s, offers, n) {
      WaitingSnoc(s, offers, n, n);
      assert Run(s, offers).buffered[0].state == PositionAt(s, offers, n);
    } else if IdleAt(s, offers, n) && t.buffered != [] {
      var w: nat :| w < n && Waiting(s, offers[..n], w, n) && t.buffered[0].state == PositionAt(s, offers[..n], w);
      WaitingSnoc(s, offers, n, w);
      assert Run(s, offers).buffered[0].state == PositionAt(s, offers, w);
    } else {
      forall i: nat ensures !Waiting(s, offers, i, |offers|) {
        WaitingSnoc(s, offers, n, i);
        assert IdleAt(s, offers, n) ==> !Waiting(s, offers[..n], i, |offers[..n]|);
      }
      assert Run(s, offers).buffered == [];
    }
  }

  lemma Fated(t: Track, o: Offer)
    ensures Taken(t, o) <==> Stores(t, o) || Buffers(t, o)
    ensures !(Stores(t, o) && Buffers(t, o)) && (Idle(t, o) ==> !Taken(t, o) && !Uses(t, o))
  {
  }
}
