// Finding messages in the magnitude samples: the pre-check scan, the phases tried, the best of them.
module Demodulator {
  import opened Slicer
  import ModeS

  const TRAILING_SAMPLES: nat := 326 // after the samples of a block
  const NO_SCORE: int := -42

  // Formats that messages are cut out for: long ones, and with type repair those one bit from 17.
  predicate ValidLong(df: nat, fixing: bool) {
    df == 16 || df == 17 || df == 18 || df == 20 || df == 21 || (fixing && df in DamageSet(17, 1))
  }

  predicate ValidShort(df: nat) {
    df == 0 || df == 4 || df == 5 || df == 11
  }

  // df ^ (1 << bit)
  function Toggled(df: nat, bit: nat): nat
    requires bit < 5
  {
    var v := [1, 2, 4, 8, 16][bit];
    if df / v % 2 == 1 then df - v else df + v
  }

  // The formats at most some bits away from one.
  function DamageSet(df: nat, damageBits: nat): set<nat>
    decreases damageBits
  {
    if damageBits == 0 then {df}
    else {df} + DamageSet(Toggled(df, 0), damageBits - 1) + DamageSet(Toggled(df, 1), damageBits - 1)
         + DamageSet(Toggled(df, 2), damageBits - 1) + DamageSet(Toggled(df, 3), damageBits - 1)
         + DamageSet(Toggled(df, 4), damageBits - 1)
  }

  // Exactly the formats that the decoder may turn into 17.
  lemma DamagedSquitters(df: nat)
    ensures df in DamageSet(17, 1) <==> df == 17 || ModeS.NearlySquitter(df)
  {
    assert Toggled(17, 0) == 16 && Toggled(17, 1) == 19 && Toggled(17, 2) == 21 && Toggled(17, 3) == 25 && Toggled(17, 4) == 1;
    assert DamageSet(16, 0) == {16} && DamageSet(19, 0) == {19} && DamageSet(21, 0) == {21};
    assert DamageSet(25, 0) == {25} && DamageSet(1, 0) == {1};
  }

  function BytesFor(df: nat, fixing: bool): (n: nat)
    ensures n <= 14
  {
    if ValidLong(df, fixing) then 14 else if ValidShort(df) then 7 else 0
  }

  // The first n bytes of a message whose preamble starts at pa, for a phase of 4 to 8.
  function Sliced(m: seq<int>, pa: nat, tryPhase: nat, n: nat): seq<nat>
    requires tryPhase <= 8 && n <= 14 && pa + 291 < |m|
  {
    seq(n, i requires 0 <= i < n => ByteAt(m, 5 * (pa + 19) + tryPhase + 96 * i))
  }

  // The score of a message that starts at pa.
  type Scorer = (nat, seq<nat>, nat) -> int

  function LengthAt(m: seq<int>, pa: nat, tryPhase: nat, fixing: bool): (n: nat)
    requires tryPhase <= 8 && pa + 291 < |m|
    ensures n <= 14
  {
    BytesFor(ByteAt(m, 5 * (pa + 19) + tryPhase) / 8, fixing)
  }

  function PhaseScore(m: seq<int>, pa: nat, tryPhase: nat, fixing: bool, score: Scorer): int
    requires tryPhase <= 8 && pa + 291 < |m|
  {
    var n := LengthAt(m, pa, tryPhase, fixing);
    if n == 0 then -2 else score(pa, Sliced(m, pa, tryPhase, n), 8 * n)
  }

  // The best score and the first of the phases that has it.
  datatype Best = Best(score: int, phase: nat)

  function Better(m: seq<int>, pa: nat, p: nat, fixing: bool, score: Scorer, b: Best): (r: Best)
    requires pa + 291 < |m| && p <= 8 && b.phase <= 8
    ensures r.phase <= 8
  {
    var s := PhaseScore(m, pa, p, fixing, score);
    if s > b.score then Best(s, p) else b
  }

  function BestOf(m: seq<int>, pa: nat, phases: seq<nat>, fixing: bool, score: Scorer): (b: Best)
    requires pa + 291 < |m| && forall k :: 0 <= k < |phases| ==> phases[k] <= 8
    ensures b.phase <= 8
  {
    if phases == [] then Best(NO_SCORE, 0)
    else Better(m, pa, phases[|phases| - 1], fixing, score, BestOf(m, pa, phases[..|phases| - 1], fixing, score))
  }

  lemma {:induction false} BestIsBest(m: seq<int>, pa: nat, phases: seq<nat>, fixing: bool, score: Scorer)
    requires pa + 291 < |m| && forall k :: 0 <= k < |phases| ==> phases[k] <= 8
    ensures var b := BestOf(m, pa, phases, fixing, score);
            && (forall k :: 0 <= k < |phases| ==> PhaseScore(m, pa, phases[k], fixing, score) <= b.score)
            && (b.score > NO_SCORE ==>
                  exists i :: 0 <= i < |phases| && phases[i] == b.phase && PhaseScore(m, pa, phases[i], fixing, score) == b.score
                              && forall j :: 0 <= j < i ==> PhaseScore(m, pa, phases[j], fixing, score) < b.score)
  {
    if phases != [] {
      BestIsBest(m, pa, phases[..|phases| - 1], fixing, score);
      hide PhaseScore;
      assert phases == phases[..|phases| - 1] + [phases[|phases| - 1]];
    }
  }

  // ---------------------------------------------------------------- the simple form

  // What the demodulator is set to: type repair, preamble threshold, and the score and the verdict of
  // the decoder for a message at a position.
  datatype Setup = Setup(fixing: bool, threshold: nat, score: Scorer, accept: (nat, seq<nat>) -> bool)

  predicate Preamble(m: seq<int>, pa: nat)
    requires pa + 15 < |m|
  {
    m[pa + 1] > m[pa + 7] && m[pa + 12] > m[pa + 14] && m[pa + 12] > m[pa + 15]
  }

  function RefLevel(m: seq<int>, pa: nat, threshold: nat): int
    requires pa + 18 < |m|
  {
    (m[pa + 5] + m[pa + 8] + m[pa + 16] + m[pa + 17] + m[pa + 18]) * threshold / 32
  }

  // Magnitudes of the preamble at its three groups of phases.
  function Mag45(m: seq<int>, pa: nat): int
    requires pa + 18 < |m|
  {
    m[pa + 1] + m[pa + 4] - (m[pa + 2] - m[pa + 3]) + m[pa + 9] + m[pa + 12] - (m[pa + 10] - m[pa + 11])
  }

  function Mag67(m: seq<int>, pa: nat): int
    requires pa + 18 < |m|
  {
    m[pa + 1] + m[pa + 4] - (m[pa + 2] - m[pa + 3]) + m[pa + 9] + m[pa + 12] + (m[pa + 10] - m[pa + 11])
  }

  function Mag8(m: seq<int>, pa: nat): int
    requires pa + 18 < |m|
  {
    m[pa + 1] + m[pa + 4] + 2 * (m[pa + 2] - m[pa + 3]) + (m[pa + 10] - m[pa + 11]) + m[pa + 12]
  }

  function If(b: bool, phases: seq<nat>): (p: seq<nat>)
    ensures p == phases || p == []
  {
    if b then phases else []
  }

  function Phases(m: seq<int>, pa: nat, threshold: nat): (p: seq<nat>)
    requires pa + 18 < |m|
    ensures forall k :: 0 <= k < |p| ==> p[k] <= 8
  {
    var ref := RefLevel(m, pa, threshold);
    If(Mag45(m, pa) >= ref, [4, 5]) + If(Mag67(m, pa) >= ref, [6, 7]) + If(Mag8(m, pa) >= ref, [8])
  }

  function BestAt(m: seq<int>, pa: nat, s: Setup): (b: Best)
    requires pa + 291 < |m|
    ensures b.phase <= 8
  {
    BestOf(m, pa, Phases(m, pa, s.threshold), s.fixing, s.score)
  }

  function BytesAt(m: seq<int>, pa: nat, phase: nat, s: Setup): seq<nat>
    requires pa + 291 < |m| && phase <= 8
  {
    Sliced(m, pa, phase, LengthAt(m, pa, phase, s.fixing))
  }

  // A message is found at pa, if it is looked at.
  predicate MessageAt(m: seq<int>, pa: nat, s: Setup)
    requires pa + 291 < |m|
  {
    var b := BestAt(m, pa, s);
    Preamble(m, pa) && b.score >= 0 && s.accept(pa, BytesAt(m, pa, b.phase, s))
  }

  // The samples skipped after a message: by its format as received, before any repair.
  function SkippedAt(m: seq<int>, pa: nat, s: Setup): nat
    requires pa + 291 < |m|
  {
    ModeS.MessageBits(ByteAt(m, 5 * (pa + 19) + BestAt(m, pa, s).phase) / 8) * 8 / 4
  }

  // Two samples are skipped for each bit of the message cut out, unless its format is 1: then a long
  // message is cut out, for repair, and as much as for a short one is skipped.
  lemma SkipMatches(m: seq<int>, pa: nat, s: Setup)
    requires pa + 291 < |m| && LengthAt(m, pa, BestAt(m, pa, s).phase, s.fixing) > 0
    ensures var p := BestAt(m, pa, s).phase;
            SkippedAt(m, pa, s) == 16 * LengthAt(m, pa, p, s.fixing) <==> ByteAt(m, 5 * (pa + 19) + p) / 8 != 1
  {
    hide ByteAt, BestAt, DamageSet;
    DamagedSquitters(ByteAt(m, 5 * (pa + 19) + BestAt(m, pa, s).phase) / 8);
  }

  datatype Found = Found(pa: nat, phase: nat, score: int, bytes: seq<nat>)

  function FoundAt(m: seq<int>, pa: nat, s: Setup): Found
    requires pa + 291 < |m|
  {
    var b := BestAt(m, pa, s);
    Found(pa, b.phase, b.score, BytesAt(m, pa, b.phase, s))
  }

  // One position at a time, up to stop.
  function Scan(m: seq<int>, pa: nat, stop: nat, s: Setup): (found: seq<Found>)
    requires |m| >= stop + TRAILING_SAMPLES
    decreases stop - pa
  {
    if pa >= stop then []
    else if MessageAt(m, pa, s) then [FoundAt(m, pa, s)] + Scan(m, pa + SkippedAt(m, pa, s) + 1, stop, s)
    else Scan(m, pa + 1, stop, s)
  }

  // Position q lies in the part of message f that is skipped.
  predicate Hidden(m: seq<int>, f: Found, q: nat, s: Setup)
    requires f.pa + 291 < |m|
  {
    f.pa < q <= f.pa + SkippedAt(m, f.pa, s)
  }

  predicate Genuine(m: seq<int>, f: Found, pa: nat, stop: nat, s: Setup)
    requires |m| >= stop + TRAILING_SAMPLES
  {
    pa <= f.pa < stop && MessageAt(m, f.pa, s) && f == FoundAt(m, f.pa, s)
  }

  predicate Sound(m: seq<int>, found: seq<Found>, pa: nat, stop: nat, s: Setup)
    requires |m| >= stop + TRAILING_SAMPLES
  {
    && (forall i :: 0 <= i < |found| ==> Genuine(m, found[i], pa, stop, s))
    && (forall i, j :: 0 <= i < j < |found| ==> found[i].pa + SkippedAt(m, found[i].pa, s) < found[j].pa)
  }

  // Every message found is one before stop, in order and none in the skipped part of another.
  lemma {:induction false} ScanSound(m: seq<int>, pa: nat, stop: nat, s: Setup)
    requires |m| >= stop + TRAILING_SAMPLES
    ensures Sound(m, Scan(m, pa, stop, s), pa, stop, s)
    decreases stop - pa
  {
    hide MessageAt, FoundAt, SkippedAt, Sound;
    if pa >= stop {
      SoundFrom(m, pa, pa, [], stop, s);
    } else {
      var next := if MessageAt(m, pa, s) then pa + SkippedAt(m, pa, s) + 1 else pa + 1;
      ScanSound(m, next, stop, s);
      SoundFrom(m, pa, next, Scan(m, next, stop, s), stop, s);
    }
  }

  lemma SoundFrom(m: seq<int>, pa: nat, next: nat, rest: seq<Found>, stop: nat, s: Setup)
    requires |m| >= stop + TRAILING_SAMPLES && pa <= next && (rest == [] || Sound(m, rest, next, stop, s))
    ensures Sound(m, rest, pa, stop, s)
    ensures pa < stop && MessageAt(m, pa, s) && next == pa + SkippedAt(m, pa, s) + 1 ==>
              Sound(m, [FoundAt(m, pa, s)] + rest, pa, stop, s)
  {
    hide MessageAt, FoundAt, SkippedAt;
    FoundHere(m, pa, stop, s);
    forall i | 0 <= i < |rest|
      ensures Genuine(m, rest[i], pa, stop, s) && next <= rest[i].pa
    {
      assert Genuine(m, rest[i], next, stop, s);
    }
  }

  // Every position with a message is found, unless it is in the skipped part of one that was.
  lemma {:induction false} ScanComplete(m: seq<int>, pa: nat, stop: nat, s: Setup, q: nat)
    requires |m| >= stop + TRAILING_SAMPLES && pa <= q < stop && MessageAt(m, q, s)
    ensures var found := Scan(m, pa, stop, s);
            FoundAt(m, q, s) in found || exists f :: f in found && f.pa < stop && Hidden(m, f, q, s)
    decreases stop - pa
  {
    hide MessageAt, FoundAt, SkippedAt;
    FoundHere(m, pa, stop, s);
    var here := MessageAt(m, pa, s);
    var next := if here then pa + SkippedAt(m, pa, s) + 1 else pa + 1;
    if next <= q {
      ScanComplete(m, next, stop, s, q);
      assert Scan(m, pa, stop, s) == (if here then [FoundAt(m, pa, s)] else []) + Scan(m, next, stop, s);
    } else if q > pa {
      assert FoundAt(m, pa, s) in Scan(m, pa, stop, s) && Hidden(m, FoundAt(m, pa, s), q, s);
    }
  }

  lemma FoundHere(m: seq<int>, pa: nat, stop: nat, s: Setup)
    requires |m| >= stop + TRAILING_SAMPLES
    ensures pa < stop ==> FoundAt(m, pa, s).pa == pa
  {
  }

  // Positions without a preamble add nothing.
  lemma {:induction false} ScanSkips(m: seq<int>, pa: nat, next: nat, stop: nat, s: Setup)
    requires |m| >= stop + TRAILING_SAMPLES && pa <= next <= stop
    requires forall q :: pa <= q < next ==> !Preamble(m, q)
    ensures Scan(m, pa, stop, s) == Scan(m, next, stop, s)
    decreases next - pa
  {
    hide Preamble, BestAt, BytesAt, FoundAt, SkippedAt;
    if pa < next {
      ScanSkips(m, pa + 1, next, stop, s);
      assert !MessageAt(m, pa, s);
    }
  }

  // Ten positions at a time, also past the end: the first with a preamble or the last of them.
  method PreCheck(m: seq<int>, start: nat) returns (pa: nat, preamble: bool)
    requires start + 24 < |m|
    ensures start <= pa <= start + 9 && preamble == Preamble(m, pa) && (!preamble ==> pa == start + 9)
    ensures forall q :: start <= q < pa ==> !Preamble(m, q)
  {
    hide Preamble;
    pa := start;
    if Preamble(m, pa) { return pa, true; }
    pa := pa + 1; if Preamble(m, pa) { return pa, true; }
    pa := pa + 1; if Preamble(m, pa) { return pa, true; }
    pa := pa + 1; if Preamble(m, pa) { return pa, true; }
    pa := pa + 1; if Preamble(m, pa) { return pa, true; }
    pa := pa + 1; if Preamble(m, pa) { return pa, true; }
    pa := pa + 1; if Preamble(m, pa) { return pa, true; }
    pa := pa + 1; if Preamble(m, pa) { return pa, true; }
    pa := pa + 1; if Preamble(m, pa) { return pa, true; }
    pa := pa + 1; if Preamble(m, pa) { return pa, true; }
    preamble := false;
  }

  // All messages in the mlen samples of a block.
  method Demodulate(m: seq<int>, mlen: nat, s: Setup) returns (found: seq<Found>)
    requires |m| >= mlen + TRAILING_SAMPLES
    ensures found == Scan(m, 0, mlen, s)
  {
    hide MessageAt, FoundAt, SkippedAt, Scan, Preamble;
    var c := new Candidates(s.fixing);
    var pa := 0;
    found := [];
    while pa < mlen
      invariant c.Valid() && c.fixing == s.fixing
      invariant fresh(c) && fresh(c.msg1) && fresh(c.msg2)
      invariant found + Scan(m, pa, mlen, s) == Scan(m, 0, mlen, s)
      decreases mlen - pa
    {
      var next, preamble := PreCheck(m, pa);
      ScanSteps(m, pa, next, preamble, mlen, s);
      pa := next;
      if preamble && pa < mlen {
        var accepted, f, skip := c.TryAt(m, pa, s);
        if accepted {
          found := found + [f];
          pa := pa + skip;
        }
      }
      pa := pa + 1;
    }
    ScanDone(m, pa, mlen, s);
  }

  // After a pre-check, and at the position it stops at.
  lemma ScanSteps(m: seq<int>, pa: nat, next: nat, preamble: bool, stop: nat, s: Setup)
    requires |m| >= stop + TRAILING_SAMPLES && pa < stop && pa <= next <= pa + 9
    requires preamble == Preamble(m, next) && forall q :: pa <= q < next ==> !Preamble(m, q)
    ensures next < stop ==>
              Scan(m, pa, stop, s) == if MessageAt(m, next, s)
                                      then [FoundAt(m, next, s)] + Scan(m, next + SkippedAt(m, next, s) + 1, stop, s)
                                      else Scan(m, next + 1, stop, s)
    ensures next < stop && !preamble ==> !MessageAt(m, next, s)
    ensures next >= stop ==> Scan(m, pa, stop, s) == Scan(m, next + 1, stop, s) == []
  {
    hide FoundAt, SkippedAt, BestAt, Preamble, BytesAt;
    ScanSkips(m, pa, if next < stop then next else stop, stop, s);
  }

  lemma ScanDone(m: seq<int>, pa: nat, stop: nat, s: Setup)
    requires |m| >= stop + TRAILING_SAMPLES && pa >= stop
    ensures Scan(m, pa, stop, s) == []
  {
  }

  lemma PhasesTried(m: seq<int>, pa: nat, s: Setup, b1: Best, b2: Best)
    requires pa + 291 < |m|
    requires var b0 := Best(NO_SCORE, 0);
             b1 == if Mag45(m, pa) >= RefLevel(m, pa, s.threshold)
                   then Better(m, pa, 5, s.fixing, s.score, Better(m, pa, 4, s.fixing, s.score, b0)) else b0
    requires b1.phase <= 8
    requires b2 == if Mag67(m, pa) >= RefLevel(m, pa, s.threshold)
                   then Better(m, pa, 7, s.fixing, s.score, Better(m, pa, 6, s.fixing, s.score, b1)) else b1
    requires b2.phase <= 8
    ensures BestAt(m, pa, s) == if Mag8(m, pa) >= RefLevel(m, pa, s.threshold)
                                then Better(m, pa, 8, s.fixing, s.score, b2) else b2
  {
    hide Better, BestOf, Mag45, Mag67, Mag8, RefLevel;
    var ref := RefLevel(m, pa, s.threshold);
    var on1, on2, on3 := Mag45(m, pa) >= ref, Mag67(m, pa) >= ref, Mag8(m, pa) >= ref;
    NoPhases(m, pa, s);
    PairMore(m, pa, [], on1, 4, s);
    assert [] + If(on1, [4, 5]) == If(on1, [4, 5]);
    PairMore(m, pa, If(on1, [4, 5]), on2, 6, s);
    OneMore(m, pa, If(on1, [4, 5]) + If(on2, [6, 7]), on3, 8, s);
  }

  lemma NoPhases(m: seq<int>, pa: nat, s: Setup)
    requires pa + 291 < |m|
    ensures BestOf(m, pa, [], s.fixing, s.score) == Best(NO_SCORE, 0)
  {
  }

  lemma OneMore(m: seq<int>, pa: nat, phases: seq<nat>, on: bool, p: nat, s: Setup)
    requires pa + 291 < |m| && p <= 8 && forall k :: 0 <= k < |phases| ==> phases[k] <= 8
    ensures var b := BestOf(m, pa, phases, s.fixing, s.score);
            BestOf(m, pa, phases + If(on, [p]), s.fixing, s.score)
            == if on then Better(m, pa, p, s.fixing, s.score, b) else b
  {
    hide Better;
    if on {
      assert (phases + [p])[..|phases|] == phases;
    } else {
      assert phases + [] == phases;
    }
  }

  lemma PairMore(m: seq<int>, pa: nat, phases: seq<nat>, on: bool, p: nat, s: Setup)
    requires pa + 291 < |m| && p <= 7 && forall k :: 0 <= k < |phases| ==> phases[k] <= 8
    ensures var b := BestOf(m, pa, phases, s.fixing, s.score);
            BestOf(m, pa, phases + If(on, [p, p + 1]), s.fixing, s.score)
            == if on then Better(m, pa, p + 1, s.fixing, s.score, Better(m, pa, p, s.fixing, s.score, b)) else b
  {
    hide Better, BestOf;
    OneMore(m, pa, phases, on, p, s);
    OneMore(m, pa, phases + If(on, [p]), on, p + 1, s);
    assert phases + If(on, [p]) + If(on, [p + 1]) == phases + If(on, [p, p + 1]);
  }

  lemma FirstByte(m: seq<int>, pa: nat, phase: nat, fixing: bool)
    requires pa + 291 < |m| && phase <= 8 && LengthAt(m, pa, phase, fixing) > 0
    ensures Sliced(m, pa, phase, LengthAt(m, pa, phase, fixing))[0] == ByteAt(m, 5 * (pa + 19) + phase)
  {
  }

  // Two buffers: one holds the best message so far, the other is used to cut out the next.
  class Candidates {
    const fixing: bool
    const msg1: array<nat>
    const msg2: array<nat>
    var msg: array<nat>
    var bestmsg: array?<nat>
    var bestscore: int
    var bestphase: nat

    ghost predicate Valid()
      reads this
    {
      && msg1.Length == msg2.Length == 14 && msg1 != msg2 && (msg == msg1 || msg == msg2)
      && (bestmsg == null || bestmsg == msg1 || bestmsg == msg2) && bestmsg != msg
    }

    constructor (fixing: bool)
      ensures Valid() && fresh(msg1) && fresh(msg2) && this.fixing == fixing
    {
      this.fixing := fixing;
      msg1 := new nat[14](_ => 0);
      msg2 := new nat[14](_ => 0);
      msg, bestmsg, bestscore, bestphase := msg1, null, NO_SCORE, 0;
    }

    // bestmsg is the message of the best phase, if that has a score worth decoding.
    ghost predicate Holds(m: seq<int>, pa: nat, b: Best, score: Scorer)
      requires pa + 291 < |m| && b.phase <= 8
      reads this, msg1, msg2
    {
      && Valid() && bestscore == b.score
      && (b.score >= 0 ==>
        && bestphase == b.phase && bestmsg != null
        && var n := LengthAt(m, pa, b.phase, fixing); n > 0 && bestmsg[..n] == Sliced(m, pa, b.phase, n))
    }

    // Cuts out the message of a phase and keeps it if it scores better than the best before it,
    // which is not overwritten.
    method ScorePhase(tryPhase: nat, m: seq<int>, pa: nat, score: Scorer, ghost b: Best)
      requires tryPhase <= 8 && pa + 291 < |m| && b.phase <= 8 && Holds(m, pa, b, score)
      modifies this, msg1, msg2
      ensures Holds(m, pa, Better(m, pa, tryPhase, fixing, score, b), score)
    {
      var n := SliceMessage(tryPhase, m, pa);
      if n == 0 {
        if -2 > bestscore {
          bestscore := -2;
        }
        return;
      }
      var s := score(pa, msg[..n], 8 * n);
      if s > bestscore {
        bestmsg := msg;
        bestscore := s;
        bestphase := tryPhase;
        msg := if msg == msg1 then msg2 else msg1;
      }
    }

    method ScorePair(tryPhase: nat, m: seq<int>, pa: nat, score: Scorer, ghost b: Best) returns (ghost r: Best)
      requires tryPhase <= 7 && pa + 291 < |m| && b.phase <= 8 && Holds(m, pa, b, score)
      modifies this, msg1, msg2
      ensures r == Better(m, pa, tryPhase + 1, fixing, score, Better(m, pa, tryPhase, fixing, score, b))
      ensures Holds(m, pa, r, score)
    {
      hide Better, Holds;
      ScorePhase(tryPhase, m, pa, score, b);
      r := Better(m, pa, tryPhase, fixing, score, b);
      ScorePhase(tryPhase + 1, m, pa, score, r);
      r := Better(m, pa, tryPhase + 1, fixing, score, r);
    }

    // All phases that the preamble at pa may have.
    method ScorePhases(m: seq<int>, pa: nat, s: Setup)
      requires pa + 291 < |m| && Valid() && s.fixing == fixing
      modifies this, msg1, msg2
      ensures Holds(m, pa, BestAt(m, pa, s), s.score)
    {
      hide Better, BestAt, Mag45, Mag67, Mag8, RefLevel;
      var ref := RefLevel(m, pa, s.threshold);
      bestscore := NO_SCORE;
      ghost var b0 := Best(NO_SCORE, 0);
      ghost var b1, b2 := b0, b0;
      assert Holds(m, pa, b0, s.score);
      hide Holds;
      if Mag45(m, pa) >= ref {
        b1 := ScorePair(4, m, pa, s.score, b0);
      }
      b2 := b1;
      if Mag67(m, pa) >= ref {
        b2 := ScorePair(6, m, pa, s.score, b1);
      }
      PhasesTried(m, pa, s, b1, b2);
      if Mag8(m, pa) >= ref {
        ScorePhase(8, m, pa, s.score, b2);
      }
    }

    // Whether there is a message at a position with a preamble, which, and how much of it to skip.
    method TryAt(m: seq<int>, pa: nat, s: Setup) returns (accepted: bool, f: Found, skip: nat)
      requires pa + 291 < |m| && Valid() && s.fixing == fixing && Preamble(m, pa)
      modifies this, msg1, msg2
      ensures Valid() && accepted == MessageAt(m, pa, s)
      ensures accepted ==> f == FoundAt(m, pa, s) && skip == SkippedAt(m, pa, s)
    {
      hide BestAt, Preamble, ByteAt, BytesFor;
      accepted, f, skip := false, Found(pa, 0, 0, []), 0;
      ScorePhases(m, pa, s);
      assert Valid();
      if bestscore >= 0 {
        var n := BytesFor(bestmsg[0] / 8, fixing);
        FirstByte(m, pa, bestphase, fixing);
        assert n == LengthAt(m, pa, bestphase, fixing) && bestmsg[0] == bestmsg[..n][0];
        if s.accept(pa, bestmsg[..n]) {
          accepted, f := true, Found(pa, bestphase, bestscore, bestmsg[..n]);
          skip := ModeS.MessageBits(bestmsg[0] / 8) * 8 / 4;
        }
      }
    }

    // Only the first byte is cut out of a message of unknown format.
    method SliceMessage(tryPhase: nat, m: seq<int>, pa: nat) returns (n: nat)
      requires tryPhase <= 8 && pa + 291 < |m| && Valid()
      modifies msg
      ensures n == LengthAt(m, pa, tryPhase, fixing) && msg[..n] == Sliced(m, pa, tryPhase, n)
    {
      hide ByteAt, BytesFor;
      var theByte, ptr, phase := SliceByte(m, pa + 19 + tryPhase / 5, tryPhase % 5);
      msg[0] := theByte;
      n := BytesFor(theByte / 8, fixing);
      if n == 0 {
        return;
      }
      SliceRest(msg, n, m, ptr, phase, 5 * (pa + 19) + tryPhase);
    }
  }

  // The bytes of a message after its first, which starts u fifths of a sample into m.
  method SliceRest(msg: array<nat>, n: nat, m: seq<int>, start: nat, startPhase: nat, ghost u: nat)
    requires 0 < n <= 14 == msg.Length && startPhase < 5 && 5 * start + startPhase == u + 96 && u / 5 + 271 < |m|
    modifies msg
    ensures forall k :: 0 < k < n ==> (u + 96 * k + 84) / 5 + 3 < |m| && msg[k] == ByteAt(m, u + 96 * k)
    ensures msg[0] == old(msg[0])
  {
    hide ByteAt;
    var ptr, phase := start, startPhase;
    for i := 1 to n
      invariant phase < 5 && 5 * ptr + phase == u + 96 * i
      invariant msg[0] == old(msg[0])
      invariant forall k :: 0 < k < i ==> (u + 96 * k + 84) / 5 + 3 < |m| && msg[k] == ByteAt(m, u + 96 * k)
    {
      var theByte, next, nextPhase := SliceByte(m, ptr, phase);
      msg[i], ptr, phase := theByte, next, nextPhase;
    }
  }
}
