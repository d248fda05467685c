// The resumable sweep over all aircraft buckets that writes traces.
module TraceSweep {
  // Work is dealt out in parts, as evenly as possible.
  datatype Plan = Plan(buckets: nat, taskCount: nat, invocations: nat) {
    predicate Valid() {
      taskCount > 0 && invocations > 0
    }

    function Parts(): nat {
      taskCount * invocations
    }

    function SectionLen(): nat
      requires Valid()
    {
      PartsPositive(taskCount, invocations);
      buckets / Parts()
    }

    function Extra(): nat
      requires Valid()
    {
      PartsPositive(taskCount, invocations);
      buckets % Parts()
    }

    // Where part k starts: the first parts take one of the buckets left over.
    function Start(k: nat): nat
      requires Valid()
    {
      k * SectionLen() + (if k < Extra() then k else Extra())
    }
  }

  lemma PartsPositive(a: nat, b: nat)
    requires a > 0 && b > 0
    ensures a * b > 0
  {
  }

  lemma NextStart(p: Plan, k: nat)
    requires p.Valid()
    ensures p.Start(k + 1) == p.Start(k) + p.SectionLen() + (if k < p.Extra() then 1 else 0)
  {
    assert (k + 1) * p.SectionLen() == k * p.SectionLen() + p.SectionLen();
  }

  // The parts cover the buckets exactly.
  lemma LastStart(p: Plan)
    requires p.Valid()
    ensures p.Start(0) == 0 && p.Start(p.Parts()) == p.buckets
  {
    PartsPositive(p.taskCount, p.invocations);
    assert 0 * p.SectionLen() == 0;
    Division(p.buckets, p.Parts());
  }

  lemma Division(a: nat, n: nat)
    requires n > 0
    ensures n * (a / n) + a % n == a && a % n < n
  {
  }

  lemma {:induction false} StartsGrow(p: Plan, j: nat, k: nat)
    requires p.Valid() && j <= k
    ensures p.Start(j) <= p.Start(k)
    decreases k - j
  {
    if j < k {
      StartsGrow(p, j, k - 1);
      NextStart(p, k - 1);
    }
  }

  ghost predicate Exactly(s: set<nat>, n: nat) {
    forall b :: b in s <==> 0 <= b < n
  }

  // Every bucket of consecutive parts lies in one of them.
  lemma {:induction false} Locate(p: Plan, first: nat, n: nat, b: nat) returns (i: nat)
    requires p.Valid() && p.Start(first) <= b < p.Start(first + n)
    ensures i < n && p.Start(first + i) <= b < p.Start(first + i + 1)
  {
    if b >= p.Start(first + n - 1) {
      i := n - 1;
    } else {
      i := Locate(p, first, n - 1, b);
    }
  }

  class TraceWriter {
    const plan: Plan
    const from: array<nat>
    const to: array<nat>
    var part: nat
    var lastRunFinished: bool
    // the buckets completed since part was last reset, and those of the sweeps before
    ghost var done: set<nat>
    ghost var rounds: nat
    ghost var sweeps: seq<set<nat>>

    // The range of task i is what is left of the part handed to it.
    ghost predicate Dealt(i: nat)
      requires plan.Valid() && i < from.Length && i < to.Length
      reads `part, from, to
    {
      if part == 0 then from[i] == to[i]
      else
        part >= plan.taskCount
        && plan.Start(part + i - plan.taskCount) <= from[i] <= to[i] == plan.Start(part + i - plan.taskCount + 1)
    }

    ghost predicate Valid()
      reads `part, `done, `rounds, `sweeps, from, to
    {
      && plan.Valid() && from.Length == to.Length == plan.taskCount && from != to
      && rounds <= plan.invocations && part == rounds * plan.taskCount
      && (forall i :: 0 <= i < plan.taskCount ==> Dealt(i))
      && (forall b :: b in done <==> 0 <= b < plan.Start(part) && forall i :: 0 <= i < plan.taskCount ==> !(from[i] <= b < to[i]))
      && (forall k :: 0 <= k < |sweeps| ==> Exactly(sweeps[k], plan.buckets))
    }

    predicate AllFinished()
      requires from.Length == to.Length
      reads from, to
    {
      forall i :: 0 <= i < from.Length ==> from[i] == to[i]
    }

    // Between two calls.
    ghost predicate Settled()
      reads this, from, to
    {
      Valid() && (lastRunFinished <==> AllFinished())
    }

    constructor (plan: Plan)
      requires plan.Valid()
      ensures Settled() && fresh(from) && fresh(to) && this.plan == plan && done == {} && sweeps == []
      ensures lastRunFinished && part == 0 && rounds == 0
    {
      this.plan := plan;
      from := new nat[plan.taskCount](_ => 0);
      to := new nat[plan.taskCount](_ => 0);
      part, lastRunFinished := 0, true;
      done, sweeps, rounds := {}, [], 0;
      new;
      LastStart(plan);
      hide Plan.Start, Plan.Parts;
      assert 0 * plan.taskCount == 0;
      assert forall i :: 0 <= i < plan.taskCount ==> Dealt(i);
    }

    // Ranges of different tasks have no bucket in common.
    lemma Apart(i: nat, k: nat, b: nat)
      requires Valid() && i < plan.taskCount && k < plan.taskCount && i != k && from[i] <= b < to[i]
      ensures !(from[k] <= b < to[k])
    {
      hide Plan.Start;
      assert Dealt(i) && Dealt(k);
      if part > 0 {
        var first := part - plan.taskCount;
        if i < k {
          StartsGrow(plan, first + i + 1, first + k);
        } else {
          StartsGrow(plan, first + k + 1, first + i);
        }
      }
    }

    // Finishes the next bucket of task i, which no task has finished in this sweep.
    method FinishBucket(i: nat)
      requires Valid() && i < plan.taskCount && from[i] < to[i]
      modifies from, `done
      ensures Valid()
      ensures from[i] == old(from[i]) + 1 && forall k :: 0 <= k < plan.taskCount && k != i ==> from[k] == old(from[k])
      ensures old(from[i]) !in old(done) && done == old(done) + {old(from[i])}
    {
      hide Plan.Start, Plan.Parts, Exactly;
      ghost var b := from[i];
      assert Dealt(i);
      StartsGrow(plan, part + i - plan.taskCount + 1, part);
      forall k | 0 <= k < plan.taskCount && k != i ensures !(from[k] <= b < to[k]) {
        Apart(i, k, b);
      }
      from[i] := from[i] + 1;
      done := done + {b};
      forall k | 0 <= k < plan.taskCount ensures Dealt(k) {
        assert old(Dealt(k));
      }
    }

    // Works on a range until it is finished or the time is up, after at most budget buckets.
    method TraceWriteTask(i: nat, budget: nat)
      requires Valid() && i < plan.taskCount
      modifies from, `done
      ensures Valid() && old(done) <= done
      ensures forall k :: 0 <= k < plan.taskCount && k != i ==> from[k] == old(from[k])
      ensures from[i] == Reached(old(from[i]), to[i], budget)
    {
      hide Plan.Start, Plan.Parts, Exactly;
      var n := 0;
      assert Dealt(i);
      while from[i] < to[i] && n < budget
        invariant Valid() && old(done) <= done && n <= budget && from[i] == old(from[i]) + n && from[i] <= to[i]
        invariant forall k :: 0 <= k < plan.taskCount && k != i ==> from[k] == old(from[k])
        decreases budget - n
      {
        FinishBucket(i);
        assert Dealt(i);
        n := n + 1;
      }
    }

    // After a whole sweep every bucket has been completed, none twice; a new sweep starts.
    method Reset()
      requires Valid() && AllFinished() && part >= plan.Parts()
      modifies `part, `done, `sweeps, `rounds
      ensures Valid() && part == 0 && done == {}
      ensures Exactly(old(done), plan.buckets) && sweeps == old(sweeps) + [old(done)]
    {
      LastStart(plan);
      hide Plan.Start, Plan.Parts;
      RoundFits(plan, rounds);
      assert forall b :: b in done <==> 0 <= b < plan.buckets;
      sweeps := sweeps + [done];
      part, rounds, done := 0, 0, {};
      assert 0 * plan.taskCount == 0;
      assert forall i :: 0 <= i < plan.taskCount ==> Dealt(i);
    }

    // Hands the next part to each task.  Only finished ranges are replaced, and the checks on the
    // distribution cannot fail.
    method Deal()
      requires Valid() && AllFinished() && part < plan.Parts()
      modifies `part, `rounds, from, to
      ensures Valid() && part == old(part) + plan.taskCount
      ensures forall i :: 0 <= i < plan.taskCount ==> from[i] == plan.Start(old(part) + i) && to[i] == plan.Start(old(part) + i + 1)
    {
      hide Plan.Start, Plan.Parts, Plan.SectionLen, Plan.Extra, Exactly;
      RoundFits(plan, rounds);
      ghost var first := part;
      assert forall b :: b in done <==> 0 <= b < plan.Start(first);
      for i := 0 to plan.taskCount
        invariant part == first + i && rounds == old(rounds)
        invariant forall k :: 0 <= k < i ==> from[k] == plan.Start(first + k) && to[k] == plan.Start(first + k + 1)
      {
        var start := plan.Start(part);
        var end := start + plan.SectionLen() + (if part < plan.Extra() then 1 else 0);
        PartRange(plan, part);
        part := part + 1;
        assert end <= plan.buckets;
        from[i] := start;
        to[i] := end;
        assert part >= plan.Parts() ==> end == plan.buckets && i == plan.taskCount - 1;
      }
      rounds := rounds + 1;
      DealtOut(first);
    }

    // The buckets done are still those outside of all ranges.
    lemma DealtOut(first: nat)
      requires plan.Valid() && from.Length == to.Length == plan.taskCount && part == first + plan.taskCount
      requires forall i :: 0 <= i < plan.taskCount ==> from[i] == plan.Start(first + i) && to[i] == plan.Start(first + i + 1)
      requires forall b :: b in done <==> 0 <= b < plan.Start(first)
      ensures forall i :: 0 <= i < plan.taskCount ==> Dealt(i)
      ensures forall b :: b in done <==> 0 <= b < plan.Start(part) && forall i :: 0 <= i < plan.taskCount ==> !(from[i] <= b < to[i])
    {
      hide Plan.Start;
      forall i | 0 <= i < plan.taskCount ensures Dealt(i) && plan.Start(first) <= from[i] {
        StartsGrow(plan, first + i, first + i + 1);
        StartsGrow(plan, first, first + i);
        assert part + i - plan.taskCount == first + i;
      }
      StartsGrow(plan, first, part);
      forall b ensures b in done <==> 0 <= b < plan.Start(part) && forall i :: 0 <= i < plan.taskCount ==> !(from[i] <= b < to[i]) {
        if plan.Start(first) <= b < plan.Start(part) {
          var i := Locate(plan, first, plan.taskCount, b);
          assert from[i] <= b < to[i];
        }
      }
    }

    // The part that the first task gets next, if all are finished.
    function NextPart(): nat
      reads `part
    {
      if part >= plan.Parts() then 0 else part
    }

    // One call of the scheduler: the next part for each task if the last ones are finished, then every task
    // runs until it is done or out of time.  A sweep ends only with all its buckets completed.
    method WriteTraces(budgets: seq<nat>)
      requires Settled() && |budgets| == plan.taskCount
      modifies this, from, to
      ensures Settled()
      ensures if old(lastRunFinished) && old(part) >= plan.Parts()
              then sweeps == old(sweeps) + [old(done)] && Exactly(old(done), plan.buckets)
              else sweeps == old(sweeps) && old(done) <= done
      ensures if old(lastRunFinished) then part == old(NextPart()) + plan.taskCount else part == old(part)
      ensures forall i :: 0 <= i < plan.taskCount ==>
                if old(lastRunFinished)
                then to[i] == plan.Start(old(NextPart()) + i + 1)
                     && from[i] == Reached(plan.Start(old(NextPart()) + i), to[i], budgets[i])
                else to[i] == old(to[i]) && from[i] == Reached(old(from[i]), to[i], budgets[i])
      ensures Enough(budgets) ==> lastRunFinished
      ensures lastRunFinished ==> Exactly(done, plan.Start(part))
    {
      hide Plan.Start, Plan.Parts, Exactly;
      if lastRunFinished {
        if part >= plan.Parts() {
          Reset();
          PartsPositive(plan.taskCount, plan.invocations);
          PartsAre(plan);
        }
        Deal();
      }
      RunTasks(budgets);
      lastRunFinished := Finished();
      AllDone();
    }

    // What is completed once all ranges are finished.
    lemma AllDone()
      requires Valid()
      ensures AllFinished() ==> Exactly(done, plan.Start(part))
    {
      hide Plan.Start, Plan.Parts;
    }

    // Time for every bucket.
    predicate Enough(budgets: seq<nat>) {
      forall i :: 0 <= i < |budgets| ==> budgets[i] >= plan.buckets
    }

    // The scheduler, called again and again from start-up with enough time: every call completes the next
    // round of parts, and each time as many calls as a sweep has rounds complete all buckets.
    method Upkeep(calls: seq<seq<nat>>)
      requires Settled() && lastRunFinished && part == 0 && rounds == 0 && sweeps == []
      requires forall k :: 0 <= k < |calls| ==> |calls[k]| == plan.taskCount && Enough(calls[k])
      modifies this, from, to
      ensures Settled() && lastRunFinished && Exactly(done, plan.Start(part))
      ensures part == rounds * plan.taskCount && rounds <= plan.invocations && (|calls| > 0 ==> rounds > 0)
      ensures |calls| == |sweeps| * plan.invocations + rounds
      ensures rounds == plan.invocations ==> Exactly(done, plan.buckets)
      ensures forall k :: 0 <= k < |sweeps| ==> Exactly(sweeps[k], plan.buckets)
    {
      hide Plan.Start, Plan.Parts, Exactly;
      AllDone();
      for n := 0 to |calls|
        invariant Settled() && lastRunFinished && Exactly(done, plan.Start(part)) && (n > 0 ==> rounds > 0)
        invariant n == |sweeps| * plan.invocations + rounds
      {
        ghost var k := |sweeps|;
        WholeRounds(plan, rounds);
        WholeRounds(plan, 0);
        ghost var before := rounds;
        WriteTraces(calls[n]);
        SameRounds(plan, rounds, if before == plan.invocations then 1 else before + 1);
        MoreSweeps(k, plan.invocations);
      }
      WholeRounds(plan, rounds);
      LastStart(plan);
    }

    method Finished() returns (finished: bool)
      requires from.Length == to.Length
      ensures finished <==> AllFinished()
    {
      finished := true;
      for i := 0 to from.Length
        invariant finished <==> forall k :: 0 <= k < i ==> from[k] == to[k]
      {
        if from[i] != to[i] {
          finished := false;
        }
      }
    }

    method RunTasks(budgets: seq<nat>)
      requires Valid() && |budgets| == plan.taskCount
      modifies from, `done
      ensures Valid() && old(done) <= done
      ensures forall i :: 0 <= i < plan.taskCount ==> from[i] == Reached(old(from[i]), to[i], budgets[i])
      ensures Enough(budgets) ==> AllFinished()
    {
      hide Plan.Start, Plan.Parts, Exactly;
      for i := 0 to plan.taskCount
        invariant Valid() && old(done) <= done
        invariant forall k :: 0 <= k < plan.taskCount ==> from[k] == if k < i then Reached(old(from[k]), to[k], budgets[k]) else old(from[k])
        invariant Enough(budgets) ==> forall k :: 0 <= k < i ==> from[k] == to[k]
      {
        WithinBuckets(i);
        TraceWriteTask(i, budgets[i]);
      }
    }

    lemma WithinBuckets(i: nat)
      requires Valid() && i < plan.taskCount
      ensures to[i] - from[i] <= plan.buckets
    {
      hide Plan.Start, Plan.Parts;
      assert Dealt(i);
      RoundFits(plan, rounds);
      LastStart(plan);
      if part > 0 {
        StartsGrow(plan, part + i + 1 - plan.taskCount, plan.Parts());
      }
    }
  }

  // How far a task gets in its range.
  function Reached(from: nat, to: nat, budget: nat): nat {
    if to - from <= budget then to else from + budget
  }

  lemma WholeRounds(p: Plan, rounds: nat)
    requires p.Valid() && rounds <= p.invocations
    ensures rounds * p.taskCount >= p.Parts() <==> rounds == p.invocations
    ensures rounds == p.invocations ==> rounds * p.taskCount == p.Parts()
    ensures 0 * p.taskCount == 0
    ensures (rounds + 1) * p.taskCount == rounds * p.taskCount + p.taskCount
  {
    RoundFits(p, rounds);
    Multiples(rounds, p.invocations, p.taskCount);
  }

  lemma SameRounds(p: Plan, a: nat, b: nat)
    requires p.Valid() && a * p.taskCount == b * p.taskCount
    ensures a == b
  {
    if a < b {
      Multiples(a, b, p.taskCount);
    } else if b < a {
      Multiples(b, a, p.taskCount);
    }
  }

  lemma MoreSweeps(k: nat, n: nat)
    ensures (k + 1) * n == k * n + n
  {
  }

  lemma PartsAre(p: Plan)
    ensures p.Parts() == p.taskCount * p.invocations
  {
  }

  // One more round of parts fits as long as any part is left.
  lemma RoundFits(p: Plan, rounds: nat)
    requires p.Valid() && rounds <= p.invocations
    ensures rounds * p.taskCount <= p.Parts()
    ensures rounds * p.taskCount < p.Parts() ==> rounds < p.invocations && rounds * p.taskCount + p.taskCount <= p.Parts()
    ensures (rounds + 1) * p.taskCount == rounds * p.taskCount + p.taskCount
  {
    Multiples(rounds, p.invocations, p.taskCount);
    assert p.Parts() == p.invocations * p.taskCount;
  }

  lemma Multiples(a: nat, b: nat, t: nat)
    requires a <= b
    ensures a * t <= b * t && (a + 1) * t == a * t + t && (a < b ==> a * t + t <= b * t)
  {
    assert b * t - a * t == (b - a) * t;
    if a < b {
      assert (b - a) * t == (b - a - 1) * t + t;
    }
  }

  // The range of part k, by the arithmetic used to deal it.
  lemma PartRange(p: Plan, k: nat)
    requires p.Valid() && k < p.Parts()
    ensures p.Start(k) + p.SectionLen() + (if k < p.Extra() then 1 else 0) == p.Start(k + 1) <= p.buckets
    ensures k + 1 == p.Parts() ==> p.Start(k + 1) == p.buckets
  {
    NextStart(p, k);
    LastStart(p);
    hide Plan.Start, Plan.Parts, Plan.SectionLen, Plan.Extra;
    StartsGrow(p, k + 1, p.Parts());
  }
}
