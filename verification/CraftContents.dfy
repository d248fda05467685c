// What the shared array holds: over every run, and after an operation that runs alone.
module CraftContents {
  import opened CraftArray

  ghost predicate NoDuplicates(list: seq<nat>) {
    forall i, j :: 0 <= i < j < |list| ==> list[i] != list[j]
  }

  // ---------------------------------------------------------------- every step

  lemma {:induction false} CountedOnce(list: seq<nat>)
    ensures NoDuplicates(list) <==> forall x :: multiset(list)[x] <= 1
  {
    if list != [] {
      var n := |list| - 1;
      CountedOnce(list[..n]);
      assert list == list[..n] + [list[n]];
      assert multiset(list) == multiset(list[..n]) + multiset{list[n]};
      assert forall x :: multiset(list)[x] == multiset(list[..n])[x] + if x == list[n] then 1 else 0;
      assert forall x :: x in list[..n] <==> x in multiset(list[..n]);
      assert NoDuplicates(list) <==> NoDuplicates(list[..n]) && list[n] !in list[..n];
      if forall x :: multiset(list)[x] <= 1 {
        assert forall x :: multiset(list[..n])[x] <= multiset(list)[x];
        assert multiset(list)[list[n]] <= 1;
      }
    }
  }

  lemma SameMultiset(list: seq<nat>, other: seq<nat>)
    requires multiset(list) == multiset(other)
    ensures NoDuplicates(list) <==> NoDuplicates(other)
    ensures forall x :: x in list <==> x in other
  {
    CountedOnce(list);
    CountedOnce(other);
    assert forall x :: x in list <==> x in multiset(list);
    assert forall x :: x in other <==> x in multiset(other);
  }

  lemma RemovedHolds(list: seq<nat>, a: nat)
    ensures var r := Removed(list, a, 0); (forall x :: x in r <==> x in list && x != a) && (NoDuplicates(list) ==> NoDuplicates(r))
  {
    var r := Removed(list, a, 0);
    RemovedOnly(list, a, 0);
    CountedOnce(list);
    CountedOnce(r);
    assert forall x :: x in r <==> x in multiset(r);
    assert forall x :: x in list <==> x in multiset(list);
  }

  // Appending is the only step that takes a pointer in, and takes in only its own; removal is the only one
  // that takes one out, and takes out only its own.
  lemma StepHolds(s: State, t: nat, wanted: Pc, sorted: seq<nat>)
    requires t < |s.threads|
    ensures var n, pc := Step(s, t, wanted, sorted), s.threads[t];
            && (forall x :: x in n.list <==> (x in s.list && pc != Remove2(x)) || pc == Add6(x))
            && (NoDuplicates(s.list) ==> NoDuplicates(n.list))
            && (!pc.Add6? && !pc.Remove2? && !pc.Sort3? ==> n.list == s.list)
  {
    hide NextPc, Removed, Reordered;
    match s.threads[t]
    case Remove2(a) => RemovedHolds(s.list, a);
    case Sort3 => SameMultiset(s.list, Reordered(s.list, sorted));
    case _ =>
  }

  // ---------------------------------------------------------------- every run

  // What turn k does: the place of its thread before it.
  function Does(s: State, turns: seq<Turn>, k: nat): Pc
    requires k < |turns|
  {
    var before := Run(s, turns[..k]);
    if turns[k].t < |before.threads| then before.threads[turns[k].t] else Idle
  }

  ghost predicate Added(s: State, turns: seq<Turn>, x: nat, i: nat)
    requires i < |turns|
  {
    Does(s, turns, i) == Add6(x)
  }

  // x was appended and has not been removed since.
  ghost predicate Present(s: State, turns: seq<Turn>, x: nat) {
    exists i: nat :: i < |turns| && Added(s, turns, x, i) && forall j :: i < j < |turns| ==> Does(s, turns, j) != Remove2(x)
  }

  lemma EarlierTurn(s: State, turns: seq<Turn>, n: nat, k: nat)
    requires k < n <= |turns|
    ensures Does(s, turns[..n], k) == Does(s, turns, k)
  {
    assert turns[..n][..k] == turns[..k];
  }

  lemma PresentSnoc(s: State, turns: seq<Turn>, n: nat, x: nat)
    requires |turns| == n + 1
    ensures Present(s, turns, x)
            <==> (Present(s, turns[..n], x) && Does(s, turns, n) != Remove2(x)) || Does(s, turns, n) == Add6(x)
  {
    hide Does;
    forall k: nat | k < n ensures Does(s, turns[..n], k) == Does(s, turns, k) {
      EarlierTurn(s, turns, n, k);
    }
    if Present(s, turns[..n], x) && Does(s, turns, n) != Remove2(x) {
      var i: nat :| i < n && Added(s, turns[..n], x, i) && forall j :: i < j < n ==> Does(s, turns[..n], j) != Remove2(x);
      assert Added(s, turns, x, i);
    }
    if Does(s, turns, n) == Add6(x) {
      assert Added(s, turns, x, n);
    }
    if Present(s, turns, x) {
      var i: nat :| i < |turns| && Added(s, turns, x, i) && forall j :: i < j < |turns| ==> Does(s, turns, j) != Remove2(x);
      if i < n {
        assert Added(s, turns[..n], x, i);
        assert Does(s, turns, n) != Remove2(x);
      }
    }
  }

  // In every reachable state no pointer is in the array twice, and those in it are those that were appended
  // and have not been removed since.
  lemma {:induction false} ListIsPresent(threads: nat, turns: seq<Turn>, x: nat)
    ensures x in Run(AtStart(threads), turns).list <==> Present(AtStart(threads), turns, x)
    ensures NoDuplicates(Run(AtStart(threads), turns).list)
  {
    hide Present, Step, AtStart;
    var s := AtStart(threads);
    if turns == [] {
      NothingYet(threads, x);
    } else {
      var n := |turns| - 1;
      var before, last := Run(s, turns[..n]), turns[n];
      ListIsPresent(threads, turns[..n], x);
      PresentSnoc(s, turns, n, x);
      if last.t < |before.threads| {
        StepHolds(before, last.t, last.wanted, last.sorted);
      }
    }
  }

  lemma NothingYet(threads: nat, x: nat)
    ensures AtStart(threads).list == [] && !Present(AtStart(threads), [], x)
  {
  }

  // ---------------------------------------------------------------- operations that run alone

  // Between operations.
  ghost predicate Quiet(s: State) {
    Inv(s) && forall t :: 0 <= t < |s.threads| ==> s.threads[t] == Idle
  }

  // Thread t alone, for k turns.
  function Alone(s: State, t: nat, wanted: Pc, sorted: seq<nat>, k: nat): (n: State)
    requires t < |s.threads|
    ensures t < |n.threads|
  {
    if k == 0 then s else Step(Alone(s, t, wanted, sorted, k - 1), t, wanted, sorted)
  }

  lemma {:induction false} AloneKeepsInv(s: State, t: nat, wanted: Pc, sorted: seq<nat>, k: nat)
    requires Inv(s) && t < |s.threads|
    ensures var n := Alone(s, t, wanted, sorted, k); Inv(n) && n.threads == s.threads[t := n.threads[t]]
  {
    hide Inv, Step;
    if k > 0 {
      AloneKeepsInv(s, t, wanted, sorted, k - 1);
      StepKeepsInv(Alone(s, t, wanted, sorted, k - 1), t, wanted, sorted);
    }
  }

  // The mutexes while all other threads are idle.
  lemma Placed(s: State, t: nat, wanted: Pc, sorted: seq<nat>, k: nat)
    requires Quiet(s) && t < |s.threads|
    ensures var n := Alone(s, t, wanted, sorted, k);
            var pc := n.threads[t];
            && (n.readMutex == if HoldsRead(pc) then Thread(t) else Nobody)
            && (n.changeMutex == if HoldsChange(pc) then Thread(t) else Nobody)
            && (n.writeMutex == if HoldsWrite(pc) then Writer(t) else if Reads(pc) then Readers else Free)
            && n.readerCount == if Counted(pc) then 1 else 0
  {
    hide Alone, CountedIn, HoldsRead, HoldsChange, HoldsWrite, Counted;
    var n := Alone(s, t, wanted, sorted, k);
    AloneKeepsInv(s, t, wanted, sorted, k);
    NobodyCounted(s.threads);
    CountStep(s.threads, t, n.threads[t]);
    IdlePlace();
    OwnerOf(s.threads, n.readMutex, HoldsRead, t, n.threads[t]);
    OwnerOf(s.threads, n.changeMutex, HoldsChange, t, n.threads[t]);
    OwnerOf(s.threads, WriterOf(n.writeMutex), HoldsWrite, t, n.threads[t]);
    ReadPlaces(n.threads[t]);
  }

  predicate Reads(pc: Pc) {
    Counted(pc) || pc == LockRead4 || pc == UnlockRead3
  }

  lemma IdlePlace()
    ensures !HoldsRead(Idle) && !HoldsChange(Idle) && !HoldsWrite(Idle) && !Counted(Idle)
  {
  }

  lemma ReadPlaces(pc: Pc)
    ensures pc == LockRead4 || pc == UnlockRead3 ==> HoldsRead(pc) && !Counted(pc)
    ensures HoldsWrite(pc) ==> !Reads(pc)
  {
  }

  lemma OwnerOf(idle: seq<Pc>, owner: Owner, holds: Pc -> bool, t: nat, pc: Pc)
    requires t < |idle| && !holds(Idle) && forall u :: 0 <= u < |idle| ==> idle[u] == Idle
    requires OwnedBy(idle[t := pc], owner, holds)
    ensures owner == if holds(pc) then Thread(t) else Nobody
  {
    var threads := idle[t := pc];
    assert threads[t] == pc;
    assert owner.Thread? ==> holds(threads[owner.t]);
  }

  // What the turn after k turns does.
  lemma Turned(s: State, t: nat, wanted: Pc, sorted: seq<nat>, k: nat, pc: Pc)
    requires t < |s.threads| && Alone(s, t, wanted, sorted, k).threads[t] == pc
    ensures var n, m := Alone(s, t, wanted, sorted, k), Alone(s, t, wanted, sorted, k + 1);
            && m.threads[t] == NextPc(n, pc, wanted) && (!pc.Add4? ==> m.alloc == n.alloc)
            && m.list == match pc
                         case Add6(a) => if a in n.list then n.list else n.list + [a]
                         case Remove2(a) => Removed(n.list, a, 0)
                         case Sort3 => Reordered(n.list, sorted)
                         case _ => n.list
  {
    hide Removed, Reordered, NextPc;
  }

  // Back at the start with the mutexes free.
  lemma Done(s: State, t: nat, wanted: Pc, sorted: seq<nat>, k: nat)
    requires Quiet(s) && t < |s.threads| && Alone(s, t, wanted, sorted, k).threads[t] == Idle
    ensures Quiet(Alone(s, t, wanted, sorted, k))
  {
    hide Inv, Alone;
    AloneKeepsInv(s, t, wanted, sorted, k);
  }

  lemma NoTurns(s: State, t: nat, wanted: Pc, sorted: seq<nat>)
    requires t < |s.threads| && Quiet(s)
    ensures Alone(s, t, wanted, sorted, 0) == s && s.threads[t] == Idle
  {
    hide Inv;
  }

  // A removal gets through and takes the pointer out.
  lemma RemoveAlone(s: State, t: nat, a: nat, sorted: seq<nat>)
    requires Quiet(s) && t < |s.threads|
    ensures var n := Alone(s, t, Remove1(a), sorted, 4);
            Quiet(n) && n.list == Removed(s.list, a, 0) && n.alloc == s.alloc
  {
    hide Inv, Alone, Removed, Reordered, Step, Quiet;
    NoTurns(s, t, Remove1(a), sorted);
    Turned(s, t, Remove1(a), sorted, 0, Idle);
    Placed(s, t, Remove1(a), sorted, 1);
    Turned(s, t, Remove1(a), sorted, 1, Remove1(a));
    Turned(s, t, Remove1(a), sorted, 2, Remove2(a));
    Turned(s, t, Remove1(a), sorted, 3, Leave);
    Done(s, t, Remove1(a), sorted, 4);
  }

  // With room an addition gets through and appends the pointer, unless it is there already.
  lemma AddAlone(s: State, t: nat, a: nat, sorted: seq<nat>)
    requires Quiet(s) && t < |s.threads| && |s.list| != s.alloc
    ensures var n := Alone(s, t, Add1(a), sorted, 5);
            Quiet(n) && n.list == (if a in s.list then s.list else s.list + [a]) && n.alloc == s.alloc
  {
    hide Inv, Alone, Removed, Reordered, Step, Quiet;
    NoTurns(s, t, Add1(a), sorted);
    Turned(s, t, Add1(a), sorted, 0, Idle);
    Placed(s, t, Add1(a), sorted, 1);
    Turned(s, t, Add1(a), sorted, 1, Add1(a));
    Turned(s, t, Add1(a), sorted, 2, Add2(a));
    Turned(s, t, Add1(a), sorted, 3, Add6(a));
    Turned(s, t, Add1(a), sorted, 4, Leave);
    Done(s, t, Add1(a), sorted, 5);
  }

  // So does one to a full array, which is reallocated first.
  lemma AddToFull(s: State, t: nat, a: nat, sorted: seq<nat>)
    requires Quiet(s) && t < |s.threads| && |s.list| == s.alloc
    ensures var n := Alone(s, t, Add1(a), sorted, 8);
            Quiet(n) && n.list == if a in s.list then s.list else s.list + [a]
  {
    hide Inv, Alone, Removed, Reordered, Step, Quiet;
    LockToGrow(s, t, a, sorted);
    Turned(s, t, Add1(a), sorted, 4, Add4(a));
    Turned(s, t, Add1(a), sorted, 5, Add5(a));
    Turned(s, t, Add1(a), sorted, 6, Add6(a));
    Turned(s, t, Add1(a), sorted, 7, Leave);
    Done(s, t, Add1(a), sorted, 8);
  }

  lemma LockToGrow(s: State, t: nat, a: nat, sorted: seq<nat>)
    requires Quiet(s) && t < |s.threads| && |s.list| == s.alloc
    ensures var n := Alone(s, t, Add1(a), sorted, 4);
            n.threads[t] == Add4(a) && n.list == s.list && n.alloc == s.alloc
  {
    hide Inv, Alone, Removed, Reordered, Step, Quiet;
    NoTurns(s, t, Add1(a), sorted);
    Turned(s, t, Add1(a), sorted, 0, Idle);
    Placed(s, t, Add1(a), sorted, 1);
    Turned(s, t, Add1(a), sorted, 1, Add1(a));
    Turned(s, t, Add1(a), sorted, 2, Add2(a));
    Placed(s, t, Add1(a), sorted, 3);
    Turned(s, t, Add1(a), sorted, 3, Add3(a));
  }

  // A sort gets through and brings the array into its order.
  lemma SortAlone(s: State, t: nat, sorted: seq<nat>)
    requires Quiet(s) && t < |s.threads|
    ensures var n := Alone(s, t, Sort1, sorted, 6);
            Quiet(n) && n.list == Reordered(s.list, sorted) && n.alloc == s.alloc
  {
    hide Inv, Alone, Removed, Reordered, Step, Quiet;
    LockToSort(s, t, sorted);
    Turned(s, t, Sort1, sorted, 3, Sort3);
    Turned(s, t, Sort1, sorted, 4, Sort4);
    Turned(s, t, Sort1, sorted, 5, Leave);
    Done(s, t, Sort1, sorted, 6);
  }

  lemma LockToSort(s: State, t: nat, sorted: seq<nat>)
    requires Quiet(s) && t < |s.threads|
    ensures var n := Alone(s, t, Sort1, sorted, 3);
            n.threads[t] == Sort3 && n.list == s.list && n.alloc == s.alloc
  {
    hide Inv, Alone, Removed, Reordered, Step, Quiet;
    NoTurns(s, t, Sort1, sorted);
    Turned(s, t, Sort1, sorted, 0, Idle);
    Placed(s, t, Sort1, sorted, 1);
    Turned(s, t, Sort1, sorted, 1, Sort1);
    Placed(s, t, Sort1, sorted, 2);
    Turned(s, t, Sort1, sorted, 2, Sort2);
  }

  // A reader gets in,
  lemma LockAlone(s: State, t: nat, sorted: seq<nat>)
    requires Quiet(s) && t < |s.threads|
    ensures var n := Alone(s, t, LockRead1, sorted, 6);
            n.threads[t] == Reading && n.list == s.list && n.alloc == s.alloc
  {
    hide Inv, Alone, Removed, Reordered, Step, Quiet;
    FirstReader(s, t, sorted);
    Placed(s, t, LockRead1, sorted, 3);
    Turned(s, t, LockRead1, sorted, 3, LockRead3);
    Turned(s, t, LockRead1, sorted, 4, LockRead4);
    Turned(s, t, LockRead1, sorted, 5, LockRead5);
  }

  lemma FirstReader(s: State, t: nat, sorted: seq<nat>)
    requires Quiet(s) && t < |s.threads|
    ensures var n := Alone(s, t, LockRead1, sorted, 3);
            n.threads[t] == LockRead3 && n.list == s.list && n.alloc == s.alloc
  {
    hide Inv, Alone, Removed, Reordered, Step, Quiet;
    NoTurns(s, t, LockRead1, sorted);
    Turned(s, t, LockRead1, sorted, 0, Idle);
    Placed(s, t, LockRead1, sorted, 1);
    Turned(s, t, LockRead1, sorted, 1, LockRead1);
    Placed(s, t, LockRead1, sorted, 2);
    Turned(s, t, LockRead1, sorted, 2, LockRead2);
  }

  // and out, and changes nothing.
  lemma ReadAlone(s: State, t: nat, sorted: seq<nat>)
    requires Quiet(s) && t < |s.threads|
    ensures var n := Alone(s, t, LockRead1, sorted, 11);
            Quiet(n) && n.list == s.list && n.alloc == s.alloc
  {
    hide Inv, Alone, Removed, Reordered, Step, Quiet;
    LockAlone(s, t, sorted);
    Turned(s, t, LockRead1, sorted, 6, Reading);
    Placed(s, t, LockRead1, sorted, 7);
    Turned(s, t, LockRead1, sorted, 7, UnlockRead1);
    Turned(s, t, LockRead1, sorted, 8, UnlockRead2);
    Turned(s, t, LockRead1, sorted, 9, UnlockRead3);
    Turned(s, t, LockRead1, sorted, 10, UnlockRead4);
    Done(s, t, LockRead1, sorted, 11);
  }
}
