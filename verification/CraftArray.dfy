// The array of aircraft pointers shared by threads: any number of readers, or one thread that
// reallocates or sorts.  write_mutex is a semaphore, because the last reader releases it and need
// not be the one that took it.
module CraftArray {
  // Where a thread is.  The comments say what it does next.
  datatype Pc =
    | Idle
    | LockRead1 // lock read_mutex
    | LockRead2 // test whether it is the first reader
    | LockRead3 // lock write_mutex
    | LockRead4 // count itself
    | LockRead5 // unlock read_mutex
    | Reading
    | UnlockRead1 // lock read_mutex
    | UnlockRead2 // uncount itself
    | UnlockRead3 // unlock write_mutex if it was the last reader
    | UnlockRead4 // unlock read_mutex
    | Add1(a: nat) // lock change_mutex
    | Add2(a: nat) // test whether the array is full
    | Add3(a: nat) // lock write_mutex
    | Add4(a: nat) // reallocate if the array is still full
    | Add5(a: nat) // unlock write_mutex
    | Add6(a: nat) // append unless present
    | Remove1(a: nat) // lock change_mutex
    | Remove2(a: nat) // remove
    | Sort1 // lock change_mutex
    | Sort2 // lock write_mutex
    | Sort3 // sort
    | Sort4 // unlock write_mutex
    | Leave // unlock change_mutex

  datatype Owner = Nobody | Thread(t: nat)
  datatype Holder = Free | Writer(t: nat) | Readers

  // generation counts the reallocations and sorts.
  datatype State = State(threads: seq<Pc>, readMutex: Owner, changeMutex: Owner, writeMutex: Holder,
                         readerCount: int, list: seq<nat>, alloc: nat, generation: nat)

  // Removal as the loop does it: the last element takes the place of each match.
  function Removed(list: seq<nat>, a: nat, i: nat): seq<nat>
    decreases |list| - i
  {
    if i >= |list| then list
    else if list[i] == a then Removed(list[i := list[|list| - 1]][..|list| - 1], a, i)
    else Removed(list, a, i + 1)
  }

  // The result of a sort is a permutation.
  function Reordered(list: seq<nat>, sorted: seq<nat>): (r: seq<nat>)
    ensures multiset(r) == multiset(list)
  {
    if multiset(sorted) == multiset(list) then sorted else list
  }

  // Where a thread goes next.  An idle thread starts the operation wanted; a blocked one stays.
  function NextPc(s: State, pc: Pc, wanted: Pc): Pc {
    match pc
    case Idle => if Starts(wanted) then wanted else pc
    case LockRead1 => if s.readMutex == Nobody then LockRead2 else pc
    case LockRead2 => if s.readerCount == 0 then LockRead3 else LockRead4
    case LockRead3 => if s.writeMutex == Free then LockRead4 else pc
    case LockRead4 => LockRead5
    case LockRead5 => Reading
    case Reading => UnlockRead1
    case UnlockRead1 => if s.readMutex == Nobody then UnlockRead2 else pc
    case UnlockRead2 => UnlockRead3
    case UnlockRead3 => UnlockRead4
    case UnlockRead4 => Idle
    case Add1(a) => if s.changeMutex == Nobody then Add2(a) else pc
    case Add2(a) => if |s.list| == s.alloc then Add3(a) else Add6(a)
    case Add3(a) => if s.writeMutex == Free then Add4(a) else pc
    case Add4(a) => Add5(a)
    case Add5(a) => Add6(a)
    case Add6(a) => Leave
    case Remove1(a) => if s.changeMutex == Nobody then Remove2(a) else pc
    case Remove2(a) => Leave
    case Sort1 => if s.changeMutex == Nobody then Sort2 else pc
    case Sort2 => if s.writeMutex == Free then Sort3 else pc
    case Sort3 => Sort4
    case Sort4 => Leave
    case Leave => Idle
  }

  // One step of a thread; sorted is the order a sort produces.
  function Step(s: State, t: nat, wanted: Pc, sorted: seq<nat>): (n: State)
    requires t < |s.threads|
    ensures n.threads == s.threads[t := NextPc(s, s.threads[t], wanted)]
  {
    var n := s.(threads := s.threads[t := NextPc(s, s.threads[t], wanted)]);
    match s.threads[t]
    case LockRead1 => if s.readMutex == Nobody then n.(readMutex := Thread(t)) else n
    case LockRead3 => if s.writeMutex == Free then n.(writeMutex := Readers) else n
    case LockRead4 => n.(readerCount := s.readerCount + 1)
    case LockRead5 => n.(readMutex := Nobody)
    case UnlockRead1 => if s.readMutex == Nobody then n.(readMutex := Thread(t)) else n
    case UnlockRead2 => n.(readerCount := s.readerCount - 1)
    case UnlockRead3 => if s.readerCount == 0 then n.(writeMutex := Free) else n
    case UnlockRead4 => n.(readMutex := Nobody)
    case Add1(a) => if s.changeMutex == Nobody then n.(changeMutex := Thread(t)) else n
    case Add3(a) => if s.writeMutex == Free then n.(writeMutex := Writer(t)) else n
    case Add4(a) =>
      if |s.list| == s.alloc then n.(alloc := s.alloc * 2 + 16, generation := s.generation + 1) else n
    case Add5(a) => n.(writeMutex := Free)
    case Add6(a) => n.(list := if a in s.list then s.list else s.list + [a])
    case Remove1(a) => if s.changeMutex == Nobody then n.(changeMutex := Thread(t)) else n
    case Remove2(a) => n.(list := Removed(s.list, a, 0))
    case Sort1 => if s.changeMutex == Nobody then n.(changeMutex := Thread(t)) else n
    case Sort2 => if s.writeMutex == Free then n.(writeMutex := Writer(t)) else n
    case Sort3 => n.(list := Reordered(s.list, sorted), generation := s.generation + 1)
    case Sort4 => n.(writeMutex := Free)
    case Leave => n.(changeMutex := Nobody)
    case _ => n
  }

  predicate Starts(wanted: Pc) {
    wanted == LockRead1 || wanted.Add1? || wanted.Remove1? || wanted == Sort1
  }

  // ---------------------------------------------------------------- what every step keeps

  predicate HoldsRead(pc: Pc) {
    pc == LockRead2 || pc == LockRead3 || pc == LockRead4 || pc == LockRead5 || pc == UnlockRead2 || pc == UnlockRead3
    || pc == UnlockRead4
  }

  predicate HoldsChange(pc: Pc) {
    pc.Add2? || pc.Add3? || pc.Add4? || pc.Add5? || pc.Add6? || pc.Remove2? || pc == Sort2 || pc == Sort3 || pc == Sort4
    || pc == Leave
  }

  predicate HoldsWrite(pc: Pc) {
    pc.Add4? || pc.Add5? || pc == Sort3 || pc == Sort4
  }

  // Counted among the readers.
  predicate Counted(pc: Pc) {
    pc == LockRead5 || pc == Reading || pc == UnlockRead1 || pc == UnlockRead2
  }

  function CountedIn(threads: seq<Pc>): nat {
    if threads == [] then 0
    else CountedIn(threads[..|threads| - 1]) + (if Counted(threads[|threads| - 1]) then 1 else 0)
  }

  lemma {:induction false} CountStep(threads: seq<Pc>, t: nat, pc: Pc)
    requires t < |threads|
    ensures CountedIn(threads[t := pc])
         == CountedIn(threads) - (if Counted(threads[t]) then 1 else 0) + (if Counted(pc) then 1 else 0)
  {
    var n := |threads| - 1;
    if t < n {
      CountStep(threads[..n], t, pc);
      assert threads[t := pc][..n] == threads[..n][t := pc];
    } else {
      assert threads[t := pc][..n] == threads[..n];
    }
  }

  lemma {:induction false} SomeCounted(threads: seq<Pc>) returns (t: nat)
    requires CountedIn(threads) > 0
    ensures t < |threads| && Counted(threads[t])
  {
    var n := |threads| - 1;
    if Counted(threads[n]) {
      t := n;
    } else {
      t := SomeCounted(threads[..n]);
    }
  }

  lemma {:induction false} CountedAtLeast(threads: seq<Pc>, t: nat)
    requires t < |threads| && Counted(threads[t])
    ensures CountedIn(threads) > 0
  {
    if t < |threads| - 1 { CountedAtLeast(threads[..|threads| - 1], t); }
  }

  // The thread that holds read_mutex has taken or not yet released write_mutex for the readers.
  predicate BetweenReaders(s: State) {
    s.readMutex.Thread? && s.readMutex.t < |s.threads|
    && (s.threads[s.readMutex.t] == UnlockRead3 || (s.threads[s.readMutex.t] == LockRead4))
  }

  // A mutex is held by the thread whose place in the code says so.
  ghost predicate OwnedBy(threads: seq<Pc>, owner: Owner, holds: Pc -> bool) {
    && (forall t :: 0 <= t < |threads| ==> (holds(threads[t]) <==> owner == Thread(t)))
    && (owner.Thread? ==> owner.t < |threads|)
  }

  function WriterOf(h: Holder): Owner {
    if h.Writer? then Thread(h.t) else Nobody
  }

  ghost predicate Mutexes(s: State) {
    && OwnedBy(s.threads, s.readMutex, HoldsRead)
    && OwnedBy(s.threads, s.changeMutex, HoldsChange)
    && OwnedBy(s.threads, WriterOf(s.writeMutex), HoldsWrite)
  }

  // The readers hold the semaphore while there are any.
  ghost predicate ReadersHold(s: State) {
    && s.readerCount == CountedIn(s.threads)
    && (s.writeMutex == Readers <==> s.readerCount > 0 || BetweenReaders(s))
    && (forall t :: 0 <= t < |s.threads| && s.threads[t] == LockRead3 ==> s.readerCount == 0)
  }

  // Whoever appends has room.
  ghost predicate Room(s: State) {
    && |s.list| <= s.alloc
    && (forall t :: 0 <= t < |s.threads| && (s.threads[t].Add5? || s.threads[t].Add6?) ==> |s.list| < s.alloc)
  }

  ghost predicate Inv(s: State) {
    Mutexes(s) && ReadersHold(s) && Room(s)
  }

  lemma SwapRemoved(list: seq<nat>, i: nat)
    requires i < |list|
    ensures multiset(list) == multiset(list[i := list[|list| - 1]][..|list| - 1]) + multiset{list[i]}
  {
    var n := |list| - 1;
    assert list == list[..n] + [list[n]];
    if i < n {
      assert list == list[..i] + [list[i]] + list[i + 1..n] + [list[n]];
      assert list[i := list[n]][..n] == list[..i] + [list[n]] + list[i + 1..n];
    } else {
      assert list[i := list[n]][..n] == list[..n];
    }
  }

  // Removal takes out exactly the occurrences of one pointer.
  lemma {:induction false} RemovedOnly(list: seq<nat>, a: nat, i: nat)
    requires i <= |list| && a !in list[..i]
    ensures multiset(Removed(list, a, i)) == multiset(list)[a := 0] && |Removed(list, a, i)| <= |list|
    decreases |list| - i
  {
    if i >= |list| {
      assert list[..i] == list;
    } else if list[i] == a {
      SwapRemoved(list, i);
      var shorter := list[i := list[|list| - 1]][..|list| - 1];
      assert shorter[..i] == list[..i];
      RemovedOnly(shorter, a, i);
      assert multiset(list)[a := 0] == multiset(shorter)[a := 0];
    } else {
      assert list[..i + 1] == list[..i] + [list[i]];
      RemovedOnly(list, a, i + 1);
    }
  }

  // What a step of thread t does to a mutex.
  predicate Effect(owner: Owner, next: Owner, before: bool, after: bool, t: nat) {
    if before == after then next == owner
    else if after then owner == Nobody && next == Thread(t)
    else next == Nobody
  }

  predicate ReaderSide(pc: Pc) {
    HoldsRead(pc) || pc == LockRead1 || pc == UnlockRead1
  }

  lemma ReadEffect(s: State, t: nat, wanted: Pc, sorted: seq<nat>)
    requires t < |s.threads|
    ensures var n := Step(s, t, wanted, sorted);
            Effect(s.readMutex, n.readMutex, HoldsRead(s.threads[t]), HoldsRead(n.threads[t]), t)
  {
    if ReaderSide(s.threads[t]) {
      hide Removed, Reordered;
    } else {
      OtherPlace(s, s.threads[t], wanted);
      SameReadMutex(s, t, wanted, sorted);
      hide Step, NextPc, HoldsRead;
    }
  }

  lemma SameReadMutex(s: State, t: nat, wanted: Pc, sorted: seq<nat>)
    requires t < |s.threads| && !ReaderSide(s.threads[t])
    ensures Step(s, t, wanted, sorted).readMutex == s.readMutex
  {
    hide Removed, Reordered, NextPc;
  }

  lemma ChangeEffect(s: State, t: nat, wanted: Pc, sorted: seq<nat>)
    requires t < |s.threads|
    ensures var n := Step(s, t, wanted, sorted);
            Effect(s.changeMutex, n.changeMutex, HoldsChange(s.threads[t]), HoldsChange(n.threads[t]), t)
  {
    hide Removed, Reordered;
    match s.threads[t]
    case Idle =>
    case Add1(_) =>
    case Add2(_) =>
    case Add3(_) =>
    case Remove1(_) =>
    case Sort1 =>
    case Sort2 =>
    case Leave =>
    case _ =>
  }

  predicate TakesOrGives(pc: Pc) {
    pc.Add3? || pc.Add5? || pc == Sort2 || pc == Sort4 || pc == LockRead3 || pc == UnlockRead3
  }

  lemma WriteEffect(s: State, t: nat, wanted: Pc, sorted: seq<nat>)
    requires t < |s.threads| && (HoldsWrite(s.threads[t]) <==> s.writeMutex == Writer(t))
    requires s.threads[t] == UnlockRead3 && s.readerCount == 0 ==> !s.writeMutex.Writer?
    ensures var n := Step(s, t, wanted, sorted);
            Effect(WriterOf(s.writeMutex), WriterOf(n.writeMutex), HoldsWrite(s.threads[t]), HoldsWrite(n.threads[t]), t)
  {
    if TakesOrGives(s.threads[t]) {
      hide Removed, Reordered;
    } else {
      SamePlace(s, s.threads[t], wanted);
      SameWriter(s, t, wanted, sorted);
      hide Step, NextPc, HoldsWrite;
    }
  }

  lemma SamePlace(s: State, pc: Pc, wanted: Pc)
    requires !TakesOrGives(pc)
    ensures HoldsWrite(NextPc(s, pc, wanted)) <==> HoldsWrite(pc)
  {
  }

  lemma SameWriter(s: State, t: nat, wanted: Pc, sorted: seq<nat>)
    requires t < |s.threads| && !TakesOrGives(s.threads[t])
    ensures Step(s, t, wanted, sorted).writeMutex == s.writeMutex
  {
    hide Removed, Reordered, NextPc;
  }

  lemma OwnedAfter(threads: seq<Pc>, owner: Owner, next: Owner, holds: Pc -> bool, t: nat, pc: Pc)
    requires OwnedBy(threads, owner, holds) && t < |threads|
    requires Effect(owner, next, holds(threads[t]), holds(pc), t)
    ensures OwnedBy(threads[t := pc], next, holds)
  {
  }

  lemma MutexesKept(s: State, t: nat, wanted: Pc, sorted: seq<nat>)
    requires Mutexes(s) && ReadersHold(s) && t < |s.threads|
    ensures Mutexes(Step(s, t, wanted, sorted))
  {
    var n := Step(s, t, wanted, sorted);
    assert HoldsRead(s.threads[t]) <==> s.readMutex == Thread(t);
    assert HoldsWrite(s.threads[t]) <==> WriterOf(s.writeMutex) == Thread(t);
    ReadEffect(s, t, wanted, sorted);
    ChangeEffect(s, t, wanted, sorted);
    WriteEffect(s, t, wanted, sorted);
    hide Step, HoldsRead, HoldsChange, HoldsWrite, OwnedBy, Effect;
    OwnedAfter(s.threads, s.readMutex, n.readMutex, HoldsRead, t, n.threads[t]);
    OwnedAfter(s.threads, s.changeMutex, n.changeMutex, HoldsChange, t, n.threads[t]);
    OwnedAfter(s.threads, WriterOf(s.writeMutex), WriterOf(n.writeMutex), HoldsWrite, t, n.threads[t]);
  }

  lemma ReaderStepKeeps(s: State, t: nat, wanted: Pc, sorted: seq<nat>)
    requires Mutexes(s) && ReadersHold(s) && t < |s.threads| && ReaderSide(s.threads[t])
    ensures ReadersHold(Step(s, t, wanted, sorted))
  {
    var n := Step(s, t, wanted, sorted);
    assert HoldsRead(s.threads[t]) <==> s.readMutex == Thread(t);
    ReadEffect(s, t, wanted, sorted);
    CountStep(s.threads, t, n.threads[t]);
    hide Removed, Reordered, CountedIn;
    match s.threads[t]
    case LockRead1 =>
    case LockRead2 =>
    case LockRead3 =>
    case LockRead4 =>
    case LockRead5 =>
    case UnlockRead1 =>
    case UnlockRead2 =>
    case UnlockRead3 =>
    case UnlockRead4 =>
  }

  // The other steps leave the readers' side alone.
  lemma OtherStepKeeps(s: State, t: nat, wanted: Pc, sorted: seq<nat>)
    requires Mutexes(s) && ReadersHold(s) && t < |s.threads| && !ReaderSide(s.threads[t])
    ensures ReadersHold(Step(s, t, wanted, sorted))
  {
    var n := Step(s, t, wanted, sorted);
    assert s.readMutex != Thread(t) && (HoldsWrite(s.threads[t]) <==> WriterOf(s.writeMutex) == Thread(t));
    OtherStep(s, t, wanted, sorted);
    CountStep(s.threads, t, n.threads[t]);
    hide Step, CountedIn;
  }

  lemma OtherStep(s: State, t: nat, wanted: Pc, sorted: seq<nat>)
    requires t < |s.threads| && !ReaderSide(s.threads[t])
    requires HoldsWrite(s.threads[t]) ==> s.writeMutex == Writer(t)
    ensures var n := Step(s, t, wanted, sorted);
            && n.threads == s.threads[t := n.threads[t]] && n.readerCount == s.readerCount && n.readMutex == s.readMutex
            && (n.writeMutex == Readers <==> s.writeMutex == Readers) && n.threads[t] != LockRead3
            && (Counted(n.threads[t]) <==> Counted(s.threads[t]))
  {
    ReadEffect(s, t, wanted, sorted);
    OtherPlace(s, s.threads[t], wanted);
    hide Removed, Reordered, Counted, HoldsRead;
    match s.threads[t]
    case Add3(_) =>
    case Add5(_) =>
    case Sort2 =>
    case Sort4 =>
    case _ =>
  }

  lemma OtherPlace(s: State, pc: Pc, wanted: Pc)
    requires !ReaderSide(pc)
    ensures NextPc(s, pc, wanted) != LockRead3 && !HoldsRead(NextPc(s, pc, wanted)) && !HoldsRead(pc)
    ensures Counted(NextPc(s, pc, wanted)) <==> Counted(pc)
  {
  }

  // What a step does to the length of the list and to the allocation.
  lemma ListStep(s: State, t: nat, wanted: Pc, sorted: seq<nat>)
    requires t < |s.threads| && |s.list| <= s.alloc
    ensures var n, pc := Step(s, t, wanted, sorted), s.threads[t];
            && n.alloc >= s.alloc && |n.list| <= |s.list| + (if pc.Add6? then 1 else 0)
            && (pc.Add4? ==> |n.list| < n.alloc)
  {
    var pc := s.threads[t];
    if pc.Remove2? {
      RemovedOnly(s.list, pc.a, 0);
    } else if pc == Sort3 {
      var r := Reordered(s.list, sorted);
      assert |multiset(r)| == |r| && |multiset(s.list)| == |s.list|;
    }
    hide Removed, Reordered, NextPc;
  }

  lemma AppendsNext(s: State, pc: Pc, wanted: Pc)
    ensures var next := NextPc(s, pc, wanted);
            next.Add5? || next.Add6? ==> pc.Add4? || pc.Add5? || (pc.Add2? && |s.list| != s.alloc)
  {
  }

  lemma RoomKept(s: State, t: nat, wanted: Pc, sorted: seq<nat>)
    requires Mutexes(s) && Room(s) && t < |s.threads|
    ensures Room(Step(s, t, wanted, sorted))
  {
    hide Step, NextPc;
    ListStep(s, t, wanted, sorted);
    AppendsNext(s, s.threads[t], wanted);
    assert HoldsChange(s.threads[t]) <==> s.changeMutex == Thread(t);
  }

  // Every step of every thread keeps the invariant.
  lemma StepKeepsInv(s: State, t: nat, wanted: Pc, sorted: seq<nat>)
    requires Inv(s) && t < |s.threads|
    ensures Inv(Step(s, t, wanted, sorted))
  {
    hide Mutexes, ReadersHold, Room, Step;
    MutexesKept(s, t, wanted, sorted);
    if ReaderSide(s.threads[t]) {
      ReaderStepKeeps(s, t, wanted, sorted);
    } else {
      OtherStepKeeps(s, t, wanted, sorted);
    }
    RoomKept(s, t, wanted, sorted);
  }

  // ---------------------------------------------------------------- runs

  datatype Turn = Turn(t: nat, wanted: Pc, sorted: seq<nat>)

  // Any number of threads, taking turns in any order.
  function Run(s: State, turns: seq<Turn>): State {
    if turns == [] then s
    else
      var before, last := Run(s, turns[..|turns| - 1]), turns[|turns| - 1];
      if last.t < |before.threads| then Step(before, last.t, last.wanted, last.sorted) else before
  }

  function AtStart(n: nat): State {
    State(seq(n, _ => Idle), Nobody, Nobody, Free, 0, [], 0, 0)
  }

  lemma {:induction false} NobodyCounted(threads: seq<Pc>)
    requires forall t :: 0 <= t < |threads| ==> threads[t] == Idle
    ensures CountedIn(threads) == 0
  {
    if threads != [] { NobodyCounted(threads[..|threads| - 1]); }
  }

  lemma {:induction false} ReachableInv(n: nat, turns: seq<Turn>)
    ensures Inv(Run(AtStart(n), turns))
  {
    if turns == [] {
      NobodyCounted(AtStart(n).threads);
    } else {
      hide Inv, Step, AtStart;
      var before, last := Run(AtStart(n), turns[..|turns| - 1]), turns[|turns| - 1];
      ReachableInv(n, turns[..|turns| - 1]);
      if last.t < |before.threads| {
        StepKeepsInv(before, last.t, last.wanted, last.sorted);
      }
    }
  }

  // While a thread is between the end of ca_lock_read and the start of ca_unlock_read, no step of
  // any thread reallocates or sorts.
  lemma ReaderUndisturbed(s: State, u: nat, t: nat, wanted: Pc, sorted: seq<nat>)
    requires Inv(s) && u < |s.threads| && t < |s.threads| && s.threads[u] == Reading
    ensures Step(s, t, wanted, sorted).generation == s.generation && Step(s, t, wanted, sorted).alloc == s.alloc
  {
    CountedAtLeast(s.threads, u);
    assert HoldsWrite(s.threads[t]) <==> WriterOf(s.writeMutex) == Thread(t);
    OnlyWriters(s, t, wanted, sorted);
    hide Step, CountedIn;
  }

  lemma OnlyWriters(s: State, t: nat, wanted: Pc, sorted: seq<nat>)
    requires t < |s.threads| && !HoldsWrite(s.threads[t])
    ensures Step(s, t, wanted, sorted).generation == s.generation && Step(s, t, wanted, sorted).alloc == s.alloc
  {
    hide Removed, Reordered, NextPc;
  }

  // So a whole stay of a reader sees one allocation, in one order, from any reachable state on.
  lemma {:induction false} StayUndisturbed(s: State, turns: seq<Turn>, u: nat)
    requires Inv(s) && u < |s.threads|
    requires forall i :: 0 <= i <= |turns| ==> u < |Run(s, turns[..i]).threads| && Run(s, turns[..i]).threads[u] == Reading
    ensures Inv(Run(s, turns)) && Run(s, turns).generation == s.generation && Run(s, turns).alloc == s.alloc
  {
    if turns != [] {
      hide Inv, Step;
      var n := |turns| - 1;
      assert forall i :: 0 <= i <= n ==> turns[..n][..i] == turns[..i];
      StayUndisturbed(s, turns[..n], u);
      var before, last := Run(s, turns[..n]), turns[n];
      if last.t < |before.threads| {
        StepKeepsInv(before, last.t, last.wanted, last.sorted);
        ReaderUndisturbed(before, u, last.t, last.wanted, last.sorted);
      }
    }
  }

  // The counter is the number of threads counted, over every run.
  lemma CounterIsReaders(n: nat, turns: seq<Turn>)
    ensures Run(AtStart(n), turns).readerCount == CountedIn(Run(AtStart(n), turns).threads)
  {
    ReachableInv(n, turns);
    hide Run, AtStart, CountedIn;
  }

  // ---------------------------------------------------------------- no deadlock

  predicate Blocked(s: State, t: nat)
    requires t < |s.threads|
  {
    match s.threads[t]
    case LockRead1 => s.readMutex != Nobody
    case LockRead3 => s.writeMutex != Free
    case UnlockRead1 => s.readMutex != Nobody
    case Add1(_) => s.changeMutex != Nobody
    case Add3(_) => s.writeMutex != Free
    case Remove1(_) => s.changeMutex != Nobody
    case Sort1 => s.changeMutex != Nobody
    case Sort2 => s.writeMutex != Free
    case _ => false
  }

  // A step of a thread that is neither idle nor blocked takes it further.
  lemma UnblockedMoves(s: State, t: nat, wanted: Pc, sorted: seq<nat>)
    requires t < |s.threads| && s.threads[t] != Idle && !Blocked(s, t)
    ensures Step(s, t, wanted, sorted).threads[t] != s.threads[t]
  {
    hide Removed, Reordered;
  }

  // If any thread is in the middle of an operation, some such thread can go on.
  lemma NoDeadlock(s: State, t: nat) returns (u: nat)
    requires Inv(s) && t < |s.threads| && s.threads[t] != Idle
    ensures u < |s.threads| && s.threads[u] != Idle && !Blocked(s, u)
  {
    hide CountedIn, Room, Blocked, Mutexes;
    Owners(s);
    if s.writeMutex.Writer? {
      u := s.writeMutex.t;
      WriterMoves(s, u);
    } else if s.readMutex.Thread? {
      u := s.readMutex.t;
      ReadOwnerMoves(s, u);
    } else if s.readerCount > 0 {
      u := SomeCounted(s.threads);
      CountedMoves(s, u);
    } else if s.changeMutex.Thread? {
      u := s.changeMutex.t;
      ChangeOwnerMoves(s, u);
    } else {
      u := t;
      AloneMoves(s, u);
    }
  }

  lemma Owners(s: State)
    requires Mutexes(s)
    ensures s.writeMutex.Writer? ==> s.writeMutex.t < |s.threads| && HoldsWrite(s.threads[s.writeMutex.t])
    ensures s.readMutex.Thread? ==> s.readMutex.t < |s.threads| && HoldsRead(s.threads[s.readMutex.t])
    ensures s.changeMutex.Thread? ==> s.changeMutex.t < |s.threads| && HoldsChange(s.threads[s.changeMutex.t])
  {
  }

  lemma ReadOwnerMoves(s: State, u: nat)
    requires u < |s.threads| && HoldsRead(s.threads[u]) && s.readMutex == Thread(u) && ReadersHold(s) && !s.writeMutex.Writer?
    ensures s.threads[u] != Idle && !Blocked(s, u)
  {
    hide CountedIn;
  }

  lemma ChangeOwnerMoves(s: State, u: nat)
    requires u < |s.threads| && HoldsChange(s.threads[u]) && s.readMutex == Nobody
    requires ReadersHold(s) && s.readerCount <= 0 && !s.writeMutex.Writer?
    ensures s.threads[u] != Idle && !Blocked(s, u)
  {
    hide CountedIn;
  }

  lemma AloneMoves(s: State, u: nat)
    requires u < |s.threads| && s.threads[u] != Idle && s.readMutex == Nobody && s.changeMutex == Nobody
    requires ReadersHold(s) && s.readerCount <= 0 && !s.writeMutex.Writer?
    ensures !Blocked(s, u)
  {
    hide CountedIn;
  }

  lemma WriterMoves(s: State, u: nat)
    requires u < |s.threads| && HoldsWrite(s.threads[u])
    ensures s.threads[u] != Idle && !Blocked(s, u)
  {
  }

  lemma CountedMoves(s: State, u: nat)
    requires u < |s.threads| && Counted(s.threads[u]) && s.readMutex == Nobody
    ensures s.threads[u] != Idle && !Blocked(s, u)
  {
  }
}
