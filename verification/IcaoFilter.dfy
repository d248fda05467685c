// The filter of recently seen addresses: two probed tables, swapped to age out entries.
module IcaoFilter {
  import opened Bits
  import opened ProbedTable

  const MINBITS: nat := 8
  const MAXBITS: nat := 20

  // ---------------------------------------------------------------- what the filter stands for

  // The addresses added since the last expiry, those added in the epoch before it, and the table size.
  datatype Epochs = Epochs(current: set<uint32>, previous: set<uint32>, bits: nat) {
    predicate Known(x: uint32) {
      x in current || x in previous
    }

    // At most a third of the buckets are used, except at the largest size.
    predicate WellSized() {
      MINBITS <= bits <= MAXBITS && (|current| <= Pow2(bits) / 3 || (bits == MAXBITS && |current| <= Pow2(bits)))
    }

    // An address is dropped only if a table of the largest size is full of others.
    predicate Drops(x: uint32) {
      x !in current && |current| == Pow2(bits)
    }

    predicate Grows(x: uint32) {
      x !in current && |current| >= Pow2(bits) / 3 && bits < MAXBITS
    }

    // Growing keeps the current epoch and forgets the previous one.
    function Add(x: uint32): Epochs {
      if Grows(x) then Epochs(current + {x}, {}, bits + 1)
      else if Drops(x) then this
      else this.(current := current + {x})
    }

    predicate Shrinks() {
      |current| < Pow2(bits) / 9 && bits > MINBITS
    }

    function Expire(): Epochs {
      Epochs({}, current, if Shrinks() then bits - 1 else bits)
    }
  }

  lemma BucketCount(bits: nat)
    ensures Pow2(bits + 1) == 2 * Pow2(bits)
    ensures bits >= MINBITS ==> Pow2(bits) >= 256
  {
    if bits >= MINBITS { assert Pow2(8) == 256; PowGrows(8, bits); }
  }

  lemma {:induction false} PowGrows(a: nat, b: nat)
    requires a <= b
    ensures Pow2(a) <= Pow2(b)
  {
    if a < b { PowGrows(a, b - 1); }
  }

  lemma AddSized(e: Epochs, x: uint32)
    requires e.WellSized()
    ensures e.Add(x).WellSized()
    ensures e.Grows(x) ==> |e.current + {x}| <= Pow2(e.bits + 1) / 3
  {
    BucketCount(e.bits);
    hide Pow2;
    assert |e.current + {x}| <= |e.current| + 1;
  }

  lemma ExpireSized(e: Epochs)
    requires e.WellSized()
    ensures e.Expire().WellSized()
    ensures e.Shrinks() ==> |e.current| <= Pow2(e.bits - 1) / 3
  {
    if e.Shrinks() { BucketCount(e.bits - 1); }
  }

  // ---------------------------------------------------------------- how long an address stays known

  datatype Operation = Add(addr: uint32) | Expire

  function Step(e: Epochs, op: Operation): Epochs {
    match op
    case Add(x) => e.Add(x)
    case Expire => e.Expire()
  }

  function Run(e: Epochs, ops: seq<Operation>): Epochs
  {
    if ops == [] then e else Step(Run(e, ops[..|ops| - 1]), ops[|ops| - 1])
  }

  // Some addition of the run enlarges the tables.
  predicate GrowsIn(e: Epochs, ops: seq<Operation>) {
    ops != [] &&
    (GrowsIn(e, ops[..|ops| - 1])
     || (ops[|ops| - 1].Add? && Run(e, ops[..|ops| - 1]).Grows(ops[|ops| - 1].addr)))
  }

  lemma {:induction false} RunSized(e: Epochs, ops: seq<Operation>)
    requires e.WellSized()
    ensures Run(e, ops).WellSized()
  {
    if ops != [] {
      var before := Run(e, ops[..|ops| - 1]);
      RunSized(e, ops[..|ops| - 1]);
      hide Epochs.WellSized;
      match ops[|ops| - 1]
      case Add(x) => AddSized(before, x);
      case Expire => ExpireSized(before);
    }
  }

  // Additions keep the current epoch, and keep the previous one unless the tables grow.
  lemma {:induction false} AdditionsKeep(e: Epochs, ops: seq<Operation>)
    requires Expire !in ops
    ensures e.current <= Run(e, ops).current
    ensures Run(e, ops).previous == if GrowsIn(e, ops) then {} else e.previous
  {
    if ops != [] {
      hide Epochs.Add, Epochs.Grows, Epochs.Expire;
      var n := |ops| - 1;
      assert ops[n] in ops;
      AdditionsKeep(e, ops[..n]);
      AdditionKeeps(Run(e, ops[..n]), ops[n].addr);
    }
  }

  // Only the addresses added enter the current epoch.
  lemma {:induction false} OnlyAdded(e: Epochs, ops: seq<Operation>, x: uint32)
    requires x !in e.current && Operation.Add(x) !in ops
    ensures x !in Run(e, ops).current
  {
    if ops != [] {
      hide Step, Pow2;
      var most, last := ops[..|ops| - 1], ops[|ops| - 1];
      assert last in ops && forall op :: op in most ==> op in ops;
      OnlyAdded(e, most, x);
      StepKeepsOut(Run(e, most), last, x);
    }
  }

  lemma StepKeepsOut(e: Epochs, op: Operation, x: uint32)
    requires x !in e.current && op != Operation.Add(x)
    ensures x !in Step(e, op).current
  {
  }

  lemma RunSnoc(e: Epochs, ops: seq<Operation>, op: Operation)
    ensures Run(e, ops + [op]) == match op case Add(x) => Run(e, ops).Add(x) case Expire => Run(e, ops).Expire()
  {
    assert (ops + [op])[..|ops|] == ops;
  }

  lemma AdditionKeeps(e: Epochs, x: uint32)
    ensures e.current <= e.Add(x).current <= e.current + {x}
    ensures e.Add(x).previous == if e.Grows(x) then {} else e.previous
  {
  }

  lemma {:induction false} RunSplits(e: Epochs, p: seq<Operation>, q: seq<Operation>)
    ensures Run(e, p + q) == Run(Run(e, p), q)
  {
    if q == [] {
      assert p + q == p;
    } else {
      hide *;
      var most, last := q[..|q| - 1], q[|q| - 1];
      RunSplits(e, p, most);
      SnocAfter(p, most, last);
      RunSnoc(e, p + most, last);
      RunSnoc(Run(e, p), most, last);
      assert q == most + [last];
    }
  }

  lemma SnocAfter<T>(p: seq<T>, q: seq<T>, x: T)
    ensures p + (q + [x]) == (p + q) + [x]
  {
  }

  // An address in the current epoch survives one expiry exactly as long as the tables do not grow
  // afterwards, and a second expiry forgets it, unless it is added again.
  lemma AddressLifetime(e: Epochs, p: seq<Operation>, q: seq<Operation>, r: seq<Operation>, x: uint32)
    requires x in e.current && Expire !in p && Expire !in q && Expire !in r
    requires Operation.Add(x) !in q && Operation.Add(x) !in r
    ensures Run(e, p).Known(x)
    ensures Run(e, p + [Expire] + q).Known(x) <==> !GrowsIn(Run(e, p + [Expire]), q)
    ensures !Run(e, p + [Expire] + q + [Expire] + r).Known(x)
  {
    hide Run, GrowsIn;
    AdditionsKeep(e, p);
    ExpireAndAdd(e, p, q);
    ExpireAndAdd(e, p + [Expire] + q, r);
    OnlyAdded(Run(e, p).Expire(), q, x);
    OnlyAdded(Run(e, p + [Expire] + q).Expire(), r, x);
  }

  lemma ExpireMoves(e: Epochs)
    ensures e.Expire().current == {} && e.Expire().previous == e.current
  {
  }

  lemma ExpireAndAdd(e: Epochs, p: seq<Operation>, q: seq<Operation>)
    requires Expire !in q
    ensures Run(e, p + [Expire]) == Run(e, p).Expire()
    ensures var f, g := Run(e, p).Expire(), Run(e, p + [Expire] + q);
            && g == Run(f, q)
            && f.current == {}
            && g.previous == if GrowsIn(Run(e, p + [Expire]), q) then {} else Run(e, p).current
  {
    hide *;
    RunSnoc(e, p, Expire);
    ExpireMoves(Run(e, p));
    AdditionsKeep(Run(e, p).Expire(), q);
    RunSplits(e, p + [Expire], q);
  }

  // Addresses 1 to n, and their additions.
  function UpTo(n: nat): set<uint32>
    requires n < 100
  {
    if n == 0 then {} else UpTo(n - 1) + {n}
  }

  function Additions(n: nat): seq<Operation>
    requires n < 100
  {
    if n == 0 then [] else Additions(n - 1) + [Operation.Add(n)]
  }

  lemma {:induction false} UpToSize(n: nat)
    requires n < 100
    ensures |UpTo(n)| == n && (forall x :: x in UpTo(n) ==> 0 < x <= n) && Expire !in Additions(n) && Operation.Add(0) !in Additions(n)
  {
    if n > 0 { UpToSize(n - 1); }
  }

  lemma {:induction false} Filling(n: nat)
    requires n <= 85
    ensures Run(Epochs({}, {0}, MINBITS), Additions(n)) == Epochs(UpTo(n), {0}, MINBITS)
  {
    hide Run, Pow2;
    if n > 0 {
      Filling(n - 1);
      UpToSize(n - 1);
      RunSnoc(Epochs({}, {0}, MINBITS), Additions(n - 1), Operation.Add(n));
      SmallestTable();
    } else {
      NothingRun(Epochs({}, {0}, MINBITS));
    }
  }

  lemma SmallestTable()
    ensures Pow2(MINBITS) == 256
  {
  }

  lemma NothingRun(e: Epochs)
    ensures Run(e, []) == e
  {
  }

  // From start-up: an address survives the expiry after its addition, but not the 86 additions of
  // others that follow in the next epoch.
  lemma EpochForgotten()
    ensures var e := Epochs({}, {}, MINBITS);
            var p, q := [Operation.Add(0), Expire], Additions(86);
            && Expire !in q && Operation.Add(0) !in q
            && Run(e, p).Known(0) && !Run(e, p + q).Known(0)
  {
    hide Run, Pow2;
    var e, f := Epochs({}, {}, MINBITS), Epochs({}, {0}, MINBITS);
    SmallestTable();
    NothingRun(e);
    RunSnoc(e, [], Operation.Add(0));
    RunSnoc(e, [Operation.Add(0)], Expire);
    assert [] + [Operation.Add(0)] == [Operation.Add(0)];
    assert [Operation.Add(0)] + [Expire] == [Operation.Add(0), Expire];
    assert {} + {0} == {0};
    RunSplits(e, [Operation.Add(0), Expire], Additions(86));
    Filling(85);
    UpToSize(85);
    UpToSize(86);
    RunSnoc(f, Additions(85), Operation.Add(86));
  }

  // ---------------------------------------------------------------- the tables

  class Filter {
    // home slot of an address for each table size
    const hash: nat -> uint32 -> nat
    var filterBits: nat
    var filterBuckets: nat
    var a: array<uint32>
    var b: array<uint32>
    var active: array<uint32>
    var occupied: nat

    ghost predicate Tables()
      reads this, a, b
    {
      && (forall bits: nat :: Homed(hash(bits), Pow2(bits)))
      && MINBITS <= filterBits <= MAXBITS && filterBuckets == Pow2(filterBits)
      && a != b && (active == a || active == b) && a.Length == b.Length == filterBuckets
      && Probed(a[..], hash(filterBits)) && Probed(b[..], hash(filterBits))
      && occupied == |Members(active[..])|
    }

    ghost predicate Valid()
      reads this, a, b
    {
      Tables() && Seen().WellSized()
    }

    ghost function Seen(): Epochs
      reads this, a, b
    {
      Epochs(Members(if active == a then a[..] else b[..]), Members(if active == a then b[..] else a[..]), filterBits)
    }

    constructor IcaoFilterInit(hash: nat -> uint32 -> nat)
      requires forall bits: nat :: Homed(hash(bits), Pow2(bits))
      ensures Valid() && fresh(a) && fresh(b)
      ensures Seen() == Epochs({}, {}, MINBITS)
    {
      hide Pow2;
      this.hash := hash;
      filterBits := MINBITS;
      filterBuckets := Pow2(MINBITS);
      occupied := 0;
      a := new uint32[Pow2(MINBITS)](i => EMPTY);
      b := new uint32[Pow2(MINBITS)](i => EMPTY);
      active := a;
      new;
      EmptyTable(a[..], hash(filterBits));
      EmptyTable(b[..], hash(filterBits));
    }

    method IcaoFilterResize(bits: nat)
      requires Tables() && MINBITS <= bits <= MAXBITS && |Seen().current| <= Pow2(bits) / 3
      modifies this
      ensures Valid() && fresh(a) && fresh(b)
      ensures Seen() == Epochs(old(Seen().current), {}, bits)
      decreases 2
    {
      hide Probed, Members, Homed, Pow2;
      var oldBuckets, oldActive := filterBuckets, active;
      filterBits := bits;
      filterBuckets := Pow2(bits);
      a := new uint32[filterBuckets](i => EMPTY);
      b := new uint32[filterBuckets](i => EMPTY);
      EmptyTable(a[..], hash(bits));
      EmptyTable(b[..], hash(bits));
      occupied := 0;
      active := a;
      Rehash(oldActive, oldBuckets);
    }

    method Rehash(oldActive: array<uint32>, oldBuckets: nat)
      requires Valid() && oldActive !in {a, b} && oldBuckets == oldActive.Length
      requires Seen() == Epochs({}, {}, filterBits) && |Members(oldActive[..])| <= filterBuckets / 3
      modifies this, a, b
      ensures Valid() && a == old(a) && b == old(b)
      ensures Seen() == Epochs(Members(old(oldActive[..])), {}, old(filterBits))
      decreases 1
    {
      hide Probed, Members, Homed, Pow2;
      ghost var s, bits := oldActive[..], filterBits;
      MembersOfNone(s);
      for i := 0 to oldBuckets
        invariant Valid() && a == old(a) && b == old(b) && oldActive[..] == s
        invariant Seen() == Epochs(Members(s[..i]), {}, bits)
      {
        MembersOfPrefix(s, i);
        if oldActive[i] != EMPTY {
          IcaoFilterAdd(oldActive[i], true);
        }
      }
      assert s[..oldBuckets] == s;
    }

    // Moves the current epoch to the previous one, in smaller tables if it used few buckets.
    method IcaoFilterExpire()
      requires Valid()
      modifies this, a, b
      ensures Valid() && fresh({a, b} - old({a, b}))
      ensures Seen() == old(Seen()).Expire()
    {
      hide Probed, Members, Homed, Pow2;
      ExpireSized(Seen());
      if occupied < filterBuckets / 9 && filterBits > MINBITS {
        IcaoFilterResize(filterBits - 1);
      }
      occupied := 0;
      if active == a {
        Wipe(b);
        active := b;
      } else {
        Wipe(a);
        active := a;
      }
      EmptyTable(active[..], hash(filterBits));
    }

    static method Wipe(t: array<uint32>)
      modifies t
      ensures forall i :: 0 <= i < t.Length ==> t[i] == EMPTY
    {
      forall i | 0 <= i < t.Length {
        t[i] := EMPTY;
      }
    }

    // Probes for a free slot; an address that finds none is dropped.
    method Store(addr: uint32)
      requires Tables() && addr != EMPTY
      modifies `occupied, active
      ensures Tables()
      ensures var seen := old(Seen());
              Seen() == if seen.Drops(addr) then seen else seen.(current := seen.current + {addr})
    {
      hide Probed, Members, Homed, Pow2;
      var added := Insert(active, addr, hash(filterBits), hash(filterBits)(addr));
      if added {
        occupied := occupied + 1;
      }
    }

    // rehashing says that a resize makes the call; it then causes no further one.
    method IcaoFilterAdd(addr: uint32, ghost rehashing: bool := false)
      requires Valid() && addr != EMPTY
      requires rehashing ==> |Seen().current + {addr}| <= filterBuckets / 3
      modifies this, a, b
      ensures Valid() && fresh({a, b} - old({a, b}))
      ensures Seen() == old(Seen()).Add(addr)
      ensures rehashing ==> !old(Seen()).Grows(addr) && a == old(a) && b == old(b)
      decreases if rehashing then 0 else 3
    {
      hide Probed, Members, Homed, Pow2;
      AddSized(Seen(), addr);
      Store(addr);
      if occupied > filterBuckets / 3 && filterBits < MAXBITS {
        IcaoFilterResize(filterBits + 1);
      }
    }

    method IcaoFilterTest(addr: uint32) returns (known: bool)
      requires Valid() && addr != EMPTY
      ensures known <==> Seen().Known(addr)
    {
      hide Probed, Homed, Members;
      known := Contains(a, addr, hash(filterBits), hash(filterBits)(addr));
      if !known {
        known := Contains(b, addr, hash(filterBits), hash(filterBits)(addr));
      }
    }
  }

  lemma MembersOfNone(s: seq<uint32>)
    ensures Members(s[..0]) == {}
  {
  }

  lemma MembersOfPrefix(s: seq<uint32>, i: nat)
    requires i < |s|
    ensures Members(s[..i + 1]) == if s[i] == EMPTY then Members(s[..i]) else Members(s[..i]) + {s[i]}
    ensures |Members(s[..i + 1])| <= |Members(s)|
  {
    assert s[..i + 1] == s[..i] + [s[i]];
    MembersSnoc(s[..i], s[i]);
    SubsetSize(Members(s[..i + 1]), Members(s));
  }

  lemma {:induction false} SubsetSize<T>(s: set<T>, t: set<T>)
    requires s <= t
    ensures |s| <= |t|
  {
    assert t == s + (t - s);
  }
}
