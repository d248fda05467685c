// Open-addressed tables of addresses with linear probing.
module ProbedTable {
  type uint32 = x: nat | x < 0x1_0000_0000

  const EMPTY: uint32 := 0xFFFFFFFF

  // The k-th slot probed from home slot h in a table of n slots, and its inverse.
  function Slot(h: nat, k: nat, n: nat): nat
  {
    if h + k < n then h + k else h + k - n
  }

  function Offset(h: nat, i: nat, n: nat): nat
    requires h < n && i < n
  {
    if i >= h then i - h else i + n - h
  }

  lemma SlotOfOffset(h: nat, i: nat, n: nat)
    requires h < n && i < n
    ensures 0 <= Offset(h, i, n) < n && Slot(h, Offset(h, i, n), n) == i
  {
  }

  // No probe from h for x stops before slot i.
  ghost predicate Clear(t: seq<uint32>, h: nat, x: uint32, i: nat)
    requires h < |t| && i < |t|
  {
    forall j :: 0 <= j < Offset(h, i, |t|) ==> t[Slot(h, j, |t|)] != EMPTY && t[Slot(h, j, |t|)] != x
  }

  ghost predicate Homed(home: uint32 -> nat, n: nat) {
    forall x :: home(x) < n
  }

  // Every stored address is found by probing from its home slot.
  ghost predicate Probed(t: seq<uint32>, home: uint32 -> nat) {
    && Homed(home, |t|)
    && forall i :: 0 <= i < |t| && t[i] != EMPTY ==> Clear(t, home(t[i]), t[i], i)
  }

  ghost function Members(t: seq<uint32>): set<uint32> {
    set x | x in t && x != EMPTY
  }

  // Where a probe for x ends: at x, at a free slot, or nowhere because the table is full.
  ghost predicate ProbeEnd(t: seq<uint32>, home: uint32 -> nat, x: uint32, h: nat, full: bool)
    requires Homed(home, |t|)
  {
    if full then EMPTY !in t && x !in t
    else h < |t| && (t[h] == EMPTY || t[h] == x) && Clear(t, home(x), x, h)
  }

  lemma StoredOnce(t: seq<uint32>, home: uint32 -> nat, i: nat, j: nat)
    requires Probed(t, home) && i < |t| && j < |t| && t[i] == t[j] != EMPTY
    ensures i == j
  {
    var h, n := home(t[i]), |t|;
    SlotOfOffset(h, i, n);
    SlotOfOffset(h, j, n);
  }

  lemma ProbeDecides(t: seq<uint32>, home: uint32 -> nat, x: uint32, h: nat, full: bool)
    requires Probed(t, home) && x != EMPTY && ProbeEnd(t, home, x, h, full)
    ensures x in t <==> !full && t[h] == x
  {
    if !full {
      SlotOfOffset(home(x), h, |t|);
      forall i | 0 <= i < |t| && t[i] == x ensures t[h] == x {
        SlotOfOffset(home(x), i, |t|);
      }
    }
  }

  lemma ProbedAfterInsert(t: seq<uint32>, home: uint32 -> nat, x: uint32, h: nat)
    requires Probed(t, home) && x != EMPTY && ProbeEnd(t, home, x, h, false) && t[h] == EMPTY
    ensures Probed(t[h := x], home) && Members(t[h := x]) == Members(t) + {x} && x !in Members(t)
  {
    ProbeDecides(t, home, x, h, false);
    var u := t[h := x];
    forall i | 0 <= i < |u| && u[i] != EMPTY ensures Clear(u, home(u[i]), u[i], i) {
      assert Clear(t, home(u[i]), u[i], i);
    }
    forall y | y in Members(t) ensures y in u {
      var i :| 0 <= i < |t| && t[i] == y;
      assert u[i] == y;
    }
    assert u[h] == x;
  }

  ghost predicate Distinct(t: seq<uint32>) {
    forall i, j :: 0 <= i < j < |t| && t[i] == t[j] ==> t[i] == EMPTY
  }

  // A table holds as many addresses as it has slots exactly if no slot is free.
  lemma {:induction false} Occupancy(t: seq<uint32>)
    requires Distinct(t)
    ensures |Members(t)| <= |t| && (|Members(t)| == |t| <==> EMPTY !in t)
  {
    if t == [] {
      assert Members(t) == {};
    } else {
      var s, y := t[..|t| - 1], t[|t| - 1];
      assert t == s + [y];
      Occupancy(s);
      MembersSnoc(s, y);
      assert y in s ==> y == EMPTY;
    }
  }

  lemma MembersSnoc(s: seq<uint32>, y: uint32)
    ensures Members(s + [y]) == if y == EMPTY then Members(s) else Members(s) + {y}
  {
  }

  lemma ProbedDistinct(t: seq<uint32>, home: uint32 -> nat)
    requires Probed(t, home)
    ensures Distinct(t)
  {
    forall i, j | 0 <= i < j < |t| && t[i] == t[j] ensures t[i] == EMPTY {
      if t[i] != EMPTY { StoredOnce(t, home, i, j); }
    }
  }

  lemma EmptyTable(t: seq<uint32>, home: uint32 -> nat)
    requires Homed(home, |t|) && forall i :: 0 <= i < |t| ==> t[i] == EMPTY
    ensures Probed(t, home) && Members(t) == {}
  {
  }

  // Walks from the home slot to x, to a free slot, or back to the home slot.
  method Probe(t: array<uint32>, x: uint32, ghost home: uint32 -> nat, h0: nat) returns (h: nat, full: bool)
    requires Homed(home, t.Length) && h0 == home(x)
    ensures h < t.Length && ProbeEnd(t[..], home, x, h, full)
  {
    h := h0;
    ghost var k := 0;
    while t[h] != EMPTY && t[h] != x
      invariant k < t.Length && h == Slot(h0, k, t.Length) < t.Length
      invariant forall j :: 0 <= j < k ==> t[Slot(h0, j, t.Length)] != EMPTY && t[Slot(h0, j, t.Length)] != x
      decreases t.Length - k
    {
      h := if h + 1 == t.Length then 0 else h + 1;
      k := k + 1;
      if h == h0 {
        forall i | 0 <= i < t.Length ensures t[i] != EMPTY && t[i] != x {
          assert Slot(h0, Offset(h0, i, t.Length), t.Length) == i;
        }
        return h, true;
      }
    }
    assert Offset(h0, h, t.Length) == k;
    full := false;
  }

  // Stores x unless it is there already or no slot is free.
  method Insert(t: array<uint32>, x: uint32, ghost home: uint32 -> nat, h0: nat) returns (added: bool)
    requires Probed(t[..], home) && h0 == home(x) && x != EMPTY
    modifies t
    ensures Probed(t[..], home)
    ensures |Members(old(t[..]))| <= t.Length
    ensures added == (x !in Members(old(t[..])) && |Members(old(t[..]))| < t.Length)
    ensures Members(t[..]) == if added then Members(old(t[..])) + {x} else Members(old(t[..]))
  {
    ProbedDistinct(t[..], home);
    Occupancy(t[..]);
    var h, full := Probe(t, x, home, h0);
    ProbeDecides(t[..], home, x, h, full);
    hide Probed, Clear, Distinct;
    added := !full && t[h] == EMPTY;
    if added {
      ProbedAfterInsert(t[..], home, x, h);
      t[h] := x;
    }
  }

  method Contains(t: array<uint32>, x: uint32, ghost home: uint32 -> nat, h0: nat) returns (found: bool)
    requires Probed(t[..], home) && h0 == home(x) && x != EMPTY
    ensures found <==> x in Members(t[..])
  {
    var h, full := Probe(t, x, home, h0);
    ProbeDecides(t[..], home, x, h, full);
    found := !full && t[h] == x;
  }
}
