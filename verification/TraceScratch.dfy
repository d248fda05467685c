// The scratch buffer of a worker thread, where traces are put together and chunks are compressed.
module TraceScratch {
  import opened TraceModel

  // The memory of groups: their size, the compression library's bound, what groups read as once bytes
  // have been copied over the front of their memory, and once that memory has been given back.
  datatype Memory = Memory(groupSize: nat, bound: nat -> nat,
                           cover: (Blob, seq<FourState>) -> seq<FourState>, stale: nat -> FourState)
  {
    // Bytes only change the groups they reach.
    ghost predicate Lawful() {
      && groupSize > 0
      && (forall b, g :: |cover(b, g)| == |g| && Spared(b, g, cover(b, g)))
    }

    // The size of n groups.
    function Bytes(n: nat): nat {
      groupSize * n
    }

    ghost predicate Spared(b: Blob, g: seq<FourState>, h: seq<FourState>) {
      |h| == |g| && forall k :: 0 <= k < |g| && Untouched(b, k) ==> h[k] == g[k]
    }

    predicate Untouched(b: Blob, k: nat) {
      |b| <= Bytes(k)
    }
  }

  lemma TimesGrows(a: nat, b: nat, c: nat)
    requires b <= c
    ensures a * b <= a * c
  {
  }

  lemma BytesGrow(m: Memory, b: nat, c: nat)
    requires b <= c
    ensures m.Bytes(b) <= m.Bytes(c)
  {
    TimesGrows(m.groupSize, b, c);
  }

  lemma BytesAdd(m: Memory, b: nat, c: nat)
    ensures m.Bytes(b + c) == m.Bytes(b) + m.Bytes(c)
  {
  }

  // Capacity after room has been asked for.
  function Grown(capacity: nat, need: nat): nat {
    if capacity < need then need * 9 / 8 else capacity
  }

  // The groups that a buffer holds.
  function Slots(m: Memory, capacity: nat): nat {
    if m.groupSize == 0 then 0 else capacity / m.groupSize
  }

  class Scratch {
    var capacity: nat
    // the groups that someone still keeps in the buffer
    var lent: array?<FourState>

    constructor ()
      ensures capacity == 0 && lent == null
    {
      capacity, lent := 0, null;
    }

    // A buffer that is too small is given back, along with what it holds.
    method Grow(m: Memory, need: nat)
      modifies this, lent
      ensures capacity == Grown(old(capacity), need)
      ensures lent == (if old(capacity) < need then null else old(lent))
      ensures old(capacity) >= need && lent != null ==> lent[..] == old(lent[..])
    {
      if capacity < need {
        if lent != null {
          forall i | 0 <= i < lent.Length {
            lent[i] := m.stale(i);
          }
        }
        capacity, lent := need * 9 / 8, null;
      }
    }

    // Bytes go to the front of the buffer.
    method Write(m: Memory, b: Blob)
      requires m.Lawful()
      modifies lent
      ensures lent != null ==> lent[..] == m.cover(b, old(lent[..]))
    {
      if lent != null {
        var after := m.cover(b, lent[..]);
        forall i | 0 <= i < lent.Length {
          lent[i] := after[i];
        }
      }
    }
  }
}
