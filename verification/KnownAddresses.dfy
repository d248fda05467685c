// Runs of a receiver: which addresses its filter can hold, and which messages it then accepts.
module KnownAddresses {
  import opened Crc
  import opened ProbedTable
  import opened IcaoFilter
  import opened ModeS

  datatype Event = Received(raw: Frame) | Expired

  // Only intact squitters add addresses.
  function Next(seen: Epochs, event: Event): Epochs {
    match event
    case Received(raw) => if IntactSquitter(raw) then seen.Add(AA(raw)) else seen
    case Expired => seen.Expire()
  }

  function After(seen: Epochs, events: seq<Event>): Epochs {
    if events == [] then seen else Next(After(seen, events[..|events| - 1]), events[|events| - 1])
  }

  // The filter at start-up holds one configured address.
  function AtStart(own: uint32): Epochs {
    Epochs({}, {}, MINBITS).Add(own)
  }

  ghost predicate Announced(events: seq<Event>, x: uint32) {
    exists i :: 0 <= i < |events| && events[i].Received? && IntactSquitter(events[i].raw) && AA(events[i].raw) == x
  }

  lemma {:induction false} KnownWasAnnounced(seen: Epochs, events: seq<Event>, x: uint32)
    requires After(seen, events).Known(x)
    ensures seen.Known(x) || Announced(events, x)
  {
    if events != [] {
      hide IntactSquitter;
      var n := |events| - 1;
      var last := events[n];
      if After(seen, events[..n]).Known(x) {
        KnownWasAnnounced(seen, events[..n], x);
        if Announced(events[..n], x) {
          var i :| 0 <= i < n && events[..n][i].Received? && IntactSquitter(events[..n][i].raw) && AA(events[..n][i].raw) == x;
          assert events[i] == events[..n][i];
        }
      } else {
        assert last.Received? && AA(last.raw) == x;
      }
    }
  }

  // Over every run, each known address is the start-up address or was announced by a squitter
  // received with checksum 0 and no corrected bit.
  lemma OnlyAnnouncedAreKnown(own: uint32, events: seq<Event>, x: uint32)
    requires After(AtStart(own), events).Known(x)
    ensures x == own || Announced(events, x)
  {
    KnownWasAnnounced(AtStart(own), events, x);
  }

  // The code -1 is for messages that are accepted if the right address is known, -2 for those that never are.
  // Knowing more addresses never turns a message away.
  lemma VerdictCodes(raw: Frame, seen: Epochs, c: Config)
    ensures Verdict(raw, seen, c) == 0 || Verdict(raw, seen, c) == -1 || Verdict(raw, seen, c) == -2
    ensures Verdict(raw, seen, c) == -2 <==> forall other :: Verdict(raw, other, c) != 0
    ensures Verdict(raw, seen, c) == 0 ==>
              forall more: Epochs :: (forall x :: seen.Known(x) ==> more.Known(x)) ==> Verdict(raw, more, c) == 0
  {
    hide FixedType, Repaired, Repairable, Damaged, Checksum, AA;
    var m := FixedType(raw, c);
    var right := Epochs({Checksum(m), AA(Repaired(m, c))}, {}, MINBITS);
    assert right.Known(Checksum(m)) && right.Known(AA(Repaired(m, c)));
    assert Verdict(raw, seen, c) == -1 ==> Verdict(raw, right, c) == 0;
  }

  // What vouches for an accepted message: a known sender, or a checksum that holds by itself.
  lemma AcceptedMessages(own: uint32, events: seq<Event>, raw: Frame, c: Config)
    requires Verdict(raw, After(AtStart(own), events), c) == 0
    ensures var m := FixedType(raw, c);
            var sender := if AddressParity(DF(m)) then Checksum(m) else AA(Repaired(m, c));
            || sender == own || Announced(events, sender)
            || (!AddressParity(DF(m)) && !Damaged(m))
            || ((DF(m) == 17 || DF(m) == 18) && AA(Repaired(m, c)) == AA(m))
  {
    var m := FixedType(raw, c);
    var sender := if AddressParity(DF(m)) then Checksum(m) else AA(Repaired(m, c));
    if After(AtStart(own), events).Known(sender) {
      OnlyAnnouncedAreKnown(own, events, sender);
    }
    hide FixedType, Repaired, Repairable, Damaged, Checksum;
  }

  // An announced sender stays accepted at least until the next expiry, if the filter had room.
  lemma {:induction false} AnnouncedIsAccepted(seen: Epochs, squitter: Frame, events: seq<Event>, raw: Frame, c: Config)
    requires IntactSquitter(squitter) && !seen.Drops(AA(squitter)) && Expired !in events
    requires AddressParity(DF(FixedType(raw, c))) && Checksum(FixedType(raw, c)) == AA(squitter)
    requires !StartsWithZeros(raw)
    ensures Verdict(raw, After(Next(seen, Received(squitter)), events), c) == 0
  {
    CurrentKept(Next(seen, Received(squitter)), events, AA(squitter));
  }

  lemma {:induction false} CurrentKept(seen: Epochs, events: seq<Event>, x: uint32)
    requires x in seen.current && Expired !in events
    ensures x in After(seen, events).current
  {
    if events != [] {
      CurrentKept(seen, events[..|events| - 1], x);
      assert events[|events| - 1] in events;
    }
  }
}
