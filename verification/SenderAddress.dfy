// Whose message a decoded message is: the address that the sender laid over the checksum, or announced.
module SenderAddress {
  import opened Bits
  import opened Crc
  import opened CrcDamage
  import opened ErrorTable
  import opened Corrector
  import opened ProbedTable
  import opened IcaoFilter
  import opened ModeS
  import opened MessageScore
  import opened KnownAddresses
  import opened ModeSDecoder

  // ---------------------------------------------------------------- overlaid addresses

  // A message as it is sent with an address laid over its checksum.
  function Overlaid(m: Frame, x: Word): (r: Frame)
    ensures DF(r) == DF(m) && AA(r) == AA(m)
  {
    var n, t := MessageBits(DF(m)) / 8, Tail(x);
    m[n - 3 := XorByte(m[n - 3], t[0])][n - 2 := XorByte(m[n - 2], t[1])][n - 1 := XorByte(m[n - 1], t[2])]
  }

  lemma OverlaidIsXor(m: Frame, x: Word)
    ensures var n := MessageBits(DF(m)) / 8; Overlaid(m, x)[..n] == XorBytes(m[..n], Zeros(n - 3) + Tail(x))
  {
    hide Xor, Tail;
    var n := MessageBits(DF(m)) / 8;
    forall k | 0 <= k < n - 3 ensures Overlaid(m, x)[k] == XorByte(m[k], 0) {
      XorZero(m[k]);
    }
  }

  lemma TailRemainder(x: Word)
    ensures Remainder(Tail(x)) == x
  {
    hide Xor, Shl, Remainder, ShiftN;
    var t := Tail(x);
    RemainderTail([], t[0], t[1], t[2]);
    BytesOfWord(t[0], t[1], t[2]);
    NoRemainder();
    XorAssoc(Xor(0, Shl(t[0], 16)), Shl(t[1], 8), t[2]);
    XorAssoc(0, Shl(t[0], 16), Xor(Shl(t[1], 8), t[2]));
    XorComm(0, x);
    XorZero(x);
    assert [] + [t[0], t[1], t[2]] == t;
  }

  lemma NoRemainder()
    ensures ShiftN(Remainder([]), 24) == 0
  {
    ShiftNZero(24);
  }

  lemma OverlaidChecksum(m: Frame, x: Word)
    ensures Checksum(Overlaid(m, x)) == Xor(Checksum(m), x)
  {
    hide Xor, Remainder, Overlaid, Tail;
    var n := MessageBits(DF(m)) / 8;
    OverlaidIsXor(m, x);
    RemainderLinear(m[..n], Zeros(n - 3) + Tail(x));
    LeadingZeros(n - 3, Tail(x));
    TailRemainder(x);
  }

  // The bit of the format that separates it from 17.
  function TypeBit(df: nat): (i: nat)
    requires NearlySquitter(df)
    ensures i < FIRST_BIT
  {
    match df
    case 1 => 0
    case 25 => 1
    case 21 => 2
    case 19 => 3
    case 16 => 4
  }

  lemma AsSquitterFlips(m: Frame)
    requires NearlySquitter(DF(m))
    ensures AsSquitter(m) == Flip(m, TypeBit(DF(m)))
  {
    hide Xor;
    var i := TypeBit(DF(m));
    FormatMask(i);
    XorAboveThree(m[0], BitMask(i));
    SeventeenFlipped();
    XorCancel(17, [16, 8, 4, 2, 1][i]);
  }

  // The overlaid messages that type repair takes for squitters: those from the address that equals the
  // syndrome of the bit of the format.
  ghost predicate Mistaken(m: Frame, x: Word, c: Config) {
    c.FixesType() && NearlySquitter(DF(m)) && x == Power(LONG_BITS - 1 - TypeBit(DF(m)))
  }

  lemma OverlaidMistaken(m: Frame, x: Word, c: Config)
    requires Checksum(m) == 0 && AddressParity(DF(m))
    ensures TypeFixed(Overlaid(m, x), c) <==> Mistaken(m, x, c)
    ensures Checksum(Overlaid(m, x)) == x
  {
    hide Xor, Remainder, Overlaid, Power, Flip;
    OverlaidChecksum(m, x);
    XorComm(0, x);
    XorZero(x);
    if NearlySquitter(DF(m)) {
      var raw := Overlaid(m, x);
      AsSquitterFlips(raw);
      assert raw[..14] == raw;
      FlipRemainder(raw, TypeBit(DF(m)));
      XorZeroIsEqual(x, Power(LONG_BITS - 1 - TypeBit(DF(m))));
    }
  }

  // ---------------------------------------------------------------- what the decoder makes of them

  // An intact message with any address laid over it: accepted if and only if the address is known, and then the
  // sender is that address.
  lemma SenderRecovered(r: Receiver, mm: ModesMessage, m: Frame, x: Word, seen: Epochs)
    requires Checksum(m) == 0 && AddressParity(DF(m)) && !Mistaken(m, x, r.Options())
    requires r.Decoded(mm, Overlaid(m, x), seen)
    ensures mm.decodeResult == 0 <==> seen.Known(x) && !StartsWithZeros(Overlaid(m, x))
    ensures mm.decodeResult == 0 || r.decodeAll ==>
              mm.msg[..] == Overlaid(m, x) && mm.msgtype == DF(m)
              && mm.addr == if seen.Known(x) || (DF(m) != 20 && DF(m) != 21) then x else HEX_UNKNOWN
  {
    hide Xor, Remainder, Overlaid, Mistaken, Repairable, Epochs.Known, StartsWithZeros, CorrectedBits;
    OverlaidMistaken(m, x, r.Options());
  }

  // The messages mistaken for squitters are accepted whoever is known, and their sender is what stands where
  // a squitter has its address.
  lemma MistakenSender(r: Receiver, mm: ModesMessage, m: Frame, x: Word, seen: Epochs)
    requires Checksum(m) == 0 && AddressParity(DF(m)) && Mistaken(m, x, r.Options())
    requires r.Decoded(mm, Overlaid(m, x), seen)
    ensures mm.decodeResult == 0 && mm.msgtype == 17 && mm.addr == AA(m)
  {
    hide Xor, Remainder, Overlaid, Mistaken, Repairable, Epochs.Known, CorrectedBits;
    var raw := Overlaid(m, x);
    OverlaidMistaken(m, x, r.Options());
    FixedIsIntact(raw);
    AddressUntouched(raw);
    assert raw[0] != 0;
  }

  // Over every run, an accepted sender is the start-up address, or announced by an intact squitter of the run or
  // by this message; an all-call reply vouches for itself only if its checksum holds.
  lemma VouchedSender(r: Receiver, mm: ModesMessage, raw: Frame, own: uint32, events: seq<Event>)
    requires r.Decoded(mm, raw, After(AtStart(own), events)) && mm.decodeResult == 0
    ensures var m := FixedType(raw, r.Options());
            || mm.addr == own || Announced(events, mm.addr)
            || (!AddressParity(mm.msgtype) && mm.addr == AA(m) && (mm.msgtype == 11 ==> !Damaged(m)))
  {
    hide Remainder, FixedType, Repaired, AA, CorrectedBits, Damaged, Announced, Repairable, Checksum, After, AtStart;
    var m := FixedType(raw, r.Options());
    JudgedFormats(m, After(AtStart(own), events), r.Options());
    Undamaged(m, r.Options());
    AcceptedMessages(own, events, raw, r.Options());
  }
}
