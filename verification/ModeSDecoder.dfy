// Scoring and decoding of received messages.
module ModeSDecoder {
  import opened Bits
  import opened Crc
  import opened CrcDamage
  import opened CrcTables
  import opened ErrorTable
  import opened ErrorCorrection
  import opened Corrector
  import opened ProbedTable
  import opened IcaoFilter
  import opened ModeS
  import opened MessageScore
  import opened KnownAddresses

  const HEX_UNKNOWN: uint32 := 0xDEADBEEF

  // Bits first to last of the message, counted from 1.
  method GetAA(msg: array<byte>) returns (addr: uint32)
    requires msg.Length == MSG_BYTES
    ensures addr == AA(msg[..])
  {
    var b1: nat, b2: nat, b3: nat := msg[1], msg[2], msg[3];
    addr := 0x10000 * b1 + 0x100 * b2 + b3;
  }

  // Applies the part of an error pattern that lies in the announced address.
  method CorrectAaField(addr: Word, info: ErrorInfo, ghost e: seq<nat>) returns (corrected: Word)
    requires Fixes(info, e)
    ensures corrected == CorrectedAA(addr, e)
  {
    corrected := addr;
    for i := 0 to info.errors
      invariant corrected == CorrectedAA(addr, e[..i])
    {
      assert e[..i + 1][..i] == e[..i] && e[..i + 1][i] == info.bit[i];
      if 8 <= info.bit[i] <= 31 {
        corrected := Xor24(corrected, AddressBit(info.bit[i]));
      }
    }
    assert e[..|e|] == e;
  }

  method AllZeros(msg: array<byte>) returns (zeros: bool)
    requires msg.Length == MSG_BYTES
    ensures zeros == StartsWithZeros(msg[..])
  {
    for k := 0 to SHORT_BYTES
      invariant forall j :: 0 <= j < k ==> msg[j] == 0
    {
      if msg[k] != 0 {
        return false;
      }
    }
    zeros := true;
  }

  class ModesMessage {
    const msg: array<byte>
    var msgtype: nat
    var crc: Word
    var correctedbits: nat
    var addr: uint32
    var iid: nat
    var decodeResult: int

    constructor (raw: Frame)
      ensures msg[..] == raw && fresh(msg)
    {
      msg := new byte[MSG_BYTES](i requires 0 <= i < MSG_BYTES => raw[i]);
    }
  }

  class Receiver {
    const corrector: ErrorCorrector
    const filter: Filter
    const fixDF: bool
    const nfixCrc: nat
    const decodeAll: bool
    ghost const own: uint32
    ghost var events: seq<Event>

    ghost predicate Ready()
      reads filter, filter.a, filter.b, corrector.Repr
    {
      && filter.Valid() && corrector.Valid() && Options().Valid() && (nfixCrc > 0 <==> corrector.correct > 0)
      && (var own: set<object> := {this, filter, filter.a, filter.b}; own !! corrector.Repr)
    }

    // The filter is what the events so far make of it.
    ghost predicate Valid()
      reads this, filter, filter.a, filter.b, corrector.Repr
    {
      Ready() && filter.Seen() == After(AtStart(own), events)
    }

    ghost function Options(): Config {
      Config(fixDF, corrector.correct, corrector.detect, decodeAll)
    }

    // msg is none of the receiver's tables
    ghost predicate Apart(msg: array<byte>)
      reads filter
    {
      var tables: set<object> := {filter.a, filter.b};
      msg !in tables && msg !in corrector.Repr
    }

    constructor (hash: nat -> uint32 -> nat, showOnly: uint32, nfixCrc: nat, fixDF: bool, decodeAll: bool)
      requires showOnly != EMPTY && forall bits: nat :: Homed(hash(bits), Pow2(bits))
      ensures Valid() && fresh(filter) && own == showOnly && events == []
      ensures Options() == Config(fixDF, if nfixCrc <= 1 then nfixCrc else 2, if nfixCrc <= 1 then nfixCrc else 4, decodeAll)
    {
      hide ErrorCorrector.Valid, Filter.Valid, Filter.Seen, Epochs.Add, Pow2, Homed;
      var fi := new Filter.IcaoFilterInit(hash);
      fi.IcaoFilterAdd(showOnly);
      var co := new ErrorCorrector.ModesChecksumInit(nfixCrc);
      corrector, filter := co, fi;
      this.nfixCrc, this.fixDF, this.decodeAll := nfixCrc, fixDF, decodeAll;
      own, events := showOnly, [];
      new;
      assert corrector.Valid() && filter.Seen() == AtStart(own);
    }

    method MessageChecksum(msg: array<byte>, bits: nat) returns (crc: Word)
      requires Ready() && msg.Length == MSG_BYTES && (bits == SHORT_BITS || bits == LONG_BITS)
      ensures crc == Remainder(msg[..bits / 8])
    {
      crc := corrector.tables.ModesChecksum(msg, bits);
    }

    // Rewrites the format to 17 if that makes the checksum 0.
    method FixDF17msgtype(msg: array<byte>, msgtype: nat) returns (origByte: byte, fixedType: nat)
      requires Ready() && Apart(msg) && msg.Length == MSG_BYTES && msgtype == DF(msg[..])
      modifies msg
      ensures msg[..] == FixedType(old(msg[..]), Options()) && fixedType == DF(msg[..])
      ensures origByte == if TypeFixed(old(msg[..]), Options()) then old(msg[0]) else 0
    {
      hide Remainder, After, Filter.Valid, Filter.Seen, ErrorCorrector.Valid;
      if !fixDF || nfixCrc == 0 {
        return 0, msgtype;
      }
      if !NearlySquitter(msgtype) {
        return 0, msgtype;
      }
      ghost var raw := msg[..];
      origByte := msg[0];
      msg[0] := msg[0] % 8 + 0x88;
      assert msg[..] == AsSquitter(raw) && msg[..LONG_BITS / 8] == msg[..];
      var res := MessageChecksum(msg, LONG_BITS);
      if res == 0 {
        return origByte, 17;
      }
      msg[0] := origByte;
      assert msg[..] == raw;
      return 0, msgtype;
    }

    // The pattern and the entry found for a message's checksum.
    method Diagnose(msg: array<byte>, crc: Word, msgbits: nat) returns (info: Option<ErrorInfo>, ghost e: seq<nat>)
      requires Ready() && msg.Length == MSG_BYTES
      requires crc == Checksum(msg[..]) && msgbits == MessageBits(DF(msg[..]))
      ensures info.Some? <==> PatternOf(msg[..], Options()).Some?
      ensures info.Some? ==> PatternOf(msg[..], Options()) == Some(e) && Fixes(info.value, e) && AllBelow(e, 8 * MSG_BYTES)
    {
      hide Remainder, After, Filter.Valid, Filter.Seen, Diagnosis;
      info := corrector.ModesChecksumDiagnose(crc, msgbits);
      DiagnosisAgrees(crc, msgbits, Options(), info);
      e := if info.Some? then PatternOf(msg[..], Options()).value else [];
    }

    // All-call replies: code 0, -1 or -2 and the bits corrected.
    method JudgeAllCall(msg: array<byte>, crc: Word) returns (code: int, correctedbits: nat, iid: nat)
      requires Ready() && Apart(msg) && msg.Length == MSG_BYTES
      requires DF(msg[..]) == 11 && crc == Checksum(msg[..])
      modifies msg
      ensures var m := old(msg[..]);
              && msg[..] == Repaired(m, Options()) && code == Judgement(m, filter.Seen(), Options())
              && correctedbits == (if Damaged(m) && Repairable(m, Options()) then |PatternOf(m, Options()).value| else 0)
              && iid == InterrogatorCode(m, Options())
    {
      hide Remainder, After, Filter.Valid, Filter.Seen, ErrorCorrector.Valid, Diagnosis, PatternOf, FlipAll, AllBelow;
      code, correctedbits, iid := 0, 0, crc % 0x80;
      if crc >= 0x80 {
        var info, e := Diagnose(msg, crc, SHORT_BITS);
        if info.None? {
          code := -2;
        } else if info.value.errors > 1 {
          code := -2;
        } else {
          correctedbits := info.value.errors;
          iid := 0;
          ModesChecksumFix(msg, info, e);
          var addr := GetAA(msg);
          var known := filter.IcaoFilterTest(addr);
          if !known {
            code := -1;
          }
        }
      }
    }

    // Extended squitters.
    method JudgeSquitter(msg: array<byte>, crc: Word) returns (code: int, correctedbits: nat)
      requires Ready() && Apart(msg) && msg.Length == MSG_BYTES
      requires (DF(msg[..]) == 17 || DF(msg[..]) == 18) && crc == Checksum(msg[..])
      modifies msg
      ensures var m := old(msg[..]);
              && msg[..] == Repaired(m, Options()) && code == Judgement(m, filter.Seen(), Options())
              && correctedbits == if Damaged(m) && Repairable(m, Options()) then |PatternOf(m, Options()).value| else 0
    {
      hide Remainder, After, Filter.Valid, Filter.Seen, ErrorCorrector.Valid, Diagnosis, PatternOf, FlipAll, AllBelow, AA;
      code, correctedbits := 0, 0;
      if crc != 0 {
        var info, e := Diagnose(msg, crc, LONG_BITS);
        if info.None? {
          code := -2;
        } else {
          var addr1 := GetAA(msg);
          correctedbits := info.value.errors;
          ModesChecksumFix(msg, info, e);
          var addr2 := GetAA(msg);
          var known := filter.IcaoFilterTest(addr2);
          if addr1 != addr2 && !known {
            code := -1;
          }
        }
      }
    }

    // The checksum work of all formats: code, corrected bits and the sender's address.
    method Judge(msg: array<byte>, msgtype: nat, crc: Word) returns (code: int, correctedbits: nat, iid: nat)
      requires Ready() && Apart(msg) && msg.Length == MSG_BYTES
      requires msgtype == DF(msg[..]) && crc == Checksum(msg[..])
      modifies msg
      ensures var m := old(msg[..]);
              && msg[..] == Repaired(m, Options()) && code == Judgement(m, filter.Seen(), Options())
              && correctedbits == (if Damaged(m) && Repairable(m, Options()) then |PatternOf(m, Options()).value| else 0)
              && (msgtype == 11 ==> iid == InterrogatorCode(m, Options()))
    {
      hide Remainder, After, Filter.Valid, Filter.Seen, ErrorCorrector.Valid, PatternOf, FlipAll, Repaired, AA;
      code, correctedbits, iid := 0, 0, 0;
      Undamaged(msg[..], Options());
      if AddressParity(msgtype) {
        var known := filter.IcaoFilterTest(crc);
        code := if known then 0 else -1;
      } else if msgtype == 11 {
        code, correctedbits, iid := JudgeAllCall(msg, crc);
      } else if msgtype == 17 || msgtype == 18 {
        code, correctedbits := JudgeSquitter(msg, crc);
      } else {
        code := -2;
      }
    }

    // What a decoded message says, given the frame received and the addresses then known.
    ghost predicate Decoded(mm: ModesMessage, raw: Frame, seen: Epochs)
      reads mm, mm.msg
    {
      var m := FixedType(raw, Options());
      && (mm.decodeResult == 0 <==> Verdict(raw, seen, Options()) == 0)
      && (!decodeAll ==> mm.decodeResult == Verdict(raw, seen, Options()))
      && (mm.decodeResult == 0 || decodeAll ==>
        && mm.msg[..] == Repaired(m, Options()) && mm.msgtype == DF(m) && mm.crc == Checksum(m)
        && mm.correctedbits == CorrectedBits(raw, Options())
        && mm.addr == Sender(m, mm.decodeResult == 0, seen))
    }

    // The sender's address.  Of the messages that are decoded although they were not accepted, only the
    // formats 20 and 21 and those without an overlaid address are left without one.
    ghost function Sender(m: Frame, accepted: bool, seen: Epochs): uint32 {
      if AddressParity(DF(m)) then
        if (DF(m) == 20 || DF(m) == 21) && !seen.Known(Checksum(m)) then HEX_UNKNOWN else Checksum(m)
      else if (DF(m) == 11 || DF(m) == 17 || DF(m) == 18) && accepted then AA(Repaired(m, Options()))
      else HEX_UNKNOWN
    }

    // The sender of an accepted message is known or announced by it.
    lemma AcceptedSender(mm: ModesMessage, raw: Frame, seen: Epochs)
      requires Decoded(mm, raw, seen) && mm.decodeResult == 0
      ensures if AddressParity(mm.msgtype) then seen.Known(mm.addr) && mm.addr == mm.crc else mm.addr == AA(mm.msg[..])
    {
      hide Remainder, FixedType, Repaired, AA, CorrectedBits, Damaged, Repairable;
      JudgedFormats(FixedType(raw, Options()), seen, Options());
    }

    // Decoded but for the sender's address.
    ghost predicate Checked(mm: ModesMessage, raw: Frame, seen: Epochs)
      reads mm, mm.msg
    {
      var m := FixedType(raw, Options());
      && (mm.decodeResult == 0 <==> Verdict(raw, seen, Options()) == 0)
      && (!decodeAll ==> mm.decodeResult == Verdict(raw, seen, Options()))
      && mm.msg[..] == Repaired(m, Options()) && mm.msgtype == DF(m) && mm.crc == Checksum(m)
      && mm.correctedbits == CorrectedBits(raw, Options())
      && (mm.msgtype == 11 ==> mm.iid == InterrogatorCode(m, Options()))
    }

    // Decodes and possibly repairs mm.msg; learns the sender's address from an intact squitter.
    method DecodeModesMessage(mm: ModesMessage, ghost raw: Frame) returns (result: int)
      requires Valid() && Apart(mm.msg) && mm !in corrector.Repr && mm.msg[..] == raw
      modifies mm, mm.msg, filter, filter.a, filter.b, this`events
      ensures Valid() && fresh({filter.a, filter.b} - old({filter.a, filter.b}))
      ensures events == old(events) + [Received(raw)]
      ensures result == mm.decodeResult && Decoded(mm, raw, old(filter.Seen()))
      ensures result == 0 ==>
                if AddressParity(mm.msgtype) then old(filter.Seen()).Known(mm.addr) && mm.addr == mm.crc
                else mm.addr == AA(mm.msg[..])
    {
      hide Remainder, Filter.Valid, Filter.Seen, ErrorCorrector.Valid, IntactSquitter, Decoded, Epochs.Add, Epochs.Known, AA;
      ghost var seen := filter.Seen();
      assert (events + [Received(raw)])[..|events|] == events;
      result := Decode(mm, raw, seen);
      if result == 0 {
        AcceptedSender(mm, raw, seen);
      }
      events := events + [Received(raw)];
    }

    method Decode(mm: ModesMessage, ghost raw: Frame, ghost seen: Epochs) returns (result: int)
      requires Ready() && Apart(mm.msg) && mm !in corrector.Repr
      requires mm.msg[..] == raw && filter.Seen() == seen
      modifies mm, mm.msg, filter, filter.a, filter.b
      ensures Ready() && fresh({filter.a, filter.b} - old({filter.a, filter.b}))
      ensures filter.Seen() == Next(seen, Received(raw))
      ensures result == mm.decodeResult && Decoded(mm, raw, seen)
    {
      hide Remainder, Filter.Valid, Filter.Seen, ErrorCorrector.Valid, PatternOf, Repaired, FixedType, AA,
           Checksum, Epochs.Add, InterrogatorCode, StartsWithZeros, Judgement, IntactSquitter, CorrectedBits;
      UncorrectedIsIntact(raw, seen, Options());
      var stop := Check(mm, raw, seen);
      if !stop {
        Conclude(mm, raw, seen);
      }
      result := mm.decodeResult;
    }

    // Checksum work; decoding stops at the first failure unless everything is to be decoded.
    method Check(mm: ModesMessage, ghost raw: Frame, ghost seen: Epochs) returns (stop: bool)
      requires Ready() && Apart(mm.msg) && mm !in corrector.Repr
      requires mm.msg[..] == raw && filter.Seen() == seen
      modifies mm, mm.msg
      ensures Ready() && filter.Seen() == seen
      ensures if stop then mm.decodeResult == Verdict(raw, seen, Options()) != 0 && !decodeAll else Checked(mm, raw, seen)
    {
      hide Remainder, Filter.Valid, Filter.Seen, ErrorCorrector.Valid, PatternOf, Repaired, FixedType, AA,
           Checksum, InterrogatorCode, StartsWithZeros, Judgement, CorrectedBits;
      mm.decodeResult := 0;
      var zeros := AllZeros(mm.msg);
      if zeros {
        mm.decodeResult := -2;
        if !decodeAll {
          return true;
        }
      }
      var msgtype, crc, correctedbits, iid, code := CheckMessage(mm.msg);
      mm.msgtype, mm.crc, mm.correctedbits, mm.iid := msgtype, crc, correctedbits, iid;
      if code != 0 {
        mm.decodeResult := code;
        if !decodeAll {
          return true;
        }
      }
      stop := false;
    }

    // The sender's address, and its addition to the filter.
    method Conclude(mm: ModesMessage, ghost raw: Frame, ghost seen: Epochs)
      requires Ready() && Apart(mm.msg) && mm !in corrector.Repr && mm.msg.Length == MSG_BYTES && filter.Seen() == seen
      requires Checked(mm, raw, seen)
      modifies mm`addr, filter, filter.a, filter.b
      ensures Ready() && fresh({filter.a, filter.b} - old({filter.a, filter.b}))
      ensures filter.Seen() == Next(seen, Received(raw))
      ensures Decoded(mm, raw, seen)
    {
      hide Remainder, Filter.Valid, Filter.Seen, ErrorCorrector.Valid, PatternOf, Repaired, FixedType, AA,
           Checksum, Epochs.Add, InterrogatorCode, StartsWithZeros, Judgement, IntactSquitter, CorrectedBits;
      UncorrectedIsIntact(raw, seen, Options());
      JudgedFormats(FixedType(raw, Options()), seen, Options());
      mm.addr := HEX_UNKNOWN;
      if AddressParity(mm.msgtype) {
        var known := filter.IcaoFilterTest(mm.crc);
        if known || (mm.msgtype != 20 && mm.msgtype != 21) {
          mm.addr := mm.crc;
        }
      } else if (mm.msgtype == 11 || mm.msgtype == 17 || mm.msgtype == 18) && mm.decodeResult == 0 {
        mm.addr := GetAA(mm.msg);
      }
      Admit(mm.decodeResult, mm.correctedbits, mm.msgtype, mm.iid, mm.addr);
    }

    // Repairs the message as far as possible and judges it.
    method CheckMessage(msg: array<byte>)
      returns (msgtype: nat, crc: Word, correctedbits: nat, iid: nat, code: int)
      requires Ready() && Apart(msg) && msg.Length == MSG_BYTES
      modifies msg
      ensures var m := FixedType(old(msg[..]), Options());
              && msg[..] == Repaired(m, Options()) && msgtype == DF(m) && crc == Checksum(m)
              && correctedbits == CorrectedBits(old(msg[..]), Options())
              && (msgtype == 11 ==> iid == InterrogatorCode(m, Options()))
              && code == Judgement(m, filter.Seen(), Options())
    {
      hide Remainder, Filter.Valid, Filter.Seen, ErrorCorrector.Valid, PatternOf, Repaired, AA, InterrogatorCode, Judgement;
      ghost var raw: Frame := msg[..];
      assert TypeFixed(raw, Options()) ==> !Damaged(AsSquitter(raw)) && raw[0] != 0 by {
        if TypeFixed(raw, Options()) { FixedIsIntact(raw); }
      }
      msgtype := msg[0] / 8;
      var origByte;
      origByte, msgtype := FixDF17msgtype(msg, msgtype);
      crc := MessageChecksum(msg, MessageBits(msgtype));
      code, correctedbits, iid := Judge(msg, msgtype, crc);
      if origByte != 0 {
        correctedbits := 1;
      }
    }

    predicate Admissible(decodeResult: int, correctedbits: nat, msgtype: nat, iid: nat) {
      decodeResult == 0 && correctedbits == 0 && (msgtype == 17 || (msgtype == 11 && iid == 0))
    }

    // Adds the address of a squitter without errors; nothing else adds addresses.
    method Admit(decodeResult: int, correctedbits: nat, msgtype: nat, iid: nat, addr: uint32)
      requires Ready() && addr != EMPTY
      modifies filter, filter.a, filter.b
      ensures Ready() && fresh({filter.a, filter.b} - old({filter.a, filter.b}))
      ensures filter.Seen() == if Admissible(decodeResult, correctedbits, msgtype, iid) then old(filter.Seen()).Add(addr)
                               else old(filter.Seen())
    {
      hide Filter.Valid, Filter.Seen, ErrorCorrector.Valid, Epochs.Add;
      if Admissible(decodeResult, correctedbits, msgtype, iid) {
        filter.IcaoFilterAdd(addr);
      }
    }

    // Run periodically.
    method Expire()
      requires Valid()
      modifies filter, filter.a, filter.b, this`events
      ensures Valid() && fresh({filter.a, filter.b} - old({filter.a, filter.b}))
      ensures events == old(events) + [Expired]
    {
      hide Filter.Valid, Filter.Seen, ErrorCorrector.Valid, Epochs.Expire;
      assert (events + [Expired])[..|events|] == events;
      filter.IcaoFilterExpire();
      events := events + [Expired];
    }

    // How plausible the message looks; leaves it as it was.
    method ScoreModesMessage(msg: array<byte>, validbits: nat) returns (score: int)
      requires Ready() && Apart(msg) && msg.Length == MSG_BYTES
      modifies msg
      ensures msg[..] == old(msg[..])
      ensures score == Score(msg[..], filter.Seen(), Options(), validbits)
    {
      hide Remainder, Filter.Valid, Filter.Seen, ErrorCorrector.Valid, PatternOf, AA, SquitterScore;
      if validbits < SHORT_BITS {
        return -2;
      }
      ghost var raw: Frame := msg[..];
      var msgtype := msg[0] / 8;
      if validbits >= LONG_BITS {
        var origByte, fixedType := FixDF17msgtype(msg, msgtype);
        msgtype := fixedType;
        if origByte != 0 {
          var addr := GetAA(msg);
          msg[0] := origByte;
          assert msg[..] == raw;
          AddressUntouched(raw);
          var known := filter.IcaoFilterTest(addr);
          return if known then 900 else 700;
        }
      }
      var zeros := AllZeros(msg);
      if validbits < MessageBits(msgtype) || zeros {
        return -2;
      }
      score := ScoreByFormat(msg, msgtype);
    }

    method ScoreByFormat(msg: array<byte>, msgtype: nat) returns (score: int)
      requires Ready() && msg.Length == MSG_BYTES && msgtype == DF(msg[..])
      ensures score == SquitterScore(msg[..], filter.Seen(), Options())
    {
      hide Remainder, Filter.Valid, Filter.Seen, ErrorCorrector.Valid, PatternOf, AA;
      ghost var m: Frame := msg[..];
      PatternSize(m, Options());
      var msgbits := MessageBits(msgtype);
      var crc := MessageChecksum(msg, msgbits);
      if AddressParity(msgtype) && msgtype < 24 {
        var known := filter.IcaoFilterTest(crc);
        return if known then 1000 else -1;
      }
      if msgtype != 11 && msgtype != 17 && msgtype != 18 {
        return -2;
      }
      var addr := GetAA(msg);
      if msgtype == 11 && crc < 0x80 {
        var known := filter.IcaoFilterTest(addr);
        var iid := crc % 0x80;
        if iid == 0 {
          return if known then 1600 else 750;
        }
        return if known then 1000 else -1;
      }
      var info, e := Diagnose(msg, crc, msgbits);
      if info.None? || (msgtype == 11 && info.value.errors > 1) {
        return -2;
      }
      var corrected := CorrectAaField(addr, info.value, e);
      var known := filter.IcaoFilterTest(corrected);
      if msgtype == 11 {
        return if known then 800 else -1;
      }
      score := (if known then 1800 else 1400) / (info.value.errors + 1);
    }
  }

  lemma AddressUntouched(m: Frame)
    ensures AA(AsSquitter(m)) == AA(m)
  {
  }
}
