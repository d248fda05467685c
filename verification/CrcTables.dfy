// The lookup tables of crc.c and the byte-at-a-time checksum that uses them.
module CrcTables {
  import opened Bits
  import opened Crc
  import opened CrcDamage

  // Remainder of a byte followed by 24 zero bits.
  function TableEntry(i: byte): Word {
    WideByte(i);
    ShiftN(Shl(i, 16), 8)
  }

  lemma WideByte(i: byte)
    ensures Shl(i, 16) < 0x1000000 && ShiftN(i, 16) == Shl(i, 16)
  {
    Pow2Values();
    ShlSmall(i, 8, 16);
    ShiftNSmall(i, 16);
  }

  class ChecksumTables {
    const crcTable: array<Word>
    const singleBitSyndrome: array<Word>

    ghost predicate TableReady()
      reads crcTable
    {
      crcTable.Length == 256 && forall i: byte :: crcTable[i] == TableEntry(i)
    }

    ghost predicate Valid()
      reads crcTable, singleBitSyndrome
    {
      && TableReady()
      && singleBitSyndrome.Length == 112
      && forall i :: 0 <= i < 112 ==> singleBitSyndrome[i] == Power(111 - i)
    }

    constructor InitLookupTables()
      ensures Valid() && fresh(crcTable) && fresh(singleBitSyndrome)
    {
      crcTable := new Word[256];
      singleBitSyndrome := new Word[112];
      new;
      for i: int := 0 to 256
        invariant forall k: byte :: k < i ==> crcTable[k] == TableEntry(k)
      {
        crcTable[i] := ByteEntry(i);
      }
      FillSyndromes();
    }

    method FillSyndromes()
      requires TableReady() && singleBitSyndrome.Length == 112 && crcTable != singleBitSyndrome
      modifies singleBitSyndrome
      ensures forall i :: 0 <= i < 112 ==> singleBitSyndrome[i] == Power(111 - i)
    {
      hide Flip, XorByte, BitMask, Remainder, Power, TableEntry;
      var msg := new byte[14](i => 0);
      assert msg[..] == Zeros(14);
      for i := 0 to 112
        invariant TableReady() && fresh(msg) && msg[..] == Zeros(14)
        invariant forall k :: 0 <= k < i ==> singleBitSyndrome[k] == Power(111 - k)
      {
        FlipBit(msg, i);
        var syndrome := ModesChecksum(msg, 112);
        assert msg[..14] == msg[..];
        SyndromeOfBit(i);
        singleBitSyndrome[i] := syndrome;
        FlipBit(msg, i);
        FlipTwice(Zeros(14), i);
      }
    }

    static method ByteEntry(i: byte) returns (entry: Word)
      ensures entry == TableEntry(i)
    {
      hide Xor, Shr, Shift, ShiftN;
      // 32-bit register whose upper eight bits are never read
      var c: nat := Shl(i, 16);
      WideByte(i);
      Pow2Values();
      LowSmall(c, 24);
      ghost var start: Word := c;
      NoShift(start);
      for j := 0 to 8
        invariant Low(c, 24) == ShiftN(start, j)
      {
        RegisterStep(c);
        NextShift(start, j);
        if Shr(c, 23) % 2 == 1 {
          c := Xor(Low(2 * c, 32), POLY);
        } else {
          c := Low(2 * c, 32);
        }
      }
      entry := Low(c, 24);
    }

    // The table-driven loop computes the bitwise remainder of the whole message.
    method ModesChecksum(message: array<byte>, bits: nat) returns (rem: Word)
      requires TableReady()
      requires bits % 8 == 0 && bits / 8 >= 3 && message.Length >= bits / 8
      ensures rem == Remainder(message[..bits / 8])
    {
      rem := 0;
      var n := bits / 8;
      ShiftNZero(24);
      for i := 0 to n - 3
        invariant rem == ShiftN(Remainder(message[..i]), 24)
      {
        TableStep(message[..i], rem, message[i]);
        assert message[..i + 1] == message[..i] + [message[i]];
        // (rem & 0xff0000) >> 16 is the third byte of rem
        rem := Low(Xor(Shl(rem, 8), crcTable[TableIndex(message[i], rem)]), 24);
      }
      assert message[..n] == message[..n - 3] + [message[n - 3], message[n - 2], message[n - 1]];
      RemainderTail(message[..n - 3], message[n - 3], message[n - 2], message[n - 1]);
      rem := Xor(Xor(Xor(rem, Shl(message[n - 3], 16)), Shl(message[n - 2], 8)), message[n - 1]);
    }
  }

  function TableIndex(b: byte, rem: Word): (i: byte)
    ensures Shr(rem, 16) < 0x100 && i == XorByte(b, Shr(rem, 16))
  {
    Pow2Values();
    ShrSmall(rem, 24, 16);
    XorByte(b, Shr(rem, 16))
  }

  lemma NoShift(r: Word)
    ensures ShiftN(r, 0) == r
  {
  }

  lemma NextShift(r: Word, n: nat)
    ensures ShiftN(r, n + 1) == Shift(ShiftN(r, n))
  {
  }

  // One round of the table construction, on the low 24 bits of the register.
  lemma RegisterStep(c: nat)
    ensures Low(c, 24) < 0x1000000
    ensures var d := if Shr(c, 23) % 2 == 1 then Xor(Low(2 * c, 32), POLY) else Low(2 * c, 32);
            Low(d, 24) == Shift(Low(c, 24))
  {
    hide *;
    Pow2Values();
    ShiftFolds(Low(c, 24));
    BitOfLow(c, 24, 23);
    LowLow(c, 24, 23);
    LowLow(2 * c, 32, 24);
    LowDouble(c, 23);
    LowSmall(POLY, 24);
    XorLow(Low(2 * c, 32), POLY, 24);
    FoldedCases(Low(c, 23), Shr(Low(c, 24), 23));
  }

  lemma FoldedCases(low: nat, top: nat)
    ensures Folded(low, top) == if top == 1 then Xor(2 * low, POLY) else 2 * low
  {
  }

  // Shifting a word by a byte: the upper byte goes through the table.
  lemma TableStep(msg: seq<byte>, rem: Word, b: byte)
    requires rem == ShiftN(Remainder(msg), 24)
    ensures Low(Xor(Shl(rem, 8), TableEntry(TableIndex(b, rem))), 24) == ShiftN(Remainder(msg + [b]), 24)
  {
    hide *;
    var p, h, l := Remainder(msg), Shr(rem, 16), Low(rem, 16);
    var low := Shl(l, 8);
    // the new remainder: rem shifted by a byte, xor b shifted by three
    RemainderStep(msg, b);
    ShiftNLinear(ShiftN(p, 8), b, 24);
    ShiftNSum(p, 8, 24);
    ShiftNSum(p, 24, 8);
    EntryIsShift(b);
    WordParts(rem);
    EntryIsShift(h);
    ShiftNLinear(Shl(h, 16), l, 8);
    // the register: its lower two bytes, xor the table entry of b xor its upper byte
    EntryLinear(b, h);
    LowOfRegister(rem, TableEntry(TableIndex(b, rem)));
    XorComm(TableEntry(h), low);
    XorAssoc(low, TableEntry(h), TableEntry(b));
    XorComm(TableEntry(h), TableEntry(b));
  }

  lemma WordParts(rem: Word)
    ensures var h, l := Shr(rem, 16), Low(rem, 16);
            && h < 0x100 && l < 0x10000 && Shl(h, 16) < 0x1000000
            && rem == Xor24(Shl(h, 16), l) && ShiftN(l, 8) == Shl(l, 8)
  {
    var h, l := Shr(rem, 16), Low(rem, 16);
    Pow2Values();
    ShrSmall(rem, 24, 16);
    WideByte(h);
    ShiftNSmall(l, 8);
    Split(rem, 16);
    XorAdds(h, l, 16);
    hide Xor, Shl, Shr, Low;
  }

  lemma EntryIsShift(b: byte)
    ensures Shl(b, 16) < 0x1000000 && TableEntry(b) == ShiftN(Shl(b, 16), 8) == ShiftN(b, 24)
  {
    WideByte(b);
    ShiftNSum(b, 16, 8);
  }

  lemma EntryLinear(b: byte, c: byte)
    ensures TableEntry(XorByte(b, c)) == Xor(TableEntry(b), TableEntry(c))
  {
    hide *;
    EntryIsShift(b);
    EntryIsShift(c);
    EntryIsShift(XorByte(b, c));
    ShiftNLinear(b, c, 24);
  }

  lemma LowOfRegister(rem: Word, t: Word)
    ensures Low(Xor(Shl(rem, 8), t), 24) == Xor(Shl(Low(rem, 16), 8), t)
  {
    hide *;
    Pow2Values();
    XorLow(Shl(rem, 8), t, 24);
    LowShl(rem, 8, 16);
    LowSmall(t, 24);
  }

  lemma SyndromeOfBit(i: nat)
    requires i < 112
    ensures Remainder(Flip(Zeros(14), i)) == Power(111 - i)
  {
    FlipRemainder(Zeros(14), i);
    RemainderOfZeros(14);
    XorZero(Power(111 - i));
  }

  // message[i / 8] ^= 1 << (7 - (i & 7))
  method FlipBit(message: array<byte>, i: nat)
    requires i < 8 * message.Length
    modifies message
    ensures message[..] == Flip(old(message[..]), i)
  {
    message[i / 8] := XorByte(message[i / 8], BitMask(i));
  }
}
