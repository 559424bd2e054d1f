/**
  * The CRC-32 of the image builder: a loop over a table of 256 constants.
  *
  * The reference is the bit-at-a-time definition of section 8 of RFC 1952: reflected
  * polynomial 0xEDB88320, register preset to ones, result complemented. It knows no table.
  */
module Crc32 {

  /** A 32-bit unsigned register. */
  datatype Word = Word(v: bv32) {
    predicate Odd() { v & 1 == 1 }
  }

  const POLY: bv32 := 0xEDB88320
  const ONES := Word(0xFFFF_FFFF)

  function Xor(a: Word, b: Word): Word { Word(a.v ^ b.v) }
  function Half(a: Word): Word { Word(a.v >> 1) }
  function Down8(a: Word): Word { Word(a.v >> 8) }
  function Up8(a: Word): Word { Word(a.v << 8) }
  function LowByte(a: Word): Word { Word(a.v & 0xFF) }
  function HighBytes(a: Word): Word { Word(a.v & 0xFFFF_FF00) }
  function OfByte(b: bv8): Word { Word(b as bv32) }

  // ---------------------------------------------------------------- the reference

  /** Feeds one message bit into the register. */
  function FeedBit(c: Word, bit: bool): Word {
    Word(if c.Odd() != bit then (c.v >> 1) ^ POLY else c.v >> 1)
  }

  function FeedBits(c: Word, bits: seq<bool>): Word
    decreases |bits|
  {
    if bits == [] then c else FeedBits(FeedBit(c, bits[0]), bits[1..])
  }

  /** The low k bits of a word, least significant first. */
  function LowBits(w: Word, k: nat): (bits: seq<bool>)
    ensures |bits| == k
    decreases k
  {
    if k == 0 then [] else [w.Odd()] + LowBits(Half(w), k - 1)
  }

  function BitsOf(data: seq<bv8>): seq<bool>
    decreases |data|
  {
    if data == [] then [] else LowBits(OfByte(data[0]), 8) + BitsOf(data[1..])
  }

  /** CRC-32 of a message, straight from its bits. */
  function Reference(data: seq<bv8>): Word {
    Xor(FeedBits(ONES, BitsOf(data)), ONES)
  }

  // ---------------------------------------------------------------- the table

  datatype Row = Row(e0: bv32, e1: bv32, e2: bv32, e3: bv32, e4: bv32, e5: bv32, e6: bv32, e7: bv32) {
    function At(j: bv32): bv32 {
      match j
      case 0 => e0
      case 1 => e1
      case 2 => e2
      case 3 => e3
      case 4 => e4
      case 5 => e5
      case 6 => e6
      case _ => e7
    }
  }

  function RowsA(r: bv32): Row {
    match r
    case 0 => Row(0x00000000, 0x77073096, 0xee0e612c, 0x990951ba, 0x076dc419, 0x706af48f, 0xe963a535, 0x9e6495a3)
    case 1 => Row(0x0edb8832, 0x79dcb8a4, 0xe0d5e91e, 0x97d2d988, 0x09b64c2b, 0x7eb17cbd, 0xe7b82d07, 0x90bf1d91)
    case 2 => Row(0x1db71064, 0x6ab020f2, 0xf3b97148, 0x84be41de, 0x1adad47d, 0x6ddde4eb, 0xf4d4b551, 0x83d385c7)
    case 3 => Row(0x136c9856, 0x646ba8c0, 0xfd62f97a, 0x8a65c9ec, 0x14015c4f, 0x63066cd9, 0xfa0f3d63, 0x8d080df5)
    case 4 => Row(0x3b6e20c8, 0x4c69105e, 0xd56041e4, 0xa2677172, 0x3c03e4d1, 0x4b04d447, 0xd20d85fd, 0xa50ab56b)
    case 5 => Row(0x35b5a8fa, 0x42b2986c, 0xdbbbc9d6, 0xacbcf940, 0x32d86ce3, 0x45df5c75, 0xdcd60dcf, 0xabd13d59)
    case 6 => Row(0x26d930ac, 0x51de003a, 0xc8d75180, 0xbfd06116, 0x21b4f4b5, 0x56b3c423, 0xcfba9599, 0xb8bda50f)
    case _ => Row(0x2802b89e, 0x5f058808, 0xc60cd9b2, 0xb10be924, 0x2f6f7c87, 0x58684c11, 0xc1611dab, 0xb6662d3d)
  }

  function RowsB(r: bv32): Row {
    match r
    case 8 => Row(0x76dc4190, 0x01db7106, 0x98d220bc, 0xefd5102a, 0x71b18589, 0x06b6b51f, 0x9fbfe4a5, 0xe8b8d433)
    case 9 => Row(0x7807c9a2, 0x0f00f934, 0x9609a88e, 0xe10e9818, 0x7f6a0dbb, 0x086d3d2d, 0x91646c97, 0xe6635c01)
    case 10 => Row(0x6b6b51f4, 0x1c6c6162, 0x856530d8, 0xf262004e, 0x6c0695ed, 0x1b01a57b, 0x8208f4c1, 0xf50fc457)
    case 11 => Row(0x65b0d9c6, 0x12b7e950, 0x8bbeb8ea, 0xfcb9887c, 0x62dd1ddf, 0x15da2d49, 0x8cd37cf3, 0xfbd44c65)
    case 12 => Row(0x4db26158, 0x3ab551ce, 0xa3bc0074, 0xd4bb30e2, 0x4adfa541, 0x3dd895d7, 0xa4d1c46d, 0xd3d6f4fb)
    case 13 => Row(0x4369e96a, 0x346ed9fc, 0xad678846, 0xda60b8d0, 0x44042d73, 0x33031de5, 0xaa0a4c5f, 0xdd0d7cc9)
    case 14 => Row(0x5005713c, 0x270241aa, 0xbe0b1010, 0xc90c2086, 0x5768b525, 0x206f85b3, 0xb966d409, 0xce61e49f)
    case _ => Row(0x5edef90e, 0x29d9c998, 0xb0d09822, 0xc7d7a8b4, 0x59b33d17, 0x2eb40d81, 0xb7bd5c3b, 0xc0ba6cad)
  }

  function RowsC(r: bv32): Row {
    match r
    case 16 => Row(0xedb88320, 0x9abfb3b6, 0x03b6e20c, 0x74b1d29a, 0xead54739, 0x9dd277af, 0x04db2615, 0x73dc1683)
    case 17 => Row(0xe3630b12, 0x94643b84, 0x0d6d6a3e, 0x7a6a5aa8, 0xe40ecf0b, 0x9309ff9d, 0x0a00ae27, 0x7d079eb1)
    case 18 => Row(0xf00f9344, 0x8708a3d2, 0x1e01f268, 0x6906c2fe, 0xf762575d, 0x806567cb, 0x196c3671, 0x6e6b06e7)
    case 19 => Row(0xfed41b76, 0x89d32be0, 0x10da7a5a, 0x67dd4acc, 0xf9b9df6f, 0x8ebeeff9, 0x17b7be43, 0x60b08ed5)
    case 20 => Row(0xd6d6a3e8, 0xa1d1937e, 0x38d8c2c4, 0x4fdff252, 0xd1bb67f1, 0xa6bc5767, 0x3fb506dd, 0x48b2364b)
    case 21 => Row(0xd80d2bda, 0xaf0a1b4c, 0x36034af6, 0x41047a60, 0xdf60efc3, 0xa867df55, 0x316e8eef, 0x4669be79)
    case 22 => Row(0xcb61b38c, 0xbc66831a, 0x256fd2a0, 0x5268e236, 0xcc0c7795, 0xbb0b4703, 0x220216b9, 0x5505262f)
    case _ => Row(0xc5ba3bbe, 0xb2bd0b28, 0x2bb45a92, 0x5cb36a04, 0xc2d7ffa7, 0xb5d0cf31, 0x2cd99e8b, 0x5bdeae1d)
  }

  function RowsD(r: bv32): Row {
    match r
    case 24 => Row(0x9b64c2b0, 0xec63f226, 0x756aa39c, 0x026d930a, 0x9c0906a9, 0xeb0e363f, 0x72076785, 0x05005713)
    case 25 => Row(0x95bf4a82, 0xe2b87a14, 0x7bb12bae, 0x0cb61b38, 0x92d28e9b, 0xe5d5be0d, 0x7cdcefb7, 0x0bdbdf21)
    case 26 => Row(0x86d3d2d4, 0xf1d4e242, 0x68ddb3f8, 0x1fda836e, 0x81be16cd, 0xf6b9265b, 0x6fb077e1, 0x18b74777)
    case 27 => Row(0x88085ae6, 0xff0f6a70, 0x66063bca, 0x11010b5c, 0x8f659eff, 0xf862ae69, 0x616bffd3, 0x166ccf45)
    case 28 => Row(0xa00ae278, 0xd70dd2ee, 0x4e048354, 0x3903b3c2, 0xa7672661, 0xd06016f7, 0x4969474d, 0x3e6e77db)
    case 29 => Row(0xaed16a4a, 0xd9d65adc, 0x40df0b66, 0x37d83bf0, 0xa9bcae53, 0xdebb9ec5, 0x47b2cf7f, 0x30b5ffe9)
    case 30 => Row(0xbdbdf21c, 0xcabac28a, 0x53b39330, 0x24b4a3a6, 0xbad03605, 0xcdd70693, 0x54de5729, 0x23d967bf)
    case _ => Row(0xb3667a2e, 0xc4614ab8, 0x5d681b02, 0x2a6f2b94, 0xb40bbe37, 0xc30c8ea1, 0x5a05df1b, 0x2d02ef8d)
  }

  function TableRow(r: bv32): Row {
    if r < 8 then RowsA(r) else if r < 16 then RowsB(r) else if r < 24 then RowsC(r) else RowsD(r)
  }

  /** The entry of the constant table, eight to a row, at an index below 256. */
  function Table(i: Word): Word {
    Word(TableRow(i.v >> 3).At(i.v & 7))
  }

  // ---------------------------------------------------------------- xor on words

  lemma WordEquality(x: Word, a: Word, b: Word)
    requires x.v == a.v ^ b.v
    ensures x == Xor(a, b)
  {}

  lemma XorAssociative(a: Word, b: Word, c: Word)
    ensures Xor(Xor(a, b), c) == Xor(a, Xor(b, c))
  {}

  lemma XorCancels(a: Word, b: Word)
    ensures Xor(Xor(a, b), b) == a
  {}

  lemma XorZero(a: Word)
    ensures Xor(a, Word(0)) == a
  {}

  lemma XorInjective(a: Word, b: Word, c: Word)
    requires Xor(a, c) == Xor(b, c)
    ensures a == b
  {
    hide Xor;
    XorCancels(a, c);
    XorCancels(b, c);
  }

  lemma Parity(a: Word)
    ensures a.v & 1 != 1 ==> a.v & 1 == 0
  {}

  // ---------------------------------------------------------------- shift steps

  function Shift(c: Word): Word {
    Word(if c.v & 1 == 1 then (c.v >> 1) ^ POLY else c.v >> 1)
  }

  function Shift8(c: Word): Word {
    Shift(Shift(Shift(Shift(Shift(Shift(Shift(Shift(c))))))))
  }

  lemma ShiftXorOddOdd(a: Word, b: Word)
    requires a.v & 1 == 1 && b.v & 1 == 1
    ensures Shift(Xor(a, b)).v == Shift(a).v ^ Shift(b).v
  {}

  lemma ShiftXorOddEven(a: Word, b: Word)
    requires a.v & 1 == 1 && b.v & 1 == 0
    ensures Shift(Xor(a, b)).v == Shift(a).v ^ Shift(b).v
  {}

  lemma ShiftXorEvenOdd(a: Word, b: Word)
    requires a.v & 1 == 0 && b.v & 1 == 1
    ensures Shift(Xor(a, b)).v == Shift(a).v ^ Shift(b).v
  {}

  lemma ShiftXorEvenEven(a: Word, b: Word)
    requires a.v & 1 == 0 && b.v & 1 == 0
    ensures Shift(Xor(a, b)).v == Shift(a).v ^ Shift(b).v
  {}

  /** One shift step is linear over xor. */
  lemma ShiftXor(a: Word, b: Word)
    ensures Shift(Xor(a, b)) == Xor(Shift(a), Shift(b))
  {
    hide Shift, Xor;
    Parity(a);
    Parity(b);
    if a.v & 1 == 1 {
      if b.v & 1 == 1 { ShiftXorOddOdd(a, b); } else { ShiftXorOddEven(a, b); }
    } else {
      if b.v & 1 == 1 { ShiftXorEvenOdd(a, b); } else { ShiftXorEvenEven(a, b); }
    }
    WordEquality(Shift(Xor(a, b)), Shift(a), Shift(b));
  }

  lemma Shift8Xor(a: Word, b: Word)
    ensures Shift8(Xor(a, b)) == Xor(Shift8(a), Shift8(b))
  {
    hide Shift, Xor;
    var a1, b1 := Shift(a), Shift(b);
    var a2, b2 := Shift(a1), Shift(b1);
    var a3, b3 := Shift(a2), Shift(b2);
    var a4, b4 := Shift(a3), Shift(b3);
    var a5, b5 := Shift(a4), Shift(b4);
    var a6, b6 := Shift(a5), Shift(b5);
    var a7, b7 := Shift(a6), Shift(b6);
    ShiftXor(a, b);
    ShiftXor(a1, b1);
    ShiftXor(a2, b2);
    ShiftXor(a3, b3);
    ShiftXor(a4, b4);
    ShiftXor(a5, b5);
    ShiftXor(a6, b6);
    ShiftXor(a7, b7);
  }

  /** The polynomial has its top bit set, so a shift step loses nothing. */
  lemma ShiftInjective(a: Word, b: Word)
    requires Shift(a) == Shift(b)
    ensures a == b
  {}

  lemma {:induction false} Shift8Injective(a: Word, b: Word)
    requires Shift8(a) == Shift8(b)
    ensures a == b
  {
    hide Shift;
    var a1, b1 := Shift(a), Shift(b);
    var a2, b2 := Shift(a1), Shift(b1);
    var a3, b3 := Shift(a2), Shift(b2);
    var a4, b4 := Shift(a3), Shift(b3);
    var a5, b5 := Shift(a4), Shift(b4);
    var a6, b6 := Shift(a5), Shift(b5);
    var a7, b7 := Shift(a6), Shift(b6);
    ShiftInjective(a7, b7);
    ShiftInjective(a6, b6);
    ShiftInjective(a5, b5);
    ShiftInjective(a4, b4);
    ShiftInjective(a3, b3);
    ShiftInjective(a2, b2);
    ShiftInjective(a1, b1);
    ShiftInjective(a, b);
  }

  lemma ShiftEven(h: Word)
    requires h.v & 1 == 0
    ensures Shift(h) == Half(h)
  {}

  lemma LowByteClear(h: Word)
    requires h.v & 0xFF == 0
    ensures h.v & 1 == 0 && Half(h).v & 1 == 0 && Half(Half(h)).v & 1 == 0 && Half(Half(Half(h))).v & 1 == 0
  {}

  lemma LowNibbleClear(h: Word)
    requires h.v & 0xFF == 0
    ensures var g := Half(Half(Half(Half(h)))); g.v & 1 == 0 && Half(g).v & 1 == 0 && Half(Half(g)).v & 1 == 0
                                                && Half(Half(Half(g))).v & 1 == 0
  {}

  lemma EightHalves(h: Word)
    ensures Half(Half(Half(Half(Half(Half(Half(Half(h)))))))) == Down8(h)
  {}

  /** Eight steps over a register whose low byte is clear only move it down. */
  lemma Shift8High(h: Word)
    requires h.v & 0xFF == 0
    ensures Shift8(h) == Down8(h)
  {
    hide Shift, Half, Down8;
    LowByteClear(h);
    LowNibbleClear(h);
    var g := Half(Half(Half(Half(h))));
    ShiftEven(h);
    ShiftEven(Half(h));
    ShiftEven(Half(Half(h)));
    ShiftEven(Half(Half(Half(h))));
    ShiftEven(g);
    ShiftEven(Half(g));
    ShiftEven(Half(Half(g)));
    ShiftEven(Half(Half(Half(g))));
    EightHalves(h);
  }

  /** Xoring in a value above the low byte commutes with the eight steps. */
  lemma Shift8XorHigh(a: Word, h: Word)
    requires h.v & 0xFF == 0
    ensures Shift8(Xor(a, h)) == Xor(Shift8(a), Down8(h))
  {
    hide Shift8, Xor, Down8;
    Shift8Xor(a, h);
    Shift8High(h);
  }

  // ---------------------------------------------------------------- the table is eight shift steps

  ghost predicate RowIsShifts(row: Row, base: Word) {
    && Word(row.e0) == Shift8(base)
    && Word(row.e1) == Xor(Word(row.e0), Word(0x77073096))
    && Word(row.e2) == Xor(Word(row.e0), Word(0xee0e612c))
    && Word(row.e3) == Xor(Word(row.e0), Word(0x990951ba))
    && Word(row.e4) == Xor(Word(row.e0), Word(0x076dc419))
    && Word(row.e5) == Xor(Word(row.e0), Word(0x706af48f))
    && Word(row.e6) == Xor(Word(row.e0), Word(0xe963a535))
    && Word(row.e7) == Xor(Word(row.e0), Word(0x9e6495a3))
  }

  lemma FirstRow()
    ensures Shift8(Word(1)) == Word(0x77073096) && Shift8(Word(2)) == Word(0xee0e612c)
    ensures Shift8(Word(3)) == Word(0x990951ba) && Shift8(Word(4)) == Word(0x076dc419)
    ensures Shift8(Word(5)) == Word(0x706af48f) && Shift8(Word(6)) == Word(0xe963a535)
    ensures Shift8(Word(7)) == Word(0x9e6495a3) && Shift8(Word(0)) == Word(0)
  {}

  lemma RowsAAreShifts(r: bv32)
    requires r < 8
    ensures RowIsShifts(RowsA(r), Word(r << 3))
  {
    match r
    case 0 => assert RowIsShifts(RowsA(0), Word(0));
    case 1 => assert RowIsShifts(RowsA(1), Word(8));
    case 2 => assert RowIsShifts(RowsA(2), Word(16));
    case 3 => assert RowIsShifts(RowsA(3), Word(24));
    case 4 => assert RowIsShifts(RowsA(4), Word(32));
    case 5 => assert RowIsShifts(RowsA(5), Word(40));
    case 6 => assert RowIsShifts(RowsA(6), Word(48));
    case _ => assert r == 7; assert RowIsShifts(RowsA(7), Word(56));
  }

  lemma RowsBAreShifts(r: bv32)
    requires 8 <= r < 16
    ensures RowIsShifts(RowsB(r), Word(r << 3))
  {
    match r
    case 8 => assert RowIsShifts(RowsB(8), Word(64));
    case 9 => assert RowIsShifts(RowsB(9), Word(72));
    case 10 => assert RowIsShifts(RowsB(10), Word(80));
    case 11 => assert RowIsShifts(RowsB(11), Word(88));
    case 12 => assert RowIsShifts(RowsB(12), Word(96));
    case 13 => assert RowIsShifts(RowsB(13), Word(104));
    case 14 => assert RowIsShifts(RowsB(14), Word(112));
    case _ => assert r == 15; assert RowIsShifts(RowsB(15), Word(120));
  }

  lemma RowsCAreShifts(r: bv32)
    requires 16 <= r < 24
    ensures RowIsShifts(RowsC(r), Word(r << 3))
  {
    match r
    case 16 => assert RowIsShifts(RowsC(16), Word(128));
    case 17 => assert RowIsShifts(RowsC(17), Word(136));
    case 18 => assert RowIsShifts(RowsC(18), Word(144));
    case 19 => assert RowIsShifts(RowsC(19), Word(152));
    case 20 => assert RowIsShifts(RowsC(20), Word(160));
    case 21 => assert RowIsShifts(RowsC(21), Word(168));
    case 22 => assert RowIsShifts(RowsC(22), Word(176));
    case _ => assert r == 23; assert RowIsShifts(RowsC(23), Word(184));
  }

  lemma RowsDAreShifts(r: bv32)
    requires 24 <= r < 32
    ensures RowIsShifts(RowsD(r), Word(r << 3))
  {
    match r
    case 24 => assert RowIsShifts(RowsD(24), Word(192));
    case 25 => assert RowIsShifts(RowsD(25), Word(200));
    case 26 => assert RowIsShifts(RowsD(26), Word(208));
    case 27 => assert RowIsShifts(RowsD(27), Word(216));
    case 28 => assert RowIsShifts(RowsD(28), Word(224));
    case 29 => assert RowIsShifts(RowsD(29), Word(232));
    case 30 => assert RowIsShifts(RowsD(30), Word(240));
    case _ => assert r == 31; assert RowIsShifts(RowsD(31), Word(248));
  }

  lemma TableRowIsShifts(r: bv32)
    requires r < 32
    ensures RowIsShifts(TableRow(r), Word(r << 3))
  {
    hide RowIsShifts, RowsA, RowsB, RowsC, RowsD;
    if r < 8 {
      RowsAAreShifts(r);
    } else if r < 16 {
      RowsBAreShifts(r);
    } else if r < 24 {
      RowsCAreShifts(r);
    } else {
      RowsDAreShifts(r);
    }
  }

  lemma SplitIndex(i: Word)
    requires i.v < 256
    ensures i.v >> 3 < 32 && i.v & 7 < 8
    ensures i == Xor(Word((i.v >> 3) << 3), Word(i.v & 7))
  {}

  lemma RowAt(row: Row, base: Word, j: bv32)
    requires j < 8 && RowIsShifts(row, base)
    ensures Word(row.At(j)) == Xor(Shift8(base), Shift8(Word(j)))
  {
    hide Shift8, Xor;
    FirstRow();
    XorZero(Shift8(base));
    match j
    case 0 =>
    case 1 => assert j == 1;
    case 2 => assert j == 2;
    case 3 => assert j == 3;
    case 4 => assert j == 4;
    case 5 => assert j == 5;
    case 6 => assert j == 6;
    case _ => assert j == 7;
  }

  /** Every table entry is eight shift steps of its index. */
  lemma {:induction false} TableIsShift8(i: Word)
    requires i.v < 256
    ensures Table(i) == Shift8(i)
  {
    hide Shift8, RowIsShifts, TableRow, Xor;
    var r, j := i.v >> 3, i.v & 7;
    SplitIndex(i);
    TableRowIsShifts(r);
    RowAt(TableRow(r), Word(r << 3), j);
    Shift8Xor(Word(r << 3), Word(j));
  }

  // ---------------------------------------------------------------- one byte

  /** The register after one more message byte. */
  function Step(c: Word, b: bv8): Word { Shift8(Xor(c, OfByte(b))) }

  /** One turn of the table loop. */
  function TableStep(c: Word, b: bv8): Word {
    Xor(Table(LowByte(Xor(c, OfByte(b)))), Down8(c))
  }

  lemma LowIsByte(x: Word)
    ensures LowByte(x).v < 256
  {}

  lemma HighIsClear(x: Word)
    ensures HighBytes(x).v & 0xFF == 0
  {}

  lemma SplitBytes(x: Word)
    ensures x == Xor(LowByte(x), HighBytes(x))
  {}

  lemma ByteIsLow(c: Word, b: bv8)
    ensures Down8(HighBytes(Xor(c, OfByte(b)))) == Down8(c)
  {}

  lemma {:induction false} TableStepIsStep(c: Word, b: bv8)
    ensures TableStep(c, b) == Step(c, b)
  {
    hide Table, Xor, LowByte, HighBytes, Down8, OfByte, Shift8;
    var x := Xor(c, OfByte(b));
    SplitBytes(x);
    LowIsByte(x);
    HighIsClear(x);
    ByteIsLow(c, b);
    Shift8XorHigh(LowByte(x), HighBytes(x));
    TableIsShift8(LowByte(x));
  }

  lemma FeedBitOddOdd(s: Word, h: Word)
    requires s.v & 1 == 1 && h.v & 1 == 1
    ensures FeedBit(Xor(s, h), h.Odd()).v == Shift(s).v ^ Half(h).v
  {}

  lemma FeedBitOddEven(s: Word, h: Word)
    requires s.v & 1 == 1 && h.v & 1 == 0
    ensures FeedBit(Xor(s, h), h.Odd()).v == Shift(s).v ^ Half(h).v
  {}

  lemma FeedBitEvenOdd(s: Word, h: Word)
    requires s.v & 1 == 0 && h.v & 1 == 1
    ensures FeedBit(Xor(s, h), h.Odd()).v == Shift(s).v ^ Half(h).v
  {}

  lemma FeedBitEvenEven(s: Word, h: Word)
    requires s.v & 1 == 0 && h.v & 1 == 0
    ensures FeedBit(Xor(s, h), h.Odd()).v == Shift(s).v ^ Half(h).v
  {}

  /** Feeding the low bit of h into a register that already holds h takes one bit off both. */
  lemma FeedBitShifts(s: Word, h: Word)
    ensures FeedBit(Xor(s, h), h.Odd()) == Xor(Shift(s), Half(h))
  {
    hide Shift, Xor, Half, FeedBit;
    Parity(s);
    Parity(h);
    if s.v & 1 == 1 {
      if h.v & 1 == 1 { FeedBitOddOdd(s, h); } else { FeedBitOddEven(s, h); }
    } else {
      if h.v & 1 == 1 { FeedBitEvenOdd(s, h); } else { FeedBitEvenEven(s, h); }
    }
    WordEquality(FeedBit(Xor(s, h), h.Odd()), Shift(s), Half(h));
  }

  lemma ByteShiftedOut(b: bv8)
    ensures Down8(OfByte(b)) == Word(0)
  {}

  lemma FeedBitsCons(c: Word, bit: bool, rest: seq<bool>)
    ensures FeedBits(c, [bit] + rest) == FeedBits(FeedBit(c, bit), rest)
  {
    assert ([bit] + rest)[1..] == rest;
  }

  /** One feed of the low bit of h, with the remaining bits of h still to come. */
  lemma FeedLowBit(s: Word, h: Word, k: nat)
    requires 0 < k
    ensures FeedBits(Xor(s, h), LowBits(h, k)) == FeedBits(Xor(Shift(s), Half(h)), LowBits(Half(h), k - 1))
  {
    hide Shift, Xor, Half, FeedBit, FeedBits;
    FeedBitsCons(Xor(s, h), h.Odd(), LowBits(Half(h), k - 1));
    FeedBitShifts(s, h);
  }

  /** Feeding the eight bits of a byte, low bit first, is eight shift steps of the register xor the byte. */
  lemma FeedByte(c: Word, b: bv8)
    ensures FeedBits(c, LowBits(OfByte(b), 8)) == Step(c, b)
  {
    hide Shift, Xor, Half, FeedBit, FeedBits, LowBits, OfByte, Down8;
    var h := OfByte(b);
    var s := Xor(c, h);
    XorCancels(c, h);
    var s1, h1 := Shift(s), Half(h);
    var s2, h2 := Shift(s1), Half(h1);
    var s3, h3 := Shift(s2), Half(h2);
    var s4, h4 := Shift(s3), Half(h3);
    var s5, h5 := Shift(s4), Half(h4);
    var s6, h6 := Shift(s5), Half(h5);
    var s7, h7 := Shift(s6), Half(h6);
    FeedLowBit(s, h, 8);
    FeedLowBit(s1, h1, 7);
    FeedLowBit(s2, h2, 6);
    FeedLowBit(s3, h3, 5);
    FeedLowBit(s4, h4, 4);
    FeedLowBit(s5, h5, 3);
    FeedLowBit(s6, h6, 2);
    FeedLowBit(s7, h7, 1);
    EightHalves(h);
    ByteShiftedOut(b);
    XorZero(Shift8(s));
    FeedNothing(Shift8(s), Half(h7));
  }

  lemma FeedNothing(c: Word, h: Word)
    ensures FeedBits(c, LowBits(h, 0)) == c
  {}

  lemma {:induction false} FeedBitsAppend(c: Word, a: seq<bool>, b: seq<bool>)
    ensures FeedBits(c, a + b) == FeedBits(FeedBits(c, a), b)
    decreases |a|
  {
    hide FeedBit;
    if a == [] {
      assert a + b == b;
    } else {
      assert a + b == [a[0]] + (a[1..] + b);
      FeedBitsCons(c, a[0], a[1..] + b);
      FeedBitsAppend(FeedBit(c, a[0]), a[1..], b);
    }
  }

  // ---------------------------------------------------------------- whole messages

  /** The register after a whole message. */
  function Run(c: Word, data: seq<bv8>): Word
    decreases |data|
  {
    if data == [] then c else Run(Step(c, data[0]), data[1..])
  }

  lemma {:induction false} RunAppend(c: Word, a: seq<bv8>, b: seq<bv8>)
    ensures Run(c, a + b) == Run(Run(c, a), b)
    decreases |a|
  {
    hide Step;
    if a == [] {
      assert a + b == b;
    } else {
      assert (a + b)[1..] == a[1..] + b;
      RunAppend(Step(c, a[0]), a[1..], b);
    }
  }

  lemma RunSnoc(c: Word, a: seq<bv8>, b: bv8)
    ensures Run(c, a + [b]) == Step(Run(c, a), b)
  {
    hide Step;
    RunAppend(c, a, [b]);
  }

  lemma {:induction false} FeedBitsIsRun(c: Word, data: seq<bv8>)
    ensures FeedBits(c, BitsOf(data)) == Run(c, data)
    decreases |data|
  {
    hide Step, LowBits, OfByte, FeedBit;
    if data == [] {
      assert BitsOf(data) == [];
    } else {
      var bits := LowBits(OfByte(data[0]), 8);
      FeedBitsAppend(c, bits, BitsOf(data[1..]));
      FeedByte(c, data[0]);
      FeedBitsIsRun(Step(c, data[0]), data[1..]);
    }
  }

  /** compute_crc32: the table loop yields the bitwise CRC of RFC 1952, for every message. */
  method ComputeCrc32(data: seq<bv8>) returns (crc: Word)
    ensures crc == Reference(data)
  {
    hide Step, Xor, TableStep, BitsOf, FeedBits;
    crc := ONES;
    var i := 0;
    while i < |data|
      invariant 0 <= i <= |data|
      invariant crc == Run(ONES, data[..i])
    {
      TableStepIsStep(crc, data[i]);
      RunSnoc(ONES, data[..i], data[i]);
      assert data[..i + 1] == data[..i] + [data[i]];
      crc := TableStep(crc, data[i]);
      i := i + 1;
    }
    assert data[..i] == data;
    FeedBitsIsRun(ONES, data);
    crc := Xor(crc, ONES);
  }

  // ---------------------------------------------------------------- error detection

  lemma {:induction false} StepInjective(c: Word, d: Word, b: bv8)
    requires Step(c, b) == Step(d, b)
    ensures c == d
  {
    hide Shift8, Xor, OfByte;
    Shift8Injective(Xor(c, OfByte(b)), Xor(d, OfByte(b)));
    XorInjective(c, d, OfByte(b));
  }

  /** Registers that differ stay different over any common rest of the message. */
  lemma {:induction false} RunInjective(c: Word, d: Word, data: seq<bv8>)
    requires Run(c, data) == Run(d, data)
    ensures c == d
    decreases |data|
  {
    hide Step;
    if data != [] {
      RunInjective(Step(c, data[0]), Step(d, data[0]), data[1..]);
      StepInjective(c, d, data[0]);
    }
  }

  /** Up to four bytes read as one little-endian word. */
  function Pack(w: seq<bv8>): Word
    requires |w| <= 4
    decreases |w|
  {
    if w == [] then Word(0) else Xor(OfByte(w[0]), Up8(Pack(w[1..])))
  }

  function ManyShift8(c: Word, n: nat): Word
    decreases n
  {
    if n == 0 then c else ManyShift8(Shift8(c), n - 1)
  }

  lemma PackGrows(b: bv8, p: Word)
    ensures p.v == 0 ==> Xor(OfByte(b), Up8(p)).v <= 0xFF
    ensures p.v <= 0xFF ==> Xor(OfByte(b), Up8(p)).v <= 0xFFFF
    ensures p.v <= 0xFFFF ==> Xor(OfByte(b), Up8(p)).v <= 0xFF_FFFF
  {}

  lemma {:induction false} PackBound(w: seq<bv8>)
    requires |w| <= 3
    ensures |w| == 0 ==> Pack(w).v == 0
    ensures |w| == 1 ==> Pack(w).v <= 0xFF
    ensures |w| == 2 ==> Pack(w).v <= 0xFFFF
    ensures Pack(w).v <= 0xFF_FFFF
    decreases |w|
  {
    hide Xor, Up8, OfByte;
    if w != [] {
      PackBound(w[1..]);
      PackGrows(w[0], Pack(w[1..]));
    }
  }

  lemma UpDown(p: Word)
    requires p.v <= 0xFF_FFFF
    ensures Down8(Up8(p)) == p
  {}

  lemma UpLowClear(p: Word)
    ensures Up8(p).v & 0xFF == 0
  {}

  /** Running over at most four bytes only sees the register xor the packed bytes. */
  lemma {:induction false} RunIsPacked(c: Word, w: seq<bv8>)
    requires |w| <= 4
    ensures Run(c, w) == ManyShift8(Xor(c, Pack(w)), |w|)
    decreases |w|
  {
    hide Shift8, Xor, Up8, Down8, OfByte;
    if w == [] {
      XorZero(c);
    } else {
      var p := Pack(w[1..]);
      var x := Xor(c, OfByte(w[0]));
      PackBound(w[1..]);
      UpDown(p);
      UpLowClear(p);
      Shift8XorHigh(x, Up8(p));
      XorAssociative(c, OfByte(w[0]), Up8(p));
      RunIsPacked(Step(c, w[0]), w[1..]);
    }
  }

  lemma {:induction false} ManyShift8Injective(c: Word, d: Word, n: nat)
    requires ManyShift8(c, n) == ManyShift8(d, n)
    ensures c == d
    decreases n
  {
    hide Shift8;
    if n != 0 {
      ManyShift8Injective(Shift8(c), Shift8(d), n - 1);
      Shift8Injective(c, d);
    }
  }

  lemma PackSplits(a: bv8, b: bv8, p: Word, q: Word)
    requires p.v <= 0xFF_FFFF && q.v <= 0xFF_FFFF
    requires Xor(OfByte(a), Up8(p)) == Xor(OfByte(b), Up8(q))
    ensures a == b && p == q
  {}

  lemma {:induction false} PackInjective(w: seq<bv8>, x: seq<bv8>)
    requires |w| == |x| <= 4 && Pack(w) == Pack(x)
    ensures w == x
    decreases |w|
  {
    hide Xor, Up8, OfByte;
    if w != [] {
      PackBound(w[1..]);
      PackBound(x[1..]);
      PackSplits(w[0], x[0], Pack(w[1..]), Pack(x[1..]));
      PackInjective(w[1..], x[1..]);
      assert w == [w[0]] + w[1..];
      assert x == [x[0]] + x[1..];
    }
  }

  /** Two messages that differ inside four consecutive bytes only never share a CRC. */
  lemma {:induction false} BurstIsDetected(before: seq<bv8>, w: seq<bv8>, x: seq<bv8>, after: seq<bv8>)
    requires |w| == |x| <= 4 && w != x
    ensures Reference(before + w + after) != Reference(before + x + after)
  {
    hide Xor, Pack, ManyShift8;
    var c := Run(ONES, before);
    FeedBitsIsRun(ONES, before + w + after);
    FeedBitsIsRun(ONES, before + x + after);
    RunAppend(ONES, before + w, after);
    RunAppend(ONES, before + x, after);
    RunAppend(ONES, before, w);
    RunAppend(ONES, before, x);
    if Reference(before + w + after) == Reference(before + x + after) {
      XorInjective(Run(Run(c, w), after), Run(Run(c, x), after), ONES);
      RunInjective(Run(c, w), Run(c, x), after);
      RunIsPacked(c, w);
      RunIsPacked(c, x);
      ManyShift8Injective(Xor(c, Pack(w)), Xor(c, Pack(x)), |w|);
      XorCommutes(c, Pack(w));
      XorCommutes(c, Pack(x));
      XorInjective(Pack(w), Pack(x), c);
      PackInjective(w, x);
      assert false;
    }
  }

  lemma XorCommutes(a: Word, b: Word)
    ensures Xor(a, b) == Xor(b, a)
  {}

  /** Two messages of one length that differ in exactly one byte never share a CRC. */
  lemma {:induction false} ByteChangeIsDetected(a: seq<bv8>, k: nat, b: bv8)
    requires k < |a| && a[k] != b
    ensures Reference(a[k := b]) != Reference(a)
  {
    hide *;
    assert a == a[..k] + [a[k]] + a[k + 1..];
    assert a[k := b] == a[..k] + [b] + a[k + 1..];
    BurstIsDetected(a[..k], [a[k]], [b], a[k + 1..]);
  }

  // ---------------------------------------------------------------- particular values

  /** The bytes of a register, least significant first. */
  function BytesOf(x: Word): seq<bv8> {
    [(x.v & 0xFF) as bv8, ((x.v >> 8) & 0xFF) as bv8, ((x.v >> 16) & 0xFF) as bv8, (x.v >> 24) as bv8]
  }

  lemma BytesArePacked(x: Word)
    ensures Xor(OfByte(BytesOf(x)[0]), Up8(Xor(OfByte(BytesOf(x)[1]), Up8(Xor(OfByte(BytesOf(x)[2]),
                Up8(Xor(OfByte(BytesOf(x)[3]), Up8(Word(0)))))))))
            == x
  {}

  lemma PackOfBytes(x: Word)
    ensures Pack(BytesOf(x)) == x
  {
    BytesArePacked(x);
    hide Xor, Up8, OfByte;
    var w := BytesOf(x);
    assert w[1..][0] == w[1] && w[2..][0] == w[2] && w[3..][0] == w[3];
    assert w[1..][1..] == w[2..] && w[2..][1..] == w[3..] && w[3..][1..] == [];
    assert Pack(w[3..]) == Xor(OfByte(w[3]), Up8(Word(0)));
    assert Pack(w[2..]) == Xor(OfByte(w[2]), Up8(Pack(w[3..])));
    assert Pack(w[1..]) == Xor(OfByte(w[1]), Up8(Pack(w[2..])));
  }

  lemma OnesShifted()
    ensures Shift8(Word(0xFFFF_FFFF)) == Word(0x2DFD_1072)
    ensures Shift8(Word(0x2DFD_1072)) == Word(0xBE26_ED00)
    ensures Shift8(Word(0xBE26_ED00)) == Word(0x00BE_26ED)
    ensures Shift8(Word(0x00BE_26ED)) == Word(0xDEBB_20E3)
  {}

  /** A message followed by its own CRC, low byte first, always has the CRC 0x2144DF1C. */
  lemma ResidueIsConstant(data: seq<bv8>)
    ensures Reference(data + BytesOf(Reference(data))) == Word(0x2144_DF1C)
  {
    hide Shift8, Pack, BytesOf, BitsOf, FeedBits;
    var c, crc := Run(ONES, data), Reference(data);
    FeedBitsIsRun(ONES, data);
    FeedBitsIsRun(ONES, data + BytesOf(crc));
    RunAppend(ONES, data, BytesOf(crc));
    FourBytes(crc);
    RunIsPacked(c, BytesOf(crc));
    PackOfBytes(crc);
    assert Xor(c, crc) == Word(0xFFFF_FFFF);
    OnesShifted();
    FourSteps(Word(0xFFFF_FFFF));
  }

  lemma FourBytes(x: Word)
    ensures |BytesOf(x)| == 4
  {}

  lemma FourSteps(c: Word)
    ensures ManyShift8(c, 4) == Shift8(Shift8(Shift8(Shift8(c))))
  {
    hide Shift8;
    assert ManyShift8(c, 4) == ManyShift8(Shift8(c), 3);
  }

  /** The CRC of nothing is 0, and a zero byte in front of a message changes its CRC. */
  lemma LeadingZeroCounts(data: seq<bv8>)
    ensures Reference([]) == Word(0)
    ensures Reference([0] + data) != Reference(data)
  {
    hide Shift8, FeedBits, BitsOf;
    FeedBitsIsRun(ONES, []);
    FeedBitsIsRun(ONES, [0] + data);
    FeedBitsIsRun(ONES, data);
    assert ([0] + data)[1..] == data;
    assert Xor(Word(0xFFFF_FFFF), OfByte(0)) == Word(0xFFFF_FFFF);
    OnesShifted();
    if Reference([0] + data) == Reference(data) {
      XorInjective(Run(ONES, [0] + data), Run(ONES, data), ONES);
      RunInjective(Step(ONES, 0), ONES, data);
      assert false;
    }
  }

  lemma CheckSteps()
    ensures Step(Word(0xFFFF_FFFF), 0x31) == Word(0x7C23_1048) && Step(Word(0x7C23_1048), 0x32) == Word(0xB0AC_BB32)
    ensures Step(Word(0xB0AC_BB32), 0x33) == Word(0x77B7_9C2D) && Step(Word(0x77B7_9C2D), 0x34) == Word(0x641C_1F5C)
    ensures Step(Word(0x641C_1F5C), 0x35) == Word(0x340A_C5E3) && Step(Word(0x340A_C5E3), 0x36) == Word(0xF68D_2C9E)
    ensures Step(Word(0xF68D_2C9E), 0x37) == Word(0xAFFC_9660) && Step(Word(0xAFFC_9660), 0x38) == Word(0x651F_2550)
    ensures Step(Word(0x651F_2550), 0x39) == Word(0x340B_C6D9)
  {}

  /** The usual check value: the CRC of the text "123456789". */
  lemma CheckValue()
    ensures Reference([0x31, 0x32, 0x33, 0x34, 0x35, 0x36, 0x37, 0x38, 0x39]) == Word(0xCBF4_3926)
  {
    CheckSteps();
    hide Step, FeedBits, BitsOf;
    var d: seq<bv8> := [0x31, 0x32, 0x33, 0x34, 0x35, 0x36, 0x37, 0x38, 0x39];
    FeedBitsIsRun(ONES, d);
    var c := ONES;
    assert Run(c, []) == c;
    RunSnoc(c, [], 0x31);
    RunSnoc(c, [0x31], 0x32);
    RunSnoc(c, [0x31, 0x32], 0x33);
    RunSnoc(c, [0x31, 0x32, 0x33], 0x34);
    RunSnoc(c, [0x31, 0x32, 0x33, 0x34], 0x35);
    RunSnoc(c, [0x31, 0x32, 0x33, 0x34, 0x35], 0x36);
    RunSnoc(c, [0x31, 0x32, 0x33, 0x34, 0x35, 0x36], 0x37);
    RunSnoc(c, [0x31, 0x32, 0x33, 0x34, 0x35, 0x36, 0x37], 0x38);
    RunSnoc(c, [0x31, 0x32, 0x33, 0x34, 0x35, 0x36, 0x37, 0x38], 0x39);
  }
}
