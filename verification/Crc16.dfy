/** The 16-bit CRC of the package builder: table-driven loop, bit-serial register, polynomial division. */
module Crc16 {
  import opened Bytes

  // ---------- Bytes as bit-vectors ----------

  /** The bits of a byte value. */
  function Bv(b: byte): (v: bv8)
    ensures v as int == b
  {
    if b == 0 then 0 else Bv(b - 1) + 1
  }

  /** A byte in a 16-bit register. */
  function Word(b: byte): (w: bv16)
    ensures w < 256
  {
    Bv(b) as bv16
  }

  lemma BvSame(v: bv8, w: bv8)
    requires v as int == w as int
    ensures v == w
  {
  }

  lemma BvUnique(b: byte, v: bv8)
    requires v as int == b
    ensures Bv(b) == v
  {
    BvSame(Bv(b), v);
  }

  // ---------- The table ----------

  /** The 256 entries of the table, sixteen to a row (two printed lines each). */
  function TableRow(k: nat): (row: seq<bv16>)
    requires k < 16
    ensures |row| == 16
  {
    match k
    case 0 => [0x0000, 0xC0C1, 0xC181, 0x0140, 0xC301, 0x03C0, 0x0280, 0xC241,
              0xC601, 0x06C0, 0x0780, 0xC741, 0x0500, 0xC5C1, 0xC481, 0x0440]
    case 1 => [0xCC01, 0x0CC0, 0x0D80, 0xCD41, 0x0F00, 0xCFC1, 0xCE81, 0x0E40,
              0x0A00, 0xCAC1, 0xCB81, 0x0B40, 0xC901, 0x09C0, 0x0880, 0xC841]
    case 2 => [0xD801, 0x18C0, 0x1980, 0xD941, 0x1B00, 0xDBC1, 0xDA81, 0x1A40,
              0x1E00, 0xDEC1, 0xDF81, 0x1F40, 0xDD01, 0x1DC0, 0x1C80, 0xDC41]
    case 3 => [0x1400, 0xD4C1, 0xD581, 0x1540, 0xD701, 0x17C0, 0x1680, 0xD641,
              0xD201, 0x12C0, 0x1380, 0xD341, 0x1100, 0xD1C1, 0xD081, 0x1040]
    case 4 => [0xF001, 0x30C0, 0x3180, 0xF141, 0x3300, 0xF3C1, 0xF281, 0x3240,
              0x3600, 0xF6C1, 0xF781, 0x3740, 0xF501, 0x35C0, 0x3480, 0xF441]
    case 5 => [0x3C00, 0xFCC1, 0xFD81, 0x3D40, 0xFF01, 0x3FC0, 0x3E80, 0xFE41,
              0xFA01, 0x3AC0, 0x3B80, 0xFB41, 0x3900, 0xF9C1, 0xF881, 0x3840]
    case 6 => [0x2800, 0xE8C1, 0xE981, 0x2940, 0xEB01, 0x2BC0, 0x2A80, 0xEA41,
              0xEE01, 0x2EC0, 0x2F80, 0xEF41, 0x2D00, 0xEDC1, 0xEC81, 0x2C40]
    case 7 => [0xE401, 0x24C0, 0x2580, 0xE541, 0x2700, 0xE7C1, 0xE681, 0x2640,
              0x2200, 0xE2C1, 0xE381, 0x2340, 0xE101, 0x21C0, 0x2080, 0xE041]
    case 8 => [0xA001, 0x60C0, 0x6180, 0xA141, 0x6300, 0xA3C1, 0xA281, 0x6240,
              0x6600, 0xA6C1, 0xA781, 0x6740, 0xA501, 0x65C0, 0x6480, 0xA441]
    case 9 => [0x6C00, 0xACC1, 0xAD81, 0x6D40, 0xAF01, 0x6FC0, 0x6E80, 0xAE41,
              0xAA01, 0x6AC0, 0x6B80, 0xAB41, 0x6900, 0xA9C1, 0xA881, 0x6840]
    case 10 => [0x7800, 0xB8C1, 0xB981, 0x7940, 0xBB01, 0x7BC0, 0x7A80, 0xBA41,
              0xBE01, 0x7EC0, 0x7F80, 0xBF41, 0x7D00, 0xBDC1, 0xBC81, 0x7C40]
    case 11 => [0xB401, 0x74C0, 0x7580, 0xB541, 0x7700, 0xB7C1, 0xB681, 0x7640,
              0x7200, 0xB2C1, 0xB381, 0x7340, 0xB101, 0x71C0, 0x7080, 0xB041]
    case 12 => [0x5000, 0x90C1, 0x9181, 0x5140, 0x9301, 0x53C0, 0x5280, 0x9241,
              0x9601, 0x56C0, 0x5780, 0x9741, 0x5500, 0x95C1, 0x9481, 0x5440]
    case 13 => [0x9C01, 0x5CC0, 0x5D80, 0x9D41, 0x5F00, 0x9FC1, 0x9E81, 0x5E40,
              0x5A00, 0x9AC1, 0x9B81, 0x5B40, 0x9901, 0x59C0, 0x5880, 0x9841]
    case 14 => [0x8801, 0x48C0, 0x4980, 0x8941, 0x4B00, 0x8BC1, 0x8A81, 0x4A40,
              0x4E00, 0x8EC1, 0x8F81, 0x4F40, 0x8D01, 0x4DC0, 0x4C80, 0x8C41]
    case 15 => [0x4400, 0x84C1, 0x8581, 0x4540, 0x8701, 0x47C0, 0x4680, 0x8641,
              0x8201, 0x42C0, 0x4380, 0x8341, 0x4100, 0x81C1, 0x8081, 0x4040]
  }

  /** Entry i of the table, i being a byte held in a 16-bit register. */
  function TableEntry(i: bv16): bv16
    requires i < 256
  {
    TableRow((i >> 4) as int)[(i & 15) as int]
  }

  // ---------- The register ----------

  /** One shift of the register: what falls out feeds the generator back. */
  function Shift(v: bv16): bv16 {
    (v >> 1) ^ (if v & 1 == 1 then 0xA001 else 0)
  }

  /** n shifts, nothing absorbed. */
  function Shifts(v: bv16, n: nat): bv16
    decreases n
  {
    if n == 0 then v else Shifts(Shift(v), n - 1)
  }

  function Xor(a: bv16, b: bv16): bv16 { a ^ b }

  /** The register after absorbing one message bit. */
  function BitStep(c: bv16, bit: bool): bv16 {
    Shift(Xor(c, if bit then 1 else 0))
  }

  /** The register after absorbing one byte, low bit first. */
  function ByteStep(c: bv16, b: byte): bv16 {
    Shifts(Xor(c, Word(b)), 8)
  }

  /** The CRC of s continued from register c. */
  function Crc(c: bv16, s: bytes): bv16
    decreases s
  {
    if s == [] then c else Crc(ByteStep(c, s[0]), s[1..])
  }

  lemma ShiftXor(a: bv16, b: bv16)
    ensures Shift(a ^ b) == Shift(a) ^ Shift(b)
  {
    if a & 1 == 1 {
      if b & 1 == 1 {} else {}
    } else {
      if b & 1 == 1 {} else {}
    }
  }

  lemma ShiftLinear(a: bv16, b: bv16)
    ensures Shift(Xor(a, b)) == Xor(Shift(a), Shift(b))
  {
    ShiftXor(a, b);
  }

  lemma {:induction false} ShiftsLinear(a: bv16, b: bv16, n: nat)
    ensures Shifts(Xor(a, b), n) == Xor(Shifts(a, n), Shifts(b, n))
    decreases n
  {
    if n == 0 {
    } else {
      ShiftLinear(a, b);
      ShiftsLinear(Shift(a), Shift(b), n - 1);
    }
  }

  lemma ShiftInjective(a: bv16, b: bv16)
    requires Shift(a) == Shift(b)
    ensures a == b
  {
    if a & 1 == 1 {
      if b & 1 == 1 {} else {}
    } else {
      if b & 1 == 1 {} else {}
    }
  }

  // ---------- The table holds eight shifts of its index ----------

  /** The row that has the given head: the head combined with what each low nibble shifts to. */
  function RowFrom(h: bv16): (row: seq<bv16>)
    ensures |row| == 16
  {
    [h ^ 0x0000, h ^ 0xC0C1, h ^ 0xC181, h ^ 0x0140, h ^ 0xC301, h ^ 0x03C0, h ^ 0x0280, h ^ 0xC241,
     h ^ 0xC601, h ^ 0x06C0, h ^ 0x0780, h ^ 0xC741, h ^ 0x0500, h ^ 0xC5C1, h ^ 0xC481, h ^ 0x0440]
  }

  lemma FirstRow(lo: bv16)
    requires lo < 16
    ensures TableRow(0)[lo as int] == Shifts(lo, 8)
  {
    if lo == 0 {
    } else if lo == 1 {
    } else if lo == 2 {
    } else if lo == 3 {
    } else if lo == 4 {
    } else if lo == 5 {
    } else if lo == 6 {
    } else if lo == 7 {
    } else if lo == 8 {
    } else if lo == 9 {
    } else if lo == 10 {
    } else if lo == 11 {
    } else if lo == 12 {
    } else if lo == 13 {
    } else if lo == 14 {
    } else if lo == 15 {
    }
  }

  lemma RowFromEach(h: bv16)
    ensures RowFrom(h)[0] == Xor(h, 0x0000) && RowFrom(h)[1] == Xor(h, 0xC0C1)
    ensures RowFrom(h)[2] == Xor(h, 0xC181) && RowFrom(h)[3] == Xor(h, 0x0140)
    ensures RowFrom(h)[4] == Xor(h, 0xC301) && RowFrom(h)[5] == Xor(h, 0x03C0)
    ensures RowFrom(h)[6] == Xor(h, 0x0280) && RowFrom(h)[7] == Xor(h, 0xC241)
    ensures RowFrom(h)[8] == Xor(h, 0xC601) && RowFrom(h)[9] == Xor(h, 0x06C0)
    ensures RowFrom(h)[10] == Xor(h, 0x0780) && RowFrom(h)[11] == Xor(h, 0xC741)
    ensures RowFrom(h)[12] == Xor(h, 0x0500) && RowFrom(h)[13] == Xor(h, 0xC5C1)
    ensures RowFrom(h)[14] == Xor(h, 0xC481) && RowFrom(h)[15] == Xor(h, 0x0440)
  {
  }

  lemma RowFromAt(h: bv16, j: nat)
    requires j < 16
    ensures RowFrom(h)[j] == Xor(h, TableRow(0)[j])
  {
    RowFromEach(h);
  }

  lemma RowHead(hi: bv16)
    requires hi < 16
    ensures TableRow(hi as int)[0] == Shifts(hi << 4, 8)
  {
    if hi == 0 {
    } else if hi == 1 {
    } else if hi == 2 {
    } else if hi == 3 {
    } else if hi == 4 {
    } else if hi == 5 {
    } else if hi == 6 {
    } else if hi == 7 {
    } else if hi == 8 {
    } else if hi == 9 {
    } else if hi == 10 {
    } else if hi == 11 {
    } else if hi == 12 {
    } else if hi == 13 {
    } else if hi == 14 {
    } else if hi == 15 {
    }
  }

  lemma RowShapeLow(k: nat)
    requires k < 8
    ensures TableRow(k) == RowFrom(TableRow(k)[0])
  {
  }

  lemma RowShapeHigh(k: nat)
    requires 8 <= k < 16
    ensures TableRow(k) == RowFrom(TableRow(k)[0])
  {
  }

  lemma RowEntry(row: seq<bv16>, lo: bv16)
    requires |row| == 16 && lo < 16
    requires row == RowFrom(row[0])
    ensures row[lo as int] == Xor(row[0], Shifts(lo, 8))
  {
    RowFromAt(row[0], lo as int);
    FirstRow(lo);
  }

  lemma Combine(i: bv16, head: bv16, entry: bv16)
    requires head == Shifts(i >> 4 << 4, 8)
    requires entry == Xor(head, Shifts(i & 15, 8))
    ensures entry == Shifts(i, 8)
  {
    ShiftsLinear(i >> 4 << 4, i & 15, 8);
    assert i == Xor(i >> 4 << 4, i & 15);
  }

  /** Every entry is the register that eight shifts make of its index. */
  lemma TableIsBitwise(i: bv16)
    requires i < 256
    ensures TableEntry(i) == Shifts(i, 8)
  {
    hide TableRow, RowFrom, Shifts, Xor;
    var k := (i >> 4) as int;
    if k < 8 { RowShapeLow(k); } else { RowShapeHigh(k); }
    RowHead(i >> 4);
    RowEntry(TableRow(k), i & 15);
    Combine(i, TableRow(k)[0], TableEntry(i));
  }

  /** Eight shifts move the high byte down unchanged; only the low byte feeds back. */
  lemma HighByteFalls(x: bv16)
    ensures Shifts(x, 8) == Xor(x >> 8, Shifts(x & 0xff, 8))
  {
    ShiftsLinear(x & 0xff00, x & 0xff, 8);
    assert x == Xor(x & 0xff00, x & 0xff);
    EvenByteShifts(x & 0xff00);
    assert (x & 0xff00) >> 8 == x >> 8;
  }

  lemma EvenByteShifts(h: bv16)
    requires h & 0xff == 0
    ensures Shifts(h, 8) == h >> 8
  {
    EvenShift(h); EvenShift(h >> 1); EvenShift(h >> 2); EvenShift(h >> 3);
    EvenShift(h >> 4); EvenShift(h >> 5); EvenShift(h >> 6); EvenShift(h >> 7);
    ShiftRight(h);
    hide Shift;
  }

  lemma EvenShift(h: bv16)
    ensures h & 1 == 0 ==> Shift(h) == h >> 1
  {
  }

  lemma ShiftRight(h: bv16)
    requires h & 0xff == 0
    ensures h & 1 == 0 && (h >> 1) & 1 == 0 && (h >> 2) & 1 == 0 && (h >> 3) & 1 == 0
    ensures (h >> 4) & 1 == 0 && (h >> 5) & 1 == 0 && (h >> 6) & 1 == 0 && (h >> 7) & 1 == 0
    ensures h >> 1 >> 1 == h >> 2 && h >> 2 >> 1 == h >> 3 && h >> 3 >> 1 == h >> 4
    ensures h >> 4 >> 1 == h >> 5 && h >> 5 >> 1 == h >> 6 && h >> 6 >> 1 == h >> 7 && h >> 7 >> 1 == h >> 8
  {
  }

  /** The update inside the source's loop. */
  function TableStep(c: bv16, w: bv16): bv16 {
    Xor(c >> 8, TableEntry(Xor(c, w) & 0xff))
  }

  lemma TableStepIsByteStep(c: bv16, b: byte)
    ensures TableStep(c, Word(b)) == ByteStep(c, b)
  {
    hide TableEntry, Shifts, Xor, Word;
    var x := Xor(c, Word(b));
    TableIsBitwise(x & 0xff);
    HighByteFalls(x);
    HighByteKept(c, Word(b));
  }

  lemma HighByteKept(c: bv16, w: bv16)
    requires w < 256
    ensures Xor(c, w) >> 8 == c >> 8
  {
  }

  /** The table-driven update: the bit-serial CRC of s, continued from crcBase. */
  method CalcCrc16(crcBase: bv16, s: bytes) returns (crc: bv16)
    ensures crc == Crc(crcBase, s)
  {
    hide TableStep, ByteStep;
    crc := crcBase;
    for i := 0 to |s|
      invariant Crc(crc, s[i..]) == Crc(crcBase, s)
    {
      TableStepIsByteStep(crc, s[i]);
      assert s[i..][1..] == s[i + 1..];
      crc := TableStep(crc, Word(s[i]));
    }
  }

  /** Feeding the data in chunks or at once is the same. */
  lemma {:induction false} CrcAppend(c: bv16, a: bytes, b: bytes)
    ensures Crc(c, a + b) == Crc(Crc(c, a), b)
    decreases a
  {
    if a == [] {
      assert a + b == b;
    } else {
      assert (a + b)[1..] == a[1..] + b;
      CrcAppend(ByteStep(c, a[0]), a[1..], b);
    }
  }

  // ---------- Linearity ----------

  function XorByte(a: byte, b: byte): byte { (Bv(a) ^ Bv(b)) as int }

  function XorBytes(a: bytes, b: bytes): bytes
    requires |a| == |b|
  {
    seq(|a|, i requires 0 <= i < |a| => XorByte(a[i], b[i]))
  }

  lemma WordXor(a: byte, b: byte)
    ensures Word(XorByte(a, b)) == Xor(Word(a), Word(b))
  {
    hide Bv;
    BvUnique(XorByte(a, b), Bv(a) ^ Bv(b));
  }

  lemma XorComm(a: bv16, b: bv16)
    ensures Xor(a, b) == Xor(b, a)
  {
  }

  lemma XorAssoc(a: bv16, b: bv16, c: bv16)
    ensures Xor(a, Xor(b, c)) == Xor(Xor(a, b), c)
  {
  }

  lemma XorRegroup(c: bv16, d: bv16, x: bv16, y: bv16)
    ensures Xor(Xor(c, d), Xor(x, y)) == Xor(Xor(c, x), Xor(d, y))
  {
    hide Xor;
    XorAssoc(Xor(c, d), x, y);
    XorAssoc(c, d, x);
    XorComm(d, x);
    XorAssoc(c, x, d);
    XorAssoc(Xor(c, x), d, y);
  }

  lemma ByteStepLinear(c: bv16, d: bv16, a: byte, b: byte)
    ensures ByteStep(Xor(c, d), XorByte(a, b)) == Xor(ByteStep(c, a), ByteStep(d, b))
  {
    hide Shifts, Xor, Word, XorByte;
    WordXor(a, b);
    XorRegroup(c, d, Word(a), Word(b));
    ShiftsLinear(Xor(c, Word(a)), Xor(d, Word(b)), 8);
  }

  /** Over strings of one length, the CRC of the xor is the xor of the CRCs. */
  lemma {:induction false} CrcLinear(c: bv16, d: bv16, a: bytes, b: bytes)
    requires |a| == |b|
    ensures Crc(Xor(c, d), XorBytes(a, b)) == Xor(Crc(c, a), Crc(d, b))
    decreases a
  {
    if a == [] {
    } else {
      ByteStepLinear(c, d, a[0], b[0]);
      assert XorBytes(a, b)[1..] == XorBytes(a[1..], b[1..]);
      CrcLinear(ByteStep(c, a[0]), ByteStep(d, b[0]), a[1..], b[1..]);
    }
  }

  function Half(v: bv16): bv16 { v >> 1 }

  // ---------- The register as a polynomial remainder ----------

  /** The low n bits of v, lowest first. */
  function WordBits(v: bv16, n: nat): (bits: seq<bool>)
    ensures |bits| == n
    decreases n
  {
    if n == 0 then [] else [v & 1 != 0] + WordBits(Half(v), n - 1)
  }

  function ByteBits(b: byte): seq<bool> { WordBits(Word(b), 8) }

  /** The message as the register sees it: byte by byte, low bit first. */
  function BitsOf(s: bytes): (bits: seq<bool>)
    ensures |bits| == 8 * |s|
  {
    if s == [] then [] else ByteBits(s[0]) + BitsOf(s[1..])
  }

  function BitCrc(c: bv16, bits: seq<bool>): bv16
    decreases bits
  {
    if bits == [] then c else BitCrc(BitStep(c, bits[0]), bits[1..])
  }

  lemma {:induction false} BitCrcAppend(c: bv16, a: seq<bool>, b: seq<bool>)
    ensures BitCrc(c, a + b) == BitCrc(BitCrc(c, a), b)
    decreases a
  {
    if a == [] {
      assert a + b == b;
    } else {
      assert (a + b)[1..] == a[1..] + b;
      BitCrcAppend(BitStep(c, a[0]), a[1..], b);
    }
  }

  /** v has no bit at position k or above. */
  predicate Short(v: bv16, k: nat)
    decreases k
  {
    if k == 0 then v == 0 else Short(Half(v), k - 1)
  }

  lemma ByteIsShort(v: bv16)
    ensures v < 256 ==> Short(v, 8)
  {
    assert v < 256 ==> v >> 1 >> 1 >> 1 >> 1 >> 1 >> 1 >> 1 >> 1 == 0;
  }

  lemma LowBit(v: bv16)
    ensures v == Xor(if v & 1 != 0 then 1 else 0, v & 0xfffe)
  {
    if v & 1 != 0 {} else {}
  }

  lemma LowBitGone(v: bv16)
    ensures Shift(v & 0xfffe) == Half(v)
  {
    EvenShift(v & 0xfffe);
  }

  lemma OneBit(c: bv16, v: bv16)
    ensures Shift(Xor(c, v)) == Xor(BitStep(c, v & 1 != 0), Half(v))
  {
    hide Xor, Shift;
    var low: bv16 := if v & 1 != 0 then 1 else 0;
    LowBit(v);
    LowBitGone(v);
    XorAssoc(c, low, v & 0xfffe);
    ShiftLinear(Xor(c, low), v & 0xfffe);
  }

  /** Absorbing n bits one at a time is xoring them in at once and shifting n times. */
  lemma {:induction false} BitsAtOnce(c: bv16, v: bv16, n: nat)
    requires Short(v, n)
    ensures BitCrc(c, WordBits(v, n)) == Shifts(Xor(c, v), n)
    decreases n
  {
    if n == 0 {
      assert Xor(c, 0) == c;
    } else {
      hide Xor, Shift, BitStep;
      OneBit(c, v);
      BitsAtOnce(BitStep(c, v & 1 != 0), Half(v), n - 1);
      assert WordBits(v, n)[1..] == WordBits(Half(v), n - 1);
    }
  }

  /** The byte-wise CRC is the bit-wise one over the message's bits. */
  lemma {:induction false} CrcIsBitCrc(c: bv16, s: bytes)
    ensures Crc(c, s) == BitCrc(c, BitsOf(s))
    decreases s
  {
    hide ByteBits, BitStep, Shifts, Xor, Word;
    if s == [] {
    } else {
      ByteStepIsBits(c, s[0]);
      BitCrcAppend(c, ByteBits(s[0]), BitsOf(s[1..]));
      CrcIsBitCrc(ByteStep(c, s[0]), s[1..]);
    }
  }

  lemma ByteStepIsBits(c: bv16, b: byte)
    ensures ByteStep(c, b) == BitCrc(c, ByteBits(b))
  {
    hide Xor, Shifts, BitCrc, Word;
    ByteIsShort(Word(b));
    BitsAtOnce(c, Word(b), 8);
  }
}
