/** Which changes to a written package its two CRCs reveal. */
module PacErrors {
  import opened Bytes
  import opened Crc16
  import opened CrcDivision
  import opened CrcDetection
  import opened CrcPeriod
  import opened CrcFewErrors
  import opened PacImage

  // ---------- Bursts and odd errors ----------

  /** One CRC range: its bytes followed by the two that hold their CRC. */
  lemma RangeVerifies(s: bytes, stored: bytes, s': bytes, stored': bytes, lo: nat)
    requires |s| == |s'| && |stored| == |stored'| == 2 && s + stored != s' + stored'
    requires stored == CrcBytes(Crc(0, s))
    requires AgreeOutside(BitsOf(s + stored), BitsOf(s' + stored'), lo)
    ensures stored' != CrcBytes(Crc(0, s'))
  {
    hide Crc, CrcBytes, BitsOf;
    ZeroResidue(0, s, stored);
    ZeroResidue(0, s', stored');
    BurstDetected(0, s + stored, s' + stored', lo);
  }

  lemma {:induction false} BitsOfPart(b: bytes, i: nat, j: nat)
    requires i <= j <= |b|
    ensures BitsOf(b[i..j]) == BitsOf(b)[8 * i..8 * j]
  {
    hide BitsOf;
    assert b == b[..i] + (b[i..j] + b[j..]);
    BitsOfAppend(b[..i], b[i..j] + b[j..]);
    BitsOfAppend(b[i..j], b[j..]);
  }

  /** An error burst of at most 16 bits is seen wherever it hits, unless it runs over the end of the main header. */
  lemma BurstInFileDetected(b: bytes, t: bytes, lo: nat)
    requires |b| == |t| && |b| >= PAC_HEADER_SIZE && b != t && Verifies(b)
    requires AgreeOutside(BitsOf(b), BitsOf(t), lo)
    requires lo + 16 <= 8 * PAC_HEADER_SIZE || lo >= 8 * PAC_HEADER_SIZE
    ensures !Verifies(t)
  {
    hide BitsOf, Crc, CrcBytes;
    if lo >= 8 * PAC_HEADER_SIZE {
      BurstInBody(b, t, lo);
    } else {
      BurstInHeader(b, t, lo);
    }
  }

  lemma BurstInBody(b: bytes, t: bytes, lo: nat)
    requires |b| == |t| && |b| >= PAC_HEADER_SIZE && b != t && Verifies(b)
    requires AgreeOutside(BitsOf(b), BitsOf(t), lo) && lo >= 8 * PAC_HEADER_SIZE
    ensures !Verifies(t)
  {
    hide BitsOf, Crc, CrcBytes;
    BitsOfPart(b, 0, 2124);
    BitsOfPart(t, 0, 2124);
    BitsOfPart(b, 2124, |b|);
    BitsOfPart(t, 2124, |b|);
    assert BitsOf(b[0..2124]) == BitsOf(t[0..2124]);
    BitsOfInjective(b[0..2124], t[0..2124]);
    var body, body' := b[2124..|b|], t[2124..|b|];
    assert body == b[2124..] && body' == t[2124..];
    SameFront(b, t);
    BurstDetected(0, body, body', lo - 8 * 2124);
    if Verifies(t) {
      CrcBytesInjective(Crc(0, body), Crc(0, body'));
    }
  }

  lemma SameFront(b: bytes, t: bytes)
    requires |b| == |t| && |b| >= PAC_HEADER_SIZE && b != t && b[0..2124] == t[0..2124]
    ensures b[2124..] != t[2124..] && b[2122..2124] == t[2122..2124]
  {
    assert b == b[0..2124] + b[2124..] && t == t[0..2124] + t[2124..];
    assert b[2122..2124] == b[0..2124][2122..2124] && t[2122..2124] == t[0..2124][2122..2124];
  }

  lemma BurstInHeader(b: bytes, t: bytes, lo: nat)
    requires |b| == |t| && |b| >= PAC_HEADER_SIZE && b != t && Verifies(b)
    requires AgreeOutside(BitsOf(b), BitsOf(t), lo) && lo + 16 <= 8 * PAC_HEADER_SIZE
    ensures !Verifies(t)
  {
    hide BitsOf, Crc, CrcBytes;
    BitsOfPart(b, 2124, |b|);
    BitsOfPart(t, 2124, |b|);
    BitsOfInjective(b[2124..|b|], t[2124..|b|]);
    assert b[2124..|b|] == b[2124..] && t[2124..|b|] == t[2124..];
    BitsOfPart(b, 0, 2122);
    BitsOfPart(t, 0, 2122);
    var s, x, s', x' := b[..2120], b[2120..2122], t[..2120], t[2120..2122];
    assert b[0..2122] == s + x && t[0..2122] == s' + x';
    if b[0..2122] != t[0..2122] {
      assert AgreeOutside(BitsOf(s + x), BitsOf(s' + x'), lo);
      RangeVerifies(s, x, s', x', lo);
    } else {
      SamePieces(b, t);
    }
  }

  lemma SamePieces(b: bytes, t: bytes)
    requires |b| == |t| && |b| >= PAC_HEADER_SIZE && b != t
    requires b[0..2122] == t[0..2122] && b[2124..] == t[2124..]
    ensures b[2122..2124] != t[2122..2124]
  {
    assert b == b[0..2122] + b[2122..2124] + b[2124..];
    assert t == t[0..2122] + t[2122..2124] + t[2124..];
  }

  /** A file that verifies has an even number of one bits, */
  lemma VerifiedIsEven(b: bytes)
    requires |b| >= PAC_HEADER_SIZE && Verifies(b)
    ensures !Odd(BitsOf(b))
  {
    hide BitsOf, Crc, CrcBytes, Odd;
    var s, x, y, body := b[..2120], b[2120..2122], b[2122..2124], b[2124..];
    assert b == (s + x) + (y + body);
    SealedIsEven(s, x);
    SealedIsEven(body, y);
    BitsOfAppend(s + x, y + body);
    BitsOfAppend(y, body);
    BitsOfAppend(body, y);
    OddAppend(BitsOf(s + x), BitsOf(y + body));
    OddAppend(BitsOf(y), BitsOf(body));
    OddAppend(BitsOf(body), BitsOf(y));
  }

  /** so an odd number of flipped bits, wherever they are, is seen. */
  lemma OddErrorInFileDetected(b: bytes, t: bytes)
    requires |b| == |t| && |b| >= PAC_HEADER_SIZE && Verifies(b)
    requires Flips(BitsOf(b), BitsOf(t)) % 2 == 1
    ensures !Verifies(t)
  {
    hide BitsOf, Verifies;
    VerifiedIsEven(b);
    OddFlipsChangeParity(BitsOf(b), BitsOf(t));
    if Verifies(t) {
      VerifiedIsEven(t);
    }
  }

  // ---------- The two sealed ranges ----------

  /** The body with its CRC behind it. */
  function SealedBody(b: bytes): bytes
    requires |b| >= PAC_HEADER_SIZE
  {
    b[2124..] + b[2122..2124]
  }

  /** A file verifies exactly when both ranges, their CRCs behind them, leave a zero register. */
  lemma VerifiesIffZero(b: bytes)
    requires |b| >= PAC_HEADER_SIZE
    ensures Verifies(b) <==> Crc(0, b[..2122]) == 0 && Crc(0, SealedBody(b)) == 0
  {
    hide Crc, CrcBytes;
    assert b[..2122] == b[..2120] + b[2120..2122];
    ZeroResidue(0, b[..2120], b[2120..2122]);
    ZeroResidue(0, b[2124..], b[2122..2124]);
  }

  // ---------- Error patterns ----------

  lemma XorBytesAppend(a: bytes, b: bytes, x: bytes, y: bytes)
    requires |a| == |b| && |x| == |y|
    ensures XorBytes(a + x, b + y) == XorBytes(a, b) + XorBytes(x, y)
  {
    hide XorByte;
  }

  lemma XorBytesSlice(a: bytes, b: bytes, i: nat, j: nat)
    requires |a| == |b| && i <= j <= |a|
    ensures XorBytes(a[i..j], b[i..j]) == XorBytes(a, b)[i..j]
  {
    hide XorByte;
  }

  lemma XorCrc(s: bytes, e: bytes)
    requires |s| == |e| && Crc(0, s) == 0
    ensures Crc(0, XorBytes(s, e)) == Crc(0, e)
  {
    hide Crc, XorBytes, Xor;
    XorZero(0);
    XorZero(Crc(0, e));
    CrcLinear(0, 0, s, e);
  }

  lemma XorSealedBody(b: bytes, e: bytes)
    requires |b| == |e| && |b| >= PAC_HEADER_SIZE
    ensures SealedBody(XorBytes(b, e)) == XorBytes(SealedBody(b), SealedBody(e))
  {
    XorBytesSlice(b, e, 2124, |b|);
    XorBytesSlice(b, e, 2122, 2124);
    hide XorByte, XorBytes;
    assert b[2124..|b|] == b[2124..] && e[2124..|b|] == e[2124..];
    assert XorBytes(b, e)[2124..|b|] == XorBytes(b, e)[2124..];
    XorBytesAppend(b[2124..], e[2124..], b[2122..2124], e[2122..2124]);
  }

  /** The bits of e flipped in a verifying file go unnoticed if and only if e itself verifies: its first 2120 bytes
      have its next two for their CRC, and all behind byte 2124 has the two in front of it. */
  lemma UnseenIffVerifies(b: bytes, e: bytes)
    requires |b| == |e| && |b| >= PAC_HEADER_SIZE && Verifies(b)
    ensures Verifies(XorBytes(b, e)) <==> Verifies(e)
  {
    hide Crc, Verifies, XorByte, SealedBody;
    var t := XorBytes(b, e);
    VerifiesIffZero(b);
    VerifiesIffZero(t);
    VerifiesIffZero(e);
    XorBytesSlice(b, e, 0, 2122);
    assert b[0..2122] == b[..2122] && e[0..2122] == e[..2122] && t[0..2122] == t[..2122];
    XorSealedBody(b, e);
    SealedBodyLength(b);
    SealedBodyLength(e);
    hide XorBytes;
    XorCrc(b[..2122], e[..2122]);
    XorCrc(SealedBody(b), SealedBody(e));
  }

  lemma SealedBodyLength(b: bytes)
    requires |b| >= PAC_HEADER_SIZE
    ensures |SealedBody(b)| == |b| - 2122
  {
  }

  // ---------- A burst across the end of the main header ----------

  /** Four bits of the last header byte and two of the first body byte, in a file whose body has 32767 k + 1 bytes. */
  function Straddle(k: nat): (e: bytes)
    ensures |e| == 2125 + 32767 * k
  {
    Zeros(2123) + [0x0f, 0x14] + Zeros(32767 * k)
  }

  lemma {:induction false} CrcOfZeros(v: bv16, n: nat)
    ensures Crc(v, Zeros(n)) == Shifts(v, 8 * n)
    decreases n
  {
    if n == 0 {
    } else {
      assert Zeros(n)[0] == 0 && Zeros(n)[1..] == Zeros(n - 1);
      XorZero(v);
      assert Word(0) == 0;
      ShiftsAdd(v, 8, 8 * (n - 1));
      hide Shifts, Xor, Word;
      CrcOfZeros(ByteStep(v, 0), n - 1);
    }
  }

  lemma PowerKept(j: nat, n: nat)
    requires Periodic(n)
    ensures Shifts(Power(j), n) == Power(j)
  {
    hide Shifts;
    ShiftsAdd(ONE, j, n);
    ShiftsAdd(ONE, n, j);
  }

  lemma PowersToSeven()
    ensures Power(4) == 0x0800 && Power(5) == 0x0400 && Power(6) == 0x0200 && Power(7) == 0x0100
  {
    PowersTo32();
    ShiftsOnce(ONE, 4);
    ShiftsOnce(ONE, 5);
    ShiftsOnce(ONE, 6);
    hide Shifts;
    assert Shift(0x0800) == 0x0400 && Shift(0x0400) == 0x0200 && Shift(0x0200) == 0x0100;
  }

  lemma StraddleSum()
    ensures 0x0f00 == Xor(Xor(0x0800, 0x0400), Xor(0x0200, 0x0100))
  {
  }

  lemma StraddleKept(n: nat)
    requires Periodic(n)
    ensures Shifts(0x0f00, n) == 0x0f00
  {
    hide *;
    PowersToSeven();
    StraddleSum();
    PowerKept(4, n);
    PowerKept(5, n);
    PowerKept(6, n);
    PowerKept(7, n);
    ShiftsLinear(Xor(0x0800, 0x0400), Xor(0x0200, 0x0100), n);
    ShiftsLinear(0x0800, 0x0400, n);
    ShiftsLinear(0x0200, 0x0100, n);
  }

  lemma FirstByteCrc()
    ensures ByteStep(0, 0x14) == 0x0f00 && CrcBytes(0x0f00) == [0, 0x0f] && CrcBytes(0) == [0, 0]
  {
    XorZero(0x14);
    assert Word(0x14) == 0x14;
    TableIsBitwise(0x14);
    assert TableRow(1)[4] == 0x0f00;
    assert TableEntry(0x14) == 0x0f00;
    hide Shifts, Xor, TableEntry;
  }

  lemma StraddlePieces(k: nat)
    ensures var e := Straddle(k);
            && e[..2120] == Zeros(2120) && e[2120..2122] == [0, 0] && e[2122..2124] == [0, 0x0f]
            && e[2124..] == [0x14] + Zeros(32767 * k)
  {
  }

  lemma StraddleVerifies(k: nat)
    ensures Verifies(Straddle(k))
  {
    StraddlePieces(k);
    PeriodIff(32767 * (8 * k));
    FirstByteCrc();
    hide Straddle, Shifts, ByteStep, CrcBytes, Periodic, Crc;
    CrcOfZeros(0, 2120);
    ShiftsOfZero(8 * 2120);
    FirstStep(0, 0x14, Zeros(32767 * k));
    CrcOfZeros(0x0f00, 32767 * k);
    assert 8 * (32767 * k) == 32767 * (8 * k);
    StraddleKept(32767 * (8 * k));
  }

  lemma FirstStep(c: bv16, b: byte, s: bytes)
    ensures Crc(c, [b] + s) == Crc(ByteStep(c, b), s)
  {
    assert ([b] + s)[1..] == s;
    hide ByteStep;
  }

  lemma {:induction false} BitsOfXor(b: bytes, e: bytes, i: nat)
    requires |b| == |e| && i < 8 * |b|
    ensures |BitsOf(XorBytes(b, e))| == 8 * |b|
    ensures BitsOf(XorBytes(b, e))[i] == (BitsOf(b)[i] != BitsOf(e)[i])
    decreases |b|
  {
    hide XorByte, Word, WordBits, Xor;
    assert XorBytes(b, e)[1..] == XorBytes(b[1..], e[1..]);
    if i < 8 {
      WordXor(b[0], e[0]);
      WordBitsXor(Word(b[0]), Word(e[0]), 8, i);
    } else {
      BitsOfXor(b[1..], e[1..], i - 8);
    }
  }

  lemma {:induction false} BitsOfZeros(n: nat)
    ensures forall i :: 0 <= i < 8 * n ==> !BitsOf(Zeros(n))[i]
  {
    if n == 0 {
    } else {
      assert Zeros(n)[0] == 0 && Zeros(n)[1..] == Zeros(n - 1);
      ZeroBits();
      hide ByteBits;
      BitsOfZeros(n - 1);
    }
  }

  lemma ZeroBits()
    ensures forall i :: 0 <= i < 8 ==> !ByteBits(0)[i]
  {
    assert Word(0) == 0;
    forall i | 0 <= i < 8 ensures !ByteBits(0)[i] { ShortBits(0, 0, 8, i); }
  }

  /** All bits of the pattern lie in the two bytes. */
  lemma StraddleBits(k: nat)
    ensures BitsOf(Straddle(k))[8 * 2123]
    ensures forall i :: 0 <= i < 8 * |Straddle(k)| && (i < 8 * 2123 || i >= 8 * 2125) ==> !BitsOf(Straddle(k))[i]
  {
    hide BitsOf, Zeros;
    var tail := Zeros(32767 * k);
    assert Straddle(k) == Zeros(2123) + ([0x0f, 0x14] + tail);
    BitsOfAppend(Zeros(2123), [0x0f, 0x14] + tail);
    BitsOfAppend([0x0f, 0x14], tail);
    BitsOfZeros(2123);
    BitsOfZeros(32767 * k);
    FirstBit();
  }

  lemma FirstBit()
    ensures |BitsOf([0x0f, 0x14])| == 16 && BitsOf([0x0f, 0x14])[0]
  {
    assert Word(0x0f) == 0x0f;
    assert WordBits(0x0f, 8)[0];
  }

  /** A burst within 16 bits across the end of the main header can go unseen: for every body length of the form
      32767 k + 1 there is one that no verifying file shows. */
  lemma StraddlingBurstUnseen(b: bytes, k: nat)
    requires |b| == 2125 + 32767 * k && Verifies(b)
    ensures var t := XorBytes(b, Straddle(k));
            && |t| == |b| && t != b && AgreeOutside(BitsOf(b), BitsOf(t), 8 * 2123) && Verifies(t)
  {
    hide BitsOf, Straddle, Verifies;
    var e := Straddle(k);
    var t := XorBytes(b, e);
    StraddleVerifies(k);
    UnseenIffVerifies(b, e);
    StraddleBits(k);
    forall i | 0 <= i < 8 * |b|
      ensures BitsOf(t)[i] == (BitsOf(b)[i] != BitsOf(e)[i])
    {
      BitsOfXor(b, e, i);
    }
  }

  // ---------- Up to three flipped bits ----------

  lemma DifferenceCounts(s: bytes, t: bytes)
    requires |s| == |t| && s != t
    ensures Flips(BitsOf(s), BitsOf(t)) >= 1
  {
    hide BitsOf, Flips;
    if Flips(BitsOf(s), BitsOf(t)) == 0 {
      NoFlips(BitsOf(s), BitsOf(t));
      BitsOfInjective(s, t);
    }
  }

  /** The flips of a file, range by range. */
  lemma FlipsByRange(b: bytes, t: bytes)
    requires |b| == |t| && |b| >= PAC_HEADER_SIZE
    ensures Flips(BitsOf(b), BitsOf(t)) == Flips(BitsOf(b[..2122]), BitsOf(t[..2122])) + Flips(BitsOf(SealedBody(b)), BitsOf(SealedBody(t)))
  {
    hide BitsOf, Flips;
    var x, y, x', y' := b[2122..2124], b[2124..], t[2122..2124], t[2124..];
    assert b == b[..2122] + (x + y) && t == t[..2122] + (x' + y');
    BitsOfAppend(b[..2122], x + y);
    BitsOfAppend(t[..2122], x' + y');
    BitsOfAppend(x, y);
    BitsOfAppend(x', y');
    BitsOfAppend(y, x);
    BitsOfAppend(y', x');
    FlipsAppend(BitsOf(b[..2122]), BitsOf(t[..2122]), BitsOf(x + y), BitsOf(x' + y'));
    FlipsAppend(BitsOf(x), BitsOf(x'), BitsOf(y), BitsOf(y'));
    FlipsAppend(BitsOf(y), BitsOf(y'), BitsOf(x), BitsOf(x'));
  }

  /** Up to three flipped bits are seen if one of them hits the first 2122 bytes, and in files of up to 6217 bytes
      wherever they hit. */
  lemma FewErrorsDetected(b: bytes, t: bytes)
    requires |b| == |t| && |b| >= PAC_HEADER_SIZE && Verifies(b)
    requires 1 <= Flips(BitsOf(b), BitsOf(t)) <= 3
    requires b[..2122] != t[..2122] || |b| <= 6217
    ensures !Verifies(t)
  {
    hide BitsOf, Flips, Verifies, Crc, SealedBody;
    FlipsByRange(b, t);
    VerifiesIffZero(b);
    VerifiesIffZero(t);
    SealedBodyLength(b);
    SealedBodyLength(t);
    if b[..2122] != t[..2122] {
      DifferenceCounts(b[..2122], t[..2122]);
      FewFlipsDetected(0, b[..2122], t[..2122]);
    } else {
      SameHeaderFlips(b[..2122]);
      FewFlipsDetected(0, SealedBody(b), SealedBody(t));
    }
  }

  lemma SameHeaderFlips(s: bytes)
    ensures Flips(BitsOf(s), BitsOf(s)) == 0
  {
    NoDifference(BitsOf(s));
  }

  lemma {:induction false} NoDifference(a: seq<bool>)
    ensures Flips(a, a) == 0
  {
    if a == [] {
    } else {
      NoDifference(a[1..]);
    }
  }

  /** Two flipped bits behind the main header go unseen exactly when their distance is a multiple of 32767. */
  lemma TwoErrorsInBody(b: bytes, t: bytes, i: nat, j: nat)
    requires |b| == |t| && |b| >= PAC_HEADER_SIZE && Verifies(b)
    requires DifferAt(BitsOf(b), BitsOf(t), i, j) && i >= 8 * PAC_HEADER_SIZE
    ensures Verifies(t) <==> (j - i) % 32767 == 0
  {
    hide BitsOf, Crc, CrcBytes;
    BitsOfPart(b, 0, 2124);
    BitsOfPart(t, 0, 2124);
    BitsOfPart(b, 2124, |b|);
    BitsOfPart(t, 2124, |b|);
    assert BitsOf(b[0..2124]) == BitsOf(t[0..2124]);
    BitsOfInjective(b[0..2124], t[0..2124]);
    var body, body' := b[2124..|b|], t[2124..|b|];
    assert body == b[2124..] && body' == t[2124..];
    FrontParts(b, t);
    var lo := 8 * 2124;
    assert DifferAt(BitsOf(body), BitsOf(body'), i - lo, j - lo);
    TwoFlips(0, BitsOf(body), BitsOf(body'), i - lo, j - lo);
    CrcIsBitCrc(0, body);
    CrcIsBitCrc(0, body');
    if Verifies(t) { CrcBytesInjective(Crc(0, body), Crc(0, body')); }
  }

  lemma FrontParts(b: bytes, t: bytes)
    requires |b| == |t| && |b| >= PAC_HEADER_SIZE && b[0..2124] == t[0..2124]
    ensures b[..2120] == t[..2120] && b[2120..2122] == t[2120..2122] && b[2122..2124] == t[2122..2124]
  {
    assert b[..2120] == b[0..2124][..2120] && t[..2120] == t[0..2124][..2120];
    assert b[2120..2122] == b[0..2124][2120..2122] && t[2120..2122] == t[0..2124][2120..2122];
    assert b[2122..2124] == b[0..2124][2122..2124] && t[2122..2124] == t[0..2124][2122..2124];
  }
}
