/** Which errors the CRC detects. */
module CrcDetection {
  import opened Bytes
  import opened Crc16
  import opened CrcDivision

  lemma ShiftsInjective(a: bv16, b: bv16, n: nat)
    requires Shifts(a, n) == Shifts(b, n)
    ensures a == b
    decreases n
  {
    if n == 0 {
    } else {
      ShiftsInjective(Shift(a), Shift(b), n - 1);
      ShiftInjective(a, b);
    }
  }

  lemma BitStepInjective(c: bv16, d: bv16, bit: bool)
    requires BitStep(c, bit) == BitStep(d, bit)
    ensures c == d
  {
    ShiftInjective(Xor(c, if bit then 1 else 0), Xor(d, if bit then 1 else 0));
    XorCancel(c, d, if bit then 1 else 0);
  }

  lemma XorCancel(c: bv16, d: bv16, x: bv16)
    requires Xor(c, x) == Xor(d, x)
    ensures c == d
  {
  }

  /** Different registers stay different however the message goes on. */
  lemma {:induction false} BitCrcInjective(c: bv16, d: bv16, bits: seq<bool>)
    requires BitCrc(c, bits) == BitCrc(d, bits)
    ensures c == d
    decreases bits
  {
    if bits == [] {
    } else {
      hide BitStep;
      BitCrcInjective(BitStep(c, bits[0]), BitStep(d, bits[0]), bits[1..]);
      BitStepInjective(c, d, bits[0]);
    }
  }

  lemma {:induction false} ShortGrows(v: bv16, k: nat)
    requires Short(v, k)
    ensures Short(v, k + 1)
    decreases k
  {
    if k > 0 {
      ShortGrows(Half(v), k - 1);
    } else {
      assert Half(v) == 0;
    }
  }

  lemma {:induction false} ShortTop(v: bv16, k: nat)
    requires Short(v, k) && k <= 15
    ensures v & 0x8000 == 0
    decreases 15 - k
  {
    if k < 15 {
      ShortGrows(v, k);
      ShortTop(v, k + 1);
    } else {
      Short15(v);
    }
  }

  lemma Short15(v: bv16)
    requires Short(v, 15)
    ensures v & 0x8000 == 0
  {
    assert v >> 1 >> 1 >> 1 >> 1 >> 1 >> 1 >> 1 >> 1 >> 1 >> 1 >> 1 >> 1 >> 1 >> 1 >> 1 == 0;
  }

  lemma XorSelf(c: bv16)
    ensures Xor(c, c) == 0
  {
  }

  /** A step that feeds back on one side only shows in the top bit. */
  lemma StepBack(c: bv16, d: bv16, b: bool, e: bool)
    requires Xor(BitStep(c, b), BitStep(d, e)) & 0x8000 == 0
    ensures Half(Xor(c, d)) == Xor(BitStep(c, b), BitStep(d, e))
    ensures c == d ==> b == e
  {
    StepFeedsBack(c, b);
    StepFeedsBack(d, e);
    hide BitStep;
    if b != (c & 1 != 0) {
      if e != (d & 1 != 0) {} else {}
    } else {
      if e != (d & 1 != 0) {} else {}
    }
  }

  /** Up to 16 message bits can be read back from the registers before and after them. */
  lemma {:induction false} WindowInjective(c: bv16, d: bv16, w: seq<bool>, x: seq<bool>)
    requires |w| == |x| <= 16
    requires BitCrc(c, w) == BitCrc(d, x)
    ensures Short(Xor(c, d), |w|)
    ensures c == d ==> w == x
    decreases w
  {
    hide BitStep, Xor;
    if w == [] {
      XorSelf(c);
    } else {
      var c', d' := BitStep(c, w[0]), BitStep(d, x[0]);
      WindowInjective(c', d', w[1..], x[1..]);
      ShortTop(Xor(c', d'), |w| - 1);
      StepBack(c, d, w[0], x[0]);
      assert Short(Xor(c, d), |w|);
      if c == d {
        assert w[1..] == x[1..];
        assert w == [w[0]] + w[1..] && x == [x[0]] + x[1..];
      }
    }
  }

  /** a and b agree outside the 16 positions that start at lo. */
  ghost predicate AgreeOutside(a: seq<bool>, b: seq<bool>, lo: nat) {
    |a| == |b| && forall i :: 0 <= i < |a| && (i < lo || i >= lo + 16) ==> a[i] == b[i]
  }

  lemma BitBurstDetected(c: bv16, a: seq<bool>, b: seq<bool>, lo: nat)
    requires a != b && AgreeOutside(a, b, lo)
    ensures BitCrc(c, a) != BitCrc(c, b)
  {
    var from := if lo < |a| then lo else |a|;
    var to := if lo + 16 < |a| then lo + 16 else |a|;
    assert a == a[..from] + (a[from..to] + a[to..]);
    assert b == a[..from] + (b[from..to] + a[to..]);
    BitCrcAppend(c, a[..from], a[from..to] + a[to..]);
    BitCrcAppend(c, a[..from], b[from..to] + a[to..]);
    var m := BitCrc(c, a[..from]);
    BitCrcAppend(m, a[from..to], a[to..]);
    BitCrcAppend(m, b[from..to], a[to..]);
    if BitCrc(c, a) == BitCrc(c, b) {
      BitCrcInjective(BitCrc(m, a[from..to]), BitCrc(m, b[from..to]), a[to..]);
      WindowInjective(m, m, a[from..to], b[from..to]);
    }
  }

  lemma {:induction false} WordBitsInjective(v: bv16, w: bv16, n: nat)
    requires Short(v, n) && Short(w, n) && WordBits(v, n) == WordBits(w, n)
    ensures v == w
    decreases n
  {
    if n == 0 {
    } else {
      assert WordBits(v, n)[1..] == WordBits(Half(v), n - 1);
      assert WordBits(w, n)[1..] == WordBits(Half(w), n - 1);
      WordBitsInjective(Half(v), Half(w), n - 1);
      assert WordBits(v, n)[0] == WordBits(w, n)[0];
      assert (v & 1 != 0) == (w & 1 != 0);
    }
  }

  lemma ByteBitsInjective(a: byte, b: byte)
    requires ByteBits(a) == ByteBits(b)
    ensures a == b
  {
    hide Bv;
    ByteIsShort(Word(a));
    ByteIsShort(Word(b));
    WordBitsInjective(Word(a), Word(b), 8);
    assert Bv(a) == Bv(b);
  }

  lemma {:induction false} BitsOfInjective(s: bytes, t: bytes)
    requires |s| == |t| && BitsOf(s) == BitsOf(t)
    ensures s == t
    decreases s
  {
    if s == [] {
    } else {
      hide ByteBits;
      assert ByteBits(s[0]) == BitsOf(s)[..8] == BitsOf(t)[..8] == ByteBits(t[0]);
      assert BitsOf(s)[8..] == BitsOf(s[1..]) && BitsOf(t)[8..] == BitsOf(t[1..]);
      BitsOfInjective(s[1..], t[1..]);
      ByteBitsInjective(s[0], t[0]);
      assert s == [s[0]] + s[1..] && t == [t[0]] + t[1..];
    }
  }

  /** Every error burst of at most 16 bits changes the CRC. */
  lemma BurstDetected(c: bv16, s: bytes, t: bytes, lo: nat)
    requires s != t && |s| == |t| && AgreeOutside(BitsOf(s), BitsOf(t), lo)
    ensures Crc(c, s) != Crc(c, t)
  {
    CrcIsBitCrc(c, s);
    CrcIsBitCrc(c, t);
    if BitsOf(s) == BitsOf(t) {
      BitsOfInjective(s, t);
    } else {
      BitBurstDetected(c, BitsOf(s), BitsOf(t), lo);
    }
  }

  lemma {:induction false} BitsOfAppend(a: bytes, b: bytes)
    ensures BitsOf(a + b) == BitsOf(a) + BitsOf(b)
  {
    hide ByteBits;
    if a == [] {
      assert a + b == b;
    } else {
      assert (a + b)[1..] == a[1..] + b;
      BitsOfAppend(a[1..], b);
    }
  }

  /** Changing anything within two adjacent bytes (or one) changes the CRC. */
  lemma BytePairDetected(c: bv16, s: bytes, t: bytes, k: nat)
    requires s != t && |s| == |t|
    requires forall i :: 0 <= i < |s| && i != k && i != k + 1 ==> s[i] == t[i]
    ensures Crc(c, s) != Crc(c, t)
  {
    hide BitsOf;
    var from := if k < |s| then k else |s|;
    var to := if k + 2 < |s| then k + 2 else |s|;
    assert s == s[..from] + (s[from..to] + s[to..]);
    assert t == s[..from] + (t[from..to] + s[to..]);
    BitsOfAppend(s[..from], s[from..to] + s[to..]);
    BitsOfAppend(s[from..to], s[to..]);
    BitsOfAppend(s[..from], t[from..to] + s[to..]);
    BitsOfAppend(t[from..to], s[to..]);
    BurstDetected(c, s, t, 8 * from);
  }

  /** The two bytes struct.pack writes for the CRC. */
  function CrcBytes(c: bv16): (b: bytes)
    ensures |b| == 2
  {
    [(c as int) % 256, (c as int) / 256]
  }

  lemma WordOf(b: byte, v: bv8)
    requires v as int == b
    ensures Word(b) == v as bv16
  {
    BvUnique(b, v);
  }

  lemma SplitsInBytes(c: bv16)
    ensures c as int == 256 * (((c >> 8) as bv8) as int) + ((c & 0xff) as bv8) as int
  {
  }

  lemma DivMod256(h: int, l: int, n: int)
    requires 0 <= l < 256 && n == 256 * h + l
    ensures n / 256 == h && n % 256 == l
  {
  }

  lemma CrcBytesAsWords(c: bv16)
    ensures Word(CrcBytes(c)[0]) == c & 0xff
    ensures Word(CrcBytes(c)[1]) == c >> 8
  {
    hide Word;
    var h, l := (c >> 8) as bv8, (c & 0xff) as bv8;
    SplitsInBytes(c);
    DivMod256(h as int, l as int, c as int);
    WordOf(CrcBytes(c)[0], l);
    WordOf(CrcBytes(c)[1], h);
  }

  lemma CancelLow(c: bv16)
    ensures Xor(c, c & 0xff) == c & 0xff00
    ensures (c & 0xff00) & 0xff == 0 && (c & 0xff00) >> 8 == c >> 8
  {
  }

  lemma ShiftsOfZero(n: nat)
    ensures Shifts(0, n) == 0
    decreases n
  {
    assert Shift(0) == 0;
  }

  lemma OwnBytesClear(c: bv16)
    ensures Crc(c, CrcBytes(c)) == 0
  {
    hide Xor, Shifts, Word;
    var b := CrcBytes(c);
    CrcBytesAsWords(c);
    CancelLow(c);
    EvenByteShifts(c & 0xff00);
    assert ByteStep(c, b[0]) == c >> 8;
    XorSelf(c >> 8);
    ShiftsOfZero(8);
    assert ByteStep(c >> 8, b[1]) == 0;
    assert b[1..] == [b[1]] && b[1..][1..] == [];
    assert Crc(c, b) == Crc(c >> 8, b[1..]) == Crc(0, []);
  }

  /** Data followed by two bytes leaves the register at zero exactly when they are the data's CRC, low byte first. */
  lemma ZeroResidue(c: bv16, s: bytes, tail: bytes)
    requires |tail| == 2
    ensures Crc(c, s + tail) == 0 <==> tail == CrcBytes(Crc(c, s))
  {
    var own := CrcBytes(Crc(c, s));
    CrcAppend(c, s, own);
    OwnBytesClear(Crc(c, s));
    if tail != own {
      assert (s + tail)[|s|..] == tail && (s + own)[|s|..] == own;
      BytePairDetected(c, s + tail, s + own, |s|);
    }
  }

  lemma CrcBytesInjective(c: bv16, d: bv16)
    requires CrcBytes(c) == CrcBytes(d)
    ensures c == d
  {
    hide Crc, BitCrc, BitsOf, CrcBytes;
    OwnBytesClear(c);
    OwnBytesClear(d);
    CrcIsBitCrc(c, CrcBytes(c));
    CrcIsBitCrc(d, CrcBytes(c));
    BitCrcInjective(c, d, BitsOf(CrcBytes(c)));
  }

  // ---------- Parity ----------

  predicate Odd(bits: seq<bool>) {
    bits != [] && bits[0] != Odd(bits[1..])
  }

  lemma {:induction false} OddOfXor(x: bv16, y: bv16, n: nat)
    ensures Odd(WordBits(Xor(x, y), n)) == (Odd(WordBits(x, n)) != Odd(WordBits(y, n)))
    decreases n
  {
    XorBits(x, y);
    hide Xor, Half;
    if n == 0 {
    } else {
      OddOfXor(Half(x), Half(y), n - 1);
      WordBitsTail(Xor(x, y), n);
      WordBitsTail(x, n);
      WordBitsTail(y, n);
    }
  }

  lemma WordBitsTail(v: bv16, n: nat)
    requires n > 0
    ensures WordBits(v, n)[1..] == WordBits(Half(v), n - 1)
  {
  }

  /** Bits above the short part do not count. */
  lemma {:induction false} OddOfShort(v: bv16, k: nat)
    requires Short(v, k)
    ensures Odd(WordBits(v, k + 1)) == Odd(WordBits(v, k))
    decreases k
  {
    WordBitsTail(v, k + 1);
    if k > 0 {
      WordBitsTail(v, k);
      OddOfShort(Half(v), k - 1);
    } else {
      assert WordBits(v, 1) == [false];
      assert WordBits(Half(v), 0) == [];
    }
  }

  lemma OddOfHalf(c: bv16)
    ensures Odd(WordBits(Half(c), 16)) == (Odd(WordBits(c, 16)) != (c & 1 != 0))
  {
    HalfIsShort(c);
    OddOfShort(Half(c), 15);
    WordBitsTail(c, 16);
  }

  lemma OddStep(v: bv16, n: nat)
    requires n > 0
    ensures Odd(WordBits(v, n)) == ((v & 1 != 0) != Odd(WordBits(Half(v), n - 1)))
  {
    WordBitsTail(v, n);
  }

  lemma OddOfFeedback()
    ensures Odd(WordBits(0xA001, 16))
  {
    hide Odd, WordBits;
    OddStep(0xA001, 16); OddStep(0x5000, 15); OddStep(0x2800, 14); OddStep(0x1400, 13);
    OddStep(0x0A00, 12); OddStep(0x0500, 11); OddStep(0x0280, 10); OddStep(0x0140, 9);
    OddStep(0x00A0, 8); OddStep(0x0050, 7); OddStep(0x0028, 6); OddStep(0x0014, 5);
    OddStep(0x000A, 4); OddStep(0x0005, 3); OddStep(0x0002, 2); OddStep(0x0001, 1);
    OddOfZero(0);
  }

  lemma OddOfZero(n: nat)
    ensures !Odd(WordBits(0, n))
    decreases n
  {
    if n == 0 {
    } else {
      OddStep(0, n);
      OddOfZero(n - 1);
    }
  }

  /** The register's parity follows the parity of what it absorbed. */
  lemma {:induction false} ParityFollows(c: bv16, m: seq<bool>)
    ensures Odd(Coefficients(BitCrc(c, m))) == (Odd(Coefficients(c)) != Odd(m))
    decreases m
  {
    if m == [] {
    } else {
      hide BitStep, Xor, WordBits, Half;
      var lead := m[0] != (c & 1 != 0);
      StepFeedsBack(c, m[0]);
      OddOfXor(Half(c), if lead then 0xA001 else 0, 16);
      OddOfHalf(c);
      OddOfFeedback();
      OddOfZero(16);
      ParityFollows(BitStep(c, m[0]), m[1..]);
    }
  }

  function Flips(a: seq<bool>, b: seq<bool>): nat
    requires |a| == |b|
  {
    if a == [] then 0 else (if a[0] != b[0] then 1 else 0) + Flips(a[1..], b[1..])
  }

  lemma {:induction false} OddFlipsChangeParity(a: seq<bool>, b: seq<bool>)
    requires |a| == |b|
    ensures (Odd(a) != Odd(b)) == (Flips(a, b) % 2 == 1)
  {
    if a == [] {
    } else {
      OddFlipsChangeParity(a[1..], b[1..]);
    }
  }

  /** Every error that flips an odd number of bits changes the CRC. */
  lemma OddErrorDetected(c: bv16, s: bytes, t: bytes)
    requires |s| == |t| && Flips(BitsOf(s), BitsOf(t)) % 2 == 1
    ensures Crc(c, s) != Crc(c, t)
  {
    CrcIsBitCrc(c, s);
    CrcIsBitCrc(c, t);
    ParityFollows(c, BitsOf(s));
    ParityFollows(c, BitsOf(t));
    OddFlipsChangeParity(BitsOf(s), BitsOf(t));
  }

  lemma {:induction false} OddAppend(a: seq<bool>, b: seq<bool>)
    ensures Odd(a + b) == (Odd(a) != Odd(b))
  {
    if a == [] {
      assert a + b == b;
    } else {
      assert (a + b)[1..] == a[1..] + b;
      OddAppend(a[1..], b);
    }
  }

  /** Data with its own CRC appended has an even number of one bits. */
  lemma SealedIsEven(s: bytes, tail: bytes)
    requires |tail| == 2 && tail == CrcBytes(Crc(0, s))
    ensures !Odd(BitsOf(s + tail))
  {
    ZeroResidue(0, s, tail);
    CrcIsBitCrc(0, s + tail);
    ParityFollows(0, BitsOf(s + tail));
  }
}
