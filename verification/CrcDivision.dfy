/** The CRC as the remainder of a polynomial long division. */
module CrcDivision {
  import opened Bytes
  import opened Crc16

  /** x^16 + x^15 + x^2 + 1, highest coefficient first. */
  const GENERATOR: seq<bool> :=
    [true, true, false, false, false, false, false, false, false,
     false, false, false, false, false, true, false, true]

  function SubtractGenerator(bits: seq<bool>): (r: seq<bool>)
    ensures |r| == |bits|
  {
    seq(|bits|, i requires 0 <= i < |bits| => bits[i] != (i < 17 && GENERATOR[i]))
  }

  /** Schoolbook division over GF(2), dividend highest coefficient first: what is left below x^16. */
  function Remainder(dividend: seq<bool>): seq<bool>
    decreases |dividend|
  {
    if |dividend| <= 16 then dividend
    else if dividend[0] then Remainder(SubtractGenerator(dividend)[1..])
    else Remainder(dividend[1..])
  }

  /** The register's coefficients, highest first: the register is kept reflected. */
  function Coefficients(c: bv16): seq<bool> { WordBits(c, 16) }

  /** message * x^16, with c added to its 16 highest coefficients. */
  function Dividend(c: bv16, message: seq<bool>): (d: seq<bool>)
    ensures |d| == |message| + 16
  {
    seq(|message| + 16, i requires 0 <= i < |message| + 16 =>
      (i < |message| && message[i]) != (i < 16 && Coefficients(c)[i]))
  }

  lemma {:induction false} WordBitsXor(x: bv16, y: bv16, n: nat, i: nat)
    requires i < n
    ensures WordBits(Xor(x, y), n)[i] == (WordBits(x, n)[i] != WordBits(y, n)[i])
    decreases n
  {
    XorBits(x, y);
    hide Xor;
    if i == 0 {
    } else {
      WordBitsXor(Half(x), Half(y), n - 1, i - 1);
    }
  }

  lemma XorBits(x: bv16, y: bv16)
    ensures (Xor(x, y) & 1 != 0) == ((x & 1 != 0) != (y & 1 != 0))
    ensures Half(Xor(x, y)) == Xor(Half(x), Half(y))
  {
    XorHalf(x, y);
    if x & 1 != 0 {} else {}
  }

  lemma XorHalf(x: bv16, y: bv16)
    ensures Half(Xor(x, y)) == Xor(Half(x), Half(y))
  {
  }

  lemma {:induction false} ShortBits(v: bv16, k: nat, n: nat, i: nat)
    requires Short(v, k) && k <= i < n
    ensures !WordBits(v, n)[i]
    decreases n
  {
    if k > 0 {
      ShortBits(Half(v), k - 1, n - 1, i - 1);
    } else if i > 0 {
      assert Half(v) == 0;
      ShortBits(Half(v), 0, n - 1, i - 1);
    }
  }

  lemma {:induction false} WordBitsPrefix(v: bv16, n: nat, i: nat)
    requires i < n
    ensures WordBits(v, n)[i] == WordBits(v, n + 1)[i]
    decreases n
  {
    hide *;
    WordBitsStep(v, n - 1);
    WordBitsStep(v, n);
    if i == 0 {
    } else {
      WordBitsPrefix(Half(v), n - 1, i - 1);
    }
  }

  lemma HalfIsShort(c: bv16)
    ensures Short(Half(c), 15)
  {
    assert c >> 1 >> 1 >> 1 >> 1 >> 1 >> 1 >> 1 >> 1 >> 1 >> 1 >> 1 >> 1 >> 1 >> 1 >> 1 >> 1 == 0;
  }

  lemma StepFeedsBack(c: bv16, bit: bool)
    ensures var lead := bit != (c & 1 != 0);
            BitStep(c, bit) == Xor(Half(c), if lead then 0xA001 else 0)
  {
    if bit {
      if c & 1 != 0 {} else {}
    } else {
      if c & 1 != 0 {} else {}
    }
  }

  lemma FeedbackBits()
    ensures WordBits(0xA001, 16) == GENERATOR[1..]
  {
    hide WordBits;
    FourBits(0xA001, 12);
    FourBits(0x0A00, 8);
    FourBits(0x00A0, 4);
    FourBits(0x000A, 0);
    assert WordBits(0, 0) == [];
  }

  lemma FourBits(v: bv16, n: nat)
    ensures WordBits(v, n + 4) == [v & 1 != 0, v & 2 != 0, v & 4 != 0, v & 8 != 0] + WordBits(v >> 4, n)
  {
    hide *;
    BitsAbove(v);
    WordBitsStep(v, n + 3);
    WordBitsStep(v >> 1, n + 2);
    WordBitsStep(v >> 2, n + 1);
    WordBitsStep(v >> 3, n);
  }

  lemma BitsAbove(v: bv16)
    ensures Half(v) == v >> 1 && Half(v >> 1) == v >> 2 && Half(v >> 2) == v >> 3 && Half(v >> 3) == v >> 4
    ensures ((v >> 1) & 1 != 0) == (v & 2 != 0) && ((v >> 2) & 1 != 0) == (v & 4 != 0)
    ensures ((v >> 3) & 1 != 0) == (v & 8 != 0)
  {
  }

  lemma WordBitsStep(v: bv16, n: nat)
    ensures WordBits(v, n + 1) == [v & 1 != 0] + WordBits(Half(v), n)
  {
  }

  lemma FeedbackIsGenerator(i: nat)
    requires i < 16
    ensures WordBits(0xA001, 16)[i] == GENERATOR[i + 1]
    ensures !WordBits(0, 16)[i]
  {
    FeedbackBits();
    hide WordBits;
    ShortBits(0, 0, 16, i);
  }

  /** One register step is one division step: drop the leading coefficient, subtract if it was set. */
  lemma CoefficientsAfterStep(c: bv16, bit: bool, i: nat)
    requires i < 16
    ensures var lead := bit != Coefficients(c)[0];
            Coefficients(BitStep(c, bit))[i] == ((i < 15 && Coefficients(c)[i + 1]) != (lead && GENERATOR[i + 1]))
  {
    hide BitStep, Xor, Short;
    var lead := bit != (c & 1 != 0);
    StepFeedsBack(c, bit);
    WordBitsXor(Half(c), if lead then 0xA001 else 0, 16, i);
    FeedbackIsGenerator(i);
    if i < 15 {
      WordBitsPrefix(Half(c), 15, i);
    } else {
      HalfIsShort(c);
      ShortBits(Half(c), 15, 16, 15);
    }
  }

  lemma DividendStep(c: bv16, message: seq<bool>)
    requires message != []
    ensures var d := Dividend(c, message);
            Dividend(BitStep(c, message[0]), message[1..])
              == (if d[0] then SubtractGenerator(d) else d)[1..]
  {
    hide BitStep, WordBits;
    var d, rest := Dividend(c, message), message[1..];
    var next := Dividend(BitStep(c, message[0]), rest);
    forall i | 0 <= i < |next|
      ensures next[i] == (if d[0] then SubtractGenerator(d) else d)[i + 1]
    {
      if i < 16 {
        CoefficientsAfterStep(c, message[0], i);
      }
    }
  }

  /** The CRC is the remainder of the message times x^16 by the generator, for every start value. */
  lemma {:induction false} BitCrcIsRemainder(c: bv16, message: seq<bool>)
    ensures Remainder(Dividend(c, message)) == Coefficients(BitCrc(c, message))
    decreases message
  {
    hide BitStep, WordBits;
    if message == [] {
      assert Dividend(c, []) == Coefficients(c);
    } else {
      DividendStep(c, message);
      BitCrcIsRemainder(BitStep(c, message[0]), message[1..]);
    }
  }

  lemma CrcIsRemainder(c: bv16, s: bytes)
    ensures Remainder(Dividend(c, BitsOf(s))) == Coefficients(Crc(c, s))
  {
    CrcIsBitCrc(c, s);
    BitCrcIsRemainder(c, BitsOf(s));
  }
}
