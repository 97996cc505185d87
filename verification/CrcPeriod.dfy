/** The order of the generator, and what it says about errors of two and three bits. */
module CrcPeriod {
  import opened Crc16
  import opened CrcDivision
  import opened CrcDetection

  // ---------- Products of residues ----------

  /** The residue of x^0: the register is kept reflected, so the low bit is x^15. */
  const ONE: bv16 := 0x8000

  predicate Low(v: bv16) { v & 1 != 0 }

  function Pick(bit: bool, a: bv16): bv16 { if bit then a else 0 }

  /** n more coefficients of b, highest power first, times a, behind what acc holds. */
  function Times(b: bv16, a: bv16, acc: bv16, n: nat): bv16
    decreases n
  {
    if n == 0 then acc else Times(Half(b), a, Xor(Shift(acc), Pick(Low(b), a)), n - 1)
  }

  /** b times a modulo the generator. */
  function Product(b: bv16, a: bv16): bv16 { Times(b, a, 0, 16) }

  /** x^n modulo the generator. */
  function Power(n: nat): bv16 { Shifts(ONE, n) }

  lemma {:induction false} ShiftsAdd(v: bv16, n: nat, m: nat)
    ensures Shifts(v, n + m) == Shifts(Shifts(v, n), m)
    decreases n
  {
    if n == 0 {
    } else {
      hide Shift;
      ShiftsAdd(Shift(v), n - 1, m);
    }
  }

  lemma ShiftsOnce(v: bv16, n: nat)
    ensures Shifts(v, n + 1) == Shift(Shifts(v, n))
  {
    hide Shift;
    ShiftsAdd(v, n, 1);
    assert Shifts(Shifts(v, n), 1) == Shifts(Shift(Shifts(v, n)), 0);
  }

  lemma PickXor(x: bv16, y: bv16, a: bv16)
    ensures Pick(Low(Xor(x, y)), a) == Xor(Pick(Low(x), a), Pick(Low(y), a))
  {
    hide Xor;
    XorBits(x, y);
    XorSelf(a);
    XorZero(a);
    XorZero(0);
    assert Low(Xor(x, y)) == (Low(x) != Low(y));
  }

  lemma XorZero(a: bv16)
    ensures Xor(a, 0) == a == Xor(0, a)
  {
  }

  /** The product is linear in its first factor. */
  lemma {:induction false} TimesLinear(b: bv16, c: bv16, a: bv16, x: bv16, y: bv16, n: nat)
    ensures Times(Xor(b, c), a, Xor(x, y), n) == Xor(Times(b, a, x, n), Times(c, a, y, n))
    decreases n
  {
    hide Xor, Shift, Half, Pick, Low;
    if n == 0 {
    } else {
      XorHalf(b, c);
      PickXor(b, c, a);
      ShiftLinear(x, y);
      XorRegroup(Shift(x), Shift(y), Pick(Low(b), a), Pick(Low(c), a));
      TimesLinear(Half(b), Half(c), a, Xor(Shift(x), Pick(Low(b), a)), Xor(Shift(y), Pick(Low(c), a)), n - 1);
    }
  }

  lemma ProductLinear(b: bv16, c: bv16, a: bv16)
    ensures Product(Xor(b, c), a) == Xor(Product(b, a), Product(c, a))
  {
    hide Xor, Times;
    XorZero(0);
    TimesLinear(b, c, a, 0, 0, 16);
  }

  /** No coefficient left: one more step only shifts. */
  lemma {:induction false} TimesRunsOut(b: bv16, a: bv16, acc: bv16, n: nat)
    requires Short(b, n)
    ensures Times(b, a, acc, n + 1) == Shift(Times(b, a, acc, n))
    decreases n
  {
    if n == 0 {
      assert !Low(b);
      XorZero(Shift(acc));
      assert Times(Half(b), a, Shift(acc), 0) == Shift(acc);
    } else {
      hide Xor, Shift, Half, Pick, Low;
      TimesRunsOut(Half(b), a, Xor(Shift(acc), Pick(Low(b), a)), n - 1);
    }
  }

  /** Without its highest coefficient a factor is multiplied by x by moving it. */
  lemma HalfProduct(b: bv16, a: bv16)
    requires !Low(b)
    ensures Product(Half(b), a) == Shift(Product(b, a))
  {
    ShiftOfZero(b, a);
    HalfIsShort(b);
    hide Xor, Shift, Half, Pick, Low, Short;
    TimesRunsOut(Half(b), a, 0, 15);
    assert Times(b, a, 0, 16) == Times(Half(b), a, Xor(Shift(0), Pick(Low(b), a)), 15);
  }

  lemma ShiftOfZero(b: bv16, a: bv16)
    requires !Low(b)
    ensures Xor(Shift(0), Pick(Low(b), a)) == 0
  {
    assert Shift(0) == 0;
  }

  /** b is 2^k. */
  predicate IsBit(b: bv16, k: nat) {
    if k == 0 then b == 1 else !Low(b) && IsBit(Half(b), k - 1)
  }

  lemma Bits()
    ensures IsBit(1, 0) && IsBit(0x2000, 13) && IsBit(ONE, 15)
  {
    assert IsBit(2, 1) && IsBit(4, 2) && IsBit(8, 3) && IsBit(0x10, 4);
    assert IsBit(0x20, 5) && IsBit(0x40, 6) && IsBit(0x80, 7) && IsBit(0x100, 8);
    assert IsBit(0x200, 9) && IsBit(0x400, 10) && IsBit(0x800, 11) && IsBit(0x1000, 12);
    assert IsBit(0x4000, 14);
  }

  lemma {:induction false} TimesNone(a: bv16, acc: bv16, n: nat)
    ensures Times(0, a, acc, n) == Shifts(acc, n)
    decreases n
  {
    if n == 0 {
    } else {
      XorZero(Shift(acc));
      assert Half(0) == 0 && Pick(Low(0), a) == 0;
      hide Xor, Shift, Half, Pick, Low;
      TimesNone(a, Shift(acc), n - 1);
    }
  }

  /** A factor with one coefficient shifts the other. */
  lemma {:induction false} TimesBit(b: bv16, a: bv16, n: nat, k: nat)
    requires IsBit(b, k) && k < n
    ensures Times(b, a, 0, n) == Shifts(a, n - 1 - k)
    decreases n
  {
    XorZero(0);
    XorZero(a);
    assert Shift(0) == 0;
    if k == 0 {
      assert Half(1) == 0 && Low(1) && Pick(Low(1), a) == a;
      hide Xor, Shift, Half, Pick, Low;
      TimesNone(a, a, n - 1);
    } else {
      assert Pick(Low(b), a) == 0;
      hide Xor, Shift, Half, Pick, Low;
      TimesBit(Half(b), a, n - 1, k - 1);
    }
  }

  lemma ProductOfOne(a: bv16)
    ensures Product(ONE, a) == a
  {
    hide Times;
    Bits();
    TimesBit(ONE, a, 16, 15);
  }

  lemma {:induction false} BitFalls(b: bv16, k: nat)
    requires IsBit(b, k)
    ensures Shifts(b, k) == 1
  {
    if k == 0 {
    } else {
      EvenShift(b);
      assert Shift(b) == Half(b);
      BitFalls(Half(b), k - 1);
    }
  }

  /** x^16 is x^15 + x^2 + 1, and so for all further powers. */
  lemma Recurrence(m: nat)
    ensures Power(m + 16) == Xor(Power(m), Xor(Power(m + 2), Power(m + 15)))
  {
    SixteenthPower();
    ShiftsAdd(ONE, 16, m);
    ShiftsAdd(ONE, 15, m);
    ShiftsAdd(ONE, 2, m);
    hide Xor, Shifts;
    ShiftsLinear(ONE, Xor(Shifts(ONE, 2), Shifts(ONE, 15)), m);
    ShiftsLinear(Shifts(ONE, 2), Shifts(ONE, 15), m);
  }

  lemma SixteenthPower()
    ensures Shifts(ONE, 16) == Xor(ONE, Xor(Shifts(ONE, 2), Shifts(ONE, 15)))
    ensures Shifts(ONE, 2) == 0x2000 && Shifts(ONE, 15) == 1
  {
    Bits();
    BitFalls(ONE, 15);
    ShiftsOnce(ONE, 15);
    assert Shift(ONE) == 0x4000 && Shift(0x4000) == 0x2000;
    assert Shifts(ONE, 2) == Shifts(Shift(ONE), 1) == Shifts(Shift(Shift(ONE)), 0);
  }

  // ---------- Powers ----------

  lemma ProductStep(b: bv16, m: nat)
    ensures Product(Shift(b), Power(m)) == Shift(Product(b, Power(m)))
  {
    var a := Power(m);
    if Low(b) {
      hide Product, Power;
      var rest := b & 0xfffe;
      LowBit(b);
      LowBitGone(b);
      EvenPart(b);
      OddShift(b);
      GeneratorProduct(m);
      hide Shift, Xor, Half;
      ProductLinear(1, rest, a);
      ShiftLinear(Product(1, a), Product(rest, a));
      HalfProduct(rest, a);
      ProductLinear(0xA001, Half(b), a);
    } else {
      EvenShift(b);
      HalfProduct(b, a);
    }
  }

  lemma EvenPart(b: bv16)
    ensures !Low(b & 0xfffe) && Half(b & 0xfffe) == Half(b)
  {
  }

  lemma OddShift(b: bv16)
    requires Low(b)
    ensures Shift(b) == Xor(0xA001, Half(b))
  {
  }

  lemma GeneratorSplits()
    ensures 0xA001 == Xor(ONE, Xor(0x2000, 1))
  {
  }

  lemma SparseProducts(m: nat)
    ensures Product(0x2000, Power(m)) == Power(m + 2) && Product(1, Power(m)) == Power(m + 15)
    ensures Shift(Power(m + 15)) == Power(m + 16)
  {
    hide Times, IsBit, Shifts, Shift;
    Bits();
    TimesBit(0x2000, Power(m), 16, 13);
    TimesBit(1, Power(m), 16, 0);
    ShiftsAdd(ONE, m, 2);
    ShiftsAdd(ONE, m, 15);
    ShiftsOnce(ONE, m + 15);
  }

  /** The feedback is x times x^15. */
  lemma GeneratorProduct(m: nat)
    ensures Product(0xA001, Power(m)) == Shift(Product(1, Power(m)))
  {
    hide *;
    GeneratorSplits();
    ProductLinear(ONE, Xor(0x2000, 1), Power(m));
    ProductLinear(0x2000, 1, Power(m));
    ProductOfOne(Power(m));
    SparseProducts(m);
    Recurrence(m);
  }

  /** x^n times x^m. */
  lemma {:induction false} PowersMultiply(n: nat, m: nat)
    ensures Product(Power(n), Power(m)) == Power(n + m)
    decreases n
  {
    hide Product, Shifts, Shift;
    if n == 0 {
      ProductOfOne(Power(m));
      PowerZero();
    } else {
      ShiftsOnce(ONE, n - 1);
      ShiftsOnce(ONE, n - 1 + m);
      ProductStep(Power(n - 1), m);
      PowersMultiply(n - 1, m);
    }
  }

  lemma PowerZero()
    ensures Power(0) == ONE
  {
  }

  // ---------- The order of x ----------

  function Step(b: bv16, a: bv16, acc: bv16): bv16 { Xor(Shift(acc), Pick(Low(b), a)) }

  function FourSteps(b: bv16, a: bv16, acc: bv16): bv16 {
    Step(b >> 3, a, Step(b >> 2, a, Step(b >> 1, a, Step(b, a, acc))))
  }

  function Nibble(b: bv16): bv16 { b >> 4 }

  lemma TimesFour(b: bv16, a: bv16, acc: bv16, n: nat)
    ensures Times(b, a, acc, n + 4) == Times(Nibble(b), a, FourSteps(b, a, acc), n)
  {
    HalvesAdd(b);
    hide Xor, Shift, Pick, Low, Half;
    var acc1 := Step(b, a, acc);
    var acc2 := Step(b >> 1, a, acc1);
    var acc3 := Step(b >> 2, a, acc2);
    assert Times(b, a, acc, n + 4) == Times(b >> 1, a, acc1, n + 3);
    assert Times(b >> 1, a, acc1, n + 3) == Times(b >> 2, a, acc2, n + 2);
    assert Times(b >> 2, a, acc2, n + 2) == Times(b >> 3, a, acc3, n + 1);
  }

  lemma HalvesAdd(b: bv16)
    ensures Half(b) == b >> 1 && Half(b >> 1) == b >> 2 && Half(b >> 2) == b >> 3 && Half(b >> 3) == b >> 4
  {
  }

  /** A product worked out four coefficients at a time. */
  lemma Evaluate(b: bv16, a: bv16, b1: bv16, b2: bv16, b3: bv16, c1: bv16, c2: bv16, c3: bv16, c4: bv16)
    requires b1 == Nibble(b) && b2 == Nibble(b1) && b3 == Nibble(b2)
    requires FourSteps(b, a, 0) == c1 && FourSteps(b1, a, c1) == c2 && FourSteps(b2, a, c2) == c3 && FourSteps(b3, a, c3) == c4
    ensures Product(b, a) == c4
  {
    hide *;
    ProductStarts(b, a, Nibble(b3), c4);
    TimesFour(b, a, 0, 12);
    TimesFour(b1, a, c1, 8);
    TimesFour(b2, a, c2, 4);
    TimesFour(b3, a, c3, 0);
  }

  lemma ProductStarts(b: bv16, a: bv16, rest: bv16, acc: bv16)
    ensures Product(b, a) == Times(b, a, 0, 16) && Times(rest, a, acc, 0) == acc
  {
    hide Shift, Xor, Half, Pick, Low;
  }

  /** One more known power out of two, worked out four coefficients at a time. */
  lemma Next(n: nat, m: nat, b: bv16, a: bv16, b1: bv16, b2: bv16, b3: bv16, c1: bv16, c2: bv16, c3: bv16, c4: bv16)
    requires Power(n) == b && Power(m) == a && b1 == Nibble(b) && b2 == Nibble(b1) && b3 == Nibble(b2)
    requires FourSteps(b, a, 0) == c1 && FourSteps(b1, a, c1) == c2 && FourSteps(b2, a, c2) == c3 && FourSteps(b3, a, c3) == c4
    ensures Power(n + m) == c4
  {
    hide *;
    Evaluate(b, a, b1, b2, b3, c1, c2, c3, c4);
    PowersMultiply(n, m);
  }

  lemma PowerOfX()
    ensures Power(1) == 0x4000
  {
    assert Shift(ONE) == 0x4000;
    assert Shifts(ONE, 1) == Shifts(Shift(ONE), 0);
  }

  lemma PowersTo32()
    ensures Power(2) == 0x2000 && Power(4) == 0x0800 && Power(8) == 0x0080 && Power(16) == 0xA001
    ensures Power(32) == 0xE801
  {
    hide Power;
    PowerOfX();
    Next(1, 1, 0x4000, 0x4000, 0x0400, 0x0040, 0x0004, 0x0000, 0x0000, 0x0000, 0x2000);
    Next(2, 2, 0x2000, 0x2000, 0x0200, 0x0020, 0x0002, 0x0000, 0x0000, 0x0000, 0x0800);
    Next(4, 4, 0x0800, 0x0800, 0x0080, 0x0008, 0x0000, 0x0000, 0x0000, 0x0800, 0x0080);
    Next(8, 8, 0x0080, 0x0080, 0x0008, 0x0000, 0x0000, 0x0000, 0x0080, 0x0008, 0xA001);
    Next(16, 16, 0xA001, 0xA001, 0x0A00, 0x00A0, 0x000A, 0xCC01, 0xC0C1, 0xC00D, 0xE801);
  }

  lemma PowersTo1024()
    ensures Power(64) == 0xC881 && Power(128) == 0x6080 && Power(256) == 0x8801 && Power(512) == 0xE081
    ensures Power(1024) == 0x6800
  {
    hide Power;
    PowersTo32();
    Next(32, 32, 0xE801, 0xE801, 0x0E80, 0x00E8, 0x000E, 0xC501, 0xC051, 0x2805, 0xC881);
    Next(64, 64, 0xC881, 0xC881, 0x0C88, 0x00C8, 0x000C, 0xC111, 0x0891, 0x0409, 0x6080);
    Next(128, 128, 0x6080, 0x6080, 0x0608, 0x0060, 0x0006, 0x0000, 0x6080, 0x0608, 0x8801);
    Next(256, 256, 0x8801, 0x8801, 0x0880, 0x0088, 0x0008, 0xC901, 0xC091, 0x4809, 0xE081);
    Next(512, 512, 0xE081, 0xE081, 0x0E08, 0x00E0, 0x000E, 0xC411, 0x20C1, 0xCE0D, 0x6800);
  }

  lemma PowersTo32768()
    ensures Power(2048) == 0x2880 && Power(4096) == 0xA881 && Power(8192) == 0x4880 && Power(16384) == 0x8081
    ensures Power(32768) == 0x4000
  {
    hide Power;
    PowersTo1024();
    Next(1024, 1024, 0x6800, 0x6800, 0x0680, 0x0068, 0x0006, 0x0000, 0x0000, 0x6800, 0x2880);
    Next(2048, 2048, 0x2880, 0x2880, 0x0288, 0x0028, 0x0002, 0x0000, 0x2880, 0x2A08, 0xA881);
    Next(4096, 4096, 0xA881, 0xA881, 0x0A88, 0x00A8, 0x000A, 0xCD11, 0x6851, 0x6205, 0x4880);
    Next(8192, 8192, 0x4880, 0x4880, 0x0488, 0x0048, 0x0004, 0x0000, 0x4880, 0x4C08, 0x8081);
    Next(16384, 16384, 0x8081, 0x8081, 0x0808, 0x0080, 0x0008, 0xC811, 0x4001, 0xC801, 0x4000);
  }

  lemma PowerOf217()
    ensures Power(9) == 0x0040 && Power(25) == 0xC031 && Power(89) == 0xD402 && Power(217) == 0x3E55
  {
    hide Power;
    PowerOfX();
    PowersTo32();
    PowersTo1024();
    Next(1, 8, 0x4000, 0x0080, 0x0400, 0x0040, 0x0004, 0x0000, 0x0000, 0x0000, 0x0040);
    Next(9, 16, 0x0040, 0xA001, 0x0004, 0x0000, 0x0000, 0x0000, 0xF001, 0xC301, 0xC031);
    Next(25, 64, 0xC031, 0xC881, 0x0C03, 0x00C0, 0x000C, 0xC111, 0xC320, 0x0C32, 0xD402);
    Next(89, 128, 0xD402, 0x6080, 0x0D40, 0x00D4, 0x000D, 0x1820, 0x0182, 0xE859, 0x3E55);
  }

  lemma PowerOf1057()
    ensures Power(33) == 0xD401 && Power(1057) == 0xCE41
  {
    hide Power;
    PowerOfX();
    PowersTo32();
    PowersTo1024();
    Next(1, 32, 0x4000, 0xE801, 0x0400, 0x0040, 0x0004, 0x0000, 0x0000, 0x0000, 0xD401);
    Next(33, 1024, 0xD401, 0x6800, 0x0D40, 0x00D4, 0x000D, 0x0D00, 0x00D0, 0x340D, 0xCE41);
  }

  lemma PowerOf4681()
    ensures Power(73) == 0x3004 && Power(585) == 0x0F31 && Power(4681) == 0x8C69
  {
    hide Power;
    PowerOf217();
    PowersTo1024();
    PowersTo32768();
    Next(9, 64, 0x0040, 0xC881, 0x0004, 0x0000, 0x0000, 0x0000, 0xC441, 0xC045, 0x3004);
    Next(73, 512, 0x3004, 0xE081, 0x0300, 0x0030, 0x0003, 0xD041, 0xC105, 0x3010, 0x0F31);
    Next(585, 4096, 0x0F31, 0xA881, 0x00F3, 0x000F, 0x0000, 0xCD11, 0xD7E0, 0x468E, 0x8C69);
  }

  // ---------- The order of x is 32767 ----------

  /** x^n is 1. */
  predicate Periodic(n: nat) { Power(n) == ONE }

  lemma FullPeriod()
    ensures Periodic(32767)
  {
    hide Shifts, Shift;
    PowerOfX();
    PowersTo32768();
    PowerZero();
    ShiftsOnce(ONE, 32767);
    ShiftsOnce(ONE, 0);
    ShiftInjective(Power(32767), ONE);
  }

  lemma NoShortPeriod()
    ensures !Periodic(217) && !Periodic(1057) && !Periodic(4681)
  {
    hide Power;
    PowerOf217();
    PowerOf1057();
    PowerOf4681();
  }

  lemma PeriodsSubtract(a: nat, b: nat)
    requires a >= b && Periodic(a) && Periodic(b)
    ensures Periodic(a - b)
  {
    hide Shifts;
    ShiftsAdd(ONE, a - b, b);
    ShiftsInjective(Power(a - b), ONE, b);
  }

  lemma {:induction false} PeriodsRepeat(a: nat, k: nat)
    requires Periodic(a)
    ensures Periodic(a * k)
    decreases k
  {
    hide Shifts;
    if k == 0 {
      PowerZero();
    } else {
      PeriodsRepeat(a, k - 1);
      assert a * k == a + a * (k - 1);
      ShiftsAdd(ONE, a, a * (k - 1));
    }
  }

  /** Two periods have their common divisor for a period, all three in units of m. */
  lemma {:induction false} CommonPeriod(m: nat, a: nat, b: nat) returns (g: nat, q: nat, r: nat)
    requires a > 0 && Periodic(m * a) && Periodic(m * b)
    ensures g > 0 && Periodic(m * g) && a == g * q && b == g * r
    decreases a + b
  {
    hide Periodic;
    if b == 0 {
      g, q, r := a, 1, 0;
    } else if a > b {
      Subtracted(m, a, b);
      g, q, r := CommonPeriod(m, a - b, b);
      Factored(g, q, r);
      q := q + r;
    } else {
      Subtracted(m, b, a);
      g, q, r := CommonPeriod(m, a, b - a);
      Factored(g, q, r);
      r := q + r;
    }
  }

  lemma Subtracted(m: nat, a: nat, b: nat)
    requires a >= b && Periodic(m * a) && Periodic(m * b)
    ensures Periodic(m * (a - b))
  {
    hide Periodic;
    assert m * (a - b) == m * a - m * b;
    assert m * (a - b) >= 0;
    PeriodsSubtract(m * a, m * b);
  }

  lemma Factored(g: nat, q: nat, r: nat)
    ensures g * (q + r) == g * q + g * r
  {
  }

  lemma PrimeHasNoFactors(p: nat, g: nat, q: nat)
    requires (p == 7 || p == 31 || p == 151) && g * q == p && g <= q
    ensures g == 1
  {
    if g >= 13 { SquareGrows(g, q); }
    assert g == 1 || g == 2 || g == 3 || g == 4 || g == 5 || g == 6 || g == 7 || g == 8 || g == 9 || g == 10
        || g == 11 || g == 12;
  }

  lemma SquareGrows(g: nat, q: nat)
    requires 13 <= g <= q
    ensures g * q >= 169
  {
    assert g * q >= 13 * q;
  }

  lemma Commutes(a: nat, b: nat)
    ensures a * b == b * a
  {
  }

  /** A period that a prime factor of 32767 does not divide gives the period without that factor. */
  lemma WithoutFactor(n: nat, p: nat, m: nat)
    requires Periodic(n) && (p == 7 || p == 31 || p == 151) && m * p == 32767 && n % p != 0
    ensures Periodic(m)
  {
    hide Periodic;
    FullPeriod();
    var e, k := n % p, n / p;
    PeriodsRepeat(n, m);
    PeriodsRepeat(32767, k);
    Commutes(n, m);
    RestTimes(n, p, m);
    PeriodsSubtract(m * n, 32767 * k);
    var g, q, r := CommonPeriod(m, p, e);
    if g <= q {
      PrimeHasNoFactors(p, g, q);
    } else {
      Commutes(g, q);
      PrimeHasNoFactors(p, q, g);
      NoMultipleBelow(g, r, e);
    }
  }

  lemma RestTimes(n: nat, p: nat, m: nat)
    requires p > 0
    ensures m * n - m * p * (n / p) == m * (n % p) >= 0
  {
    var k := n / p;
    assert n == p * k + n % p;
    assert m * (p * k + n % p) == m * (p * k) + m * (n % p);
    assert m * (p * k) == m * p * k;
  }

  lemma NoMultipleBelow(g: nat, r: nat, e: nat)
    requires e == g * r && e > 0
    ensures e >= g
  {
    if r == 0 {} else { assert g * r == g + g * (r - 1); }
  }

  lemma AllThree(n: nat)
    requires n % 7 == 0 && n % 31 == 0 && n % 151 == 0
    ensures n % 32767 == 0
  {
    Factors(n, n / 7, n / 31, n / 151);
  }

  lemma Factors(n: int, a: int, b: int, c: int)
    requires n == 7 * a && n == 31 * b && n == 151 * c
    ensures n % 32767 == 0
  {
    var d := 9 * b - 2 * a;
    assert n == 217 * d;
    var f := 23 * d - 16 * c;
    assert n == 32767 * f;
  }

  /** The powers of x come back to 1 at the multiples of 32767 and nowhere else. */
  lemma PeriodIff(n: nat)
    ensures Periodic(n) <==> n % 32767 == 0
  {
    hide Periodic;
    FullPeriod();
    if n % 32767 == 0 {
      PeriodsRepeat(32767, n / 32767);
    } else if Periodic(n) {
      NoShortPeriod();
      if n % 7 != 0 { WithoutFactor(n, 7, 4681); }
      if n % 31 != 0 { WithoutFactor(n, 31, 1057); }
      if n % 151 != 0 { WithoutFactor(n, 151, 217); }
      AllThree(n);
    }
  }
}
