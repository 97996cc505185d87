/** Errors of two and three bits, and errors as bit patterns of their own. */
module CrcFewErrors {
  import opened Bytes
  import opened Crc16
  import opened CrcDetection
  import opened CrcPeriod

  // ---------- Two flipped bits ----------

  lemma BitStepDifference(c: bv16, d: bv16, x: bool, y: bool)
    ensures Xor(BitStep(c, x), BitStep(d, y)) == Shift(Xor(Xor(c, d), if x != y then 1 else 0))
  {
    hide Shift, Xor;
    var p, q: bv16 := if x then 1 else 0, if y then 1 else 0;
    ShiftLinear(Xor(c, p), Xor(d, q));
    XorRegroup(c, p, d, q);
    XorSelf(1);
    XorZero(1);
    XorZero(0);
  }

  /** Over equal bits the difference of two registers is only shifted. */
  lemma {:induction false} DifferenceShifts(c: bv16, d: bv16, m: seq<bool>)
    ensures Xor(BitCrc(c, m), BitCrc(d, m)) == Shifts(Xor(c, d), |m|)
    decreases m
  {
    hide Xor, BitStep, Shift;
    if m == [] {
    } else {
      BitStepDifference(c, d, m[0], m[0]);
      XorZero(Xor(c, d));
      DifferenceShifts(BitStep(c, m[0]), BitStep(d, m[0]), m[1..]);
    }
  }

  lemma ShiftsZeroIff(v: bv16, n: nat)
    ensures Shifts(v, n) == 0 <==> v == 0
  {
    hide Shift;
    ShiftsOfZero(n);
    if Shifts(v, n) == 0 { ShiftsInjective(v, 0, n); }
  }

  lemma OnePeriodic(d: nat)
    ensures Shifts(1, d) == 1 <==> Periodic(d)
  {
    hide Shifts, Shift;
    SixteenthPower();
    ShiftsAdd(ONE, 15, d);
    ShiftsAdd(ONE, d, 15);
    if Shifts(1, d) == 1 { ShiftsInjective(Power(d), ONE, 15); }
  }

  lemma XorIsZero(a: bv16, b: bv16)
    ensures Xor(a, b) == 0 <==> a == b
  {
    hide Xor;
    XorSelf(b);
    if Xor(a, b) == 0 { XorCancel(a, b, b); }
  }

  /** The register's difference after one flipped bit, d - 1 equal ones, another flipped one and n equal ones. */
  lemma TwoDifferences(c: bv16, x: bool, m: seq<bool>, y: bool, rest: seq<bool>)
    ensures BitCrc(c, [x] + m + [y] + rest) == BitCrc(c, [!x] + m + [!y] + rest) <==> (|m| + 1) % 32767 == 0
  {
    hide Xor, BitStep, Shift, Shifts, BitCrc;
    var c1, d1 := BitStep(c, x), BitStep(c, !x);
    var c2, d2 := BitCrc(c1, m), BitCrc(d1, m);
    var c3, d3 := BitStep(c2, y), BitStep(d2, !y);
    ThreeParts(c, x, m, y, rest);
    ThreeParts(c, !x, m, !y, rest);
    BitStepDifference(c, c, x, !x);
    XorSelf(c);
    XorZero(1);
    DifferenceShifts(c1, d1, m);
    ShiftsStart(1, |m|);
    BitStepDifference(c2, d2, y, !y);
    DifferenceShifts(c3, d3, rest);
    ShiftsZeroIff(Xor(c3, d3), |rest|);
    ShiftZeroIff(Xor(Shifts(1, |m| + 1), 1));
    XorIsZero(BitCrc(c3, rest), BitCrc(d3, rest));
    XorIsZero(Shifts(1, |m| + 1), 1);
    OnePeriodic(|m| + 1);
    PeriodIff(|m| + 1);
    hide Periodic;
  }

  lemma ShiftsStart(v: bv16, n: nat)
    ensures Shifts(Shift(v), n) == Shifts(v, n + 1)
  {
  }

  lemma ShiftZeroIff(v: bv16)
    ensures Shift(v) == 0 <==> v == 0
  {
    assert Shift(0) == 0;
    if Shift(v) == 0 { ShiftInjective(v, 0); }
  }

  lemma ThreeParts(c: bv16, x: bool, m: seq<bool>, y: bool, rest: seq<bool>)
    ensures BitCrc(c, [x] + m + [y] + rest) == BitCrc(BitStep(BitCrc(BitStep(c, x), m), y), rest)
  {
    hide BitStep;
    BitCrcAppend(c, [x] + m + [y], rest);
    BitCrcAppend(c, [x] + m, [y]);
    BitCrcAppend(c, [x], m);
    assert [x][1..] == [] && [y][1..] == [];
  }

  /** a and b differ at i and j only. */
  ghost predicate DifferAt(a: seq<bool>, b: seq<bool>, i: nat, j: nat) {
    |a| == |b| && i < j < |a| && forall k :: 0 <= k < |a| ==> (a[k] != b[k] <==> k == i || k == j)
  }

  lemma Around(a: seq<bool>, i: nat, j: nat)
    requires i < j < |a|
    ensures a == a[..i] + ([a[i]] + a[i + 1..j] + [a[j]] + a[j + 1..])
  {
  }

  lemma SamePieces(a: seq<bool>, b: seq<bool>, i: nat, j: nat)
    requires DifferAt(a, b, i, j)
    ensures a[..i] == b[..i] && a[i + 1..j] == b[i + 1..j] && a[j + 1..] == b[j + 1..]
    ensures b[i] == !a[i] && b[j] == !a[j]
  {
  }

  /** Two flipped bits leave the CRC unchanged exactly when their distance is a multiple of 32767. */
  lemma TwoFlips(c: bv16, a: seq<bool>, b: seq<bool>, i: nat, j: nat)
    requires DifferAt(a, b, i, j)
    ensures BitCrc(c, a) == BitCrc(c, b) <==> (j - i) % 32767 == 0
  {
    Around(a, i, j);
    Around(b, i, j);
    SamePieces(a, b, i, j);
    hide BitCrc, DifferAt;
    var m, rest := a[i + 1..j], a[j + 1..];
    BitCrcAppend(c, a[..i], [a[i]] + m + [a[j]] + rest);
    BitCrcAppend(c, a[..i], [!a[i]] + m + [!a[j]] + rest);
    TwoDifferences(BitCrc(c, a[..i]), a[i], m, a[j], rest);
  }

  // ---------- Up to three ----------

  lemma {:induction false} NoFlips(a: seq<bool>, b: seq<bool>)
    requires |a| == |b| && Flips(a, b) == 0
    ensures a == b
  {
    if a == [] {
    } else {
      NoFlips(a[1..], b[1..]);
      assert a == [a[0]] + a[1..] && b == [b[0]] + b[1..];
    }
  }

  lemma {:induction false} OneFlip(a: seq<bool>, b: seq<bool>) returns (i: nat)
    requires |a| == |b| && Flips(a, b) == 1
    ensures i < |a| && forall k :: 0 <= k < |a| ==> (a[k] != b[k] <==> k == i)
  {
    if a[0] != b[0] {
      NoFlips(a[1..], b[1..]);
      i := 0;
      forall k | 0 < k < |a| ensures a[k] == b[k] { assert a[k] == a[1..][k - 1] && b[k] == b[1..][k - 1]; }
    } else {
      var i' := OneFlip(a[1..], b[1..]);
      i := i' + 1;
      forall k | 0 < k < |a| ensures a[k] != b[k] <==> k == i {
        assert a[k] == a[1..][k - 1] && b[k] == b[1..][k - 1];
      }
    }
  }

  lemma {:induction false} TwoFlipped(a: seq<bool>, b: seq<bool>) returns (i: nat, j: nat)
    requires |a| == |b| && Flips(a, b) == 2
    ensures DifferAt(a, b, i, j)
  {
    if a[0] != b[0] {
      var j' := OneFlip(a[1..], b[1..]);
      i, j := 0, j' + 1;
    } else {
      var i', j' := TwoFlipped(a[1..], b[1..]);
      i, j := i' + 1, j' + 1;
    }
    forall k | 0 < k < |a| ensures a[k] != b[k] <==> k == i || k == j {
      assert a[k] == a[1..][k - 1] && b[k] == b[1..][k - 1];
    }
  }

  /** One, two or three flipped bits change the CRC of every string of at most 32767 bits. */
  lemma FewFlipsDetected(c: bv16, s: bytes, t: bytes)
    requires |s| == |t| && 8 * |s| <= 32767 && 1 <= Flips(BitsOf(s), BitsOf(t)) <= 3
    ensures Crc(c, s) != Crc(c, t)
  {
    hide BitsOf, Crc, BitCrc, Flips;
    if Flips(BitsOf(s), BitsOf(t)) == 2 {
      var i, j := TwoFlipped(BitsOf(s), BitsOf(t));
      TwoFlips(c, BitsOf(s), BitsOf(t), i, j);
      CrcIsBitCrc(c, s);
      CrcIsBitCrc(c, t);
    } else {
      OddErrorDetected(c, s, t);
    }
  }

  lemma {:induction false} FlipsAppend(a: seq<bool>, b: seq<bool>, x: seq<bool>, y: seq<bool>)
    requires |a| == |b| && |x| == |y|
    ensures Flips(a + x, b + y) == Flips(a, b) + Flips(x, y)
  {
    if a == [] {
      assert a + x == x && b + y == y;
    } else {
      assert (a + x)[1..] == a[1..] + x && (b + y)[1..] == b[1..] + y;
      FlipsAppend(a[1..], b[1..], x, y);
    }
  }
}
