/** Bluetooth addresses as text and as six bytes; char is unsigned. */
module BtAddress {
  import opened Bytes
  import opened BtConvert

  const COLON: byte := 0x3a
  const TMP_SIZE := 18

  /** The value of a hexadecimal digit. */
  function HexValue(c: byte): (v: Option<byte>)
    ensures v.Some? ==> v.value < 16
  {
    if 0x30 <= c <= 0x39 then Some(c - 0x30)
    else if 0x41 <= c <= 0x46 then Some(10 + (c - 0x41))
    else if 0x61 <= c <= 0x66 then Some(10 + (c - 0x61))
    else None
  }

  function NoColons(s: bytes): (t: bytes)
    ensures |t| <= |s|
  {
    if s == [] then []
    else NoColons(s[..|s| - 1]) + if s[|s| - 1] == COLON then [] else [s[|s| - 1]]
  }

  /** The digits that are converted: what is left without the colons, up to the first NUL. */
  function Digits(s: bytes): bytes {
    NoColons(s)[..StrLen(NoColons(s))]
  }

  predicate AllHex(d: bytes) { forall i :: 0 <= i < |d| ==> HexValue(d[i]).Some? }

  predicate Nibbles(v: bytes) { forall i :: 0 <= i < |v| ==> v[i] < 16 }

  function Values(d: bytes): (v: bytes)
    requires AllHex(d)
    ensures Nibbles(v)
    ensures |v| == |d| && forall i :: 0 <= i < |d| ==> v[i] == HexValue(d[i]).value
  {
    seq(|d|, i requires 0 <= i < |d| => HexValue(d[i]).value)
  }

  /** Two digits a byte, an odd last one paired with the zero behind it. */
  function Pairs(v: bytes): (b: bytes)
    requires Nibbles(v)
    ensures |b| == (|v| + 1) / 2
  {
    if v == [] then []
    else if |v| == 1 then [16 * v[0]]
    else [16 * v[0] + v[1]] + Pairs(v[2..])
  }

  lemma {:induction false} PairsAt(v: bytes, j: nat)
    requires Nibbles(v) && j < (|v| + 1) / 2
    ensures Pairs(v)[j] == 16 * v[2 * j] + if 2 * j + 1 < |v| then v[2 * j + 1] else 0
  {
    if j == 0 {
    } else {
      PairsAt(v[2..], j - 1);
    }
  }

  /** Whether the call stays inside its own buffer of 18 characters and the caller's. */
  predicate Roomy(s: bytes, room: nat) {
    && |NoColons(s)| <= 18 && |Digits(s)| < 18
    && (AllHex(Digits(s)) ==> (|Digits(s)| + 1) / 2 <= room)
  }

  lemma NoColonsStep(s: bytes, i: nat)
    requires i < |s|
    ensures NoColons(s[..i + 1]) == NoColons(s[..i]) + if s[i] == COLON then [] else [s[i]]
  {
    assert s[..i + 1][..i] == s[..i];
  }

  lemma {:induction false} NoColonsGrows(s: bytes, i: nat)
    requires i <= |s|
    ensures |NoColons(s[..i])| <= |NoColons(s)|
    decreases |s| - i
  {
    if i == |s| {
      assert s[..i] == s;
    } else {
      NoColonsStep(s, i);
      NoColonsGrows(s, i + 1);
    }
  }

  lemma {:induction false} StrLenPadded(t: bytes, n: nat)
    ensures StrLen(t + Zeros(n)) == StrLen(t)
  {
    if t == [] {
      assert t + Zeros(n) == Zeros(n);
    } else if t[0] != 0 {
      assert (t + Zeros(n))[1..] == t[1..] + Zeros(n);
      StrLenPadded(t[1..], n);
    }
  }

  /** The characters that a call with this length reads: none for a negative one. */
  function Given(text: bytes, length: int): bytes
    requires length <= |text|
  {
    if length < 0 then [] else text[..length]
  }

  /** AddrStringsToU8Int: None where it would run over a buffer, otherwise what it returns. The text is copied before
      the target is written, so they may be one buffer. */
  method AddrStringsToU8Int(src: array<byte>, des: array<byte>, length: int) returns (r: Option<int>)
    requires length <= src.Length
    modifies des
    ensures r.Some? <==> Roomy(old(Given(src[..], length)), des.Length)
    ensures var d := Digits(old(Given(src[..], length)));
            r.Some? ==>
              && r.value == (if AllHex(d) then 0 else -1)
              && des[..] == if AllHex(d) then Overwrite(Pairs(Values(d)), old(des[..])) else old(des[..])
    ensures OtherCharacter(old(Given(src[..], length))) && r.Some? ==> r == Some(-1) && des[..] == old(des[..])
    ensures forall b: bytes, z: bytes ::
              |b| == 6 <= des.Length && (z == [] || z == [0]) && |old(Given(src[..], length))| == 17 + |z|
              && old(Given(src[..], length))[17..] == z && Addresses(old(Given(src[..], length))[..17], b) ==>
              r == Some(0) && des[..6] == b && des[6..] == old(des[6..])
  {
    ghost var s := Given(src[..], length);
    OtherIff(s);
    forall b: bytes, z: bytes | |b| == 6 && (z == [] || z == [0]) && |s| == 17 + |z| && s[17..] == z && Addresses(s[..17], b)
      ensures |NoColons(s)| <= 18 && |Digits(s)| == 12 && AllHex(Digits(s)) && Pairs(Values(Digits(s))) == b
    {
      assert s == s[..17] + z;
      AddressRead(s[..17], b, z);
    }
    var tmp := new byte[TMP_SIZE](_ => 0);
    var fits, n := Squeeze(src, length, tmp);
    if !fits || n == TMP_SIZE {
      return None;
    }
    assert tmp[..n] == Digits(s);
    var hex := ToValues(tmp, n);
    if !hex {
      return Some(-1);
    }
    if (n + 1) / 2 > des.Length {
      return None;
    }
    Join(tmp, n, des);
    r := Some(0);
  }

  /** The first loop, and the strlen after it. */
  method Squeeze(src: array<byte>, length: int, tmp: array<byte>) returns (fits: bool, n: nat)
    requires length <= src.Length && tmp != src
    requires tmp.Length == TMP_SIZE && tmp[..] == Zeros(TMP_SIZE)
    modifies tmp
    ensures fits <==> |NoColons(Given(src[..], length))| <= TMP_SIZE
    ensures fits ==> n == |Digits(Given(src[..], length))| <= TMP_SIZE && tmp[..n] == Digits(Given(src[..], length))
    ensures fits ==> n < TMP_SIZE ==> tmp[n] == 0
  {
    hide *;
    ghost var s := Given(src[..], length);
    GivenIs(src[..], length);
    NoColonsNone(s);
    var i, j := 0, 0;
    ghost var t: bytes := [];
    while i < length
      invariant 0 <= i <= |s|
      invariant t == NoColons(s[..i]) && j == |t| <= TMP_SIZE
      invariant forall k :: 0 <= k < j ==> tmp[k] == t[k]
      invariant forall k :: j <= k < TMP_SIZE ==> tmp[k] == 0
    {
      NoColonsStep(s, i);
      t := NoColons(s[..i + 1]);
      NoColonsGrows(s, i + 1);
      if src[i] != COLON {
        if j == TMP_SIZE {
          return false, 0;
        }
        tmp[j] := src[i];
        j := j + 1;
      }
      i := i + 1;
    }
    assert s[..i] == s;
    SqueezedEnds(s, tmp[..]);
    n := StrLen(tmp[..]);
    fits := true;
  }

  lemma GivenIs(text: bytes, length: int)
    requires length <= |text|
    ensures var s := Given(text, length);
            |s| == (if length < 0 then 0 else length) && forall k :: 0 <= k < |s| ==> s[k] == text[k]
  {
  }

  lemma SqueezedEnds(s: bytes, tmp: bytes)
    requires |NoColons(s)| <= |tmp| && tmp[..|NoColons(s)|] == NoColons(s)
    requires forall k :: |NoColons(s)| <= k < |tmp| ==> tmp[k] == 0
    ensures StrLen(tmp) == |Digits(s)| && tmp[..StrLen(tmp)] == Digits(s)
  {
    hide NoColons, StrLen;
    var t := NoColons(s);
    assert tmp == t + Zeros(|tmp| - |t|);
    StrLenPadded(t, |tmp| - |t|);
  }

  lemma NoColonsNone(s: bytes)
    ensures NoColons(s[..0]) == []
  {
  }

  /** The second loop: the digits become their values in place, unless one is no digit. */
  method ToValues(tmp: array<byte>, n: nat) returns (hex: bool)
    requires n <= tmp.Length
    modifies tmp
    ensures hex <==> AllHex(old(tmp[..n]))
    ensures hex ==> tmp[..n] == Values(old(tmp[..n])) && tmp[n..] == old(tmp[n..])
  {
    for i := 0 to n
      invariant forall k :: 0 <= k < i ==> HexValue(old(tmp[k])) == Some(tmp[k])
      invariant forall k :: i <= k < tmp.Length ==> tmp[k] == old(tmp[k])
    {
      var v := HexValue(tmp[i]);
      if v.None? {
        assert HexValue(old(tmp[..n])[i]).None?;
        return false;
      }
      tmp[i] := v.value;
    }
    hex := true;
  }

  /** The third loop. */
  method Join(tmp: array<byte>, n: nat, des: array<byte>)
    requires n < tmp.Length && tmp != des && (n + 1) / 2 <= des.Length
    requires Nibbles(tmp[..n]) && tmp[n] == 0
    modifies des
    ensures des[..] == Overwrite(Pairs(tmp[..n]), old(des[..]))
  {
    ghost var v := tmp[..n];
    var i, j := 0, 0;
    hide Pairs, Overwrite;
    while i < n
      invariant i == 2 * j && j <= (n + 1) / 2
      invariant forall k :: 0 <= k < j ==> des[k] == Pairs(v)[k]
      invariant forall k :: j <= k < des.Length ==> des[k] == old(des[k])
    {
      PairsAt(v, j);
      assert v[i] == tmp[i] && (i + 1 < n ==> v[i + 1] == tmp[i + 1]);
      des[j] := 16 * tmp[i] + tmp[i + 1];
      i, j := i + 2, j + 1;
    }
    OverwriteIs(Pairs(v), old(des[..]), des[..]);
  }

  // The printed form.

  function Digit(v: nat): (c: byte)
    requires v < 16
    ensures c != COLON && c != 0 && HexValue(c) == Some(v)
  {
    if v < 10 then 0x30 + v else 0x57 + v
  }

  /** %02x */
  function Hex2(b: byte): (s: bytes)
    ensures |s| == 2
  {
    [Digit(b / 16), Digit(b % 16)]
  }

  /** Two lower-case digits a byte, a colon between two bytes. */
  function Printed(b: bytes): (s: bytes)
    requires b != []
    ensures |s| == 3 * |b| - 1
  {
    if |b| == 1 then Hex2(b[0]) else Printed(b[..|b| - 1]) + [COLON] + Hex2(b[|b| - 1])
  }

  /** AddrU8IntToStrings: the six bytes printed, small digits and a colon between two bytes, and the NUL of sprintf. */
  method AddrU8IntToStrings(src: array<byte>, des: array<byte>)
    requires src.Length >= 6 && des.Length >= 18
    modifies des
    ensures des[..] == Overwrite(Printed(old(src[..6])) + [0], old(des[..]))
    ensures forall i :: 0 <= i < 6 ==> SmallDigit(des[3 * i], old(src[i]) / 16) && SmallDigit(des[3 * i + 1], old(src[i]) % 16)
    ensures des[2] == des[5] == des[8] == des[11] == des[14] == ':' as int && des[17] == 0 && des[18..] == old(des[18..])
  {
    var s := Printed(src[..6]) + [0];
    SixPrinted(src[..6]);
    hide Printed, Overwrite, SmallDigit;
    for i := 0 to 18
      invariant forall k :: 0 <= k < i ==> des[k] == s[k]
      invariant forall k :: i <= k < des.Length ==> des[k] == old(des[k])
    {
      des[i] := s[i];
    }
    OverwriteIs(s, old(des[..]), des[..]);
  }

  // ---------- Digits and what they stand for ----------

  predicate SmallDigit(c: byte, v: nat) { v < 16 && c == "0123456789abcdef"[v] as int }

  predicate DigitOf(c: byte, v: nat) {
    v < 16 && (c == "0123456789abcdef"[v] as int || c == "0123456789ABCDEF"[v] as int)
  }

  /** The digit of a value is the character standing for it, small or capital, and no other character is a digit. */
  lemma HexValueIff(c: byte, v: byte)
    ensures HexValue(c) == Some(v) <==> DigitOf(c, v)
  {
  }

  lemma NoDigit(c: byte)
    ensures HexValue(c) == None <==> forall v: nat :: v < 16 ==> !DigitOf(c, v)
  {
    if HexValue(c).Some? { HexValueIff(c, HexValue(c).value); }
    if v: nat :| v < 16 && DigitOf(c, v) { HexValueIff(c, v); }
  }

  lemma NoColonsFront(c: byte, t: bytes)
    ensures NoColons([c] + t) == (if c == COLON then [] else [c]) + NoColons(t)
    ensures NoColons([]) == []
  {
    NoColonsAppend([c], t);
    assert [c][..0] == [];
    assert NoColons([c]) == NoColons([c][..0]) + if c == COLON then [] else [c];
  }

  /** Colons are skipped, and the first NUL ends the digits. */
  lemma DigitsFront(c: byte, t: bytes)
    ensures Digits([c] + t) == if c == COLON then Digits(t) else if c == 0 then [] else [c] + Digits(t)
    ensures Digits([]) == []
  {
    hide NoColons;
    NoColonsFront(c, t);
    if c == COLON {
      assert [] + NoColons(t) == NoColons(t);
    } else {
      var x := [c] + NoColons(t);
      assert x[0] == c && x[1..] == NoColons(t);
      assert c != 0 ==> x[..1 + StrLen(x[1..])] == [c] + x[1..][..StrLen(x[1..])];
    }
  }

  /** In front of the first NUL stands a character that is neither a colon nor a digit. */
  ghost predicate OtherCharacter(s: bytes) {
    exists i :: 0 <= i < |s| && Other(s[i]) && forall k :: 0 <= k < i ==> s[k] != 0
  }

  ghost predicate Other(c: byte) { c != 0 && c != ':' as int && forall v: nat :: v < 16 ==> !DigitOf(c, v) }

  lemma {:induction false} OtherIff(s: bytes)
    ensures AllHex(Digits(s)) <==> !OtherCharacter(s)
  {
    hide Digits, Other, HexValue, DigitOf;
    if s == [] {
      DigitsFront(0, []);
    } else {
      var c, t := s[0], s[1..];
      assert s == [c] + t;
      OtherIff(t);
      DigitsFront(c, t);
      OtherIs(c);
      OtherStep(c, t);
      if c != COLON && c != 0 {
        var d := [c] + Digits(t);
        assert d[0] == c && forall i :: 0 <= i < |Digits(t)| ==> d[i + 1] == Digits(t)[i];
        assert AllHex(d) <==> HexValue(c).Some? && AllHex(Digits(t));
      }
    }
  }

  lemma OtherIs(c: byte)
    ensures Other(c) <==> c != 0 && c != COLON && HexValue(c) == None
  {
    NoDigit(c);
  }

  lemma OtherStep(c: byte, t: bytes)
    ensures OtherCharacter([c] + t) <==> Other(c) || (c != 0 && OtherCharacter(t))
  {
    hide Other;
    var s := [c] + t;
    assert s[0] == c && forall i :: 0 <= i < |t| ==> s[i + 1] == t[i];
    if OtherCharacter(s) {
      var i :| 0 <= i < |s| && Other(s[i]) && forall k :: 0 <= k < i ==> s[k] != 0;
      if i > 0 {
        assert s[0] != 0 && t[i - 1] == s[i];
        assert forall k :: 0 <= k < i - 1 ==> t[k] == s[k + 1];
      }
    }
    if c != 0 && OtherCharacter(t) {
      var i :| 0 <= i < |t| && Other(t[i]) && forall k :: 0 <= k < i ==> t[k] != 0;
      assert Other(s[i + 1]) && forall k :: 0 < k < i + 1 ==> s[k] == t[k - 1];
    }
  }

  // ---------- Whole addresses ----------

  /** s is these bytes: two digits each, small or capital, and a colon between two bytes. */
  ghost predicate Addresses(s: bytes, b: bytes) {
    && |s| == 3 * |b| - 1
    && forall i :: 0 <= i < |b| ==>
         && DigitOf(s[3 * i], b[i] / 16) && DigitOf(s[3 * i + 1], b[i] % 16)
         && (i > 0 ==> s[3 * i - 1] == ':' as int)
  }

  lemma AddressesStep(s: bytes, b: bytes)
    requires |b| > 1 && Addresses(s, b)
    ensures |s| >= 5 && Addresses(s[3..], b[1..]) && s[2] == COLON && DigitOf(s[0], b[0] / 16) && DigitOf(s[1], b[0] % 16)
    ensures s == [s[0]] + ([s[1]] + ([s[2]] + s[3..]))
  {
    hide DigitOf;
    var t, c := s[3..], b[1..];
    assert s[3 * 1 - 1] == ':' as int && s[3 * 0] == s[0] && s[3 * 0 + 1] == s[1];
    forall i | 0 <= i < |c|
      ensures && DigitOf(t[3 * i], c[i] / 16) && DigitOf(t[3 * i + 1], c[i] % 16) && (i > 0 ==> t[3 * i - 1] == ':' as int)
    {
      assert t[3 * i] == s[3 * (i + 1)] && t[3 * i + 1] == s[3 * (i + 1) + 1] && c[i] == b[i + 1];
      if i > 0 { assert t[3 * i - 1] == s[3 * (i + 1) - 1]; }
    }
  }

  /** A digit in front that is no colon and no NUL. */
  lemma DigitFront(c: byte, v: byte, t: bytes)
    requires DigitOf(c, v)
    ensures Digits([c] + t) == [c] + Digits(t) && NoColons([c] + t) == [c] + NoColons(t) && HexValue(c) == Some(v)
  {
    DigitsFront(c, t);
    NoColonsFront(c, t);
    HexValueIff(c, v);
    hide Digits, NoColons;
  }

  /** Two more digits in front are one more byte. */
  lemma PairFront(x: byte, y: byte, v: byte, d: bytes, b: bytes)
    requires HexValue(x) == Some(v / 16) && HexValue(y) == Some(v % 16) && AllHex(d) && Pairs(Values(d)) == b
    ensures AllHex([x] + ([y] + d)) && Pairs(Values([x] + ([y] + d))) == [v] + b
  {
    hide HexValue;
    var e := [x] + ([y] + d);
    assert e[0] == x && e[1] == y && e[2..] == d;
    assert forall i :: 0 <= i < |d| ==> e[i + 2] == d[i];
    var w := Values(e);
    assert w[0] == v / 16 && w[1] == v % 16 && w[2..] == Values(d);
  }

  /** A text of digits in either case and of colons is read as its bytes, its NUL counted in or not. */
  lemma {:induction false} AddressRead(s: bytes, b: bytes, z: bytes)
    requires b != [] && Addresses(s, b) && (z == [] || z == [0])
    ensures |NoColons(s + z)| == 2 * |b| + |z|
    ensures |Digits(s + z)| == 2 * |b| && AllHex(Digits(s + z)) && Pairs(Values(Digits(s + z))) == b
    decreases |b|
  {
    hide *;
    if |b| == 1 {
      OneByte(s, b, z);
    } else {
      AddressesStep(s, b);
      var t := s[3..] + z;
      AddressRead(s[3..], b[1..], z);
      assert s + z == [s[0]] + ([s[1]] + ([s[2]] + t));
      DigitFront(s[0], b[0] / 16, [s[1]] + ([s[2]] + t));
      DigitFront(s[1], b[0] % 16, [s[2]] + t);
      DigitsFront(s[2], t);
      NoColonsFront(s[2], t);
      assert [] + NoColons(t) == NoColons(t);
      PairFront(s[0], s[1], b[0], Digits(t), b[1..]);
      assert b == [b[0]] + b[1..];
    }
  }

  lemma OneByte(s: bytes, b: bytes, z: bytes)
    requires |b| == 1 && Addresses(s, b) && (z == [] || z == [0])
    ensures |NoColons(s + z)| == 2 + |z|
    ensures |Digits(s + z)| == 2 && AllHex(Digits(s + z)) && Pairs(Values(Digits(s + z))) == b
  {
    OneIs(s, b);
    hide *;
    assert s + z == [s[0]] + ([s[1]] + z);
    DigitFront(s[0], b[0] / 16, [s[1]] + z);
    DigitFront(s[1], b[0] % 16, z);
    NothingLeft(z);
    PairFront(s[0], s[1], b[0], [], []);
  }

  lemma OneIs(s: bytes, b: bytes)
    requires |b| == 1 && Addresses(s, b)
    ensures |s| == 2 && s == [s[0], s[1]] && DigitOf(s[0], b[0] / 16) && DigitOf(s[1], b[0] % 16) && b == [b[0]] + []
  {
    hide DigitOf;
    assert s[3 * 0] == s[0] && s[3 * 0 + 1] == s[1];
  }

  lemma NothingLeft(z: bytes)
    requires z == [] || z == [0]
    ensures Digits(z) == [] && |NoColons(z)| == |z| && AllHex([]) && Pairs(Values([])) == []
  {
    DigitsFront(0, []);
    NoColonsFront(0, []);
    assert [0] + [] == [0];
    hide NoColons, Digits;
  }

  // ---------- Printing and reading ----------

  lemma SmallIsDigit(c: byte, v: nat)
    requires SmallDigit(c, v)
    ensures DigitOf(c, v)
  {
  }

  lemma Hex2Is(b: byte)
    ensures SmallDigit(Hex2(b)[0], b / 16) && SmallDigit(Hex2(b)[1], b % 16)
  {
  }

  /** What stands at each place of a printed address. */
  lemma {:induction false} PrintedAt(b: bytes, i: nat)
    requires i < |b|
    ensures SmallDigit(Printed(b)[3 * i], b[i] / 16) && SmallDigit(Printed(b)[3 * i + 1], b[i] % 16)
    ensures i > 0 ==> Printed(b)[3 * i - 1] == ':' as int
  {
    hide Hex2, SmallDigit;
    Hex2Is(b[i]);
    var n := |b| - 1;
    if n == 0 {
    } else {
      var front, last := Printed(b[..n]), Hex2(b[n]);
      assert Printed(b) == front + [COLON] + last;
      if i < n {
        PrintedAt(b[..n], i);
        assert Printed(b)[3 * i] == front[3 * i] && Printed(b)[3 * i + 1] == front[3 * i + 1];
        if i > 0 { assert Printed(b)[3 * i - 1] == front[3 * i - 1]; }
      }
    }
  }

  lemma PrintedAddresses(b: bytes)
    requires b != []
    ensures Addresses(Printed(b), b)
  {
    hide Printed, SmallDigit, DigitOf;
    forall i | 0 <= i < |b|
      ensures DigitOf(Printed(b)[3 * i], b[i] / 16) && DigitOf(Printed(b)[3 * i + 1], b[i] % 16)
      ensures i > 0 ==> Printed(b)[3 * i - 1] == ':' as int
    {
      PrintedAt(b, i);
      SmallIsDigit(Printed(b)[3 * i], b[i] / 16);
      SmallIsDigit(Printed(b)[3 * i + 1], b[i] % 16);
    }
  }

  lemma SixPrinted(b: bytes)
    requires |b| == 6
    ensures var s := Printed(b);
            && |s| == 17 && s[2] == s[5] == s[8] == s[11] == s[14] == ':' as int
            && forall i :: 0 <= i < 6 ==> SmallDigit(s[3 * i], b[i] / 16) && SmallDigit(s[3 * i + 1], b[i] % 16)
  {
    hide Printed, SmallDigit;
    forall i | 0 <= i < 6
      ensures SmallDigit(Printed(b)[3 * i], b[i] / 16) && SmallDigit(Printed(b)[3 * i + 1], b[i] % 16)
      ensures i > 0 ==> Printed(b)[3 * i - 1] == ':' as int
    {
      PrintedAt(b, i);
    }
    assert Printed(b)[3 * 1 - 1] == Printed(b)[3 * 2 - 1] == Printed(b)[3 * 3 - 1] == ':' as int;
    assert Printed(b)[3 * 4 - 1] == Printed(b)[3 * 5 - 1] == ':' as int;
  }

  lemma {:induction false} NoColonsAppend(s: bytes, t: bytes)
    ensures NoColons(s + t) == NoColons(s) + NoColons(t)
    decreases |t|
  {
    if t == [] {
      assert s + t == s;
    } else {
      var front := t[..|t| - 1];
      assert (s + t)[..|s + t| - 1] == s + front;
      NoColonsAppend(s, front);
    }
  }

  /** Reading the printed text, its NUL included, gives the six bytes back and leaves the rest of the target. */
  lemma PrintedReadBack(b: bytes)
    requires |b| == 6
    ensures var s := Printed(b) + [0];
            && |s| == 18 && Roomy(s, 6) && AllHex(Digits(s)) && Pairs(Values(Digits(s))) == b
  {
    PrintedAddresses(b);
    AddressRead(Printed(b), b, [0]);
    hide Printed, NoColons, Digits, AllHex, Values, Pairs;
  }
}
