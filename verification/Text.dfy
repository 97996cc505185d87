/** The two encodings the package builder writes: UTF-16LE in the container, UTF-8 in cpio names. */
module Text {
  import opened Bytes
  import opened Struct

  predicate IsScalar(n: int) { 0 <= n < 0xD800 || 0xE000 <= n < 0x11_0000 }

  // ---------- UTF-16LE ----------

  function Utf16Char(c: char): (b: bytes)
    ensures |b| == 2 || |b| == 4
    ensures |b| == 2 <==> c as int < 0x1_0000
    ensures |b| == 2 ==> (b[0] as int) + 256 * (b[1] as int) == c as int
  {
    var n := c as int;
    if n < 0x1_0000 then Pack16(n)
    else Pack16(0xD800 + (n - 0x1_0000) / 0x400) + Pack16(0xDC00 + (n - 0x1_0000) % 0x400)
  }

  function Utf16(s: string): (b: bytes)
    ensures |b| % 2 == 0
  {
    if s == "" then [] else Utf16Char(s[0]) + Utf16(s[1..])
  }

  /** A character above 0xFFFF is two units: the high surrogate of its upper ten bits and the low one of the rest. */
  lemma SurrogatePair(c: char)
    requires c as int >= 0x1_0000
    ensures var b := Utf16Char(c);
            && |b| == 4
            && var high, low := (b[0] as int) + 256 * (b[1] as int), (b[2] as int) + 256 * (b[3] as int);
               0xD800 <= high < 0xDC00 && 0xDC00 <= low < 0xE000
               && 0x1_0000 + (high - 0xD800) * 0x400 + (low - 0xDC00) == c as int
  {
  }

  lemma {:induction false} Utf16Append(s: string, t: string)
    ensures Utf16(s + t) == Utf16(s) + Utf16(t)
  {
    hide Utf16Char;
    if s == "" {
      assert s + t == t;
    } else {
      assert (s + t)[1..] == s[1..] + t;
      Utf16Append(s[1..], t);
    }
  }

  /** The first character of b, and how many bytes it takes. */
  function FirstUtf16(b: bytes): (r: Option<(char, nat)>)
    ensures r.Some? ==> (r.value.1 == 2 || r.value.1 == 4) && r.value.1 <= |b|
    ensures r.Some? ==> Utf16Char(r.value.0) == b[..r.value.1]
  {
    if |b| < 2 then None
    else
      var u := Read16(b[..2]);
      if IsScalar(u) then
        Pack16Read16(b[..2]);
        Some((u as char, 2))
      else if u < 0xDC00 && |b| >= 4 && 0xDC00 <= Read16(b[2..4]) < 0xE000 then
        var w := Read16(b[2..4]);
        Pack16Read16(b[..2]);
        Pack16Read16(b[2..4]);
        assert b[..4] == b[..2] + b[2..4];
        Some(((0x1_0000 + (u - 0xD800) * 0x400 + (w - 0xDC00)) as char, 4))
      else None
  }

  lemma Pack16Read16(b: bytes)
    requires |b| == 2
    ensures Pack16(Read16(b)) == b
  {
  }

  lemma FirstUtf16OfChar(c: char, rest: bytes)
    ensures FirstUtf16(Utf16Char(c) + rest) == Some((c, |Utf16Char(c)|))
  {
    var n, b := c as int, Utf16Char(c) + rest;
    if n < 0x1_0000 {
      assert b[..2] == Pack16(n);
      Read16Pack16(n);
    } else {
      var m := n - 0x1_0000;
      assert b[..2] == Pack16(0xD800 + m / 0x400) && b[2..4] == Pack16(0xDC00 + m % 0x400);
      Read16Pack16(0xD800 + m / 0x400);
      Read16Pack16(0xDC00 + m % 0x400);
    }
  }

  /** A NUL-terminated UTF-16 text that may also fill its field: None when it is not well formed. */
  function ReadText(b: bytes): Option<string>
    decreases |b|
  {
    if b == [] then Some("")
    else
      match FirstUtf16(b)
      case None => None
      case Some((c, n)) =>
        if c == '\0' then Some("")
        else match ReadText(b[n..])
             case None => None
             case Some(rest) => Some([c] + rest)
  }

  lemma ReadTextOfZeros(k: nat)
    ensures ReadText(Zeros(2 * k)) == Some("")
  {
    if k > 0 {
      assert Zeros(2 * k) == Utf16Char('\0') + Zeros(2 * k - 2);
      FirstUtf16OfChar('\0', Zeros(2 * k - 2));
    }
  }

  lemma {:induction false} ReadTextOfUtf16(s: string, k: nat)
    requires '\0' !in s
    ensures ReadText(Utf16(s) + Zeros(2 * k)) == Some(s)
  {
    hide FirstUtf16, Utf16Char, Zeros;
    var z := Zeros(2 * k);
    if s == "" {
      assert Utf16(s) + z == z;
      ReadTextOfZeros(k);
    } else {
      var c, rest := Utf16Char(s[0]), Utf16(s[1..]) + z;
      assert Utf16(s) + z == c + rest;
      FirstUtf16OfChar(s[0], rest);
      assert (c + rest)[|c|..] == rest;
      ReadTextOfUtf16(s[1..], k);
      assert s == [s[0]] + s[1..];
    }
  }

  lemma {:induction false} ReadTextBound(b: bytes)
    ensures ReadText(b).Some? ==> |Utf16(ReadText(b).value)| <= |b| && '\0' !in ReadText(b).value
    decreases |b|
  {
    if ReadText(b).None? || b == [] {
    } else {
      var (c, n) := FirstUtf16(b).value;
      if c != '\0' {
        ReadTextBound(b[n..]);
        var t := ReadText(b).value;
        assert t[1..] == ReadText(b[n..]).value;
      }
    }
  }

  /** A text put in an n-byte field is read back exactly when it fits and holds no NUL. */
  lemma FieldKeepsText(s: string, n: nat)
    requires n % 2 == 0
    ensures ReadText(Fixed(Utf16(s), n)) == Some(s) <==> |Utf16(s)| <= n && '\0' !in s
  {
    hide ReadText, Utf16;
    if |Utf16(s)| <= n && '\0' !in s {
      var k := (n - |Utf16(s)|) / 2;
      assert Fixed(Utf16(s), n) == Utf16(s) + Zeros(2 * k);
      ReadTextOfUtf16(s, k);
    } else {
      ReadTextBound(Fixed(Utf16(s), n));
    }
  }

  // ---------- UTF-8 ----------

  function Utf8Char(c: char): (b: bytes)
    ensures 1 <= |b| <= 4
  {
    var n := c as int;
    if n < 0x80 then [n]
    else if n < 0x800 then [0xC0 + n / 0x40, 0x80 + n % 0x40]
    else if n < 0x1_0000 then [0xE0 + n / 0x1000, 0x80 + n / 0x40 % 0x40, 0x80 + n % 0x40]
    else [0xF0 + n / 0x4_0000, 0x80 + n / 0x1000 % 0x40, 0x80 + n / 0x40 % 0x40, 0x80 + n % 0x40]
  }

  /** The shortest form: one byte below 0x80, and for more bytes the ranges, marks and bits of RFC 3629, section 3. */
  lemma Utf8Form(c: char)
    ensures var b, n := Utf8Char(c), c as int;
            && (|b| == 1 <==> n < 0x80) && (|b| == 2 <==> 0x80 <= n < 0x800)
            && (|b| == 3 <==> 0x800 <= n < 0x1_0000) && (|b| == 4 <==> n >= 0x1_0000)
            && (|b| == 1 ==> b[0] == n)
            && (|b| == 2 ==> 0xC0 <= b[0] < 0xE0) && (|b| == 3 ==> 0xE0 <= b[0] < 0xF0) && (|b| == 4 ==> 0xF0 <= b[0] < 0xF8)
            && (forall i :: 1 <= i < |b| ==> 0x80 <= b[i] < 0xC0)
  {
  }

  lemma Utf8Bits(c: char)
    ensures var b, n := Utf8Char(c), c as int;
            && (|b| == 2 ==> n == ((b[0] as int) - 0xC0) * 0x40 + ((b[1] as int) - 0x80))
            && (|b| == 3 ==> n == ((b[0] as int) - 0xE0) * 0x1000 + ((b[1] as int) - 0x80) * 0x40 + ((b[2] as int) - 0x80))
            && (|b| == 4 ==> n == ((b[0] as int) - 0xF0) * 0x4_0000 + ((b[1] as int) - 0x80) * 0x1000 + ((b[2] as int) - 0x80) * 0x40
                                  + ((b[3] as int) - 0x80))
  {
    Utf8NumberOfChar(c, []);
    assert Utf8Char(c) + [] == Utf8Char(c);
  }

  lemma {:induction false} Utf8Append(s: string, t: string)
    ensures Utf8(s + t) == Utf8(s) + Utf8(t)
  {
    hide Utf8Char;
    if s == "" {
      assert s + t == t;
    } else {
      assert (s + t)[1..] == s[1..] + t;
      Utf8Append(s[1..], t);
    }
  }

  function Utf8(s: string): (b: bytes) {
    if s == "" then [] else Utf8Char(s[0]) + Utf8(s[1..])
  }

  function ByteAt(b: bytes, i: nat): int
    requires i < |b|
  {
    b[i]
  }

  /** The number a UTF-8 sequence starting at b[0] stands for, and its length. */
  function Utf8Number(b: bytes): (int, nat)
    requires b != []
  {
    if ByteAt(b, 0) < 0x80 then (ByteAt(b, 0), 1)
    else if ByteAt(b, 0) < 0xE0 && |b| >= 2 then ((ByteAt(b, 0) - 0xC0) * 0x40 + (ByteAt(b, 1) - 0x80), 2)
    else if 0xE0 <= ByteAt(b, 0) < 0xF0 && |b| >= 3 then
      ((ByteAt(b, 0) - 0xE0) * 0x1000 + (ByteAt(b, 1) - 0x80) * 0x40 + (ByteAt(b, 2) - 0x80), 3)
    else if 0xF0 <= ByteAt(b, 0) && |b| >= 4 then
      ((ByteAt(b, 0) - 0xF0) * 0x4_0000 + (ByteAt(b, 1) - 0x80) * 0x1000 + (ByteAt(b, 2) - 0x80) * 0x40 + (ByteAt(b, 3) - 0x80), 4)
    else (-1, 1)
  }

  /** Strict decoding: only the bytes the encoder would have written are accepted. */
  function ReadUtf8(b: bytes): Option<string>
    decreases |b|
  {
    if b == [] then Some("")
    else
      var (n, k) := Utf8Number(b);
      if !IsScalar(n) || Utf8Char(n as char) != b[..k] then None
      else match ReadUtf8(b[k..])
           case None => None
           case Some(rest) => Some([n as char] + rest)
  }

  lemma Utf8NumberOfChar(c: char, rest: bytes)
    ensures Utf8Number(Utf8Char(c) + rest) == (c as int, |Utf8Char(c)|)
  {
    hide *;
    var n := c as int;
    if n < 0x800 {
      UpToTwoBytes(c, rest);
    } else if n < 0x1_0000 {
      ThreeBytes(c, rest);
    } else {
      FourBytes(c, rest);
    }
  }

  lemma UpToTwoBytes(c: char, rest: bytes)
    requires c as int < 0x800
    ensures Utf8Number(Utf8Char(c) + rest) == (c as int, |Utf8Char(c)|)
  {
  }

  lemma ThreeBytes(c: char, rest: bytes)
    requires 0x800 <= c as int < 0x1_0000
    ensures Utf8Number(Utf8Char(c) + rest) == (c as int, |Utf8Char(c)|)
  {
    var n := c as int;
    assert n == n / 0x1000 * 0x1000 + n / 0x40 % 0x40 * 0x40 + n % 0x40;
  }

  lemma FourBytes(c: char, rest: bytes)
    requires c as int >= 0x1_0000
    ensures Utf8Number(Utf8Char(c) + rest) == (c as int, |Utf8Char(c)|)
  {
    Places(c as int);
  }

  lemma Places(n: nat)
    ensures n == n / 0x4_0000 * 0x4_0000 + n / 0x1000 % 0x40 * 0x1000 + n / 0x40 % 0x40 * 0x40 + n % 0x40
  {
    var a, b := n / 0x40, n / 0x1000;
    assert b == a / 0x40 && n / 0x4_0000 == b / 0x40;
  }

  lemma {:induction false} ReadUtf8OfUtf8(s: string)
    ensures ReadUtf8(Utf8(s)) == Some(s)
  {
    if s == "" {
    } else {
      var c, rest := Utf8Char(s[0]), Utf8(s[1..]);
      Utf8NumberOfChar(s[0], rest);
      assert (c + rest)[..|c|] == c && (c + rest)[|c|..] == rest;
      ReadUtf8OfUtf8(s[1..]);
      assert s == [s[0]] + s[1..];
    }
  }

  lemma {:induction false} Utf8HasNoNul(s: string)
    ensures 0 in Utf8(s) <==> '\0' in s
  {
    if s == "" {
    } else {
      Utf8HasNoNul(s[1..]);
      assert 0 in Utf8Char(s[0]) <==> s[0] == '\0';
      assert s == [s[0]] + s[1..];
    }
  }
}
