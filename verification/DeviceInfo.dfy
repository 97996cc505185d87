/** The substring-search parser of the device record the registration server answers with.
    The record is a C string, here without its final NUL; pointers into it are indices. */
module DeviceInfo {
  import opened Bytes

  predicate OccursAt(s: string, key: string, i: int) {
    0 <= i <= i + |key| <= |s| && s[i..i + |key|] == key
  }

  /** strstr(s + from, key): the first occurrence. */
  function StrStr(s: string, key: string, from: nat): (r: Option<nat>)
    requires from <= |s|
    ensures r.Some? ==> from <= r.value && OccursAt(s, key, r.value)
    ensures r.Some? ==> forall i :: from <= i < r.value ==> !OccursAt(s, key, i)
    ensures r.None? ==> forall i :: from <= i ==> !OccursAt(s, key, i)
    decreases |s| - from
  {
    if OccursAt(s, key, from) then Some(from)
    else if from == |s| then None
    else StrStr(s, key, from + 1)
  }

  predicate IsSpace(c: char) { c == ' ' || '\t' <= c <= '\r' }

  predicate IsDigit(c: char) { '0' <= c <= '9' }

  function DigitsFrom(acc: nat, s: string): nat
    decreases |s|
  {
    if s == [] || !IsDigit(s[0]) then acc
    else DigitsFrom(10 * acc + (s[0] as int - '0' as int), s[1..])
  }

  /** atoi, for texts too short to overflow. */
  function Atoi(s: string): int {
    if s == [] then 0
    else if IsSpace(s[0]) then Atoi(s[1..])
    else if s[0] == '-' then 0 - DigitsFrom(0, s[1..])
    else if s[0] == '+' then DigitsFrom(0, s[1..])
    else DigitsFrom(0, s)
  }

  /** The value after the first occurrence of key, skip characters from where it starts, up to the character before
      the next delimiter. None where the C code would follow a null pointer, copy a negative length or overrun its
      trace buffer. */
  function FieldOf(s: string, key: string, skip: nat, delim: string): Option<string> {
    match StrStr(s, key, 0)
    case None => None
    case Some(k) =>
      if k + skip > |s| then None
      else
        match StrStr(s, delim, k + skip)
        case None => None
        case Some(e) => if 0 <= e - (k + skip) - 1 < 128 then Some(s[k + skip..e - 1]) else None
  }

  /** Host and port text of the domain value. */
  function DomainOf(s: string): Option<(string, string)> {
    match StrStr(s, "domain", 0)
    case None => None
    case Some(k) =>
      if k + 9 > |s| then None
      else
        match StrStr(s, ":", k + 9)
        case None => None
        case Some(e) =>
          match StrStr(s, ",", e + 1)
          case None => None
          case Some(f) =>
            if e - (k + 9) < 128 && 0 <= f - (e + 1) - 1 < 8
            then Some((s[k + 9..e], s[e + 1..f - 1])) else None
  }

  datatype Info = Info(hostname: string, port: int, clientId: string, deviceName: string, productKey: string,
                       deviceSecret: string)

  /** What the parser makes of the record; the port is a u16_t. */
  function InfoOf(s: string): Option<Info> {
    match (DomainOf(s), FieldOf(s, "customerId", 13, ","), FieldOf(s, "imei", 7, ","), FieldOf(s, "productKey", 13, ","),
           FieldOf(s, "deviceSecret", 15, "}"))
    case (Some(domain), Some(id), Some(name), Some(key), Some(secret)) =>
      Some(Info(domain.0, Atoi(domain.1) % 0x1_0000, id, name, key, secret))
    case _ => None
  }

  /** The part of mqttInfo that the parser fills. */
  class MqttInfo {
    var hostname: string
    var port: int
    var clientId: string
    var aliDeviceName: string
    var aliProductKey: string
    var aliDeviceSecret: string

    /** meig_parse_deviceinfo; false where its behaviour is undefined. */
    method Parse(deviceinfo: string) returns (defined: bool)
      modifies this
      ensures defined <==> InfoOf(deviceinfo).Some?
      ensures defined ==>
                var info := InfoOf(deviceinfo).value;
                && hostname == info.hostname && port == info.port && clientId == info.clientId
                && aliDeviceName == info.deviceName && aliProductKey == info.productKey
                && aliDeviceSecret == info.deviceSecret
    {
      hide StrStr, Atoi, FieldOf;
      var found := StrStr(deviceinfo, "domain", 0);
      if found.None? || found.value + 9 > |deviceinfo| { return false; }
      var p := found.value + 9;
      var pEnd := StrStr(deviceinfo, ":", p);
      if pEnd.None? { return false; }
      var len := pEnd.value - p;
      if len >= 128 { return false; }
      hostname := deviceinfo[p..p + len];

      p := pEnd.value + 1;
      pEnd := StrStr(deviceinfo, ",", p);
      if pEnd.None? { return false; }
      len := pEnd.value - p - 1;
      if len < 0 || len >= 8 { return false; }
      port := Atoi(deviceinfo[p..p + len]) % 0x1_0000;

      var value := Copy(deviceinfo, "customerId", 13, ",");
      if value.None? { return false; }
      clientId := value.value;
      value := Copy(deviceinfo, "imei", 7, ",");
      if value.None? { return false; }
      aliDeviceName := value.value;
      value := Copy(deviceinfo, "productKey", 13, ",");
      if value.None? { return false; }
      aliProductKey := value.value;
      value := Copy(deviceinfo, "deviceSecret", 15, "}");
      if value.None? { return false; }
      aliDeviceSecret := value.value;
      defined := true;
    }

    /** The block that the parser repeats for each of the last four values. */
    static method Copy(deviceinfo: string, key: string, skip: nat, delim: string) returns (value: Option<string>)
      ensures value == FieldOf(deviceinfo, key, skip, delim)
    {
      var found := StrStr(deviceinfo, key, 0);
      if found.None? || found.value + skip > |deviceinfo| { return None; }
      var p := found.value + skip;
      var pEnd := StrStr(deviceinfo, delim, p);
      if pEnd.None? { return None; }
      var len := pEnd.value - p - 1;
      if len < 0 || len >= 128 { return None; }
      value := Some(deviceinfo[p..p + len]);
    }
  }

  // The record as the server prints it.

  function Decimal(n: nat): (s: string)
    ensures s != "" && (forall c :: c in s ==> IsDigit(c)) && (n > 0 ==> s[0] != '0') && (n < 10 ==> |s| == 1)
  {
    if n < 10 then [('0' as int + n) as char] else Decimal(n / 10) + [('0' as int + n % 10) as char]
  }

  lemma {:induction false} DigitsAppend(acc: nat, s: string, t: string)
    requires forall c :: c in s ==> IsDigit(c)
    decreases |s|
    ensures DigitsFrom(acc, s + t) == DigitsFrom(DigitsFrom(acc, s), t)
  {
    if s == [] {
      assert s + t == t;
    } else {
      assert (s + t)[1..] == s[1..] + t;
      assert s[0] in s;
      DigitsAppend(10 * acc + (s[0] as int - '0' as int), s[1..], t);
    }
  }

  lemma {:induction false} DecimalRead(n: nat)
    ensures DigitsFrom(0, Decimal(n)) == n
  {
    var last := [('0' as int + n % 10) as char];
    assert last[1..] == [];
    if n < 10 {
    } else {
      DecimalRead(n / 10);
      DigitsAppend(0, Decimal(n / 10), last);
    }
  }

  lemma AtoiDecimal(n: nat)
    ensures Atoi(Decimal(n)) == n
  {
    DecimalRead(n);
  }

  lemma {:induction false} DecimalLength(n: nat, k: nat)
    requires n < Power10(k) && k > 0
    ensures |Decimal(n)| <= k
  {
    if n < 10 {
    } else {
      DecimalLength(n / 10, k - 1);
    }
  }

  function Power10(k: nat): nat { if k == 0 then 1 else 10 * Power10(k - 1) }

  /** "key":"value" with the closing quote and the delimiter behind it, value starting at index p. */
  ghost predicate ValueAt(s: string, p: nat, value: string, delim: char) {
    && p + |value| + 2 <= |s|
    && s[p..p + |value|] == value && s[p + |value|] == '"' && s[p + |value| + 1] == delim
  }

  /** The text of key is found first where its own entry has it. */
  ghost predicate FirstAt(s: string, key: string, k: nat) {
    OccursAt(s, key, k) && forall i :: 0 <= i < k ==> !OccursAt(s, key, i)
  }

  lemma FirstFound(s: string, key: string, k: nat)
    requires FirstAt(s, key, k)
    ensures StrStr(s, key, 0) == Some(k)
  {
    hide StrStr;
  }

  lemma DelimAt(s: string, c: char, i: int)
    ensures OccursAt(s, [c], i) <==> 0 <= i < |s| && s[i] == c
  {
    if 0 <= i < |s| { assert s[i..i + 1] == [s[i]]; }
  }

  /** Where the search ends when the delimiter is met at end at the latest. */
  lemma DelimFound(s: string, p: nat, end: nat, delim: char)
    requires p <= end < |s| && s[end] == delim
    ensures StrStr(s, [delim], p).Some? && p <= StrStr(s, [delim], p).value <= end
    ensures delim !in s[p..end] <==> StrStr(s, [delim], p) == Some(end)
  {
    hide StrStr, OccursAt;
    forall i ensures OccursAt(s, [delim], i) <==> 0 <= i < |s| && s[i] == delim { DelimAt(s, delim, i); }
    assert OccursAt(s, [delim], end);
    var e := StrStr(s, [delim], p).value;
    if e < end {
      assert s[p..end][e - p] == delim;
    }
  }

  lemma ValueFound(s: string, p: nat, value: string, delim: char)
    requires ValueAt(s, p, value, delim) && delim != '"'
    ensures StrStr(s, [delim], p).Some? && p <= StrStr(s, [delim], p).value <= p + |value| + 1
    ensures delim !in value <==> StrStr(s, [delim], p) == Some(p + |value| + 1)
  {
    hide StrStr;
    DelimFound(s, p, p + |value| + 1, delim);
    assert s[p..p + |value| + 1] == value + ['"'];
  }

  /** One entry is read exactly when its value holds no delimiter and fits the trace buffer. */
  lemma FieldExact(s: string, key: string, k: nat, value: string, delim: char)
    requires FirstAt(s, key, k) && ValueAt(s, k + |key| + 3, value, delim) && delim != '"'
    ensures FieldOf(s, key, |key| + 3, [delim]) == Some(value) <==> delim !in value && |value| < 128
  {
    hide StrStr, FirstAt;
    var p := k + |key| + 3;
    FirstFound(s, key, k);
    ValueFound(s, p, value, delim);
  }

  lemma DomainExact(s: string, k: nat, host: string, port: string)
    requires FirstAt(s, "domain", k) && k + 9 + |host| < |s|
    requires OccursAt(s, host, k + 9) && s[k + 9 + |host|] == ':'
    requires ValueAt(s, k + 9 + |host| + 1, port, ',')
    ensures DomainOf(s) == Some((host, port)) <==> ':' !in host && |host| < 128 && ',' !in port && |port| < 8
    ensures DomainOf(s).Some? && DomainOf(s).value.0 == host ==> ':' !in host && |host| < 128
  {
    hide StrStr, FirstAt;
    FirstFound(s, "domain", k);
    DelimFound(s, k + 9, k + 9 + |host|, ':');
    ValueFound(s, k + 9 + |host| + 1, port, ',');
  }

  function Domain(host: string, port: string): string {
    "domain" + ("\":\"" + (host + (":" + (port + "\",\""))))
  }

  function Entry(key: string, value: string, end: string): string {
    key + ("\":\"" + (value + ("\"" + end)))
  }

  /** The entries in the order the server prints them. */
  function Part(n: nat, i: Info): string
    requires n < 5 && i.port >= 0
  {
    match n
    case 0 => Domain(i.hostname, Decimal(i.port))
    case 1 => Entry("customerId", i.clientId, [','] + ['"'])
    case 2 => Entry("imei", i.deviceName, [','] + ['"'])
    case 3 => Entry("productKey", i.productKey, [','] + ['"'])
    case 4 => Entry("deviceSecret", i.deviceSecret, ['}'] + [])
  }

  /** Everything in front of entry n, and all of them at n = 5. */
  function Upto(n: nat, pre: string, i: Info): string
    requires n <= 5 && i.port >= 0
  {
    if n == 0 then pre else Upto(n - 1, pre, i) + Part(n - 1, i)
  }

  function RecordText(pre: string, i: Info, post: string): string
    requires i.port >= 0
  {
    Upto(5, pre, i) + post
  }

  /** No key text occurs in the record before its own key. */
  ghost predicate OwnKeysFirst(pre: string, i: Info, post: string)
    requires i.port >= 0
  {
    var s := RecordText(pre, i, post);
    && (forall k :: 0 <= k < |Upto(0, pre, i)| ==> !OccursAt(s, "domain", k))
    && (forall k :: 0 <= k < |Upto(1, pre, i)| ==> !OccursAt(s, "customerId", k))
    && (forall k :: 0 <= k < |Upto(2, pre, i)| ==> !OccursAt(s, "imei", k))
    && (forall k :: 0 <= k < |Upto(3, pre, i)| ==> !OccursAt(s, "productKey", k))
    && (forall k :: 0 <= k < |Upto(4, pre, i)| ==> !OccursAt(s, "deviceSecret", k))
  }

  /** A text placed between two others. */
  lemma Placed(a: string, x: string, b: string)
    ensures OccursAt(a + x + b, x, |a|)
  {
  }

  lemma OccursSplit(s: string, x: string, y: string, i: nat)
    requires OccursAt(s, x + y, i)
    ensures OccursAt(s, x, i) && OccursAt(s, y, i + |x|)
  {
    assert s[i..i + |x|] == (x + y)[..|x|];
    assert s[i + |x|..i + |x| + |y|] == (x + y)[|x|..];
  }

  lemma CharAt(s: string, c: char, rest: string, i: nat)
    requires OccursAt(s, [c] + rest, i)
    ensures i < |s| && s[i] == c && OccursAt(s, rest, i + 1)
  {
    OccursSplit(s, [c], rest, i);
    DelimAt(s, c, i);
  }

  lemma ValuePlaced(s: string, value: string, delim: char, rest: string, p: nat)
    requires OccursAt(s, value + (['"'] + ([delim] + rest)), p)
    ensures ValueAt(s, p, value, delim)
  {
    OccursSplit(s, value, ['"'] + ([delim] + rest), p);
    CharAt(s, '"', [delim] + rest, p + |value|);
    CharAt(s, delim, rest, p + |value| + 1);
  }

  lemma EntryPlaced(s: string, key: string, value: string, delim: char, rest: string, k: nat)
    requires OccursAt(s, Entry(key, value, [delim] + rest), k)
    ensures OccursAt(s, key, k) && ValueAt(s, k + |key| + 3, value, delim)
  {
    hide OccursAt, ValueAt;
    OccursSplit(s, key, "\":\"" + (value + ("\"" + ([delim] + rest))), k);
    OccursSplit(s, "\":\"", value + ("\"" + ([delim] + rest)), k + |key|);
    ValuePlaced(s, value, delim, rest, k + |key| + 3);
  }

  lemma DomainPlaced(s: string, host: string, port: string, k: nat)
    requires OccursAt(s, Domain(host, port), k)
    ensures OccursAt(s, "domain", k) && k + 9 + |host| < |s|
    ensures OccursAt(s, host, k + 9) && s[k + 9 + |host|] == ':'
    ensures ValueAt(s, k + 9 + |host| + 1, port, ',')
  {
    hide OccursAt, ValueAt;
    var end: string := ['"'] + ([','] + ['"']);
    assert "\",\"" == end;
    OccursSplit(s, "domain", "\":\"" + (host + (":" + (port + end))), k);
    OccursSplit(s, "\":\"", host + (":" + (port + end)), k + 6);
    OccursSplit(s, host, ":" + (port + end), k + 9);
    CharAt(s, ':', port + end, k + 9 + |host|);
    ValuePlaced(s, port, ',', ['"'], k + 9 + |host| + 1);
  }

  predicate Readable(i: Info) {
    && ':' !in i.hostname && |i.hostname| < 128 && i.port < 0x1_0000
    && ',' !in i.clientId && |i.clientId| < 128
    && ',' !in i.deviceName && |i.deviceName| < 128
    && ',' !in i.productKey && |i.productKey| < 128
    && '}' !in i.deviceSecret && |i.deviceSecret| < 128
  }

  lemma {:induction false} UptoIsPrefix(n: nat, pre: string, i: Info, post: string)
    requires n <= 5 && i.port >= 0
    ensures Upto(n, pre, i) <= RecordText(pre, i, post)
    decreases 5 - n
  {
    hide Part;
    if n == 5 {
    } else {
      UptoIsPrefix(n + 1, pre, i, post);
    }
  }

  lemma PartPlaced(n: nat, pre: string, i: Info, post: string)
    requires n < 5 && i.port >= 0
    ensures OccursAt(RecordText(pre, i, post), Part(n, i), |Upto(n, pre, i)|)
  {
    hide Part, RecordText;
    UptoIsPrefix(n + 1, pre, i, post);
    assert Upto(n + 1, pre, i) == Upto(n, pre, i) + Part(n, i);
  }

  lemma PartsAre(i: Info)
    requires i.port >= 0
    ensures Part(0, i) == Domain(i.hostname, Decimal(i.port))
    ensures Part(1, i) == Entry("customerId", i.clientId, [','] + ['"'])
    ensures Part(2, i) == Entry("imei", i.deviceName, [','] + ['"'])
    ensures Part(3, i) == Entry("productKey", i.productKey, [','] + ['"'])
    ensures Part(4, i) == Entry("deviceSecret", i.deviceSecret, ['}'] + [])
  {
  }

  lemma EntryRead(s: string, key: string, value: string, delim: char, rest: string, k: nat)
    requires OccursAt(s, Entry(key, value, [delim] + rest), k) && delim != '"'
    requires forall i :: 0 <= i < k ==> !OccursAt(s, key, i)
    ensures FieldOf(s, key, |key| + 3, [delim]) == Some(value) <==> delim !in value && |value| < 128
  {
    hide OccursAt, ValueAt, FieldOf, Entry;
    EntryPlaced(s, key, value, delim, rest, k);
    FieldExact(s, key, k, value, delim);
  }

  lemma DomainRead(s: string, host: string, port: string, k: nat)
    requires OccursAt(s, Domain(host, port), k)
    requires forall i :: 0 <= i < k ==> !OccursAt(s, "domain", i)
    ensures DomainOf(s) == Some((host, port)) <==> ':' !in host && |host| < 128 && ',' !in port && |port| < 8
    ensures DomainOf(s).Some? && DomainOf(s).value.0 == host ==> ':' !in host && |host| < 128
  {
    hide OccursAt, ValueAt, DomainOf, Domain;
    DomainPlaced(s, host, port, k);
    DomainExact(s, k, host, port);
  }

  /** The port number is printed without a comma, fits the buffer and the field, and is read back, exactly when it
      is below 65536. */
  lemma PortRead(n: nat)
    ensures ',' !in Decimal(n)
    ensures n < 0x1_0000 ==> |Decimal(n)| < 8 && Atoi(Decimal(n)) % 0x1_0000 == n
  {
    assert !IsDigit(',');
    hide *;
    AtoiDecimal(n);
    if n < 0x1_0000 {
      FiveDigits();
      DecimalLength(n, 5);
    }
  }

  lemma FiveDigits()
    ensures Power10(5) == 100000
  {
    assert Power10(2) == 100;
  }

  /** A record of the printed shape, no key text occurring before its own key, is parsed into exactly what was
      printed if and only if no value holds its delimiter or overruns its buffer and the port fits a u16_t. */
  lemma RecordExact(pre: string, i: Info, post: string)
    requires i.port >= 0 && OwnKeysFirst(pre, i, post)
    ensures InfoOf(RecordText(pre, i, post)) == Some(i) <==> Readable(i)
  {
    hide OccursAt, FieldOf, DomainOf, Domain, Entry, Part, Upto, RecordText, Decimal, Atoi;
    var s := RecordText(pre, i, post);
    PartsAre(i);
    PartPlaced(0, pre, i, post);
    DomainRead(s, i.hostname, Decimal(i.port), |Upto(0, pre, i)|);
    PortRead(i.port);
    PartPlaced(1, pre, i, post);
    EntryRead(s, "customerId", i.clientId, ',', ['"'], |Upto(1, pre, i)|);
    PartPlaced(2, pre, i, post);
    EntryRead(s, "imei", i.deviceName, ',', ['"'], |Upto(2, pre, i)|);
    PartPlaced(3, pre, i, post);
    EntryRead(s, "productKey", i.productKey, ',', ['"'], |Upto(3, pre, i)|);
    PartPlaced(4, pre, i, post);
    EntryRead(s, "deviceSecret", i.deviceSecret, '}', [], |Upto(4, pre, i)|);
  }

  // ---------- Numbers and texts spelled out ----------

  lemma DigitIs(c: char)
    ensures IsDigit(c) <==> exists v: nat :: v < 10 && c == "0123456789"[v]
  {
    if IsDigit(c) { assert c == "0123456789"[c as int - '0' as int]; }
  }

  /** A digit moves what is there one place to the left; anything else ends the number. */
  lemma DigitsFromStep(acc: nat, c: char, s: string)
    ensures forall v: nat :: v < 10 && c == "0123456789"[v] ==> DigitsFrom(acc, [c] + s) == DigitsFrom(10 * acc + v, s)
    ensures (forall v: nat :: v < 10 ==> c != "0123456789"[v]) ==> DigitsFrom(acc, [c] + s) == acc
    ensures DigitsFrom(acc, []) == acc
  {
    DigitIs(c);
    assert ([c] + s)[0] == c && ([c] + s)[1..] == s;
  }

  /** atoi skips white space, takes one sign, and stops at the first character that is no digit. */
  lemma {:induction false} AtoiTakes(spaces: string, sign: string, d: string, rest: string)
    requires forall i :: 0 <= i < |spaces| ==> spaces[i] as int == 32 || 9 <= spaces[i] as int <= 13
    requires sign == "" || sign == "+" || sign == "-"
    requires (forall c :: c in d ==> IsDigit(c)) && (rest != "" ==> !IsDigit(rest[0]))
    requires d != ""
    ensures Atoi(spaces + (sign + (d + rest))) == if sign == "-" then 0 - DigitsFrom(0, d) else DigitsFrom(0, d)
    decreases |spaces|
  {
    hide DigitsFrom, IsDigit;
    var t := sign + (d + rest);
    if spaces == "" {
      DigitsAppend(0, d, rest);
      NumberEnds(DigitsFrom(0, d), rest);
      assert "" + t == t && d[0] in d;
      SignFirst(sign, d + rest);
    } else {
      var s := spaces + t;
      assert s[0] == spaces[0] && s[1..] == spaces[1..] + t;
      AtoiTakes(spaces[1..], sign, d, rest);
    }
  }

  lemma NumberEnds(acc: nat, rest: string)
    requires rest != "" ==> !IsDigit(rest[0])
    ensures DigitsFrom(acc, rest) == acc
  {
  }

  lemma SignFirst(sign: string, s: string)
    requires (sign == "" || sign == "+" || sign == "-") && s != "" && IsDigit(s[0])
    ensures Atoi(sign + s) == if sign == "-" then 0 - DigitsFrom(0, s) else DigitsFrom(0, s)
  {
    hide DigitsFrom;
    if sign == "" {
      assert sign + s == s;
    } else {
      assert (sign + s)[0] == sign[0] && (sign + s)[1..] == s;
    }
  }

  /** The record in full. */
  lemma RecordIs(pre: string, i: Info, post: string)
    requires i.port >= 0
    ensures RecordText(pre, i, post) ==
            pre + ("domain" + "\":\"" + i.hostname + ":" + Decimal(i.port) + "\",\"")
            + ("customerId" + "\":\"" + i.clientId + "\"" + ",\"") + ("imei" + "\":\"" + i.deviceName + "\"" + ",\"")
            + ("productKey" + "\":\"" + i.productKey + "\"" + ",\"")
            + ("deviceSecret" + "\":\"" + i.deviceSecret + "\"" + "}") + post
  {
    hide *;
    PartsAre(i);
    RecordUnfolds(pre, i, post);
    Ends();
    DomainIs(i.hostname, Decimal(i.port));
    EntryIs("customerId", i.clientId, ",\"");
    EntryIs("imei", i.deviceName, ",\"");
    EntryIs("productKey", i.productKey, ",\"");
    EntryIs("deviceSecret", i.deviceSecret, "}");
  }

  lemma Ends()
    ensures [','] + ['"'] == ",\"" && ['}'] + [] == "}"
  {
  }

  lemma DomainIs(host: string, port: string)
    ensures Domain(host, port) == "domain" + "\":\"" + host + ":" + port + "\",\""
  {
  }

  lemma RecordUnfolds(pre: string, i: Info, post: string)
    requires i.port >= 0
    ensures RecordText(pre, i, post) == pre + Part(0, i) + Part(1, i) + Part(2, i) + Part(3, i) + Part(4, i) + post
  {
    UptoUnfolds(pre, i);
    hide Part, Upto;
  }

  lemma EntryIs(key: string, value: string, end: string)
    ensures Entry(key, value, end) == key + "\":\"" + value + "\"" + end
  {
  }

  lemma UptoUnfolds(pre: string, i: Info)
    requires i.port >= 0
    ensures Upto(5, pre, i) == pre + Part(0, i) + Part(1, i) + Part(2, i) + Part(3, i) + Part(4, i)
  {
    hide Part;
    assert Upto(1, pre, i) == pre + Part(0, i);
    assert Upto(3, pre, i) == Upto(1, pre, i) + Part(1, i) + Part(2, i);
  }
}
