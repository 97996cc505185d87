/** The text of a stored configuration, key by key: what storing puts there and what loading takes from it. */
module ConfigFormat {
  import opened Bytes
  import opened ConfigJson

  // ---------- Numbers as text ----------

  lemma DigitIs(d: nat)
    requires d < 16
    ensures Digit(d) == "0123456789abcdef"[d]
  {
  }

  /** A digit of value v is the character standing for it, a letter small or capital; nothing else is a digit. */
  lemma DigitValueIff(c: char, v: nat)
    ensures DigitValue(c) == Some(v) <==> v < 16 && (c == "0123456789abcdef"[v] || c == "0123456789ABCDEF"[v])
  {
  }

  /** A number is read when every character is a digit. */
  lemma {:induction false} DigitsValueSome(s: string)
    ensures DigitsValue(s).Some? <==> s != "" && forall i :: 0 <= i < |s| ==> DigitValue(s[i]).Some?
  {
    hide DigitValue;
    if |s| <= 1 {
    } else {
      DigitsValueSome(s[..|s| - 1]);
      assert forall i :: 0 <= i < |s| - 1 ==> s[i] == s[..|s| - 1][i];
    }
  }

  /** d spells n: small digits, the first no zero unless it stands alone. */
  ghost predicate Spells(d: string, n: nat) {
    && d != "" && (forall i :: 0 <= i < |d| ==> d[i] in "0123456789abcdef") && (|d| > 1 ==> d[0] != '0')
    && DigitsValue(d) == Some(n)
  }

  /** The text of a number: 0x and its digits, a minus in front of a negative one. */
  ghost predicate HexText(s: string, n: int) {
    if n < 0 then |s| > 3 && s[..3] == "-0x" && Spells(s[3..], -n) else |s| > 2 && s[..2] == "0x" && Spells(s[2..], n)
  }

  lemma {:induction false} DigitsSpell(n: nat)
    ensures Spells(Digits(n), n) && (n > 0 ==> Digits(n)[0] != '0')
  {
    DigitsRoundTrip(n);
    hide DigitsValue;
    if n < 16 {
      assert Digit(n) in "0123456789abcdef";
    } else {
      DigitsSpell(n / 16);
      assert Digit(n % 16) in "0123456789abcdef";
      hide Digit;
      assert forall i :: 0 <= i < |Digits(n)| - 1 ==> Digits(n)[i] == Digits(n / 16)[i];
    }
  }

  lemma HexSpelt(n: int)
    ensures HexText(Hex(n), n)
  {
    hide Spells, Digits;
    var m := if n < 0 then -n else n;
    DigitsSpell(m);
    assert ("0x" + Digits(m))[2..] == Digits(m) == ("-0x" + Digits(m))[3..];
  }

  /** What int(_, 16) takes: a sign or none, 0x, 0X or neither, and digits. */
  lemma ParseHexTakes(sign: string, prefix: string, d: string)
    requires (sign == "" || sign == "+" || sign == "-") && (prefix == "" || prefix == "0x" || prefix == "0X")
    requires DigitsValue(d).Some?
    ensures var n: int := DigitsValue(d).value; ParseHex(sign + prefix + d) == Ok(if sign == "-" then -n else n)
  {
    hide *;
    UnprefixedTakes(prefix, d);
    SignTaken(sign, prefix + d);
    assert sign + prefix + d == sign + (prefix + d);
  }

  lemma SignTaken(sign: string, rest: string)
    requires (sign == "" || sign == "+" || sign == "-") && Unprefixed(rest).Some?
    requires rest != "" && rest[0] != '-' && rest[0] != '+'
    ensures var n: int := Unprefixed(rest).value; ParseHex(sign + rest) == Ok(if sign == "-" then -n else n)
  {
    hide Unprefixed;
    var s := sign + rest;
    if sign == "" {
      assert s == rest;
    } else {
      assert s[0] == sign[0] && s[1..] == rest;
    }
  }

  lemma UnprefixedTakes(prefix: string, d: string)
    requires (prefix == "" || prefix == "0x" || prefix == "0X") && DigitsValue(d).Some?
    ensures var body := prefix + d; body != "" && body[0] != '-' && body[0] != '+' && Unprefixed(body) == DigitsValue(d)
  {
    DigitsValueSome(d);
    hide DigitsValue;
    var body := prefix + d;
    assert DigitValue(d[0]).Some? && (|d| >= 2 ==> DigitValue(d[1]).Some?);
    if prefix == "" {
      assert body == d;
    } else {
      assert body[0] == '0' && body[1] == prefix[1] && body[2..] == d;
    }
  }

  /** And it takes nothing else. */
  lemma ParseHexOnly(s: string) returns (sign: string, prefix: string, d: string)
    ensures ParseHex(s).Err? ==> ParseHex(s) == Err(ValueError)
    ensures ParseHex(s).Ok? ==>
              && s == sign + prefix + d && (sign == "" || sign == "+" || sign == "-")
              && (prefix == "" || prefix == "0x" || prefix == "0X") && DigitsValue(d).Some?
  {
    hide DigitsValue;
    var n := if s != "" && (s[0] == '-' || s[0] == '+') then 1 else 0;
    sign := s[..n];
    var body := s[n..];
    var m := if |body| >= 2 && body[0] == '0' && (body[1] == 'x' || body[1] == 'X') then 2 else 0;
    prefix, d := body[..m], body[m..];
    assert n == 0 ==> body == s;
    assert m == 0 ==> d == body;
  }

  // ---------- The stored form ----------

  ghost predicate HasStr(j: Json, key: string, s: string) { j.JObj? && key in j.m && j.m[key] == JStr(s) }

  ghost predicate HasNum(j: Json, key: string, n: int) { j.JObj? && key in j.m && j.m[key] == JNum(n) }

  ghost predicate HasHex(j: Json, key: string, n: int) {
    j.JObj? && key in j.m && j.m[key].JStr? && HexText(j.m[key].s, n)
  }

  /** The object of one NV item. */
  ghost predicate NvStored(j: Json, nc: NvItem) {
    && HasStr(j, "name", nc.name) && HasHex(j, "ID", nc.id) && HasNum(j, "use", nc.use)
    && HasNum(j, "Replace", nc.replace) && HasNum(j, "Continue", nc.cont) && HasNum(j, "backup", nc.backup)
    && j.m.Keys == {"name", "ID", "use", "Replace", "Continue", "backup"}
  }

  /** What the three kinds of files have in common. */
  ghost predicate KindStored(j: Json, kind: string, f: Props) {
    && HasStr(j, "cfgType", kind) && HasStr(j, "type", f.typ) && HasStr(j, "szFileID", f.szFileID)
    && HasStr(j, "description", f.description) && HasNum(j, "dwCanOmitFlag", f.dwCanOmitFlag)
    && HasNum(j, "defaultCheck", f.defaultCheck) && HasNum(j, "forceCheck", f.forceCheck)
  }

  /** The object of one file; a pack file has its type in it although loading never looks at that. */
  ghost predicate FileStored(j: Json, f: Props) {
    match f.cfgType
    case PlainFile =>
      && KindStored(j, "PLAIN_FILE", f) && HasHex(j, "dwAddress", f.dwAddress) && HasHex(j, "fixedSize", f.fixedSize)
      && HasStr(j, "filePath", f.filePath) && HasStr(j, "szFileName", f.szFileName)
      && j.m.Keys == {"cfgType", "type", "szFileID", "description", "dwCanOmitFlag", "defaultCheck", "forceCheck",
                      "dwAddress", "fixedSize", "filePath", "szFileName"}
    case EmptyFile =>
      && KindStored(j, "EMPTY_FILE", f) && HasHex(j, "dwAddress", f.dwAddress) && HasHex(j, "fixedSize", f.fixedSize)
      && j.m.Keys == {"cfgType", "type", "szFileID", "description", "dwCanOmitFlag", "defaultCheck", "forceCheck",
                      "dwAddress", "fixedSize"}
    case PackFile =>
      && KindStored(j, "PACK_FILE", f) && HasStr(j, "filePath", f.filePath) && HasStr(j, "remotePath", f.remotePath)
      && j.m.Keys == {"cfgType", "type", "szFileID", "description", "dwCanOmitFlag", "defaultCheck", "forceCheck",
                      "filePath", "remotePath"}
    case _ => false
  }

  /** The stored object: the ten plain attributes and the two lists. */
  ghost predicate ObjectStored(j: Json, s: Scalars, nvitems: seq<NvItem>, files: seq<Props>) {
    && HasStr(j, "szVersion", s.szVersion) && HasStr(j, "szPrdName", s.szPrdName)
    && HasStr(j, "szPrdVersion", s.szPrdVersion) && HasStr(j, "szPrdAlias", s.szPrdAlias)
    && HasNum(j, "dwMode", s.dwMode) && HasNum(j, "dwFlashType", s.dwFlashType)
    && HasNum(j, "dwIsNvBackup", s.dwIsNvBackup) && HasNum(j, "dwOmaDmProductFlag", s.dwOmaDmProductFlag)
    && HasNum(j, "dwIsOmaDm", s.dwIsOmaDm) && HasNum(j, "dwIsPreload", s.dwIsPreload)
    && j.m.Keys == {"szVersion", "szPrdName", "szPrdVersion", "szPrdAlias", "dwMode", "dwFlashType", "dwIsNvBackup",
                    "dwOmaDmProductFlag", "dwIsOmaDm", "dwIsPreload", "NVItem", "pacFiles"}
    && ListsStored(j, nvitems, files)
  }

  ghost predicate ListsStored(j: Json, nvitems: seq<NvItem>, files: seq<Props>)
    requires j.JObj?
  {
    && "NVItem" in j.m && j.m["NVItem"].JArr? && "pacFiles" in j.m && j.m["pacFiles"].JArr?
    && |j.m["NVItem"].a| == |nvitems| && |j.m["pacFiles"].a| == |files|
    && (forall i :: 0 <= i < |nvitems| ==> NvStored(j.m["NVItem"].a[i], nvitems[i]))
    && (forall i :: 0 <= i < |files| ==> FileStored(j.m["pacFiles"].a[i], files[i]))
  }

  lemma NvIsStored(nc: NvItem)
    ensures NvStored(NvJson(nc), nc)
  {
    hide Hex, HexText;
    HexSpelt(nc.id);
  }

  lemma PlainIsStored(f: Props)
    requires f.cfgType == PlainFile
    ensures FileStored(FileJson(f), f)
  {
    hide Hex, HexText;
    HexSpelt(f.dwAddress);
    HexSpelt(f.fixedSize);
  }

  lemma EmptyIsStored(f: Props)
    requires f.cfgType == EmptyFile
    ensures FileStored(FileJson(f), f)
  {
    hide Hex, HexText;
    HexSpelt(f.dwAddress);
    HexSpelt(f.fixedSize);
  }

  lemma PackIsStored(f: Props)
    requires f.cfgType == PackFile
    ensures FileStored(FileJson(f), f)
  {
    hide Hex, HexText;
  }

  lemma FileIsStored(f: Props)
    requires f.cfgType != XmlFile && f.cfgType != NoType
    ensures FileStored(FileJson(f), f)
  {
    hide *;
    match f.cfgType
    case PlainFile => PlainIsStored(f);
    case EmptyFile => EmptyIsStored(f);
    case PackFile => PackIsStored(f);
  }

  lemma {:induction false} NvsStored(nvitems: seq<NvItem>)
    ensures |NvJsons(nvitems)| == |nvitems|
    ensures forall i :: 0 <= i < |nvitems| ==> NvStored(NvJsons(nvitems)[i], nvitems[i])
  {
    hide NvJson, NvStored;
    if nvitems == [] {
    } else {
      NvIsStored(nvitems[0]);
      NvsStored(nvitems[1..]);
    }
  }

  lemma {:induction false} FilesStored(files: seq<Props>)
    ensures FileJsons(files).Ok? ==>
              && |FileJsons(files).value| == |WithoutXml(files)|
              && forall i :: 0 <= i < |WithoutXml(files)| ==> FileStored(FileJsons(files).value[i], WithoutXml(files)[i])
  {
    hide FileJson, FileStored;
    if files == [] {
    } else {
      FilesStored(files[1..]);
      if files[0].cfgType != XmlFile && files[0].cfgType != NoType { FileIsStored(files[0]); }
    }
  }

  lemma StoredIs(c: Config)
    ensures Store(c).Err? <==> exists i :: 0 <= i < |c.files| && c.files[i].cfgType == NoType
    ensures Store(c).Err? ==> Store(c) == Err(AttributeError)
    ensures Store(c).Ok? ==> ObjectStored(Store(c).value, c.scalars, c.nvitems, WithoutXml(c.files))
  {
    hide *;
    StoreIs(c);
    FilesRoundTrip(c.files);
    if Store(c).Ok? {
      NvsStored(c.nvitems);
      FilesStored(c.files);
      ObjectIsStored(c.scalars, NvJsons(c.nvitems), FileJsons(c.files).value, c.nvitems, WithoutXml(c.files));
    }
  }

  lemma ObjectIsStored(s: Scalars, nvs: seq<Json>, fs: seq<Json>, nvitems: seq<NvItem>, files: seq<Props>)
    requires |nvs| == |nvitems| && forall i :: 0 <= i < |nvitems| ==> NvStored(nvs[i], nvitems[i])
    requires |fs| == |files| && forall i :: 0 <= i < |files| ==> FileStored(fs[i], files[i])
    ensures ObjectStored(StoredObject(s, nvs, fs), s, nvitems, files)
  {
    hide NvStored, FileStored;
  }

  /** What is stored of a list: all but the XML entries, in order. */
  lemma {:induction false} WithoutXmlAppend(files: seq<Props>, more: seq<Props>)
    ensures WithoutXml(files + more) == WithoutXml(files) + WithoutXml(more)
  {
    if files == [] {
      assert files + more == more;
    } else {
      assert (files + more)[1..] == files[1..] + more;
      WithoutXmlAppend(files[1..], more);
    }
  }

  lemma WithoutXmlOne(f: Props)
    ensures WithoutXml([f]) == if f.cfgType == XmlFile then [] else [f]
  {
    assert WithoutXml([f][1..]) == [];
  }

  // ---------- What loading takes ----------

  predicate IsStr(j: Json, key: string) { j.JObj? && key in j.m && j.m[key].JStr? }

  predicate IsNum(j: Json, key: string) { j.JObj? && key in j.m && j.m[key].JNum? }

  /** The value found under a key, and what is raised without one: KeyError where it is missing, TypeError where it
      is of another kind, ValueError where its text is no number. */
  lemma Found(j: Json, key: string)
    ensures GetStr(j, key) == if IsStr(j, key) then Ok(j.m[key].s) else Err(Absent(j, key))
    ensures GetNum(j, key) == if IsNum(j, key) then Ok(j.m[key].n) else Err(Absent(j, key))
    ensures GetHex(j, key) == if IsStr(j, key) then ParseHex(j.m[key].s) else Err(Absent(j, key))
    ensures GetList(j, key) == if !j.JObj? then Err(TypeError)
                               else if key !in j.m then Ok([])
                               else if j.m[key].JArr? then Ok(j.m[key].a) else Err(TypeError)
  {
    hide ParseHex;
  }

  function Absent(j: Json, key: string): Error { if j.JObj? && key !in j.m then KeyError else TypeError }

  /** The ten plain attributes are loaded from the keys of their own names, all of them needed. */
  lemma ScalarsLoaded(j: Json)
    ensures LoadScalars(j).Ok? <==>
            && GetStr(j, "szVersion").Ok? && GetStr(j, "szPrdName").Ok? && GetStr(j, "szPrdVersion").Ok?
            && GetStr(j, "szPrdAlias").Ok? && GetNum(j, "dwMode").Ok? && GetNum(j, "dwFlashType").Ok?
            && GetNum(j, "dwIsNvBackup").Ok?
            && GetNum(j, "dwOmaDmProductFlag").Ok? && GetNum(j, "dwIsOmaDm").Ok? && GetNum(j, "dwIsPreload").Ok?
    ensures LoadScalars(j).Ok? ==>
              LoadScalars(j).value == Scalars(
                szVersion := GetStr(j, "szVersion").value, szPrdName := GetStr(j, "szPrdName").value,
                szPrdVersion := GetStr(j, "szPrdVersion").value, szPrdAlias := GetStr(j, "szPrdAlias").value,
                dwMode := GetNum(j, "dwMode").value, dwFlashType := GetNum(j, "dwFlashType").value,
                dwIsNvBackup := GetNum(j, "dwIsNvBackup").value,
                dwOmaDmProductFlag := GetNum(j, "dwOmaDmProductFlag").value,
                dwIsOmaDm := GetNum(j, "dwIsOmaDm").value, dwIsPreload := GetNum(j, "dwIsPreload").value)
  {
    hide GetStr, GetNum;
  }

  lemma NvLoaded(j: Json)
    ensures LoadNv(j).Ok? <==>
            && GetStr(j, "name").Ok? && GetHex(j, "ID").Ok? && GetNum(j, "use").Ok? && GetNum(j, "Replace").Ok?
            && GetNum(j, "Continue").Ok? && GetNum(j, "backup").Ok?
    ensures LoadNv(j).Ok? ==>
              LoadNv(j).value == NvItem(
                name := GetStr(j, "name").value, id := GetHex(j, "ID").value, use := GetNum(j, "use").value,
                replace := GetNum(j, "Replace").value, cont := GetNum(j, "Continue").value,
                backup := GetNum(j, "backup").value)
  {
    hide GetStr, GetNum, GetHex, ParseHex;
  }

  predicate IsCommon(j: Json) {
    && GetStr(j, "szFileID").Ok? && GetStr(j, "description").Ok?
    && GetNum(j, "dwCanOmitFlag").Ok? && GetNum(j, "defaultCheck").Ok? && GetNum(j, "forceCheck").Ok?
  }

  lemma PlainLoaded(j: Json)
    requires GetStr(j, "cfgType") == Ok("PLAIN_FILE")
    ensures LoadFile(j).Ok? <==>
            && IsCommon(j) && GetStr(j, "type").Ok? && GetHex(j, "dwAddress").Ok? && GetHex(j, "fixedSize").Ok?
            && GetStr(j, "filePath").Ok? && GetStr(j, "szFileName").Ok?
    ensures LoadFile(j).Ok? ==>
              LoadFile(j).value == Props(
                cfgType := PlainFile, typ := GetStr(j, "type").value, szFileID := GetStr(j, "szFileID").value,
                description := GetStr(j, "description").value, dwFileFlag := 1,
                dwCanOmitFlag := GetNum(j, "dwCanOmitFlag").value,
                defaultCheck := GetNum(j, "defaultCheck").value, forceCheck := GetNum(j, "forceCheck").value,
                dwAddress := GetHex(j, "dwAddress").value, fixedSize := GetHex(j, "fixedSize").value,
                filePath := GetStr(j, "filePath").value, szFileName := GetStr(j, "szFileName").value, remotePath := "")
  {
    hide GetStr, GetNum, GetHex, ParseHex;
  }

  lemma EmptyLoaded(j: Json)
    requires GetStr(j, "cfgType") == Ok("EMPTY_FILE")
    ensures LoadFile(j).Ok? <==>
            IsCommon(j) && GetStr(j, "type").Ok? && GetHex(j, "dwAddress").Ok? && GetHex(j, "fixedSize").Ok?
    ensures LoadFile(j).Ok? ==>
              LoadFile(j).value == Props(
                cfgType := EmptyFile, typ := GetStr(j, "type").value, szFileID := GetStr(j, "szFileID").value,
                description := GetStr(j, "description").value, dwFileFlag := 0,
                dwCanOmitFlag := GetNum(j, "dwCanOmitFlag").value,
                defaultCheck := GetNum(j, "defaultCheck").value, forceCheck := GetNum(j, "forceCheck").value,
                dwAddress := GetHex(j, "dwAddress").value, fixedSize := GetHex(j, "fixedSize").value,
                filePath := "", szFileName := "", remotePath := "")
  {
    hide GetStr, GetNum, GetHex, ParseHex;
  }

  /** The type a pack file is stored with is not read: it is always CODE. */
  lemma PackLoaded(j: Json)
    requires GetStr(j, "cfgType") == Ok("PACK_FILE")
    ensures LoadFile(j).Ok? <==> IsCommon(j) && GetStr(j, "filePath").Ok? && GetStr(j, "remotePath").Ok?
    ensures LoadFile(j).Ok? ==>
              LoadFile(j).value == Props(
                cfgType := PackFile, typ := "CODE", szFileID := GetStr(j, "szFileID").value,
                description := GetStr(j, "description").value, dwFileFlag := 1,
                dwCanOmitFlag := GetNum(j, "dwCanOmitFlag").value,
                defaultCheck := GetNum(j, "defaultCheck").value, forceCheck := GetNum(j, "forceCheck").value,
                dwAddress := 0xFE00_0004, fixedSize := 0, filePath := GetStr(j, "filePath").value,
                szFileName := GetStr(j, "szFileID").value + ".cpio", remotePath := GetStr(j, "remotePath").value)
  {
    hide GetStr, GetNum, GetHex, ParseHex;
  }

  /** An entry must say its kind; one that says another than the three becomes an object with nothing set. */
  lemma OtherLoaded(j: Json)
    ensures LoadFile(j).Ok? ==> GetStr(j, "cfgType").Ok?
    ensures GetStr(j, "cfgType").Ok? && GetStr(j, "cfgType").value !in {"PLAIN_FILE", "EMPTY_FILE", "PACK_FILE"} ==>
              LoadFile(j) == Ok(Props(NoType, "", "", "", 0, 0, 0, 0, 0, 0, "", "", ""))
  {
    hide GetStr, GetNum, GetHex, ParseHex;
  }

  /** Both lists may be missing. */
  lemma ListsMayMiss(j: Json)
    requires LoadScalars(j).Ok? && j.JObj? && "NVItem" !in j.m && "pacFiles" !in j.m
    ensures Load(j) == Ok(Config(LoadScalars(j).value, [], []))
  {
    hide LoadScalars;
    Found(j, "NVItem");
    Found(j, "pacFiles");
    LoadUnfolds(j);
    assert LoadNvs([]) == Ok([]) && LoadFiles([]) == Ok([]);
  }

  /** The lists are loaded entry by entry, the first that fails deciding. */
  lemma {:induction false} EntriesLoaded(js: seq<Json>)
    ensures LoadNvs(js).Ok? ==> forall i :: 0 <= i < |js| ==> LoadNv(js[i]) == Ok(LoadNvs(js).value[i])
    ensures LoadFiles(js).Ok? ==> forall i :: 0 <= i < |js| ==> LoadFile(js[i]) == Ok(LoadFiles(js).value[i])
    ensures LoadNvs(js).Err? ==> exists i :: FirstBad(js, i) && LoadNv(js[i]) == Err(LoadNvs(js).error)
    ensures LoadFiles(js).Err? ==> exists i :: FirstBadFile(js, i) && LoadFile(js[i]) == Err(LoadFiles(js).error)
  {
    hide LoadNv, LoadFile;
    if js == [] {
    } else {
      EntriesLoaded(js[1..]);
      if LoadNv(js[0]).Err? { assert FirstBad(js, 0); }
      if LoadFile(js[0]).Err? { assert FirstBadFile(js, 0); }
      if LoadNv(js[0]).Ok? && LoadNvs(js[1..]).Err? {
        var i :| FirstBad(js[1..], i) && LoadNv(js[1..][i]) == Err(LoadNvs(js[1..]).error);
        assert js[i + 1] == js[1..][i] && forall m :: 0 < m < i + 1 ==> js[m] == js[1..][m - 1];
        assert FirstBad(js, i + 1);
      }
      if LoadFile(js[0]).Ok? && LoadFiles(js[1..]).Err? {
        var i :| FirstBadFile(js[1..], i) && LoadFile(js[1..][i]) == Err(LoadFiles(js[1..]).error);
        assert js[i + 1] == js[1..][i] && forall m :: 0 < m < i + 1 ==> js[m] == js[1..][m - 1];
        assert FirstBadFile(js, i + 1);
      }
    }
  }

  predicate FirstBad(js: seq<Json>, i: int) {
    0 <= i < |js| && LoadNv(js[i]).Err? && forall m :: 0 <= m < i ==> LoadNv(js[m]).Ok?
  }

  predicate FirstBadFile(js: seq<Json>, i: int) {
    0 <= i < |js| && LoadFile(js[i]).Err? && forall m :: 0 <= m < i ==> LoadFile(js[m]).Ok?
  }
}
