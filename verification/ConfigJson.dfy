/** The stored configuration: what store_to_json writes and load_from_json reads. */
module ConfigJson {
  import opened Bytes

  datatype Json = JStr(s: string) | JNum(n: int) | JArr(a: seq<Json>) | JObj(m: map<string, Json>)

  // ---------- hex() and int(_, 16) ----------

  function Digit(d: nat): (c: char)
    requires d < 16
  {
    "0123456789abcdef"[d]
  }

  function Digits(n: nat): (s: string)
    ensures s != ""
  {
    if n < 16 then [Digit(n)] else Digits(n / 16) + [Digit(n % 16)]
  }

  /** hex() */
  function Hex(n: int): string {
    if n < 0 then "-0x" + Digits(-n) else "0x" + Digits(n)
  }

  function DigitValue(c: char): (d: Option<nat>)
    ensures d.Some? ==> d.value < 16
  {
    if '0' <= c <= '9' then Some((c as int) - ('0' as int))
    else if 'a' <= c <= 'f' then Some((c as int) - ('a' as int) + 10)
    else if 'A' <= c <= 'F' then Some((c as int) - ('A' as int) + 10)
    else None
  }

  function DigitsValue(s: string): Option<nat> {
    if s == "" then None
    else
      var last := DigitValue(s[|s| - 1]);
      if last.None? then None
      else if |s| == 1 then last
      else match DigitsValue(s[..|s| - 1])
           case None => None
           case Some(front) => Some(front * 16 + last.value)
  }

  function Unprefixed(s: string): Option<nat> {
    if |s| >= 2 && s[0] == '0' && (s[1] == 'x' || s[1] == 'X') then DigitsValue(s[2..]) else DigitsValue(s)
  }

  /** int(s, 16): an optional sign, an optional 0x, digits; anything else is a ValueError. */
  function ParseHex(s: string): Result<int> {
    var negative := s != "" && s[0] == '-';
    var body := if s != "" && (s[0] == '-' || s[0] == '+') then s[1..] else s;
    match Unprefixed(body)
    case None => Err(ValueError)
    case Some(n) => var v: int := n; Ok(if negative then -v else v)
  }

  lemma {:induction false} DigitsRoundTrip(n: nat)
    ensures DigitsValue(Digits(n)) == Some(n)
  {
    hide *;
    DigitRead(n % 16);
    DigitsAre(n);
    if n < 16 {
      OneDigit(Digit(n));
    } else {
      DigitsRoundTrip(n / 16);
      DigitBehind(Digits(n / 16), Digit(n % 16));
    }
  }

  lemma DigitsAre(n: nat)
    ensures Digits(n) == if n < 16 then [Digit(n)] else Digits(n / 16) + [Digit(n % 16)]
  {
    hide Digit;
  }

  lemma OneDigit(c: char)
    ensures DigitsValue([c]) == DigitValue(c)
  {
    hide DigitValue;
  }

  lemma DigitRead(d: nat)
    requires d < 16
    ensures DigitValue(Digit(d)) == Some(d)
  {
  }

  lemma DigitBehind(s: string, c: char)
    requires s != "" && DigitValue(c).Some? && DigitsValue(s).Some?
    ensures DigitsValue(s + [c]) == Some(DigitsValue(s).value * 16 + DigitValue(c).value)
  {
    hide DigitValue;
    assert (s + [c])[..|s + [c]| - 1] == s;
  }

  /** Every integer survives hex() and int(_, 16), negative ones too. */
  lemma HexRoundTrip(n: int)
    ensures ParseHex(Hex(n)) == Ok(n)
  {
    hide DigitsValue, Digits;
    var m := if n < 0 then -n else n;
    DigitsRoundTrip(m);
    assert ("0x" + Digits(m))[2..] == Digits(m);
    assert ("-0x" + Digits(m))[1..] == "0x" + Digits(m);
  }

  // ---------- The configuration as values ----------

  datatype NvItem = NvItem(name: string, id: int, use: int, replace: int, cont: int, backup: int)

  datatype CfgType = NoType | PlainFile | EmptyFile | XmlFile | PackFile

  /** The attributes of a PacFileConfig, those never assigned left blank. */
  datatype Props = Props(cfgType: CfgType, typ: string, szFileID: string, description: string,
                         dwFileFlag: int, dwCanOmitFlag: int, defaultCheck: int, forceCheck: int,
                         dwAddress: int, fixedSize: int, filePath: string, szFileName: string, remotePath: string)

  const BLANK := Props(NoType, "", "", "", 0, 0, 0, 0, 0, 0, "", "", "")

  const PRE_PACK_FILE_LOGIC_ADDRESS: int := 0xFE00_0004

  /** set_plain_file on a fresh object */
  function PlainProps(typ: string, szFileID: string, description: string, dwCanOmitFlag: int, defaultCheck: int,
                      forceCheck: int, dwAddress: int, fixedSize: int, filePath: string, szFileName: string): Props {
    BLANK.(cfgType := PlainFile, typ := typ, szFileID := szFileID, description := description, dwFileFlag := 1,
           dwCanOmitFlag := dwCanOmitFlag, defaultCheck := defaultCheck, forceCheck := forceCheck,
           dwAddress := dwAddress, fixedSize := fixedSize, filePath := filePath, szFileName := szFileName)
  }

  /** set_empty_file on a fresh object */
  function EmptyProps(typ: string, szFileID: string, description: string, dwCanOmitFlag: int, defaultCheck: int,
                      forceCheck: int, dwAddress: int, fixedSize: int): Props {
    BLANK.(cfgType := EmptyFile, typ := typ, szFileID := szFileID, description := description, dwFileFlag := 0,
           dwCanOmitFlag := dwCanOmitFlag, defaultCheck := defaultCheck, forceCheck := forceCheck,
           dwAddress := dwAddress, fixedSize := fixedSize)
  }

  /** set_pack_file on a fresh object */
  function PackProps(szFileID: string, description: string, dwCanOmitFlag: int, defaultCheck: int, forceCheck: int,
                     filePath: string, remotePath: string): Props {
    BLANK.(cfgType := PackFile, typ := "CODE", szFileID := szFileID, description := description, dwFileFlag := 1,
           dwCanOmitFlag := dwCanOmitFlag, defaultCheck := defaultCheck, forceCheck := forceCheck,
           dwAddress := PRE_PACK_FILE_LOGIC_ADDRESS, filePath := filePath, szFileName := szFileID + ".cpio",
           remotePath := remotePath)
  }

  /** set_xml_file on a fresh object */
  function XmlProps(szPrdName: string): Props {
    BLANK.(cfgType := XmlFile, dwFileFlag := 2, szFileName := szPrdName + ".xml")
  }

  /** Whether the attributes that are not stored, or need not be, have the values their kind gives them. */
  predicate WellSet(f: Props) {
    match f.cfgType
    case PlainFile => f.dwFileFlag == 1 && f.remotePath == ""
    case EmptyFile => f.dwFileFlag == 0 && f.filePath == "" && f.szFileName == "" && f.remotePath == ""
    case PackFile =>
      && f.dwFileFlag == 1 && f.typ == "CODE" && f.szFileName == f.szFileID + ".cpio"
      && f.dwAddress == PRE_PACK_FILE_LOGIC_ADDRESS && f.fixedSize == 0
    case XmlFile => true
    case NoType => false
  }

  datatype Scalars = Scalars(szVersion: string, szPrdName: string, szPrdVersion: string, szPrdAlias: string,
                             dwMode: int, dwFlashType: int, dwIsNvBackup: int, dwOmaDmProductFlag: int,
                             dwIsOmaDm: int, dwIsPreload: int)

  datatype Config = Config(scalars: Scalars, nvitems: seq<NvItem>, files: seq<Props>)

  // ---------- Storing ----------

  function NvJson(nc: NvItem): Json {
    JObj(map["name" := JStr(nc.name), "ID" := JStr(Hex(nc.id)), "use" := JNum(nc.use), "Replace" := JNum(nc.replace),
             "Continue" := JNum(nc.cont), "backup" := JNum(nc.backup)])
  }

  /** The stored form of a file of one of the three kinds. */
  function FileJson(f: Props): Json
    requires f.cfgType != XmlFile && f.cfgType != NoType
  {
    match f.cfgType
    case PlainFile =>
      JObj(map["cfgType" := JStr("PLAIN_FILE"), "type" := JStr(f.typ), "szFileID" := JStr(f.szFileID),
               "description" := JStr(f.description), "dwCanOmitFlag" := JNum(f.dwCanOmitFlag),
               "defaultCheck" := JNum(f.defaultCheck), "forceCheck" := JNum(f.forceCheck),
               "dwAddress" := JStr(Hex(f.dwAddress)), "fixedSize" := JStr(Hex(f.fixedSize)),
               "filePath" := JStr(f.filePath), "szFileName" := JStr(f.szFileName)])
    case EmptyFile =>
      JObj(map["cfgType" := JStr("EMPTY_FILE"), "type" := JStr(f.typ), "szFileID" := JStr(f.szFileID),
               "description" := JStr(f.description), "dwCanOmitFlag" := JNum(f.dwCanOmitFlag),
               "defaultCheck" := JNum(f.defaultCheck), "forceCheck" := JNum(f.forceCheck),
               "dwAddress" := JStr(Hex(f.dwAddress)), "fixedSize" := JStr(Hex(f.fixedSize))])
    case PackFile =>
      JObj(map["cfgType" := JStr("PACK_FILE"), "type" := JStr(f.typ), "szFileID" := JStr(f.szFileID),
               "description" := JStr(f.description), "dwCanOmitFlag" := JNum(f.dwCanOmitFlag),
               "defaultCheck" := JNum(f.defaultCheck), "forceCheck" := JNum(f.forceCheck),
               "filePath" := JStr(f.filePath), "remotePath" := JStr(f.remotePath)])
  }

  function NvJsons(nvitems: seq<NvItem>): seq<Json> {
    if nvitems == [] then [] else [NvJson(nvitems[0])] + NvJsons(nvitems[1..])
  }

  /** The generated XML entries are not stored; a file no setter was called on has no kind to look at. */
  function FileJsons(files: seq<Props>): Result<seq<Json>> {
    if files == [] then Ok([])
    else if files[0].cfgType == NoType then Err(AttributeError)
    else if files[0].cfgType == XmlFile then FileJsons(files[1..])
    else
      var rest :- FileJsons(files[1..]);
      Ok([FileJson(files[0])] + rest)
  }

  /** The files stored so far, continued with what is left to store. */
  function JsonsAfter(done: seq<Json>, files: seq<Props>): Result<seq<Json>> {
    match FileJsons(files)
    case Err(x) => Err(x)
    case Ok(rest) => Ok(done + rest)
  }

  lemma JsonsAfterStep(done: seq<Json>, files: seq<Props>, f: Props, rest: seq<Props>)
    requires files == [f] + rest
    ensures JsonsAfter(done, files) ==
            if f.cfgType == NoType then Err(AttributeError)
            else if f.cfgType == XmlFile then JsonsAfter(done, rest)
            else JsonsAfter(done + [FileJson(f)], rest)
  {
    hide FileJson;
    assert files[1..] == rest;
    if f.cfgType != NoType && f.cfgType != XmlFile && FileJsons(rest).Ok? {
      assert done + ([FileJson(f)] + FileJsons(rest).value) == done + [FileJson(f)] + FileJsons(rest).value;
    }
  }

  lemma JsonsAfterEnds(done: seq<Json>, files: seq<Props>)
    ensures JsonsAfter(done, []) == Ok(done) && JsonsAfter([], files) == FileJsons(files)
  {
    assert done + [] == done;
    hide FileJson;
    if FileJsons(files).Ok? { assert [] + FileJsons(files).value == FileJsons(files).value; }
  }

  function StoredObject(s: Scalars, nvitems: seq<Json>, files: seq<Json>): Json {
    JObj(map["szVersion" := JStr(s.szVersion), "szPrdName" := JStr(s.szPrdName),
             "szPrdVersion" := JStr(s.szPrdVersion), "szPrdAlias" := JStr(s.szPrdAlias),
             "dwMode" := JNum(s.dwMode), "dwFlashType" := JNum(s.dwFlashType),
             "dwIsNvBackup" := JNum(s.dwIsNvBackup), "dwOmaDmProductFlag" := JNum(s.dwOmaDmProductFlag),
             "dwIsOmaDm" := JNum(s.dwIsOmaDm), "dwIsPreload" := JNum(s.dwIsPreload),
             "NVItem" := JArr(nvitems), "pacFiles" := JArr(files)])
  }

  /** store_to_json */
  function Store(c: Config): Result<Json> {
    var files :- FileJsons(c.files);
    Ok(StoredObject(c.scalars, NvJsons(c.nvitems), files))
  }

  // ---------- Loading ----------

  function Get(j: Json, key: string): Result<Json> {
    if !j.JObj? then Err(TypeError) else if key in j.m then Ok(j.m[key]) else Err(KeyError)
  }

  function GetStr(j: Json, key: string): Result<string> {
    var v :- Get(j, key);
    if v.JStr? then Ok(v.s) else Err(TypeError)
  }

  function GetNum(j: Json, key: string): Result<int> {
    var v :- Get(j, key);
    if v.JNum? then Ok(v.n) else Err(TypeError)
  }

  function GetHex(j: Json, key: string): Result<int> {
    var s :- GetStr(j, key);
    ParseHex(s)
  }

  /** cfg.get(key, []) */
  function GetList(j: Json, key: string): Result<seq<Json>> {
    if !j.JObj? then Err(TypeError)
    else if key !in j.m then Ok([])
    else if j.m[key].JArr? then Ok(j.m[key].a) else Err(TypeError)
  }

  function LoadNv(j: Json): Result<NvItem> {
    var name :- GetStr(j, "name");
    var id :- GetHex(j, "ID");
    var use :- GetNum(j, "use");
    var replace :- GetNum(j, "Replace");
    var cont :- GetNum(j, "Continue");
    var backup :- GetNum(j, "backup");
    Ok(NvItem(name, id, use, replace, cont, backup))
  }

  /** A file entry; one of an unknown kind becomes an object no setter was called on. */
  function LoadFile(j: Json): Result<Props> {
    var kind :- GetStr(j, "cfgType");
    if kind != "PLAIN_FILE" && kind != "EMPTY_FILE" && kind != "PACK_FILE" then Ok(BLANK)
    else if kind == "PACK_FILE" then LoadPack(j)
    else
      var typ :- GetStr(j, "type");
      var szFileID :- GetStr(j, "szFileID");
      var description :- GetStr(j, "description");
      var dwCanOmitFlag :- GetNum(j, "dwCanOmitFlag");
      var defaultCheck :- GetNum(j, "defaultCheck");
      var forceCheck :- GetNum(j, "forceCheck");
      var dwAddress :- GetHex(j, "dwAddress");
      var fixedSize :- GetHex(j, "fixedSize");
      if kind == "EMPTY_FILE" then
        Ok(EmptyProps(typ, szFileID, description, dwCanOmitFlag, defaultCheck, forceCheck, dwAddress, fixedSize))
      else
        var filePath :- GetStr(j, "filePath");
        var szFileName :- GetStr(j, "szFileName");
        Ok(PlainProps(typ, szFileID, description, dwCanOmitFlag, defaultCheck, forceCheck, dwAddress, fixedSize,
                      filePath, szFileName))
  }

  /** Loading calls one of the three setters, or none. */
  lemma LoadedIsSet(j: Json)
    ensures LoadFile(j).Ok? ==> LoadFile(j).value == BLANK || (WellSet(LoadFile(j).value) && LoadFile(j).value.cfgType != XmlFile)
  {
  }

  function LoadPack(j: Json): Result<Props> {
    var szFileID :- GetStr(j, "szFileID");
    var description :- GetStr(j, "description");
    var dwCanOmitFlag :- GetNum(j, "dwCanOmitFlag");
    var defaultCheck :- GetNum(j, "defaultCheck");
    var forceCheck :- GetNum(j, "forceCheck");
    var filePath :- GetStr(j, "filePath");
    var remotePath :- GetStr(j, "remotePath");
    Ok(PackProps(szFileID, description, dwCanOmitFlag, defaultCheck, forceCheck, filePath, remotePath))
  }

  function LoadNvs(js: seq<Json>): (r: Result<seq<NvItem>>)
    ensures r.Ok? ==> |r.value| == |js|
  {
    if js == [] then Ok([])
    else
      var x :- LoadNv(js[0]);
      var rest :- LoadNvs(js[1..]);
      Ok([x] + rest)
  }

  function LoadFiles(js: seq<Json>): (r: Result<seq<Props>>)
    ensures r.Ok? ==> |r.value| == |js|
  {
    if js == [] then Ok([])
    else
      var x :- LoadFile(js[0]);
      var rest :- LoadFiles(js[1..]);
      Ok([x] + rest)
  }

  /** The lists loaded so far, continued with what is left to load. */
  function NvsAfter(done: seq<NvItem>, js: seq<Json>): Result<seq<NvItem>> {
    match LoadNvs(js)
    case Err(x) => Err(x)
    case Ok(rest) => Ok(done + rest)
  }

  function FilesAfter(done: seq<Props>, js: seq<Json>): Result<seq<Props>> {
    match LoadFiles(js)
    case Err(x) => Err(x)
    case Ok(rest) => Ok(done + rest)
  }

  lemma NvsAfterStep(done: seq<NvItem>, js: seq<Json>, i: nat)
    requires i < |js|
    ensures NvsAfter(done, js[i..]) == match LoadNv(js[i])
                                       case Err(x) => Err(x)
                                       case Ok(nc) => NvsAfter(done + [nc], js[i + 1..])
  {
    hide LoadNv;
    assert js[i..][1..] == js[i + 1..];
    if LoadNv(js[i]).Ok? && LoadNvs(js[i + 1..]).Ok? {
      var x, rest := LoadNv(js[i]).value, LoadNvs(js[i + 1..]).value;
      assert done + ([x] + rest) == done + [x] + rest;
    }
  }

  lemma FilesAfterStep(done: seq<Props>, js: seq<Json>, i: nat)
    requires i < |js|
    ensures FilesAfter(done, js[i..]) == match LoadFile(js[i])
                                         case Err(x) => Err(x)
                                         case Ok(p) => FilesAfter(done + [p], js[i + 1..])
  {
    hide LoadFile;
    assert js[i..][1..] == js[i + 1..];
    if LoadFile(js[i]).Ok? && LoadFiles(js[i + 1..]).Ok? {
      var x, rest := LoadFile(js[i]).value, LoadFiles(js[i + 1..]).value;
      assert done + ([x] + rest) == done + [x] + rest;
    }
  }

  lemma AfterEnds(nvs: seq<NvItem>, fs: seq<Props>, js: seq<Json>)
    ensures NvsAfter(nvs, js[|js|..]) == Ok(nvs) && FilesAfter(fs, js[|js|..]) == Ok(fs)
    ensures NvsAfter([], js[0..]) == LoadNvs(js) && FilesAfter([], js[0..]) == LoadFiles(js)
  {
    assert js[|js|..] == [] && js[0..] == js;
    assert nvs + [] == nvs && fs + [] == fs;
    hide LoadNv, LoadFile;
    if LoadNvs(js).Ok? { assert [] + LoadNvs(js).value == LoadNvs(js).value; }
    if LoadFiles(js).Ok? { assert [] + LoadFiles(js).value == LoadFiles(js).value; }
  }

  function LoadScalars(j: Json): Result<Scalars> {
    var szVersion :- GetStr(j, "szVersion");
    var szPrdName :- GetStr(j, "szPrdName");
    var szPrdVersion :- GetStr(j, "szPrdVersion");
    var szPrdAlias :- GetStr(j, "szPrdAlias");
    var dwMode :- GetNum(j, "dwMode");
    var dwFlashType :- GetNum(j, "dwFlashType");
    var dwIsNvBackup :- GetNum(j, "dwIsNvBackup");
    var dwOmaDmProductFlag :- GetNum(j, "dwOmaDmProductFlag");
    var dwIsOmaDm :- GetNum(j, "dwIsOmaDm");
    var dwIsPreload :- GetNum(j, "dwIsPreload");
    Ok(Scalars(szVersion, szPrdName, szPrdVersion, szPrdAlias, dwMode, dwFlashType, dwIsNvBackup,
               dwOmaDmProductFlag, dwIsOmaDm, dwIsPreload))
  }

  /** load_from_json into a fresh object */
  function Load(j: Json): Result<Config> {
    var scalars :- LoadScalars(j);
    var nvList :- GetList(j, "NVItem");
    var nvitems :- LoadNvs(nvList);
    var fileList :- GetList(j, "pacFiles");
    var files :- LoadFiles(fileList);
    Ok(Config(scalars, nvitems, files))
  }

  lemma LoadUnfolds(j: Json)
    ensures Load(j) ==
            if LoadScalars(j).Err? then Err(LoadScalars(j).error)
            else if GetList(j, "NVItem").Err? then Err(GetList(j, "NVItem").error)
            else if LoadNvs(GetList(j, "NVItem").value).Err? then Err(LoadNvs(GetList(j, "NVItem").value).error)
            else if GetList(j, "pacFiles").Err? then Err(GetList(j, "pacFiles").error)
            else if LoadFiles(GetList(j, "pacFiles").value).Err? then Err(LoadFiles(GetList(j, "pacFiles").value).error)
            else Ok(Config(LoadScalars(j).value, LoadNvs(GetList(j, "NVItem").value).value,
                           LoadFiles(GetList(j, "pacFiles").value).value))
  {
    hide LoadScalars, LoadNvs, LoadFiles, GetList;
  }

  // ---------- Round trip ----------

  function WithoutXml(files: seq<Props>): seq<Props> {
    if files == [] then []
    else if files[0].cfgType == XmlFile then WithoutXml(files[1..])
    else [files[0]] + WithoutXml(files[1..])
  }

  lemma NvRoundTrip(nc: NvItem)
    ensures LoadNv(NvJson(nc)) == Ok(nc)
  {
    hide Hex, ParseHex;
    HexRoundTrip(nc.id);
  }

  lemma PlainRoundTrip(f: Props)
    requires f.cfgType == PlainFile
    ensures LoadFile(FileJson(f)) == Ok(PlainProps(f.typ, f.szFileID, f.description, f.dwCanOmitFlag, f.defaultCheck,
                                                   f.forceCheck, f.dwAddress, f.fixedSize, f.filePath, f.szFileName))
  {
    hide FileJson, GetStr, GetNum, GetHex, PlainProps;
    CommonStored(f);
    PathsStored(f);
  }

  /** What plain and empty files have in common in their stored form. */
  lemma CommonStored(f: Props)
    requires f.cfgType == PlainFile || f.cfgType == EmptyFile
    ensures var j := FileJson(f);
            && GetStr(j, "type") == Ok(f.typ) && GetStr(j, "szFileID") == Ok(f.szFileID)
            && GetStr(j, "description") == Ok(f.description)
            && GetNum(j, "dwCanOmitFlag") == Ok(f.dwCanOmitFlag) && GetNum(j, "defaultCheck") == Ok(f.defaultCheck)
            && GetNum(j, "forceCheck") == Ok(f.forceCheck)
            && GetHex(j, "dwAddress") == Ok(f.dwAddress) && GetHex(j, "fixedSize") == Ok(f.fixedSize)
            && GetStr(j, "cfgType") == Ok(if f.cfgType == PlainFile then "PLAIN_FILE" else "EMPTY_FILE")
  {
    hide Hex, ParseHex;
    HexRoundTrip(f.dwAddress);
    HexRoundTrip(f.fixedSize);
  }

  lemma PathsStored(f: Props)
    requires f.cfgType == PlainFile
    ensures GetStr(FileJson(f), "filePath") == Ok(f.filePath) && GetStr(FileJson(f), "szFileName") == Ok(f.szFileName)
  {
    hide Hex;
  }

  lemma EmptyRoundTrip(f: Props)
    requires f.cfgType == EmptyFile
    ensures LoadFile(FileJson(f)) == Ok(EmptyProps(f.typ, f.szFileID, f.description, f.dwCanOmitFlag, f.defaultCheck,
                                                   f.forceCheck, f.dwAddress, f.fixedSize))
  {
    hide FileJson, GetStr, GetNum, GetHex, EmptyProps;
    CommonStored(f);
  }

  lemma PackRoundTrip(f: Props)
    requires f.cfgType == PackFile
    ensures LoadFile(FileJson(f)) == Ok(PackProps(f.szFileID, f.description, f.dwCanOmitFlag, f.defaultCheck,
                                                  f.forceCheck, f.filePath, f.remotePath))
  {
    hide PackProps;
  }

  /** A file entry comes back exactly when a setter made it. */
  lemma FileRoundTrip(f: Props)
    requires f.cfgType != XmlFile && f.cfgType != NoType
    ensures LoadFile(FileJson(f)) == Ok(f) <==> WellSet(f)
  {
    match f.cfgType
    case PlainFile => PlainRoundTrip(f); hide LoadFile, FileJson;
    case EmptyFile => EmptyRoundTrip(f); hide LoadFile, FileJson;
    case PackFile => PackRoundTrip(f); hide LoadFile, FileJson;
  }

  lemma {:induction false} NvsRoundTrip(nvitems: seq<NvItem>)
    ensures LoadNvs(NvJsons(nvitems)) == Ok(nvitems)
  {
    hide LoadNv, NvJson;
    if nvitems == [] {
    } else {
      NvRoundTrip(nvitems[0]);
      NvsRoundTrip(nvitems[1..]);
      assert NvJsons(nvitems)[1..] == NvJsons(nvitems[1..]);
      assert nvitems == [nvitems[0]] + nvitems[1..];
    }
  }

  lemma {:induction false} FilesRoundTrip(files: seq<Props>)
    ensures FileJsons(files).Err? <==> exists i :: 0 <= i < |files| && files[i].cfgType == NoType
    ensures FileJsons(files).Err? ==> FileJsons(files) == Err(AttributeError)
    ensures FileJsons(files).Ok? ==>
              (LoadFiles(FileJsons(files).value) == Ok(WithoutXml(files)) <==> forall f :: f in files ==> WellSet(f))
  {
    hide LoadFile, FileJson;
    if files == [] {
    } else {
      var f, rest := files[0], files[1..];
      FilesRoundTrip(rest);
      assert files == [f] + rest;
      assert (forall x :: x in files ==> WellSet(x)) <==> WellSet(f) && forall x :: x in rest ==> WellSet(x);
      if i :| 0 <= i < |files| && files[i].cfgType == NoType && i > 0 { assert rest[i - 1].cfgType == NoType; }
      if f.cfgType != XmlFile && FileJsons(files).Ok? {
        FileRoundTrip(f);
        var js, more := FileJsons(files).value, FileJsons(rest).value;
        assert js == [FileJson(f)] + more && js[1..] == more;
        hide WellSet;
        if LoadFiles(js).Ok? {
          assert LoadFiles(js).value[0] == LoadFile(FileJson(f)).value;
          assert LoadFiles(js).value[1..] == LoadFiles(more).value;
          assert WithoutXml(files)[0] == f && WithoutXml(files)[1..] == WithoutXml(rest);
        }
      }
    }
  }

  /** Storing and loading gives the configuration without its XML entries, if and only if every file entry was
      made by a setter. */
  lemma StoreLoad(c: Config)
    ensures Store(c).Err? <==> exists i :: 0 <= i < |c.files| && c.files[i].cfgType == NoType
    ensures Store(c).Err? ==> Store(c) == Err(AttributeError)
    ensures Store(c).Ok? ==>
              (Load(Store(c).value) == Ok(c.(files := WithoutXml(c.files))) <==> forall f :: f in c.files ==> WellSet(f))
  {
    FilesRoundTrip(c.files);
    StoreIs(c);
    if Store(c).Ok? {
      ScalarsRoundTrip(c.scalars, NvJsons(c.nvitems), FileJsons(c.files).value);
      NvsRoundTrip(c.nvitems);
      LoadUnfolds(Store(c).value);
    }
    hide Store, Load, LoadNvs, LoadFiles, NvJsons, FileJsons, LoadScalars, GetList, WithoutXml, WellSet;
  }

  lemma StoreIs(c: Config)
    ensures Store(c) == match FileJsons(c.files)
                        case Err(e) => Err(e)
                        case Ok(files) => Ok(StoredObject(c.scalars, NvJsons(c.nvitems), files))
  {
    hide StoredObject, FileJsons, NvJsons;
  }

  lemma ScalarsRoundTrip(s: Scalars, nvs: seq<Json>, fs: seq<Json>)
    ensures LoadScalars(StoredObject(s, nvs, fs)) == Ok(s)
    ensures GetList(StoredObject(s, nvs, fs), "NVItem") == Ok(nvs)
    ensures GetList(StoredObject(s, nvs, fs), "pacFiles") == Ok(fs)
  {
    hide StoredObject, GetStr, GetNum, GetList;
    StringsStored(s, nvs, fs);
    NumbersStored(s, nvs, fs);
  }

  lemma StringsStored(s: Scalars, nvs: seq<Json>, fs: seq<Json>)
    ensures var j := StoredObject(s, nvs, fs);
            && GetStr(j, "szVersion") == Ok(s.szVersion) && GetStr(j, "szPrdName") == Ok(s.szPrdName)
            && GetStr(j, "szPrdVersion") == Ok(s.szPrdVersion) && GetStr(j, "szPrdAlias") == Ok(s.szPrdAlias)
            && GetList(j, "NVItem") == Ok(nvs) && GetList(j, "pacFiles") == Ok(fs)
  {
  }

  lemma NumbersStored(s: Scalars, nvs: seq<Json>, fs: seq<Json>)
    ensures var j := StoredObject(s, nvs, fs);
            && GetNum(j, "dwMode") == Ok(s.dwMode) && GetNum(j, "dwFlashType") == Ok(s.dwFlashType)
            && GetNum(j, "dwIsNvBackup") == Ok(s.dwIsNvBackup)
            && GetNum(j, "dwOmaDmProductFlag") == Ok(s.dwOmaDmProductFlag)
            && GetNum(j, "dwIsOmaDm") == Ok(s.dwIsOmaDm) && GetNum(j, "dwIsPreload") == Ok(s.dwIsPreload)
  {
  }
}
