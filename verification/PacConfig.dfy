/** The configuration objects: pac files with their cached content, and the package itself. */
module PacConfig {
  import opened Bytes
  import opened Disk
  import opened Paths
  import opened Crc16
  import opened Struct
  import opened Text
  import opened PacImage
  import opened PacReader
  import opened ConfigJson
  import opened ConfigFormat
  import C = CpioConfig

  /** A pac file's configuration. Its plain attributes are one record, those no setter has assigned left blank;
      the prepared content and the cpio configuration are fields of their own. */
  class PacFileConfig {
    var attrs: Props
    var content: Option<bytes>
    var cpioConfig: C.CpioConfig?

    constructor ()
      ensures attrs == BLANK && content == None && cpioConfig == null
    {
      attrs := BLANK;
      content := None;
      cpioConfig := null;
    }

    /** The attributes that reach the file header. */
    function Entry(): FileEntry
      reads this`attrs
    {
      FileEntry(attrs.szFileID, attrs.szFileName, attrs.dwFileFlag, attrs.defaultCheck, attrs.dwCanOmitFlag,
                attrs.dwAddress)
    }

    ghost predicate Valid()
      reads this`attrs, this`cpioConfig
    {
      attrs.cfgType == PackFile ==> cpioConfig != null
    }

    method SetPlainFile(typ: string, szFileID: string, description: string, dwCanOmitFlag: int, defaultCheck: int,
                        forceCheck: int, dwAddress: int, fixedSize: int, filePath: string, szFileName: string)
      modifies this`attrs
      ensures attrs == Props(cfgType := PlainFile, typ := typ, szFileID := szFileID, description := description,
                             dwFileFlag := 1, dwCanOmitFlag := dwCanOmitFlag, defaultCheck := defaultCheck,
                             forceCheck := forceCheck, dwAddress := dwAddress, fixedSize := fixedSize,
                             filePath := filePath, szFileName := szFileName, remotePath := old(attrs.remotePath))
      ensures attrs == PlainProps(typ, szFileID, description, dwCanOmitFlag, defaultCheck, forceCheck, dwAddress,
                                  fixedSize, filePath, szFileName).(remotePath := old(attrs.remotePath))
      ensures old(attrs) == BLANK ==> WellSet(attrs)
    {
      attrs := attrs.(cfgType := PlainFile, typ := typ, szFileID := szFileID, description := description);
      attrs := attrs.(dwFileFlag := 1, dwCanOmitFlag := dwCanOmitFlag);
      attrs := attrs.(defaultCheck := defaultCheck, forceCheck := forceCheck);
      attrs := attrs.(dwAddress := dwAddress, fixedSize := fixedSize, filePath := filePath, szFileName := szFileName);
    }

    method SetEmptyFile(typ: string, szFileID: string, description: string, dwCanOmitFlag: int, defaultCheck: int,
                        forceCheck: int, dwAddress: int, fixedSize: int)
      modifies this`attrs
      ensures attrs == Props(cfgType := EmptyFile, typ := typ, szFileID := szFileID, description := description,
                             dwFileFlag := 0, dwCanOmitFlag := dwCanOmitFlag, defaultCheck := defaultCheck,
                             forceCheck := forceCheck, dwAddress := dwAddress, fixedSize := fixedSize,
                             filePath := old(attrs.filePath), szFileName := "", remotePath := old(attrs.remotePath))
      ensures attrs == EmptyProps(typ, szFileID, description, dwCanOmitFlag, defaultCheck, forceCheck, dwAddress,
                                  fixedSize).(filePath := old(attrs.filePath), remotePath := old(attrs.remotePath))
      ensures old(attrs) == BLANK ==> WellSet(attrs)
    {
      attrs := attrs.(cfgType := EmptyFile, typ := typ, szFileID := szFileID, description := description);
      attrs := attrs.(dwFileFlag := 0, dwCanOmitFlag := dwCanOmitFlag);
      attrs := attrs.(defaultCheck := defaultCheck, forceCheck := forceCheck);
      attrs := attrs.(dwAddress := dwAddress, fixedSize := fixedSize, szFileName := "");
    }

    /** The generated XML, its content already there. */
    method SetXmlFile(szPrdName: string, xmlData: bytes)
      modifies this`attrs, this`content
      ensures old(attrs) == BLANK ==> attrs == XmlProps(szPrdName)
      ensures attrs == old(attrs).(cfgType := XmlFile, szFileID := "", szFileName := szPrdName + ".xml", dwFileFlag := 2,
                                   defaultCheck := 0, dwCanOmitFlag := 0, dwAddress := 0)
      ensures content == Some(xmlData)
    {
      attrs := attrs.(cfgType := XmlFile, szFileID := "", szFileName := szPrdName + ".xml", dwFileFlag := 2);
      attrs := attrs.(defaultCheck := 0, dwCanOmitFlag := 0, dwAddress := 0);
      content := Some(xmlData);
    }

    /** A file or directory to pack: the tree at filePath is walked now, its files are read later. */
    method SetPackFile(szFileID: string, description: string, dwCanOmitFlag: int, defaultCheck: int, forceCheck: int,
                       filePath: string, remotePath: string, disk: Disk)
      requires Coherent(disk)
      modifies this`attrs, this`cpioConfig
      ensures attrs == Props(cfgType := PackFile, typ := "CODE", szFileID := szFileID, description := description,
                             dwFileFlag := 1, dwCanOmitFlag := dwCanOmitFlag, defaultCheck := defaultCheck,
                             forceCheck := forceCheck, dwAddress := 0xFE00_0004, fixedSize := 0,
                             filePath := filePath, szFileName := szFileID + ".cpio", remotePath := remotePath)
      ensures attrs == PackProps(szFileID, description, dwCanOmitFlag, defaultCheck, forceCheck, filePath, remotePath)
      ensures WellSet(attrs)
      ensures cpioConfig != null && fresh(cpioConfig)
      ensures cpioConfig.items == Walk(disk(NormLocal(filePath)), NormLocal(filePath), NormRemote(remotePath))
    {
      attrs := attrs.(cfgType := PackFile, typ := "CODE", szFileID := szFileID, description := description);
      attrs := attrs.(dwFileFlag := 1, dwCanOmitFlag := dwCanOmitFlag);
      attrs := attrs.(defaultCheck := defaultCheck, forceCheck := forceCheck);
      attrs := attrs.(dwAddress := PRE_PACK_FILE_LOGIC_ADDRESS, fixedSize := 0, filePath := filePath);
      attrs := attrs.(szFileName := szFileID + ".cpio", remotePath := remotePath);
      assert WellSet(attrs);
      hide *;
      cpioConfig := new C.CpioConfig();
      cpioConfig.AddPath(disk, filePath, remotePath);
      OverNothing(Walk(disk(NormLocal(filePath)), NormLocal(filePath), NormRemote(remotePath)));
    }

    /** What the header needs: the cached content, or what the disk has now. There is none to prepare for an XML
        entry, whose size then is that of None. */
    ghost function Resolve(disk: Disk): Result<bytes>
      requires Valid()
      reads this, cpioConfig
    {
      if content.Some? then Ok(content.value)
      else
        match attrs.cfgType
        case PlainFile => if disk(attrs.filePath).File? then Ok(disk(attrs.filePath).data) else Err(OsError)
        case EmptyFile => Ok([])
        case PackFile => C.Archive(cpioConfig.items, disk)
        case XmlFile => Err(TypeError)
        case NoType => Err(AttributeError)
    }

    /** _prepare_content: a plain file's bytes, nothing for an empty file, the archive of a pack file; nothing is
        done for an XML entry, and an object no setter was called on has no kind to look at. */
    method PrepareContent(disk: Disk) returns (e: Option<Error>)
      requires Valid() && content == None
      modifies this`content
      ensures attrs.cfgType == PlainFile && disk(attrs.filePath).File? ==>
                e == None && content == Some(disk(attrs.filePath).data)
      ensures attrs.cfgType == PlainFile && !disk(attrs.filePath).File? ==> e == Some(OsError) && content == None
      ensures attrs.cfgType == EmptyFile ==> e == None && content == Some([])
      ensures attrs.cfgType == PackFile && C.Archive(cpioConfig.items, disk).Ok? ==>
                e == None && content == Some(C.Archive(cpioConfig.items, disk).value)
      ensures attrs.cfgType == PackFile && C.Archive(cpioConfig.items, disk).Err? ==>
                e == Some(C.Archive(cpioConfig.items, disk).error) && content == None
      ensures attrs.cfgType == NoType ==> e == Some(AttributeError) && content == None
      ensures attrs.cfgType == XmlFile ==> e == None && content == None
      ensures attrs.cfgType != XmlFile ==>
                match old(Resolve(disk))
                case Err(error) => e == Some(error) && content == None
                case Ok(c) => e == None && content == Some(c)
    {
      match attrs.cfgType {
        case PlainFile =>
          if disk(attrs.filePath).File? {
            content := Some(disk(attrs.filePath).data);
          } else {
            return Some(OsError);
          }
        case EmptyFile =>
          content := Some([]);
        case PackFile =>
          var data := cpioConfig.GenData(disk);
          if data.Err? {
            return Some(data.error);
          }
          content := Some(data.value);
        case XmlFile =>
        case NoType =>
          return Some(AttributeError);
      }
      e := None;
    }

    /** _file_size */
    method FileSize(disk: Disk) returns (r: Result<nat>)
      requires Valid()
      modifies this`content
      ensures match old(Resolve(disk))
              case Err(e) => r == Err(e) && content == old(content)
              case Ok(c) => r == Ok(|c|) && content == Some(c)
    {
      if content == None {
        var e := PrepareContent(disk);
        if e.Some? {
          return Err(e.value);
        }
      }
      r := if content.Some? then Ok(|content.value|) else Err(TypeError);
    }

    /** file_data: read once, then always the same bytes; None for an XML entry without content. */
    method FileData(disk: Disk) returns (r: Result<Option<bytes>>)
      requires Valid()
      modifies this`content
      ensures match old(Resolve(disk))
              case Err(e) => content == old(content) && r == if attrs.cfgType == XmlFile then Ok(None) else Err(e)
              case Ok(c) => r == Ok(Some(c)) && content == Some(c) && forall later :: Resolve(later) == Ok(c)
    {
      if content == None {
        var e := PrepareContent(disk);
        if e.Some? {
          return Err(e.value);
        }
      }
      r := Ok(content);
    }

    /** file_header: the size it states is that of the content cached here. */
    method GetFileHeader(disk: Disk, offset: int) returns (r: Result<bytes>)
      requires Valid()
      modifies this`content
      ensures match old(Resolve(disk))
              case Err(e) => r == Err(e) && content == old(content)
              case Ok(c) => r == FileHeader(old(Entry()), |c|, offset) && content == Some(c)
    {
      var size := FileSize(disk);
      if size.Err? {
        return Err(size.error);
      }
      r := FileHeader(Entry(), size.value, offset);
    }
  }

  /** The attributes of a list of files. */
  function AttrsOf(files: seq<PacFileConfig>): (ps: seq<Props>)
    reads files
    ensures |ps| == |files| && forall i :: 0 <= i < |files| ==> ps[i] == files[i].attrs
  {
    if files == [] then [] else [files[0].attrs] + AttrsOf(files[1..])
  }

  /** The objects the files' contents depend on. */
  ghost function CpiosOf(files: seq<PacFileConfig>): set<object>
    reads files
  {
    set f | f in files && f.cpioConfig != null :: f.cpioConfig as object
  }

  ghost predicate AllValid(files: seq<PacFileConfig>)
    reads (set f | f in files)`attrs, (set f | f in files)`cpioConfig
  {
    && (forall f :: f in files ==> f.Valid())
    && (forall i, j :: 0 <= i < j < |files| ==> files[i] != files[j])
  }

  /** ins is what pac_gen meets when the header of file k is made at time 2k: its entry, and its content as it is
      read then unless it is cached. */
  ghost predicate Meets(files: seq<PacFileConfig>, env: nat -> Disk, ins: seq<FileIn>)
    requires forall f :: f in files ==> f.Valid()
    reads files, CpiosOf(files)
  {
    && |ins| == |files|
    && forall k :: 0 <= k < |files| ==> ins[k] == FileIn(files[k].Entry(), files[k].Resolve(env(2 * k)))
  }

  /** A file as load_from_json leaves it. */
  ghost predicate Loaded(f: PacFileConfig, disk: Disk)
    reads f, f.cpioConfig
  {
    && f.Valid() && f.content == None
    && (f.attrs.cfgType == PackFile ==>
          f.cpioConfig.items == Walk(disk(NormLocal(f.attrs.filePath)), NormLocal(f.attrs.filePath), NormRemote(f.attrs.remotePath)))
  }

  /** One entry of pacFiles: a new object, and the setter its kind asks for. */
  method LoadOne(j: Json, disk: Disk) returns (f: PacFileConfig, e: Option<Error>)
    requires Coherent(disk)
    ensures fresh(f) && (f.cpioConfig != null ==> fresh(f.cpioConfig))
    ensures match LoadFile(j)
            case Err(error) => e == Some(error)
            case Ok(p) => e == None && f.attrs == p && Loaded(f, disk)
  {
    f := new PacFileConfig();
    var p := LoadFile(j);
    if p.Err? {
      return f, Some(p.error);
    }
    LoadedIsSet(j);
    hide LoadFile, Walk, NormLocal, NormRemote;
    var a := p.value;
    match a.cfgType {
      case PlainFile =>
        f.SetPlainFile(a.typ, a.szFileID, a.description, a.dwCanOmitFlag, a.defaultCheck, a.forceCheck, a.dwAddress,
                       a.fixedSize, a.filePath, a.szFileName);
      case EmptyFile =>
        f.SetEmptyFile(a.typ, a.szFileID, a.description, a.dwCanOmitFlag, a.defaultCheck, a.forceCheck, a.dwAddress,
                       a.fixedSize);
      case PackFile =>
        f.SetPackFile(a.szFileID, a.description, a.dwCanOmitFlag, a.defaultCheck, a.forceCheck, a.filePath,
                      a.remotePath, disk);
      case _ =>
    }
    e := None;
  }

  lemma NvJsonsFrom(nvs: seq<NvItem>, i: nat)
    requires i <= |nvs|
    ensures nvs[0..] == nvs
    ensures NvJsons(nvs[i..]) == if i == |nvs| then [] else [NvJson(nvs[i])] + NvJsons(nvs[i + 1..])
  {
    hide NvJson;
    if i < |nvs| { assert nvs[i..][1..] == nvs[i + 1..]; }
  }

  lemma AttrsFrom(files: seq<PacFileConfig>, i: nat)
    requires i <= |files|
    ensures files[0..] == files && (i == |files| ==> AttrsOf(files[i..]) == [])
    ensures i < |files| ==> AttrsOf(files[i..]) == [files[i].attrs] + AttrsOf(files[i + 1..])
  {
    if i < |files| { assert files[i..][1..] == files[i + 1..]; }
  }

  class PacConfig {
    var scalars: Scalars
    var dwNandStrategy: int
    var dwNandPageType: int
    var nvitems: seq<NvItem>
    var files: seq<PacFileConfig>

    constructor ()
      ensures dwNandStrategy == 1 && dwNandPageType == 0 && nvitems == [] && files == []
    {
      scalars := Scalars("", "", "", "", 0, 0, 0, 0, 0, 0);
      dwNandStrategy, dwNandPageType := 1, 0;
      nvitems, files := [], [];
    }

    function Params(): PacParams
      reads this`scalars, this`dwNandStrategy, this`dwNandPageType
    {
      PacParams(scalars.szVersion, scalars.szPrdName, scalars.szPrdVersion, scalars.szPrdAlias, scalars.dwMode,
                scalars.dwFlashType, dwNandStrategy, scalars.dwIsNvBackup, dwNandPageType,
                scalars.dwOmaDmProductFlag, scalars.dwIsOmaDm, scalars.dwIsPreload)
    }

    method AddNvitem(name: string, id: int, use: int, replace: int, cont: int, backup: int)
      modifies this
      ensures nvitems == old(nvitems) + [NvItem(name, id, use, replace, cont, backup)]
      ensures scalars == old(scalars).(dwIsNvBackup := 1) && files == old(files)
      ensures dwNandStrategy == old(dwNandStrategy) && dwNandPageType == old(dwNandPageType)
    {
      nvitems := nvitems + [NvItem(name, id, use, replace, cont, backup)];
      scalars := scalars.(dwIsNvBackup := 1);
    }

    /** store_to_json: the two loops build the lists of the stored object. Nothing is stored when a file is of no
        kind, as one loaded with an unknown kind is. */
    method StoreToJson() returns (r: Result<Json>)
      ensures (exists k :: 0 <= k < |files| && files[k].attrs.cfgType == NoType) ==> r == Err(AttributeError)
      ensures (forall k :: 0 <= k < |files| ==> files[k].attrs.cfgType != NoType) ==>
                r.Ok? && ObjectStored(r.value, scalars, nvitems, WithoutXml(AttrsOf(files)))
      ensures r == Store(Config(scalars, nvitems, AttrsOf(files)))
    {
      hide *;
      var nvs: seq<Json> := [];
      NvJsonsFrom(nvitems, 0);
      for i := 0 to |nvitems|
        invariant nvs + NvJsons(nvitems[i..]) == NvJsons(nvitems)
      {
        NvJsonsFrom(nvitems, i);
        Regroup(nvs, [NvJson(nvitems[i])], NvJsons(nvitems[i + 1..]));
        nvs := nvs + [NvJson(nvitems[i])];
      }
      NvJsonsFrom(nvitems, |nvitems|);
      assert nvs + [] == nvs;

      ghost var c := Config(scalars, nvitems, AttrsOf(files));
      StoreIs(c);
      var fs: seq<Json> := [];
      AttrsFrom(files, 0);
      JsonsAfterEnds([], AttrsOf(files));
      for i := 0 to |files|
        invariant JsonsAfter(fs, AttrsOf(files[i..])) == FileJsons(AttrsOf(files))
      {
        AttrsFrom(files, i);
        JsonsAfterStep(fs, AttrsOf(files[i..]), files[i].attrs, AttrsOf(files[i + 1..]));
        if files[i].attrs.cfgType == NoType {
          StoredIs(c);
          return Err(AttributeError);
        }
        if files[i].attrs.cfgType != XmlFile {
          fs := fs + [FileJson(files[i].attrs)];
        }
      }
      AttrsFrom(files, |files|);
      JsonsAfterEnds(fs, []);
      StoredIs(c);
      r := Ok(StoredObject(scalars, nvs, fs));
    }

    /** load_from_json: what the stored object says is added to what is there. */
    method LoadFromJson(j: Json, disk: Disk) returns (e: Option<Error>)
      requires Coherent(disk)
      modifies this
      ensures old(nvitems) <= nvitems && old(files) <= files
      ensures match Load(j)
              case Err(error) => e == Some(error)
              case Ok(c) =>
                && e == None && scalars == c.scalars
                && nvitems == old(nvitems) + c.nvitems
                && |files| == |old(files)| + |c.files| && files[..|old(files)|] == old(files)
                && (forall k :: |old(files)| <= k < |files| ==> fresh(files[k]))
                && (forall k :: |old(files)| <= k < |files| ==> files[k].attrs == c.files[k - |old(files)|])
                && (forall k :: |old(files)| <= k < |files| ==> Loaded(files[k], disk))
                && (forall i, k :: |old(files)| <= i < k < |files| ==> files[i] != files[k])
    {
      hide *;
      var head := LoadScalars(j);
      LoadUnfolds(j);
      if head.Err? { return Some(head.error); }
      scalars := head.value;

      var nvList := GetList(j, "NVItem");
      if nvList.Err? { return Some(nvList.error); }
      var js := nvList.value;
      ghost var added: seq<NvItem> := [];
      AfterEnds([], [], js);
      for i := 0 to |js|
        invariant files == old(files) && scalars == head.value && nvitems == old(nvitems) + added
        invariant NvsAfter(added, js[i..]) == LoadNvs(js)
      {
        var nc := LoadNv(js[i]);
        NvsAfterStep(added, js, i);
        if nc.Err? { return Some(nc.error); }
        nvitems := nvitems + [nc.value];
        added := added + [nc.value];
      }
      AfterEnds(added, [], js);

      var fileList := GetList(j, "pacFiles");
      if fileList.Err? { return Some(fileList.error); }
      var fs := fileList.value;
      ghost var n, done: seq<Props> := |files|, [];
      AfterEnds([], [], fs);
      for i := 0 to |fs|
        invariant scalars == head.value && nvitems == old(nvitems) + added
        invariant |files| == n + i && files[..n] == old(files) && |done| == i
        invariant forall k :: n <= k < |files| ==> fresh(files[k])
        invariant forall k :: n <= k < |files| ==> files[k].attrs == done[k - n]
        invariant forall k :: n <= k < |files| ==> Loaded(files[k], disk)
        invariant forall k, m :: n <= k < m < |files| ==> files[k] != files[m]
        invariant FilesAfter(done, fs[i..]) == LoadFiles(fs)
      {
        var fc, error := LoadOne(fs[i], disk);
        FilesAfterStep(done, fs, i);
        if error.Some? { return error; }
        files := files + [fc];
        done := done + [fc.attrs];
      }
      AfterEnds([], done, fs);
      e := None;
    }

    /** One turn of pac_gen's loop: the header at time 2i, then the data at time 2i + 1, which is what the header
        was made for. */
    static method Step(f: PacFileConfig, env: nat -> Disk, i: nat, offset: int) returns (r: Result<(bytes, bytes)>)
      requires f.Valid()
      modifies f`content
      ensures f.Valid()
      ensures match old(f.Resolve(env(2 * i)))
              case Err(e) => r == Err(e) && f.content == old(f.content)
              case Ok(c) =>
                && f.content == Some(c)
                && r == match FileHeader(old(f.Entry()), |c|, offset)
                        case Err(e) => Err(e)
                        case Ok(header) => Ok((header, c))
    {
      hide FileHeader;
      var header := f.GetFileHeader(env(2 * i), offset);
      if header.Err? {
        return Err(header.error);
      }
      var data := f.FileData(env(2 * i + 1));
      r := Ok((header.value, data.value.value));
    }

    /** The loop over all files, the offset moving on. Contents are cached up to the file at which it fails, that
        file's too if only its header cannot be made. */
    method Collect(env: nat -> Disk, start: nat, ghost ins: seq<FileIn>)
      returns (r: Result<(seq<bytes>, seq<bytes>, nat)>)
      requires AllValid(files) && Meets(files, env, ins)
      modifies (set f | f in files)`content
      ensures match Headers(ins, start)
              case Err(e) => r == Err(e)
              case Ok(headers) =>
                AllThere(ins) && r == Ok((headers, Contents(ins), start + |Flatten(Contents(ins))|))
      ensures |ins| == |files|
      ensures forall k :: 0 <= k < |files| ==>
                files[k].content == if k < Handled(ins, start) then Some(ins[k].content.value) else old(files[k].content)
    {
      hide *;
      var offset := start;
      var headers: seq<bytes>, datas: seq<bytes> := [], [];
      FilesMet(files, env, ins);
      HeadersAfterEnds([], ins, start);
      HandledEnds(ins, start);
      FlattenNone();
      for i := 0 to |files|
        invariant forall k :: i <= k < |files| ==> files[k].Valid() && ins[k] == FileIn(files[k].Entry(), files[k].Resolve(env(2 * k)))
        invariant |datas| == i && offset == start + |Flatten(datas)|
        invariant forall k :: 0 <= k < i ==> ins[k].content == Ok(datas[k]) && files[k].content == Some(datas[k])
        invariant forall k :: i <= k < |files| ==> files[k].content == old(files[k].content)
        invariant HeadersAfter(headers, ins[i..], offset) == Headers(ins, start)
        invariant i + Handled(ins[i..], offset) == Handled(ins, start)
      {
        HeadersAfterStep(headers, ins, i, offset);
        HandledStep(ins, i, offset);
        var made := Step(files[i], env, i, offset);
        if made.Err? {
          return Err(made.error);
        }
        var (header, data) := made.value;
        FlattenSnoc(datas, data);
        offset := offset + |data|;
        headers, datas := headers + [header], datas + [data];
      }
      HeadersAfterEnds(headers, ins, offset);
      HandledEnds(ins, offset);
      ContentsAre(ins, datas);
      r := Ok((headers, datas, offset));
    }

    /** The second half of pac_gen: header, its CRC, the CRC accumulated over all chunks, and what is written. */
    method WriteImage(headers: seq<bytes>, datas: seq<bytes>, pacSize: int, fileCount: int) returns (r: Result<bytes>)
      ensures r == match MainHeader(Params(), pacSize, fileCount, Flatten(headers) + Flatten(datas))
                   case Err(e) => Err(e)
                   case Ok(header) => Ok(header + (Flatten(headers) + Flatten(datas)))
    {
      hide *;
      MainHeaderUnfolds(Params(), pacSize, fileCount, Flatten(headers) + Flatten(datas));
      var values := PacHeaderValues(Params(), pacSize, fileCount);
      FormatLength();
      var headerNoCrc := Pack(PAC_HEADER[..17], values);
      if headerNoCrc.Err? {
        return headerNoCrc;
      }
      var crc1 := CalcCrc16(0, headerNoCrc.value);
      var crc2 := FeedAll(0, headers);
      crc2 := FeedAll(crc2, datas);
      CrcAppend(0, Flatten(headers), Flatten(datas));
      var header := Pack(PAC_HEADER, values + [Num(crc1 as int), Num(crc2 as int)]);
      if header.Err? {
        return header;
      }
      var out := AppendAll(header.value, headers);
      out := AppendAll(out, datas);
      assert out == header.value + (Flatten(headers) + Flatten(datas));
      r := Ok(out);
    }

    /** The start of pac_gen: the generated XML becomes the last file. */
    method AppendXml(xml: bytes, env: nat -> Disk, ghost ins: seq<FileIn>)
      requires AllValid(files) && Meets(files, env, ins)
      modifies this`files
      ensures |files| == |old(files)| + 1 && files[..|old(files)|] == old(files)
      ensures fresh(files[|old(files)|]) && files[|old(files)|].attrs == XmlProps(scalars.szPrdName)
      ensures files[|old(files)|].content == Some(xml)
      ensures AllValid(files) && Meets(files, env, ins + [FileIn(XmlEntry(scalars.szPrdName), Ok(xml))])
    {
      hide AllValid, PacFileConfig.Resolve, PacFileConfig.Entry, XmlProps, XmlEntry;
      var fc := new PacFileConfig();
      fc.SetXmlFile(scalars.szPrdName, xml);
      AppendMeets(files, fc, env, ins, scalars.szPrdName, xml);
      files := files + [fc];
    }

    /** pac_gen: the XML entry is appended, headers and data are made, and the file is written.
        ins is what the files hold when their headers are made. */
    method PacGen(xml: bytes, env: nat -> Disk, ghost ins: seq<FileIn>) returns (r: Result<bytes>)
      requires AllValid(files) && Meets(files, env, ins)
      modifies this`files, (set f | f in files)`content
      ensures |ins| == |old(files)|
      ensures (exists k :: 0 <= k < |old(files)| && old(files[k].attrs.cfgType) == NoType) ==>
                && r == Err(AttributeError) && files == old(files)
                && forall k :: 0 <= k < |files| ==> files[k].content == old(files[k].content)
      ensures (forall k :: 0 <= k < |old(files)| ==> old(files[k].attrs.cfgType) != NoType) ==>
                var all := ins + [FileIn(XmlEntry(scalars.szPrdName), Ok(xml))];
                && r == Image(Params(), all)
                && |files| == |all| && files[..|ins|] == old(files)
                && fresh(files[|ins|]) && files[|ins|].attrs == XmlProps(scalars.szPrdName)
                && files[|ins|].content == Some(xml)
                && forall k :: 0 <= k < |ins| ==>
                     files[k].content == if k < Handled(all, DataStart(|all|)) then Some(all[k].content.value)
                                         else old(files[k].content)
      ensures forall b: bytes :: r == Ok(b) ==> (old(Carries(b, this, env, xml)) <==> old(TextsFit(this)))
    {
      hide *;
      MeetsLength(files, env, ins);
      AnyUnsetIs(files);
      if AnyUnset(files) {
        return Err(AttributeError);
      }
      PackageCarries(this, env, ins, xml);
      ghost var all := ins + [FileIn(XmlEntry(scalars.szPrdName), Ok(xml))];
      AppendXml(xml, env, ins);
      ImageFromHeaders(Params(), all);
      var parts := Collect(env, DataStart(|files|), all);
      assert forall k :: 0 <= k < |ins| ==> all[k] == ins[k] && files[k] == old(files)[k];
      if parts.Err? {
        return Err(parts.error);
      }
      var (headers, datas, pacSize) := parts.value;
      r := WriteImage(headers, datas, pacSize, |files|);
    }
  }

  predicate AnyUnset(files: seq<PacFileConfig>)
    reads files
  {
    exists f :: f in files && f.attrs.cfgType == NoType
  }

  lemma AnyUnsetIs(files: seq<PacFileConfig>)
    ensures AnyUnset(files) <==> exists k :: 0 <= k < |files| && files[k].attrs.cfgType == NoType
  {
  }

  lemma FormatLength()
    ensures |PAC_HEADER| == 19
  {
  }

  lemma MainHeaderUnfolds(p: PacParams, size: int, count: int, body: bytes)
    ensures |PAC_HEADER| == 19
    ensures var values := PacHeaderValues(p, size, count);
            MainHeader(p, size, count, body) ==
            match Pack(PAC_HEADER[..17], values)
            case Err(e) => Err(e)
            case Ok(h) => Pack(PAC_HEADER, values + [Num(Crc(0, h) as int), Num(Crc(0, body) as int)])
  {
    hide Pack, PacHeaderValues, Crc;
  }

  /** crc2 = calc_crc16(crc2, d) for every d */
  method FeedAll(crc0: bv16, chunks: seq<bytes>) returns (crc: bv16)
    ensures crc == Crc(crc0, Flatten(chunks))
  {
    hide Crc;
    crc := crc0;
    CrcOfNothing(crc0);
    for i := 0 to |chunks|
      invariant crc == Crc(crc0, Flatten(chunks[..i]))
    {
      CrcAppend(crc0, Flatten(chunks[..i]), chunks[i]);
      FlattenSnoc(chunks[..i], chunks[i]);
      assert chunks[..i + 1] == chunks[..i] + [chunks[i]];
      crc := CalcCrc16(crc, chunks[i]);
    }
    assert chunks[..|chunks|] == chunks;
  }

  lemma CrcOfNothing(c: bv16)
    ensures Crc(c, []) == c
  {
  }

  /** fh.write(x) for every x */
  method AppendAll(out0: bytes, chunks: seq<bytes>) returns (out: bytes)
    ensures out == out0 + Flatten(chunks)
  {
    out := out0;
    for i := 0 to |chunks|
      invariant out == out0 + Flatten(chunks[..i])
    {
      FlattenSnoc(chunks[..i], chunks[i]);
      assert chunks[..i + 1] == chunks[..i] + [chunks[i]];
      out := out + chunks[i];
    }
    assert chunks[..|chunks|] == chunks;
  }

  lemma MeetsLength(files: seq<PacFileConfig>, env: nat -> Disk, ins: seq<FileIn>)
    requires AllValid(files) && Meets(files, env, ins)
    ensures |ins| == |files|
  {
  }

  /** The header entry of the generated XML. */
  function XmlEntry(szPrdName: string): FileEntry {
    FileEntry("", szPrdName + ".xml", 2, 0, 0, 0)
  }

  /** Whatever the files and the disk are, pac_gen meets something. */
  lemma SomethingMet(files: seq<PacFileConfig>, env: nat -> Disk) returns (ins: seq<FileIn>)
    requires AllValid(files)
    ensures Meets(files, env, ins)
  {
    hide PacFileConfig.Resolve, PacFileConfig.Entry;
    ins := MetUpto(files, env, |files|);
  }

  lemma {:induction false} MetUpto(files: seq<PacFileConfig>, env: nat -> Disk, n: nat) returns (ins: seq<FileIn>)
    requires AllValid(files) && n <= |files|
    ensures |ins| == n && forall k :: 0 <= k < n ==> ins[k] == FileIn(files[k].Entry(), files[k].Resolve(env(2 * k)))
  {
    hide PacFileConfig.Resolve, PacFileConfig.Entry;
    if n == 0 {
      ins := [];
    } else {
      ins := MetUpto(files, env, n - 1);
      ins := ins + [FileIn(files[n - 1].Entry(), files[n - 1].Resolve(env(2 * (n - 1))))];
    }
  }

  lemma FilesMet(files: seq<PacFileConfig>, env: nat -> Disk, ins: seq<FileIn>)
    requires AllValid(files) && Meets(files, env, ins)
    ensures |ins| == |files| && (forall k :: 0 <= k < |files| ==> files[k].Valid())
    ensures forall i, j :: 0 <= i < j < |files| ==> files[i] != files[j]
    ensures forall k :: 0 <= k < |files| ==> ins[k] == FileIn(files[k].Entry(), files[k].Resolve(env(2 * k)))
  {
    hide PacFileConfig.Valid, PacFileConfig.Resolve, PacFileConfig.Entry;
  }

  lemma AppendMeets(files: seq<PacFileConfig>, fc: PacFileConfig, env: nat -> Disk, ins: seq<FileIn>, szPrdName: string, xml: bytes)
    requires AllValid(files) && Meets(files, env, ins) && fc !in files
    requires fc.attrs == XmlProps(szPrdName) && fc.content == Some(xml)
    ensures AllValid(files + [fc])
    ensures Meets(files + [fc], env, ins + [FileIn(XmlEntry(szPrdName), Ok(xml))])
  {
  }

  lemma ContentsAre(ins: seq<FileIn>, datas: seq<bytes>)
    requires |datas| == |ins| && forall k :: 0 <= k < |ins| ==> ins[k].content == Ok(datas[k])
    ensures AllThere(ins) && Contents(ins) == datas
  {
  }

  lemma FlattenNone()
    ensures Flatten([]) == []
  {
  }

  lemma FlattenSnoc(chunks: seq<bytes>, c: bytes)
    ensures Flatten(chunks + [c]) == Flatten(chunks) + c
  {
    FlattenAppend(chunks, [c]);
    assert Flatten([c]) == c + Flatten([c][1..]);
  }

  // ---------- From the objects to the bytes and back ----------

  /** The twelve parameters of the main header are the package's own attributes. */
  ghost predicate HoldsParams(p: PacParams, c: PacConfig)
    reads c
  {
    && p.version == c.scalars.szVersion && p.prdName == c.scalars.szPrdName
    && p.prdVersion == c.scalars.szPrdVersion && p.prdAlias == c.scalars.szPrdAlias
    && p.mode == c.scalars.dwMode && p.flashType == c.scalars.dwFlashType
    && p.nandStrategy == c.dwNandStrategy && p.nvBackup == c.scalars.dwIsNvBackup
    && p.nandPageType == c.dwNandPageType && p.productFlag == c.scalars.dwOmaDmProductFlag
    && p.isOmaDm == c.scalars.dwIsOmaDm && p.isPreload == c.scalars.dwIsPreload
  }

  /** The file read from a package is this one, packed while the disk was this: its entry has the object's
      attributes; its content is the cached one or, without that, the bytes at filePath for a plain file, none for
      an empty one, the archive for a pack file. An XML entry without content is in no package. */
  ghost predicate Holds(x: PacFile, f: PacFileConfig, disk: Disk)
    requires f.Valid()
    reads f, f.cpioConfig
  {
    && x.entry.id == f.attrs.szFileID && x.entry.name == f.attrs.szFileName && x.entry.flag == f.attrs.dwFileFlag
    && x.entry.check == f.attrs.defaultCheck && x.entry.omit == f.attrs.dwCanOmitFlag
    && x.entry.address == f.attrs.dwAddress
    && (f.content.Some? ==> x.content == f.content.value)
    && (f.content.None? ==>
          && (f.attrs.cfgType == PlainFile ==> disk(f.attrs.filePath).File? && x.content == disk(f.attrs.filePath).data)
          && (f.attrs.cfgType == EmptyFile ==> x.content == [])
          && (f.attrs.cfgType == PackFile ==> C.Archive(f.cpioConfig.items, disk) == Ok(x.content))
          && f.attrs.cfgType != XmlFile && f.attrs.cfgType != NoType)
  }

  /** A reader of these bytes finds the parameters, every file in its place, and the generated XML behind them. */
  ghost predicate Carries(b: bytes, c: PacConfig, env: nat -> Disk, xml: bytes)
    reads c, c.files, CpiosOf(c.files)
  {
    AllValid(c.files) && ReadPac(b).Some? &&
    var pac := ReadPac(b).value;
    && HoldsParams(pac.params, c) && |pac.files| == |c.files| + 1
    && (forall k :: 0 <= k < |c.files| ==> Holds(pac.files[k], c.files[k], env(2 * k)))
    && pac.files[|c.files|].entry.id == "" && pac.files[|c.files|].entry.name == c.scalars.szPrdName + ".xml"
    && pac.files[|c.files|].entry.flag == 2 && pac.files[|c.files|].entry.check == 0
    && pac.files[|c.files|].entry.omit == 0 && pac.files[|c.files|].entry.address == 0
    && pac.files[|c.files|].content == xml
  }

  /** Every text of the package fits its field. */
  ghost predicate TextsFit(c: PacConfig)
    reads c, c.files
  {
    && TextFits(c.scalars.szVersion, 48) && TextFits(c.scalars.szPrdName, 512)
    && TextFits(c.scalars.szPrdVersion, 512) && TextFits(c.scalars.szPrdAlias, 200)
    && TextFits(c.scalars.szPrdName + ".xml", 512)
    && forall k :: 0 <= k < |c.files| ==>
         TextFits(c.files[k].attrs.szFileID, 512) && TextFits(c.files[k].attrs.szFileName, 512)
  }

  lemma ParamsAre(p: PacParams, c: PacConfig)
    ensures HoldsParams(p, c) <==> p == c.Params()
    ensures ParamTextsFit(c.Params()) <==>
            && TextFits(c.scalars.szVersion, 48) && TextFits(c.scalars.szPrdName, 512)
            && TextFits(c.scalars.szPrdVersion, 512) && TextFits(c.scalars.szPrdAlias, 200)
  {
    hide TextFits;
  }

  lemma HoldsIs(x: PacFile, f: PacFileConfig, disk: Disk)
    requires f.Valid()
    ensures Holds(x, f, disk) <==> x.entry == f.Entry() && f.Resolve(disk) == Ok(x.content)
    ensures EntryTextsFit(f.Entry()) <==> TextFits(f.attrs.szFileID, 512) && TextFits(f.attrs.szFileName, 512)
  {
    hide TextFits, C.Archive;
  }

  lemma XmlIs(x: PacFile, szPrdName: string)
    ensures x.entry == XmlEntry(szPrdName) <==>
            && x.entry.id == "" && x.entry.name == szPrdName + ".xml" && x.entry.flag == 2 && x.entry.check == 0
            && x.entry.omit == 0 && x.entry.address == 0
    ensures EntryTextsFit(XmlEntry(szPrdName)) <==> TextFits(szPrdName + ".xml", 512)
  {
    assert |Utf16("")| == 0;
  }

  /** A written package carries all the objects' attributes and contents if and only if every text fits. */
  lemma PackageCarries(c: PacConfig, env: nat -> Disk, ins: seq<FileIn>, xml: bytes)
    requires AllValid(c.files) && Meets(c.files, env, ins)
    ensures var image := Image(c.Params(), ins + [FileIn(XmlEntry(c.scalars.szPrdName), Ok(xml))]);
            image.Ok? ==> (Carries(image.value, c, env, xml) <==> TextsFit(c))
  {
    hide *;
    var last := FileIn(XmlEntry(c.scalars.szPrdName), Ok(xml));
    var all := ins + [last];
    if Image(c.Params(), all).Ok? {
      ImageReadBack(c.Params(), all);
      FilesMet(c.files, env, ins);
      CarriesIs(Image(c.Params(), all).value, c, env, ins, xml);
      TextsFitIs(c, env, ins, xml);
    }
  }

  lemma CarriesIs(b: bytes, c: PacConfig, env: nat -> Disk, ins: seq<FileIn>, xml: bytes)
    requires AllValid(c.files) && Meets(c.files, env, ins)
    requires AllThere(ins + [FileIn(XmlEntry(c.scalars.szPrdName), Ok(xml))])
    ensures Carries(b, c, env, xml) <==>
            ReadPac(b) == Some(Pac(c.Params(), ExpectedFiles(ins + [FileIn(XmlEntry(c.scalars.szPrdName), Ok(xml))])))
  {
    hide PacConfig.Params, PacFileConfig.Valid, PacFileConfig.Resolve, PacFileConfig.Entry, Holds, HoldsParams, ReadPac;
    hide XmlEntry;
    var all := ins + [FileIn(XmlEntry(c.scalars.szPrdName), Ok(xml))];
    var n := |ins|;
    if ReadPac(b).Some? {
      var pac := ReadPac(b).value;
      ParamsAre(pac.params, c);
      if |pac.files| == n + 1 {
        XmlIs(pac.files[n], c.scalars.szPrdName);
        forall k | 0 <= k < n
          ensures Holds(pac.files[k], c.files[k], env(2 * k)) <==> pac.files[k] == ExpectedFiles(all)[k]
        {
          HoldsIs(pac.files[k], c.files[k], env(2 * k));
          assert ins[k] == all[k] && all[k] in all;
        }
        assert ExpectedFiles(all)[n] == PacFile(XmlEntry(c.scalars.szPrdName), xml);
        assert pac.files == ExpectedFiles(all) <==> forall k :: 0 <= k < n + 1 ==> pac.files[k] == ExpectedFiles(all)[k];
      }
    }
  }

  lemma TextsFitIs(c: PacConfig, env: nat -> Disk, ins: seq<FileIn>, xml: bytes)
    requires AllValid(c.files) && Meets(c.files, env, ins)
    ensures var all := ins + [FileIn(XmlEntry(c.scalars.szPrdName), Ok(xml))];
            TextsFit(c) <==> ParamTextsFit(c.Params()) && forall k :: 0 <= k < |all| ==> EntryTextsFit(all[k].entry)
  {
    hide PacFileConfig.Valid, PacFileConfig.Resolve, PacFileConfig.Entry, PacConfig.Params, ParamTextsFit, EntryTextsFit;
    hide TextFits, XmlEntry;
    var all := ins + [FileIn(XmlEntry(c.scalars.szPrdName), Ok(xml))];
    var n := |ins|;
    ParamsAre(c.Params(), c);
    var x := PacFile(XmlEntry(c.scalars.szPrdName), xml);
    XmlIs(x, c.scalars.szPrdName);
    forall k | 0 <= k < n
      ensures EntryTextsFit(all[k].entry) <==>
              TextFits(c.files[k].attrs.szFileID, 512) && TextFits(c.files[k].attrs.szFileName, 512)
    {
      HoldsIs(x, c.files[k], env(2 * k));
      assert all[k] == ins[k];
    }
    assert all[n] == FileIn(XmlEntry(c.scalars.szPrdName), Ok(xml));
  }

  // ---------- When there is a package, and why not ----------

  /** The content is cached or can be had now. */
  ghost predicate Readable(f: PacFileConfig, disk: Disk)
    requires f.Valid()
    reads f, f.cpioConfig
  {
    || f.content.Some?
    || (f.attrs.cfgType == PlainFile && disk(f.attrs.filePath).File?)
    || f.attrs.cfgType == EmptyFile
    || (f.attrs.cfgType == PackFile && forall k :: k in f.cpioConfig.items ==> !disk(k).Missing?)
  }

  /** Every number of the package fits its 32-bit field. */
  ghost predicate NumbersFit(c: PacConfig)
    reads c, c.files
  {
    && U32(c.scalars.dwMode) && U32(c.scalars.dwFlashType) && U32(c.dwNandStrategy) && U32(c.scalars.dwIsNvBackup)
    && U32(c.dwNandPageType) && U32(c.scalars.dwOmaDmProductFlag) && U32(c.scalars.dwIsOmaDm)
    && U32(c.scalars.dwIsPreload)
    && forall k :: 0 <= k < |c.files| ==>
         && U32(c.files[k].attrs.dwFileFlag) && U32(c.files[k].attrs.defaultCheck)
         && U32(c.files[k].attrs.dwCanOmitFlag) && U32(c.files[k].attrs.dwAddress)
  }

  /** What a file that is not readable raises. */
  lemma NotReadable(f: PacFileConfig, disk: Disk)
    requires f.Valid()
    ensures f.Resolve(disk).Ok? <==> Readable(f, disk)
    ensures !Readable(f, disk) ==>
              f.Resolve(disk) == Err(if f.attrs.cfgType == XmlFile then TypeError
                                     else if f.attrs.cfgType == NoType then AttributeError else OsError)
  {
  }

  lemma NumbersAre(c: PacConfig)
    ensures NumbersFit(c) <==> ParamsFit(c.Params()) && forall k :: 0 <= k < |c.files| ==> EntryFits(c.files[k].Entry())
  {
    hide U32;
  }

  /** pac_gen writes a package exactly when every file is readable, every number fits, and the whole is smaller than
      4 GiB. */
  lemma PackageMade(c: PacConfig, env: nat -> Disk, ins: seq<FileIn>, xml: bytes)
    requires AllValid(c.files) && Meets(c.files, env, ins)
    ensures var all := ins + [FileIn(XmlEntry(c.scalars.szPrdName), Ok(xml))];
            Image(c.Params(), all).Ok? <==>
            && (forall k :: 0 <= k < |c.files| ==> Readable(c.files[k], env(2 * k)))
            && NumbersFit(c) && AllThere(all) && 2124 + |all| * 2580 + |Flatten(Contents(all))| < 0x1_0000_0000
  {
    hide *;
    var all := ins + [FileIn(XmlEntry(c.scalars.szPrdName), Ok(xml))];
    ImageOk(c.Params(), all);
    NumbersAre(c);
    FilesMet(c.files, env, ins);
    forall k | 0 <= k < |c.files| ensures ins[k].content.Ok? <==> Readable(c.files[k], env(2 * k)) {
      NotReadable(c.files[k], env(2 * k));
    }
    AllIs(c, ins, xml);
    if AllThere(all) { SizeLimit(|all|, |Flatten(Contents(all))|); }
  }

  lemma SizeLimit(n: nat, m: nat)
    ensures U32(DataStart(n) + m) <==> 2124 + n * 2580 + m < 0x1_0000_0000
  {
  }

  lemma AllIs(c: PacConfig, ins: seq<FileIn>, xml: bytes)
    ensures var all := ins + [FileIn(XmlEntry(c.scalars.szPrdName), Ok(xml))];
            && |all| == |ins| + 1
            && (AllThere(all) <==> forall k :: 0 <= k < |ins| ==> ins[k].content.Ok?)
            && ((forall f :: f in all ==> EntryFits(f.entry)) <==> forall k :: 0 <= k < |ins| ==> EntryFits(ins[k].entry))
  {
    var all := ins + [FileIn(XmlEntry(c.scalars.szPrdName), Ok(xml))];
    assert all[|ins|] == FileIn(XmlEntry(c.scalars.szPrdName), Ok(xml));
    forall f | f in all ensures f in ins || f == all[|ins|] { }
    assert forall k :: 0 <= k < |ins| ==> ins[k] == all[k] && ins[k] in all;
  }

  /** Where there is none, the first unreadable file says why, unless a number does not fit before it. */
  lemma PackageError(c: PacConfig, env: nat -> Disk, ins: seq<FileIn>, xml: bytes) returns (k: nat)
    requires AllValid(c.files) && Meets(c.files, env, ins)
    requires Image(c.Params(), ins + [FileIn(XmlEntry(c.scalars.szPrdName), Ok(xml))]).Err?
    ensures var image := Image(c.Params(), ins + [FileIn(XmlEntry(c.scalars.szPrdName), Ok(xml))]);
            || (image == Err(StructError) && (k < |c.files| ==> Readable(c.files[k], env(2 * k))))
            || (&& k < |c.files| && !Readable(c.files[k], env(2 * k))
                && image == Err(if c.files[k].attrs.cfgType == XmlFile then TypeError
                                else if c.files[k].attrs.cfgType == NoType then AttributeError else OsError))
    ensures forall i :: 0 <= i < k && i < |c.files| ==> Readable(c.files[i], env(2 * i))
  {
    hide *;
    var all := ins + [FileIn(XmlEntry(c.scalars.szPrdName), Ok(xml))];
    FilesMet(c.files, env, ins);
    ImageFromHeaders(c.Params(), all);
    forall i | 0 <= i < |c.files|
      ensures all[i].content == c.files[i].Resolve(env(2 * i)) && (all[i].content.Ok? <==> Readable(c.files[i], env(2 * i)))
    {
      NotReadable(c.files[i], env(2 * i));
    }
    if Headers(all, DataStart(|all|)).Err? {
      k := FirstFailure(all, DataStart(|all|));
      if k < |c.files| { NotReadable(c.files[k], env(2 * k)); }
    } else {
      k := |all|;
      var datas := Contents(all);
      MainHeaderError(c.Params(), DataStart(|all|) + |Flatten(datas)|, |all|,
                      Flatten(Headers(all, DataStart(|all|)).value) + Flatten(datas));
      assert forall i :: 0 <= i < |all| ==> all[i] in all;
      ThereAll(all);
    }
  }

  lemma ThereAll(ins: seq<FileIn>)
    requires AllThere(ins)
    ensures forall i :: 0 <= i < |ins| ==> ins[i].content.Ok?
  {
  }

  // ---------- Storing and loading ----------

  /** load_from_json of a fresh object, with nothing there before. */
  method LoadFresh(j: Json, disk: Disk) returns (d: PacConfig, e: Option<Error>)
    requires Coherent(disk)
    ensures fresh(d)
    ensures Load(j).Err? ==> e == Some(Load(j).error)
    ensures Load(j).Ok? ==>
              && e == None && d.scalars == Load(j).value.scalars && d.nvitems == Load(j).value.nvitems
              && |d.files| == |Load(j).value.files|
              && forall k :: 0 <= k < |d.files| ==> d.files[k].attrs == Load(j).value.files[k] && Loaded(d.files[k], disk)
  {
    hide *;
    d := new PacConfig();
    e := d.LoadFromJson(j, disk);
  }

  /** What store_to_json writes, loaded by a fresh object, gives the attributes back: the plain ones, the NV items
      and, in order and without the generated XML entries, the files. It does so if and only if the attributes of
      each file that are not stored have the values its kind gives them. */
  method StoreThenLoad(c: PacConfig, disk: Disk) returns (d: PacConfig, e: Option<Error>)
    requires Coherent(disk)
    requires forall k :: 0 <= k < |c.files| ==> c.files[k].attrs.cfgType != NoType
    ensures fresh(d)
    ensures var kept := WithoutXml(AttrsOf(c.files));
            (&& e == None && d.scalars == c.scalars && d.nvitems == c.nvitems && |d.files| == |kept|
             && forall k :: 0 <= k < |kept| ==> d.files[k].attrs == kept[k])
            <==> forall k :: 0 <= k < |c.files| ==> WellSet(c.files[k].attrs)
  {
    hide *;
    var j := c.StoreToJson();
    ghost var value := Config(c.scalars, c.nvitems, AttrsOf(c.files));
    ghost var kept := WithoutXml(AttrsOf(c.files));
    StoreLoad(value);
    SameWellSet(c.files);
    d, e := LoadFresh(j.value, disk);
    if Load(j.value).Ok? { ConfigIs(Load(j.value).value, d.files, kept, value); }
  }

  lemma SameWellSet(files: seq<PacFileConfig>)
    ensures (forall f :: f in AttrsOf(files) ==> WellSet(f)) <==> forall k :: 0 <= k < |files| ==> WellSet(files[k].attrs)
  {
    hide WellSet;
    var ps := AttrsOf(files);
    assert forall k :: 0 <= k < |files| ==> ps[k] == files[k].attrs && ps[k] in ps;
  }

  lemma ConfigIs(loaded: Config, files: seq<PacFileConfig>, kept: seq<Props>, value: Config)
    requires |files| == |loaded.files| && forall k :: 0 <= k < |files| ==> files[k].attrs == loaded.files[k]
    ensures loaded == value.(files := kept) <==>
            && loaded.scalars == value.scalars && loaded.nvitems == value.nvitems && |files| == |kept|
            && forall k :: 0 <= k < |kept| ==> files[k].attrs == kept[k]
  {
    if |files| == |kept| && forall k :: 0 <= k < |kept| ==> files[k].attrs == kept[k] {
      assert loaded.files == kept;
    }
  }
}
