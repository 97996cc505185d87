/** A reader of PAC files that trusts nothing but the bytes, and what it gets out of a written file. */
module PacReader {
  import opened Bytes
  import opened Struct
  import opened Text
  import opened PacImage

  datatype PacFile = PacFile(entry: FileEntry, content: bytes)

  datatype Pac = Pac(params: PacParams, files: seq<PacFile>)

  /** What is the same in every file header: its size, the 1 and the zeros. */
  predicate FileConstants(h: seq<Value>)
    requires |h| == 16
  {
    && h[0] == Num(FILE_HEADER_SIZE) && h[3] == Str(Zeros(512)) && h[9] == Num(1)
    && h[11] == Num(0) && h[12] == Num(0) && h[13] == Num(0) && h[14] == Num(0) && h[15] == Str(Zeros(996))
  }

  /** A file header's texts and numbers, and the content its size and offset point at. */
  function FileOf(b: bytes, h: seq<Value>): Option<PacFile>
    requires AllPackable(FILE_HEADER, h)
  {
    if !FileConstants(h) then None
    else
      match (ReadText(h[1].b), ReadText(h[2].b))
      case (Some(id), Some(name)) =>
        if h[7].v + h[4].v > |b| then None
        else Some(PacFile(FileEntry(id, name, h[5].v, h[6].v, h[8].v, h[10].v), b[h[7].v..h[7].v + h[4].v]))
      case _ => None
  }

  function ReadFile(b: bytes, at: nat): Option<PacFile> {
    if at + FILE_HEADER_SIZE > |b| then None
    else
      FileHeaderLayout();
      FileOf(b, Unpack(FILE_HEADER, b[at..at + FILE_HEADER_SIZE]))
  }

  /** n files whose headers follow each other from here. */
  function ReadFiles(b: bytes, at: nat, n: nat): Option<seq<PacFile>>
    decreases n
  {
    if n == 0 then Some([])
    else
      match (ReadFile(b, at), ReadFiles(b, at + FILE_HEADER_SIZE, n - 1))
      case (Some(f), Some(rest)) => Some([f] + rest)
      case _ => None
  }

  /** The kinds of the main header's 19 values. */
  predicate MainShape(v: seq<Value>) {
    && |v| == 19 && v[0].Str? && v[2].Str? && v[3].Str? && v[11].Str?
    && Natural(v[1]) && Natural(v[4]) && Natural(v[5]) && Natural(v[6]) && Natural(v[7]) && Natural(v[8])
    && Natural(v[9]) && Natural(v[10]) && Natural(v[12]) && Natural(v[13]) && Natural(v[14]) && Natural(v[16])
  }

  predicate Natural(v: Value) { v.Num? && v.v >= 0 }

  lemma UnpackedShape(v: seq<Value>)
    requires AllPackable(PAC_HEADER, v)
    ensures MainShape(v)
  {
  }

  function ParamsOf(v: seq<Value>): Option<PacParams>
    requires MainShape(v)
  {
    match (ReadText(v[0].b), ReadText(v[2].b), ReadText(v[3].b), ReadText(v[11].b))
    case (Some(version), Some(prdName), Some(prdVersion), Some(prdAlias)) =>
      Some(PacParams(version, prdName, prdVersion, prdAlias, v[6].v, v[7].v, v[8].v, v[9].v, v[10].v,
                     v[12].v, v[13].v, v[14].v))
    case _ => None
  }

  /** struct.unpack of the main header. */
  function MainHeaderOf(b: bytes): (v: seq<Value>)
    requires |b| >= PAC_HEADER_SIZE
    ensures MainShape(v)
  {
    PacHeaderLayout();
    var v := Unpack(PAC_HEADER, b[..PAC_HEADER_SIZE]);
    UnpackedShape(v);
    v
  }

  /** The whole file: its stated size, its magic, and as many headers as it states from where it states. */
  function ReadPac(b: bytes): Option<Pac> {
    if |b| < PAC_HEADER_SIZE then None
    else
      var v := MainHeaderOf(b);
      if v[1].v != |b| || v[15] != Str(Zeros(800)) || v[16].v != PAC_MAGIC then None
      else
        match (ParamsOf(v), ReadFiles(b, v[5].v, v[4].v))
        case (Some(params), Some(files)) => Some(Pac(params, files))
        case _ => None
  }

  // ---------- What should come out ----------

  predicate TextFits(s: string, n: nat) { |Utf16(s)| <= n && '\0' !in s }

  predicate EntryTextsFit(e: FileEntry) { TextFits(e.id, 512) && TextFits(e.name, 512) }

  predicate ParamTextsFit(p: PacParams) {
    TextFits(p.version, 48) && TextFits(p.prdName, 512) && TextFits(p.prdVersion, 512) && TextFits(p.prdAlias, 200)
  }

  function ExpectedFiles(ins: seq<FileIn>): (fs: seq<PacFile>)
    requires AllThere(ins)
    ensures |fs| == |ins|
  {
    seq(|ins|, i requires 0 <= i < |ins| => PacFile(ins[i].entry, ins[i].content.value))
  }

  // ---------- Where header and data of file i are ----------

  /** The moving offset when file i is handled. */
  function OffsetOf(ins: seq<FileIn>, i: nat): nat
    requires AllThere(ins) && i <= |ins|
  {
    DataStart(|ins|) + |Flatten(Contents(ins)[..i])|
  }

  /** Where the header of file i goes. */
  function Slot(i: nat): nat { PAC_HEADER_SIZE + i * FILE_HEADER_SIZE }

  lemma NextSlot(i: nat)
    ensures Slot(i + 1) == Slot(i) + FILE_HEADER_SIZE
  {
  }

  lemma {:induction false} HeaderAt(ins: seq<FileIn>, offset: nat, i: nat)
    requires i < |ins| && Headers(ins, offset).Ok?
    ensures AllThere(ins)
    ensures var here := FileHeader(ins[i].entry, |ins[i].content.value|, offset + |Flatten(Contents(ins)[..i])|);
            here.Ok? && Headers(ins, offset).value[i] == here.value && |here.value| == FILE_HEADER_SIZE
  {
    hide FileHeader;
    HeadersOkMeansThere(ins, offset);
    var f := ins[0];
    FileHeaderOk(f.entry, |f.content.value|, offset);
    if i == 0 {
    } else {
      HeaderAt(ins[1..], offset + |f.content.value|, i - 1);
      assert Contents(ins)[..i][1..] == Contents(ins[1..])[..i - 1];
    }
  }

  /** File i: its header at its slot, its content at the offset the header states. */
  lemma FilePlaced(p: PacParams, ins: seq<FileIn>, b: bytes, header: bytes, headers: seq<bytes>, i: nat)
    requires Parts(p, ins, b, header, headers) && i < |ins|
    ensures var at, offset, size := Slot(i), OffsetOf(ins, i), |ins[i].content.value|;
            && at + FILE_HEADER_SIZE <= DataStart(|ins|) <= offset && offset + size <= |b|
            && FileHeader(ins[i].entry, size, offset) == Ok(b[at..at + FILE_HEADER_SIZE])
            && b[offset..offset + size] == ins[i].content.value
  {
    hide FileHeader, MainHeader, Headers, Flatten, Contents;
    HeaderAt(ins, DataStart(|ins|), i);
    ContentsThere(ins, i);
    forall h | h in headers[..i]
      ensures |h| == FILE_HEADER_SIZE
    {
      var k :| 0 <= k < i && headers[k] == h;
      HeaderAt(ins, DataStart(|ins|), k);
    }
    var hs, ds := Flatten(headers), Flatten(Contents(ins));
    EqualChunks(headers[..i], FILE_HEADER_SIZE);
    FlattenSlice(headers, i);
    FlattenSlice(Contents(ins), i);
    Placed(header, hs, ds, i * FILE_HEADER_SIZE, FILE_HEADER_SIZE);
    PlacedLast(header, hs, ds, |Flatten(Contents(ins)[..i])|, |ins[i].content.value|);
  }

  lemma ContentsThere(ins: seq<FileIn>, i: nat)
    requires AllThere(ins) && i < |ins|
    ensures ins[i].content.Ok? && Contents(ins)[i] == ins[i].content.value
  {
  }

  lemma Placed(a: bytes, x: bytes, y: bytes, at: nat, n: nat)
    requires at + n <= |x|
    ensures (a + (x + y))[|a| + at..|a| + at + n] == x[at..][..n]
  {
  }

  lemma PlacedLast(a: bytes, x: bytes, y: bytes, at: nat, n: nat)
    requires at + n <= |y|
    ensures (a + (x + y))[|a| + |x| + at..|a| + |x| + at + n] == y[at..][..n]
  {
  }

  // ---------- Reading one file back ----------

  /** The values a file header is packed from and their fields. */
  lemma FileHeaderFields(e: FileEntry, size: int, offset: int)
    ensures |FILE_HEADER| == |FileHeaderValues(e, size, offset)| == 16
    ensures var f, v := FILE_HEADER, FileHeaderValues(e, size, offset);
            && f[1] == f[2] == S(512) && v[1] == Str(Utf16(e.id)) && v[2] == Str(Utf16(e.name))
            && f[4] == f[5] == f[6] == f[7] == f[8] == f[10] == I
            && v[4] == Num(size) && v[5] == Num(e.flag) && v[6] == Num(e.check) && v[7] == Num(offset)
            && v[8] == Num(e.omit) && v[10] == Num(e.address)
  {
    hide Utf16;
  }

  lemma FileValues(e: FileEntry, size: int, offset: int)
    requires FileHeader(e, size, offset).Ok?
    ensures |FileHeader(e, size, offset).value| == CalcSize(FILE_HEADER)
    ensures var h := Unpack(FILE_HEADER, FileHeader(e, size, offset).value);
            && |h| == 16
            && h[1] == Str(Fixed(Utf16(e.id), 512)) && h[2] == Str(Fixed(Utf16(e.name), 512))
            && h[4] == Num(size) && h[5] == Num(e.flag) && h[6] == Num(e.check) && h[7] == Num(offset)
            && h[8] == Num(e.omit) && h[10] == Num(e.address)
  {
    hide FileHeader, FileHeaderValues, Unpack, PackAll, CalcSize, AllPackable, FILE_HEADER, Utf16, Fixed, Zeros;
    FileHeaderIs(e, size, offset);
    FileHeaderFields(e, size, offset);
    var v := FileHeaderValues(e, size, offset);
    UnpackPack(FILE_HEADER, v);
    StoredAt(FILE_HEADER, v, 1);
    StoredAt(FILE_HEADER, v, 2);
    StoredAt(FILE_HEADER, v, 4);
    StoredAt(FILE_HEADER, v, 5);
    StoredAt(FILE_HEADER, v, 6);
    StoredAt(FILE_HEADER, v, 7);
    StoredAt(FILE_HEADER, v, 8);
    StoredAt(FILE_HEADER, v, 10);
  }

  lemma FixedNone(n: nat)
    ensures Fixed([], n) == Zeros(n)
  {
  }

  lemma FileHeaderConstants(e: FileEntry, size: int, offset: int)
    ensures |FILE_HEADER| == |FileHeaderValues(e, size, offset)| == 16
    ensures var f, v := FILE_HEADER, FileHeaderValues(e, size, offset);
            && f[0] == f[9] == f[11] == f[12] == f[13] == f[14] == I && f[3] == S(512) && f[15] == S(996)
            && v[0] == Num(FILE_HEADER_SIZE) && v[3] == Str([]) && v[9] == Num(1)
            && v[11] == v[12] == v[13] == v[14] == Num(0) && v[15] == Str([])
  {
    hide Utf16;
  }

  lemma FileConstantsKept(e: FileEntry, size: int, offset: int)
    requires FileHeader(e, size, offset).Ok?
    ensures |FileHeader(e, size, offset).value| == CalcSize(FILE_HEADER)
    ensures var h := Unpack(FILE_HEADER, FileHeader(e, size, offset).value); |h| == 16 && FileConstants(h)
  {
    hide FileHeader, FileHeaderValues, Unpack, PackAll, CalcSize, AllPackable, FILE_HEADER, Utf16, Fixed, Zeros;
    FileHeaderIs(e, size, offset);
    FileHeaderConstants(e, size, offset);
    var v := FileHeaderValues(e, size, offset);
    UnpackPack(FILE_HEADER, v);
    FixedNone(512);
    FixedNone(996);
    StoredAt(FILE_HEADER, v, 0);
    StoredAt(FILE_HEADER, v, 3);
    StoredAt(FILE_HEADER, v, 9);
    StoredAt(FILE_HEADER, v, 11);
    StoredAt(FILE_HEADER, v, 12);
    StoredAt(FILE_HEADER, v, 13);
    StoredAt(FILE_HEADER, v, 14);
    StoredAt(FILE_HEADER, v, 15);
  }

  lemma FileOfExact(b: bytes, h: seq<Value>, e: FileEntry, content: bytes)
    requires AllPackable(FILE_HEADER, h) && |h| == 16 && h[7].Num? && FileConstants(h)
    requires h[1] == Str(Fixed(Utf16(e.id), 512)) && h[2] == Str(Fixed(Utf16(e.name), 512))
    requires h[4] == Num(|content|) && h[5] == Num(e.flag) && h[6] == Num(e.check)
    requires h[8] == Num(e.omit) && h[10] == Num(e.address)
    requires 0 <= h[7].v <= h[7].v + |content| <= |b| && b[h[7].v..h[7].v + |content|] == content
    ensures FileOf(b, h) == Some(PacFile(e, content)) <==> EntryTextsFit(e)
  {
    hide ReadText, Utf16, Fixed, AllPackable, Packable, FILE_HEADER, FileConstants;
    FieldKeepsText(e.id, 512);
    FieldKeepsText(e.name, 512);
  }

  lemma ReadFileIs(b: bytes, at: nat)
    requires at + FILE_HEADER_SIZE <= |b|
    ensures CalcSize(FILE_HEADER) == FILE_HEADER_SIZE
    ensures ReadFile(b, at) == FileOf(b, Unpack(FILE_HEADER, b[at..at + FILE_HEADER_SIZE]))
  {
    FileHeaderLayout();
    hide FileOf, Unpack, CalcSize;
  }

  lemma ExpectedFile(ins: seq<FileIn>, i: nat)
    requires AllThere(ins) && i < |ins|
    ensures ExpectedFiles(ins)[i] == PacFile(ins[i].entry, ins[i].content.value)
  {
  }

  /** What the reader finds at file i's slot. */
  lemma FileReadBack(p: PacParams, ins: seq<FileIn>, b: bytes, header: bytes, headers: seq<bytes>, i: nat)
    requires Parts(p, ins, b, header, headers) && i < |ins|
    ensures AllThere(ins)
    ensures ReadFile(b, Slot(i)) == Some(ExpectedFiles(ins)[i]) <==>
            EntryTextsFit(ins[i].entry)
  {
    PartsThere(p, ins, b, header, headers);
    SlotReadBack(p, ins, b, header, headers, i);
    ExpectedFile(ins, i);
    hide *;
  }

  lemma SlotReadBack(p: PacParams, ins: seq<FileIn>, b: bytes, header: bytes, headers: seq<bytes>, i: nat)
    requires Parts(p, ins, b, header, headers) && i < |ins| && AllThere(ins)
    ensures ReadFile(b, Slot(i)) == Some(PacFile(ins[i].entry, ins[i].content.value)) <==>
            EntryTextsFit(ins[i].entry)
  {
    hide *;
    ThereAt(ins, i);
    FilePlaced(p, ins, b, header, headers, i);
    SlotExact(b, Slot(i), OffsetOf(ins, i), ins[i].entry, ins[i].content.value);
  }

  lemma ThereAt(ins: seq<FileIn>, i: nat)
    requires AllThere(ins) && i < |ins|
    ensures ins[i].content.Ok?
  {
  }

  lemma SlotExact(b: bytes, at: nat, offset: nat, e: FileEntry, content: bytes)
    requires at + FILE_HEADER_SIZE <= |b| && offset + |content| <= |b|
    requires FileHeader(e, |content|, offset) == Ok(b[at..at + FILE_HEADER_SIZE])
    requires b[offset..offset + |content|] == content
    ensures ReadFile(b, at) == Some(PacFile(e, content)) <==> EntryTextsFit(e)
  {
    hide *;
    ReadFileIs(b, at);
    FileValues(e, |content|, offset);
    FileConstantsKept(e, |content|, offset);
    FileOfExact(b, Unpack(FILE_HEADER, b[at..at + FILE_HEADER_SIZE]), e, content);
  }

  lemma PartsThere(p: PacParams, ins: seq<FileIn>, b: bytes, header: bytes, headers: seq<bytes>)
    requires Parts(p, ins, b, header, headers)
    ensures AllThere(ins)
  {
  }

  lemma ReadFilesStep(b: bytes, at: nat, n: nat, f: PacFile, rest: seq<PacFile>)
    requires n > 0
    ensures ReadFiles(b, at, n) == Some([f] + rest) <==>
            ReadFile(b, at) == Some(f) && ReadFiles(b, at + FILE_HEADER_SIZE, n - 1) == Some(rest)
  {
    hide ReadFile;
    var x, xs := ReadFile(b, at), ReadFiles(b, at + FILE_HEADER_SIZE, n - 1);
    if x.Some? && xs.Some? {
      Prepend(x.value, xs.value, f, rest);
    }
  }

  lemma {:induction false} FilesReadBack(p: PacParams, ins: seq<FileIn>, b: bytes, header: bytes, headers: seq<bytes>, i: nat)
    requires Parts(p, ins, b, header, headers) && i <= |ins|
    ensures AllThere(ins)
    ensures ReadFiles(b, Slot(i), |ins| - i) == Some(ExpectedFiles(ins)[i..]) <==>
            forall k :: i <= k < |ins| ==> EntryTextsFit(ins[k].entry)
    decreases |ins| - i
  {
    hide *;
    PartsThere(p, ins, b, header, headers);
    if i < |ins| {
      FileReadBack(p, ins, b, header, headers, i);
      FilesReadBack(p, ins, b, header, headers, i + 1);
      FilesStepBack(b, Slot(i), ins, i);
      NextSlot(i);
    } else {
      NoMoreFiles(b, Slot(i));
      assert ExpectedFiles(ins)[i..] == [];
    }
  }

  lemma NoMoreFiles(b: bytes, at: nat)
    ensures ReadFiles(b, at, 0) == Some([])
  {
  }

  lemma FilesStepBack(b: bytes, at: nat, ins: seq<FileIn>, i: nat)
    requires AllThere(ins) && i < |ins|
    ensures ReadFiles(b, at, |ins| - i) == Some(ExpectedFiles(ins)[i..]) <==>
            ReadFile(b, at) == Some(ExpectedFiles(ins)[i])
            && ReadFiles(b, at + FILE_HEADER_SIZE, |ins| - (i + 1)) == Some(ExpectedFiles(ins)[i + 1..])
  {
    hide *;
    var want := ExpectedFiles(ins);
    assert want[i..] == [want[i]] + want[i + 1..];
    ReadFilesStep(b, at, |ins| - i, want[i], want[i + 1..]);
  }

  lemma Prepend<T>(x: T, xs: seq<T>, y: T, ys: seq<T>)
    ensures [x] + xs == [y] + ys <==> x == y && xs == ys
  {
    if [x] + xs == [y] + ys {
      assert x == ([x] + xs)[0] && xs == ([x] + xs)[1..] && ys == ([y] + ys)[1..];
    }
  }

  // ---------- Reading the whole file back ----------

  lemma PacHeaderFields()
    ensures |PAC_HEADER| == 19
    ensures var f := PAC_HEADER[..17];
            && f[0] == S(48) && f[2] == f[3] == S(512) && f[11] == S(200) && f[15] == S(800)
            && f[1] == f[4] == f[5] == f[6] == f[7] == f[8] == f[9] == f[10] == f[12] == f[13] == f[14] == f[16] == I
  {
  }

  lemma PacHeaderTexts(p: PacParams, size: int, count: int)
    ensures |PacHeaderValues(p, size, count)| == 17
    ensures var v := PacHeaderValues(p, size, count);
            && v[0] == Str(Utf16(p.version)) && v[2] == Str(Utf16(p.prdName)) && v[3] == Str(Utf16(p.prdVersion))
            && v[11] == Str(Utf16(p.prdAlias)) && v[15] == Str([])
            && v[1] == Num(size) && v[4] == Num(count) && v[5] == Num(PAC_HEADER_SIZE) && v[16] == Num(PAC_MAGIC)
  {
    hide Utf16;
  }

  lemma PacHeaderNumbers(p: PacParams, size: int, count: int)
    ensures |PacHeaderValues(p, size, count)| == 17
    ensures var v := PacHeaderValues(p, size, count);
            && v[6] == Num(p.mode) && v[7] == Num(p.flashType) && v[8] == Num(p.nandStrategy)
            && v[9] == Num(p.nvBackup) && v[10] == Num(p.nandPageType) && v[12] == Num(p.productFlag)
            && v[13] == Num(p.isOmaDm) && v[14] == Num(p.isPreload)
  {
    hide Utf16;
  }

  lemma HeaderValuesRead(p: PacParams, size: int, count: int, tail: bytes)
    requires AllPackable(PAC_HEADER[..17], PacHeaderValues(p, size, count)) && |tail| == 4
    ensures |PackAll(PAC_HEADER[..17], PacHeaderValues(p, size, count)) + tail| == CalcSize(PAC_HEADER)
    ensures var v := Unpack(PAC_HEADER, PackAll(PAC_HEADER[..17], PacHeaderValues(p, size, count)) + tail);
            forall k :: 0 <= k < 17 ==> v[k] == Stored(PAC_HEADER[k], PacHeaderValues(p, size, count)[k])
  {
    var f, v := PAC_HEADER[..17], PacHeaderValues(p, size, count);
    PacHeaderLayout();
    hide PacHeaderValues, PAC_HEADER, CalcSize;
    UnpackAppend(f, PackAll(f, v), [H, H], tail);
    UnpackPack(f, v);
  }

  lemma ParamsExact(v: seq<Value>, p: PacParams)
    requires MainShape(v)
    requires v[0] == Str(Fixed(Utf16(p.version), 48)) && v[2] == Str(Fixed(Utf16(p.prdName), 512))
    requires v[3] == Str(Fixed(Utf16(p.prdVersion), 512)) && v[11] == Str(Fixed(Utf16(p.prdAlias), 200))
    requires v[6] == Num(p.mode) && v[7] == Num(p.flashType) && v[8] == Num(p.nandStrategy)
    requires v[9] == Num(p.nvBackup) && v[10] == Num(p.nandPageType) && v[12] == Num(p.productFlag)
    requires v[13] == Num(p.isOmaDm) && v[14] == Num(p.isPreload)
    ensures ParamsOf(v) == Some(p) <==> ParamTextsFit(p)
  {
    hide ReadText, Utf16, Fixed;
    FieldKeepsText(p.version, 48);
    FieldKeepsText(p.prdName, 512);
    FieldKeepsText(p.prdVersion, 512);
    FieldKeepsText(p.prdAlias, 200);
  }

  /** The main header's values as the reader gets them. */
  lemma MainValues(p: PacParams, ins: seq<FileIn>, b: bytes, header: bytes, headers: seq<bytes>)
    requires Parts(p, ins, b, header, headers)
    ensures |b| >= PAC_HEADER_SIZE
    ensures AllPackable(PAC_HEADER[..17], PacHeaderValues(p, |b|, |ins|))
    ensures forall k :: 0 <= k < 17 ==> MainHeaderOf(b)[k] == Stored(PAC_HEADER[k], PacHeaderValues(p, |b|, |ins|)[k])
  {
    hide *;
    HeaderCount();
    PartsLength(p, ins, b, header, headers);
    FrontAndCrcs(b);
    HeaderOfParts(p, ins, b, header, headers);
    HeaderValuesRead(p, |b|, |ins|, b[2120..2124]);
    MainHeaderIsUnpack(b);
  }

  lemma MainHeaderIsUnpack(b: bytes)
    requires |b| >= PAC_HEADER_SIZE
    ensures CalcSize(PAC_HEADER) == PAC_HEADER_SIZE && MainHeaderOf(b) == Unpack(PAC_HEADER, b[..PAC_HEADER_SIZE])
  {
    hide CalcSize, Unpack, PAC_HEADER;
    PacHeaderLayout();
  }

  lemma FrontStored(p: PacParams, size: int, count: int, v: seq<Value>)
    requires |v| == 19 && AllPackable(PAC_HEADER[..17], PacHeaderValues(p, size, count))
    requires forall k :: 0 <= k < 17 ==> v[k] == Stored(PAC_HEADER[k], PacHeaderValues(p, size, count)[k])
    ensures v[0] == Str(Fixed(Utf16(p.version), 48)) && v[2] == Str(Fixed(Utf16(p.prdName), 512))
    ensures v[3] == Str(Fixed(Utf16(p.prdVersion), 512)) && v[11] == Str(Fixed(Utf16(p.prdAlias), 200))
    ensures v[1] == Num(size) && v[4] == Num(count) && v[5] == Num(PAC_HEADER_SIZE)
    ensures v[6] == Num(p.mode) && v[7] == Num(p.flashType) && v[8] == Num(p.nandStrategy)
    ensures v[9] == Num(p.nvBackup) && v[10] == Num(p.nandPageType) && v[12] == Num(p.productFlag)
    ensures v[13] == Num(p.isOmaDm) && v[14] == Num(p.isPreload) && v[16] == Num(PAC_MAGIC)
    ensures v[15] == Str(Zeros(800))
  {
    hide Utf16, Fixed, PAC_HEADER, PacHeaderValues, AllPackable;
    FixedNone(800);
    PacHeaderFields();
    PacHeaderTexts(p, size, count);
    PacHeaderNumbers(p, size, count);
  }

  lemma FrontAndCrcs(b: bytes)
    requires |b| >= PAC_HEADER_SIZE
    ensures PAC_HEADER_SIZE == 2124 && b[..PAC_HEADER_SIZE] == b[..2120] + b[2120..2124]
  {
  }

  lemma PartsLength(p: PacParams, ins: seq<FileIn>, b: bytes, header: bytes, headers: seq<bytes>)
    requires Parts(p, ins, b, header, headers)
    ensures |b| >= PAC_HEADER_SIZE
  {
  }

  lemma PacIs(b: bytes, p: PacParams, files: seq<PacFile>, v: seq<Value>)
    requires |b| >= PAC_HEADER_SIZE && v == MainHeaderOf(b)
    requires MainShape(v)
    ensures ReadPac(b) == Some(Pac(p, files)) <==>
            && v[1].v == |b| && v[15] == Str(Zeros(800)) && v[16].v == PAC_MAGIC
            && ParamsOf(v) == Some(p) && ReadFiles(b, v[5].v, v[4].v) == Some(files)
  {
    hide MainHeaderOf, ParamsOf, ReadFiles, PAC_HEADER, AllPackable;
  }

  /** Reading a written file back gives the parameters and every file, in order and with its exact content,
      if and only if every text fits its field and holds no NUL. */
  lemma ImageReadBack(p: PacParams, ins: seq<FileIn>)
    requires Image(p, ins).Ok?
    ensures AllThere(ins)
    ensures ReadPac(Image(p, ins).value) == Some(Pac(p, ExpectedFiles(ins))) <==>
            ParamTextsFit(p) && forall k :: 0 <= k < |ins| ==> EntryTextsFit(ins[k].entry)
  {
    hide *;
    var b := Image(p, ins).value;
    var header, headers := ImageParts(p, ins);
    PartsThere(p, ins, b, header, headers);
    MainValues(p, ins, b, header, headers);
    var v := MainHeaderOf(b);
    HeaderCount();
    ShapeLength(v);
    FrontStored(p, |b|, |ins|, v);
    PacIs(b, p, ExpectedFiles(ins), v);
    ParamsExact(v, p);
    FilesReadBack(p, ins, b, header, headers, 0);
    FirstSlot();
    assert ExpectedFiles(ins)[0..] == ExpectedFiles(ins);
  }

  lemma ShapeLength(v: seq<Value>)
    requires MainShape(v)
    ensures |v| == 19
  {
  }

  lemma HeaderCount()
    ensures |PAC_HEADER| == 19
  {
  }

  lemma FirstSlot()
    ensures Slot(0) == PAC_HEADER_SIZE
  {
  }

  /** What a reader finds lies inside the file, whose size a header field holds. */
  lemma ReadWithin(b: bytes)
    requires ReadPac(b).Some?
    ensures |b| < 0x1_0000_0000
    ensures forall k :: 0 <= k < |ReadPac(b).value.files| ==> |ReadPac(b).value.files[k].content| <= |b|
  {
    hide PAC_HEADER, ReadFiles, ParamsOf, Unpack;
    var v := MainHeaderOf(b);
    StatedSize(b);
    FilesWithin(b, v[5].v, v[4].v);
  }

  lemma StatedSize(b: bytes)
    requires |b| >= PAC_HEADER_SIZE
    ensures MainHeaderOf(b)[1].v < 0x1_0000_0000
  {
    hide Unpack, CalcSize;
    MainHeaderIsUnpack(b);
    HeaderCount();
    PacHeaderFields();
    assert PAC_HEADER[1] == PAC_HEADER[..17][1];
  }

  lemma {:induction false} FilesWithin(b: bytes, at: nat, n: nat)
    ensures ReadFiles(b, at, n).Some? ==>
              forall k :: 0 <= k < |ReadFiles(b, at, n).value| ==> |ReadFiles(b, at, n).value[k].content| <= |b|
    decreases n
  {
    hide FileOf, Unpack;
    if n == 0 || ReadFiles(b, at, n).None? {
    } else {
      FileWithin(b, at);
      FilesWithin(b, at + FILE_HEADER_SIZE, n - 1);
      hide ReadFile;
    }
  }

  lemma FileWithin(b: bytes, at: nat)
    ensures ReadFile(b, at).Some? ==> |ReadFile(b, at).value.content| <= |b|
  {
    hide *;
    if at + FILE_HEADER_SIZE <= |b| {
      ReadFileIs(b, at);
      ContentWithin(b, Unpack(FILE_HEADER, b[at..at + FILE_HEADER_SIZE]));
    } else {
      NoHeader(b, at);
    }
  }

  lemma NoHeader(b: bytes, at: nat)
    requires at + FILE_HEADER_SIZE > |b|
    ensures ReadFile(b, at) == None
  {
    hide FileOf;
  }

  lemma ContentWithin(b: bytes, h: seq<Value>)
    requires AllPackable(FILE_HEADER, h)
    ensures FileOf(b, h).Some? ==> |FileOf(b, h).value.content| <= |b|
  {
    hide ReadText, FileConstants;
  }
}
