/** The PAC container: what pac_gen writes, and a reader that follows the written bytes only. */
module PacImage {
  import opened Bytes
  import opened Struct
  import opened Text
  import opened Crc16
  import opened CrcDetection

  /** PAC_HEADER_FMT */
  const PAC_HEADER: seq<Field> :=
    [S(48), I, S(512), S(512), I, I, I, I, I, I, I, S(200), I, I, I, S(800), I, H, H]

  /** FILE_HEADER_FMT */
  const FILE_HEADER: seq<Field> :=
    [I, S(512), S(512), S(512), I, I, I, I, I, I, I, I, I, I, I, S(996)]

  const PAC_MAGIC: int := 0xFFFA_FFFA
  const PAC_HEADER_SIZE: nat := 2124
  const FILE_HEADER_SIZE: nat := 2580

  lemma PacHeaderLayout()
    ensures CalcSize(PAC_HEADER[..17]) == 2120 && PAC_HEADER == PAC_HEADER[..17] + [H, H]
    ensures CalcSize(PAC_HEADER) == PAC_HEADER_SIZE && NoHoles(PAC_HEADER, 0)
  {
    hide *;
    PacHeaderParts();
    PacHeaderShape();
    NumbersLayout(7, 1076);
    Laid(TEXTS, Numbers(7), 0);
    Laid(TEXTS + Numbers(7), ALIAS, 0);
    Laid(TEXTS + Numbers(7) + ALIAS, RESERVED, 0);
    Laid(TEXTS + Numbers(7) + ALIAS + RESERVED, CRCS, 0);
  }

  const TEXTS: seq<Field> := [S(48), I, S(512), S(512)]
  const ALIAS: seq<Field> := [S(200), I, I, I]
  const RESERVED: seq<Field> := [S(800), I]
  const CRCS: seq<Field> := [H, H]

  /** Two pieces of a format without holes, one behind the other. */
  lemma Laid(fmt: seq<Field>, fmt': seq<Field>, offset: nat)
    requires NoHoles(fmt, offset) && NoHoles(fmt', offset + CalcSize(fmt))
    ensures NoHoles(fmt + fmt', offset) && CalcSize(fmt + fmt') == CalcSize(fmt) + CalcSize(fmt')
  {
    hide *;
    NoHolesAppend(fmt, fmt', offset);
    CalcSizeAppend(fmt, fmt');
  }

  lemma PacHeaderShape()
    ensures PAC_HEADER[..17] == TEXTS + Numbers(7) + ALIAS + RESERVED && CRCS == [H, H]
    ensures PAC_HEADER == PAC_HEADER[..17] + CRCS && PAC_HEADER_SIZE == 2124
  {
  }

  lemma PacHeaderParts()
    ensures CalcSize(TEXTS) == 1076 && NoHoles(TEXTS, 0) && CalcSize(ALIAS) == 212 && NoHoles(ALIAS, 1104)
    ensures CalcSize(RESERVED) == 804 && NoHoles(RESERVED, 1316) && CalcSize(CRCS) == 4 && NoHoles(CRCS, 2120)
  {
    assert NoHoles([S(512), S(512)], 52);
    assert NoHoles([I, I], 1308);
    assert NoHoles([I, I, I], 1304);
  }

  lemma FileHeaderLayout()
    ensures CalcSize(FILE_HEADER) == FILE_HEADER_SIZE && NoHoles(FILE_HEADER, 0)
  {
    hide *;
    FileHeaderParts();
    FileHeaderShape();
    NumbersLayout(11, 1540);
    Laid(NAMES, Numbers(11), 0);
    Laid(NAMES + Numbers(11), FILLER, 0);
  }

  const NAMES: seq<Field> := [I, S(512), S(512), S(512)]
  const FILLER: seq<Field> := [S(996)]

  lemma FileHeaderShape()
    ensures FILE_HEADER == NAMES + Numbers(11) + FILLER && FILE_HEADER_SIZE == 2580
  {
  }

  lemma FileHeaderParts()
    ensures CalcSize(NAMES) == 1540 && NoHoles(NAMES, 0) && CalcSize(FILLER) == 996 && NoHoles(FILLER, 1584)
  {
    assert NoHoles([S(512), S(512)], 516);
    assert NoHoles([S(512), S(512), S(512)], 4);
  }

  // ---------- Writing ----------

  /** The fields of a file configuration that reach its header. */
  datatype FileEntry = FileEntry(id: string, name: string, flag: int, check: int, omit: int, address: int)

  /** A file as pac_gen meets it: its content is there, or getting it raises. */
  datatype FileIn = FileIn(entry: FileEntry, content: Result<bytes>)

  datatype PacParams = PacParams(version: string, prdName: string, prdVersion: string, prdAlias: string,
                                 mode: int, flashType: int, nandStrategy: int, nvBackup: int, nandPageType: int,
                                 productFlag: int, isOmaDm: int, isPreload: int)

  function FileHeaderValues(e: FileEntry, size: int, offset: int): seq<Value> {
    [Num(FILE_HEADER_SIZE), Str(Utf16(e.id)), Str(Utf16(e.name)), Str([]),
     Num(size), Num(e.flag), Num(e.check), Num(offset), Num(e.omit), Num(1),
     Num(e.address), Num(0), Num(0), Num(0), Num(0), Str([])]
  }

  /** file_header */
  function FileHeader(e: FileEntry, size: int, offset: int): Result<bytes> {
    Pack(FILE_HEADER, FileHeaderValues(e, size, offset))
  }

  /** The file headers, the offset moving on by each content's size. */
  function Headers(ins: seq<FileIn>, offset: int): (r: Result<seq<bytes>>)
    ensures r.Ok? ==> |r.value| == |ins|
  {
    if ins == [] then Ok([])
    else
      var content :- ins[0].content;
      var header :- FileHeader(ins[0].entry, |content|, offset);
      var rest :- Headers(ins[1..], offset + |content|);
      Ok([header] + rest)
  }

  predicate AllThere(ins: seq<FileIn>) { forall f :: f in ins ==> f.content.Ok? }

  function Contents(ins: seq<FileIn>): (c: seq<bytes>)
    requires AllThere(ins)
    ensures |c| == |ins|
  {
    seq(|ins|, i requires 0 <= i < |ins| => ins[i].content.value)
  }

  /** The values of the main header in front of the two CRCs. */
  function PacHeaderValues(p: PacParams, size: int, count: int): seq<Value> {
    [Str(Utf16(p.version)), Num(size), Str(Utf16(p.prdName)), Str(Utf16(p.prdVersion)),
     Num(count), Num(PAC_HEADER_SIZE), Num(p.mode), Num(p.flashType), Num(p.nandStrategy),
     Num(p.nvBackup), Num(p.nandPageType), Str(Utf16(p.prdAlias)), Num(p.productFlag),
     Num(p.isOmaDm), Num(p.isPreload), Str([]), Num(PAC_MAGIC)]
  }

  /** Where the first file's data goes. */
  function DataStart(count: nat): nat { PAC_HEADER_SIZE + count * FILE_HEADER_SIZE }

  /** The main header of a file of this size, with its two CRCs. */
  function MainHeader(p: PacParams, size: int, count: int, body: bytes): Result<bytes> {
    var values := PacHeaderValues(p, size, count);
    var headerNoCrc :- Pack(PAC_HEADER[..17], values);
    var crc1, crc2 := Crc(0, headerNoCrc) as int, Crc(0, body) as int;
    Pack(PAC_HEADER, values + [Num(crc1), Num(crc2)])
  }

  /** The whole file pac_gen writes, or what it raises. */
  function Image(p: PacParams, ins: seq<FileIn>): Result<bytes> {
    var headers :- Headers(ins, DataStart(|ins|));
    HeadersOkMeansThere(ins, DataStart(|ins|));
    var datas := Flatten(Contents(ins));
    var body := Flatten(headers) + datas;
    var header :- MainHeader(p, DataStart(|ins|) + |datas|, |ins|, body);
    Ok(header + body)
  }

  lemma {:induction false} HeadersOkMeansThere(ins: seq<FileIn>, offset: int)
    ensures Headers(ins, offset).Ok? ==> AllThere(ins)
  {
    hide FileHeader;
    if ins == [] || Headers(ins, offset).Err? {
    } else {
      HeadersOkMeansThere(ins[1..], offset + |ins[0].content.value|);
      assert ins == [ins[0]] + ins[1..];
    }
  }

  predicate U32(x: int) { 0 <= x < 0x1_0000_0000 }

  predicate EntryFits(e: FileEntry) { U32(e.flag) && U32(e.check) && U32(e.omit) && U32(e.address) }

  predicate ParamsFit(p: PacParams) {
    && U32(p.mode) && U32(p.flashType) && U32(p.nandStrategy) && U32(p.nvBackup) && U32(p.nandPageType)
    && U32(p.productFlag) && U32(p.isOmaDm) && U32(p.isPreload)
  }

  lemma FileHeaderFits(e: FileEntry, size: int, offset: int)
    ensures AllPackable(FILE_HEADER, FileHeaderValues(e, size, offset)) <==> EntryFits(e) && U32(size) && U32(offset)
  {
    var v := FileHeaderValues(e, size, offset);
    if AllPackable(FILE_HEADER, v) {
      assert Packable(FILE_HEADER[4], v[4]) && Packable(FILE_HEADER[5], v[5]) && Packable(FILE_HEADER[6], v[6]);
      assert Packable(FILE_HEADER[7], v[7]) && Packable(FILE_HEADER[8], v[8]) && Packable(FILE_HEADER[10], v[10]);
    }
  }

  lemma FileHeaderIs(e: FileEntry, size: int, offset: int)
    requires FileHeader(e, size, offset).Ok?
    ensures AllPackable(FILE_HEADER, FileHeaderValues(e, size, offset))
    ensures FileHeader(e, size, offset).value == PackAll(FILE_HEADER, FileHeaderValues(e, size, offset))
  {
    PackIs(FILE_HEADER, FileHeaderValues(e, size, offset));
    hide PackAll, CalcSize, FileHeaderValues;
  }

  lemma FileHeaderOk(e: FileEntry, size: int, offset: int)
    ensures FileHeader(e, size, offset).Ok? <==> EntryFits(e) && U32(size) && U32(offset)
    ensures FileHeader(e, size, offset).Ok? ==> |FileHeader(e, size, offset).value| == FILE_HEADER_SIZE
  {
    FileHeaderFits(e, size, offset);
    FileHeaderLayout();
    hide Pack, PackAll, CalcSize, FileHeaderValues, AllPackable;
  }

  lemma PacHeaderOk(p: PacParams, size: int, count: int)
    ensures AllPackable(PAC_HEADER[..17], PacHeaderValues(p, size, count)) <==> ParamsFit(p) && U32(size) && U32(count)
  {
    var f, v := PAC_HEADER[..17], PacHeaderValues(p, size, count);
    if AllPackable(f, v) {
      assert Packable(f[1], v[1]) && Packable(f[4], v[4]) && Packable(f[6], v[6]) && Packable(f[7], v[7]);
      assert Packable(f[8], v[8]) && Packable(f[9], v[9]) && Packable(f[10], v[10]);
      assert Packable(f[12], v[12]) && Packable(f[13], v[13]) && Packable(f[14], v[14]);
    }
  }

  lemma TwoShorts(c1: bv16, c2: bv16)
    ensures AllPackable([H, H], [Num(c1 as int), Num(c2 as int)])
    ensures PackAll([H, H], [Num(c1 as int), Num(c2 as int)]) == CrcBytes(c1) + CrcBytes(c2)
  {
    var f, v := [H, H], [Num(c1 as int), Num(c2 as int)];
    assert f[1..] == [H] && v[1..] == [Num(c2 as int)];
    assert PackAll(f[1..], v[1..]) == Pack16(c2 as int) + PackAll([], []);
  }

  lemma WithCrcs(fmt: seq<Field>, values: seq<Value>, c1: bv16, c2: bv16)
    requires AllPackable(fmt, values)
    ensures Pack(fmt + [H, H], values + [Num(c1 as int), Num(c2 as int)])
              == Ok(PackAll(fmt, values) + CrcBytes(c1) + CrcBytes(c2))
  {
    hide *;
    var tail := [Num(c1 as int), Num(c2 as int)];
    TwoShorts(c1, c2);
    PackAppend(fmt, values, [H, H], tail);
    PackIs(fmt + [H, H], values + tail);
    assert PackAll(fmt, values) + (CrcBytes(c1) + CrcBytes(c2)) == PackAll(fmt, values) + CrcBytes(c1) + CrcBytes(c2);
  }

  /** The main header is 2120 packed bytes, their CRC, and the body's CRC. */
  lemma MainHeaderIs(p: PacParams, size: int, count: int, body: bytes)
    ensures MainHeader(p, size, count, body).Ok? <==> ParamsFit(p) && U32(size) && U32(count)
    ensures MainHeader(p, size, count, body).Ok? ==>
              var values := PacHeaderValues(p, size, count);
              && AllPackable(PAC_HEADER[..17], values)
              && |PackAll(PAC_HEADER[..17], values)| == 2120
              && MainHeader(p, size, count, body).value == PackAll(PAC_HEADER[..17], values)
                   + CrcBytes(Crc(0, PackAll(PAC_HEADER[..17], values))) + CrcBytes(Crc(0, body))
  {
    hide PacHeaderValues, CalcSize, Pack, PackAll, Crc, AllPackable, CrcBytes;
    var values := PacHeaderValues(p, size, count);
    PacHeaderOk(p, size, count);
    PacHeaderLayout();
    PackIs(PAC_HEADER[..17], values);
    if AllPackable(PAC_HEADER[..17], values) {
      WithCrcs(PAC_HEADER[..17], values, Crc(0, PackAll(PAC_HEADER[..17], values)), Crc(0, body));
    }
  }

  lemma {:induction false} HeadersOk(ins: seq<FileIn>, offset: nat)
    requires AllThere(ins) && U32(offset + |Flatten(Contents(ins))|)
    ensures Headers(ins, offset).Ok? <==> forall f :: f in ins ==> EntryFits(f.entry)
    ensures Headers(ins, offset).Ok? ==> |Flatten(Headers(ins, offset).value)| == |ins| * FILE_HEADER_SIZE
  {
    hide FileHeader;
    if ins == [] {
    } else {
      var f := ins[0];
      assert f in ins && Contents(ins)[1..] == Contents(ins[1..]);
      FileHeaderOk(f.entry, |f.content.value|, offset);
      HeadersOk(ins[1..], offset + |f.content.value|);
      assert ins == [f] + ins[1..];
    }
  }

  /** A header whose offset does not fit stops everything. */
  lemma {:induction false} HeadersNeedRoom(ins: seq<FileIn>, offset: nat, i: nat)
    requires i < |ins| && Headers(ins, offset).Ok?
    ensures AllThere(ins) && U32(offset + |Flatten(Contents(ins)[..i])|)
    ensures |Headers(ins, offset).value[i]| == FILE_HEADER_SIZE
  {
    hide FileHeader;
    HeadersOkMeansThere(ins, offset);
    var f := ins[0];
    FileHeaderOk(f.entry, |f.content.value|, offset);
    if i == 0 {
    } else {
      HeadersNeedRoom(ins[1..], offset + |f.content.value|, i - 1);
      assert Contents(ins)[..i][1..] == Contents(ins[1..])[..i - 1];
    }
  }

  /** The headers made so far, continued with those of the files left. */
  function HeadersAfter(done: seq<bytes>, ins: seq<FileIn>, offset: int): Result<seq<bytes>> {
    match Headers(ins, offset)
    case Err(e) => Err(e)
    case Ok(rest) => Ok(done + rest)
  }

  lemma HeadersAfterStep(done: seq<bytes>, ins: seq<FileIn>, i: nat, offset: int)
    requires i < |ins|
    ensures HeadersAfter(done, ins[i..], offset) ==
            match ins[i].content
            case Err(e) => Err(e)
            case Ok(c) =>
              match FileHeader(ins[i].entry, |c|, offset)
              case Err(e) => Err(e)
              case Ok(h) => HeadersAfter(done + [h], ins[i + 1..], offset + |c|)
  {
    hide FileHeader;
    assert ins[i..][1..] == ins[i + 1..];
    if ins[i].content.Ok? {
      var c := ins[i].content.value;
      var h, rest := FileHeader(ins[i].entry, |c|, offset), Headers(ins[i + 1..], offset + |c|);
      if h.Ok? && rest.Ok? {
        assert done + ([h.value] + rest.value) == done + [h.value] + rest.value;
      }
    }
  }

  lemma HeadersAfterEnds(done: seq<bytes>, ins: seq<FileIn>, offset: int)
    ensures HeadersAfter(done, ins[|ins|..], offset) == Ok(done)
    ensures HeadersAfter([], ins[0..], offset) == Headers(ins, offset)
  {
    assert ins[|ins|..] == [] && ins[0..] == ins && done + [] == done;
    hide FileHeader;
    if Headers(ins, offset).Ok? {
      assert [] + Headers(ins, offset).value == Headers(ins, offset).value;
    }
  }

  /** For how many files the content is read: up to the first that has none or whose numbers do not fit its header,
      that one's content included in the latter case. */
  function Handled(ins: seq<FileIn>, offset: int): (n: nat)
    ensures n <= |ins| && forall k :: 0 <= k < n ==> ins[k].content.Ok?
  {
    if ins == [] || ins[0].content.Err? then 0
    else
      var size := |ins[0].content.value|;
      if EntryFits(ins[0].entry) && U32(size) && U32(offset) then 1 + Handled(ins[1..], offset + size) else 1
  }

  lemma HandledStep(ins: seq<FileIn>, i: nat, offset: int)
    requires i < |ins|
    ensures Handled(ins[i..], offset) ==
            if ins[i].content.Err? then 0
            else if FileHeader(ins[i].entry, |ins[i].content.value|, offset).Err? then 1
            else 1 + Handled(ins[i + 1..], offset + |ins[i].content.value|)
  {
    hide FileHeader, EntryFits, U32;
    assert ins[i..][1..] == ins[i + 1..];
    if ins[i].content.Ok? { FileHeaderOk(ins[i].entry, |ins[i].content.value|, offset); }
  }

  /** All of them where every header can be made. */
  lemma {:induction false} HandledAll(ins: seq<FileIn>, offset: int)
    requires Headers(ins, offset).Ok?
    ensures Handled(ins, offset) == |ins|
  {
    hide FileHeader, EntryFits, U32;
    if ins == [] {
    } else {
      FileHeaderOk(ins[0].entry, |ins[0].content.value|, offset);
      HandledAll(ins[1..], offset + |ins[0].content.value|);
    }
  }

  lemma HandledEnds(ins: seq<FileIn>, offset: int)
    ensures ins[0..] == ins && Handled(ins[|ins|..], offset) == 0
  {
  }

  /** Where no headers are made, the first file whose content cannot be read, or whose numbers do not fit, says why. */
  lemma {:induction false} FirstFailure(ins: seq<FileIn>, offset: nat) returns (k: nat)
    requires Headers(ins, offset).Err?
    ensures k < |ins| && forall i :: 0 <= i < k ==> ins[i].content.Ok? && EntryFits(ins[i].entry)
    ensures AllThere(ins[..k])
    ensures ins[k].content.Err? ==> Headers(ins, offset) == Err(ins[k].content.error)
    ensures ins[k].content.Ok? ==>
              && Headers(ins, offset) == Err(StructError)
              && !(EntryFits(ins[k].entry) && U32(|ins[k].content.value|) && U32(offset + |Flatten(Contents(ins[..k]))|))
    ensures Handled(ins, offset) == if ins[k].content.Err? then k else k + 1
  {
    hide FileHeader, EntryFits, U32;
    var f := ins[0];
    if f.content.Err? {
      k := 0;
    } else {
      FileHeaderOk(f.entry, |f.content.value|, offset);
      FileHeaderError(f.entry, |f.content.value|, offset);
      if FileHeader(f.entry, |f.content.value|, offset).Err? {
        k := 0;
        assert Flatten(Contents(ins[..0])) == [];
      } else {
        var m := FirstFailure(ins[1..], offset + |f.content.value|);
        k := m + 1;
        assert ins[..k] == [f] + ins[1..][..m];
        assert Contents(ins[..k]) == [f.content.value] + Contents(ins[1..][..m]);
        assert Contents(ins[..k])[1..] == Contents(ins[1..][..m]);
        assert forall i :: 0 < i < k ==> ins[i] == ins[1..][i - 1];
      }
    }
  }

  lemma FileHeaderError(e: FileEntry, size: int, offset: int)
    ensures FileHeader(e, size, offset).Err? ==> FileHeader(e, size, offset) == Err(StructError)
  {
    PackIs(FILE_HEADER, FileHeaderValues(e, size, offset));
    hide PackAll, CalcSize, FileHeaderValues, AllPackable;
  }

  lemma MainHeaderError(p: PacParams, size: int, count: int, body: bytes)
    ensures MainHeader(p, size, count, body).Err? ==> MainHeader(p, size, count, body) == Err(StructError)
  {
    hide PacHeaderValues, CalcSize, PackAll, Crc, AllPackable, CrcBytes;
  }

  /** What the image is once all headers are made. */
  lemma ImageFromHeaders(p: PacParams, ins: seq<FileIn>)
    ensures Headers(ins, DataStart(|ins|)).Err? ==> Image(p, ins) == Err(Headers(ins, DataStart(|ins|)).error)
    ensures Headers(ins, DataStart(|ins|)).Ok? ==>
              AllThere(ins)
              && var headers, datas := Headers(ins, DataStart(|ins|)).value, Contents(ins);
                 var header := MainHeader(p, DataStart(|ins|) + |Flatten(datas)|, |ins|, Flatten(headers) + Flatten(datas));
                 Image(p, ins) == match header
                                  case Err(e) => Err(e)
                                  case Ok(h) => Ok(h + (Flatten(headers) + Flatten(datas)))
  {
    hide Headers, MainHeader, Flatten, Contents;
    HeadersOkMeansThere(ins, DataStart(|ins|));
  }

  // ---------- The parts of a written file ----------

  /** pac_gen writes a file exactly when every content can be read, every number fits its 32-bit field,
      and the whole file is smaller than 4 GiB. */
  lemma ImageOk(p: PacParams, ins: seq<FileIn>)
    ensures Image(p, ins).Ok? <==>
            && AllThere(ins) && ParamsFit(p)
            && (forall f :: f in ins ==> EntryFits(f.entry))
            && U32(DataStart(|ins|) + |Flatten(Contents(ins))|)
  {
    hide Headers, MainHeader, ParamsFit, EntryFits, Contents, Flatten;
    var start := DataStart(|ins|);
    HeadersOkMeansThere(ins, start);
    if AllThere(ins) {
      var datas := Flatten(Contents(ins));
      if Headers(ins, start).Ok? {
        MainHeaderIs(p, start + |datas|, |ins|, Flatten(Headers(ins, start).value) + datas);
      }
      if U32(start + |datas|) {
        HeadersOk(ins, start);
      }
    }
  }

  /** header, file headers, contents: their sizes, and where each begins. */
  ghost predicate Parts(p: PacParams, ins: seq<FileIn>, b: bytes, header: bytes, headers: seq<bytes>) {
    var start := DataStart(|ins|);
    && AllThere(ins) && U32(start + |Flatten(Contents(ins))|)
    && Headers(ins, start) == Ok(headers)
    && |header| == PAC_HEADER_SIZE && |Flatten(headers)| == |ins| * FILE_HEADER_SIZE
    && b == header + (Flatten(headers) + Flatten(Contents(ins)))
    && MainHeader(p, start + |Flatten(Contents(ins))|, |ins|, Flatten(headers) + Flatten(Contents(ins))) == Ok(header)
  }

  lemma ImageParts(p: PacParams, ins: seq<FileIn>) returns (header: bytes, headers: seq<bytes>)
    requires Image(p, ins).Ok?
    ensures Parts(p, ins, Image(p, ins).value, header, headers)
  {
    ImageOk(p, ins);
    hide Headers, MainHeader, ParamsFit, EntryFits, Contents, Flatten;
    var start := DataStart(|ins|);
    HeadersOk(ins, start);
    headers := Headers(ins, start).value;
    var datas := Flatten(Contents(ins));
    var body := Flatten(headers) + datas;
    MainHeaderIs(p, start + |datas|, |ins|, body);
    header := MainHeader(p, start + |datas|, |ins|, body).value;
  }

  // ---------- Checksums ----------

  /** Whether both CRCs stored in the main header are right. */
  predicate Verifies(b: bytes)
    requires |b| >= PAC_HEADER_SIZE
  {
    && b[2120..2122] == CrcBytes(Crc(0, b[..2120]))
    && b[2122..2124] == CrcBytes(Crc(0, b[2124..]))
  }

  /** A written file verifies; reading its CRC field along with the header leaves the register at zero. */
  lemma ImageVerifies(p: PacParams, ins: seq<FileIn>)
    requires Image(p, ins).Ok?
    ensures |Image(p, ins).value| >= PAC_HEADER_SIZE
    ensures Verifies(Image(p, ins).value)
    ensures Crc(0, Image(p, ins).value[..2122]) == 0
  {
    hide Image, Parts, PackAll, PacHeaderValues, Crc, Headers, Flatten, Contents, AllPackable;
    var b := Image(p, ins).value;
    var header, headers := ImageParts(p, ins);
    HeaderOfParts(p, ins, b, header, headers);
    ZeroResidue(0, b[..2120], b[2120..2122]);
    assert b[..2122] == b[..2120] + b[2120..2122];
  }

  lemma HeaderOfParts(p: PacParams, ins: seq<FileIn>, b: bytes, header: bytes, headers: seq<bytes>)
    requires Parts(p, ins, b, header, headers)
    ensures AllPackable(PAC_HEADER[..17], PacHeaderValues(p, |b|, |ins|))
    ensures |b| == DataStart(|ins|) + |Flatten(Contents(ins))|
    ensures b[..2120] == PackAll(PAC_HEADER[..17], PacHeaderValues(p, |b|, |ins|))
    ensures b[2120..2122] == CrcBytes(Crc(0, b[..2120]))
    ensures b[2122..2124] == CrcBytes(Crc(0, b[2124..]))
    ensures b[2124..] == Flatten(headers) + Flatten(Contents(ins))
  {
    hide PackAll, PacHeaderValues, Crc, Headers, Flatten, Contents, AllPackable, CrcBytes, MainHeader;
    var body := Flatten(headers) + Flatten(Contents(ins));
    var size := DataStart(|ins|) + |Flatten(Contents(ins))|;
    MainHeaderIs(p, size, |ins|, body);
    var h := PackAll(PAC_HEADER[..17], PacHeaderValues(p, size, |ins|));
    assert |b| == size;
    var x, y := CrcBytes(Crc(0, h)), CrcBytes(Crc(0, body));
    Cut(h, x, y, body, b);
  }

  lemma Cut(h: bytes, x: bytes, y: bytes, body: bytes, b: bytes)
    requires |h| == 2120 && |x| == 2 && |y| == 2 && b == h + x + y + body
    ensures b[..2120] == h && b[2120..2122] == x && b[2122..2124] == y && b[2124..] == body
  {
  }
}
