/** Which byte of a written package says what. */
module PacLayout {
  import opened Bytes
  import opened Struct
  import opened Text
  import opened Crc16
  import opened CrcDetection
  import opened PacImage
  import opened PacReader

  /** The four bytes here are this number, low byte first. */
  predicate Le32(b: bytes, at: nat, v: int) {
    && at + 4 <= |b|
    && (b[at] as int) + 0x100 * (b[at + 1] as int) + 0x1_0000 * (b[at + 2] as int) + 0x100_0000 * (b[at + 3] as int) == v
  }

  /** The n bytes here are this text: what fits of it, and zeros behind it. */
  ghost predicate TextAt(b: bytes, at: nat, n: nat, text: bytes) {
    && at + n <= |b|
    && forall j :: at <= j < at + n ==> b[j] == if j - at < |text| then text[j - at] else 0
  }

  lemma NumberField(fmt: seq<Field>, vals: seq<Value>, k: nat, at: nat, v: int)
    requires AllPackable(fmt, vals) && k < |fmt| && fmt[k] == I && vals[k] == Num(v) && CalcSize(fmt[..k]) == at
    ensures Le32(PackAll(fmt, vals), at, v) && CalcSize(fmt[..k + 1]) == at + 4
  {
    hide *;
    OffsetStep(fmt, k);
    FieldBytes(fmt, vals, k);
    CutFormat(fmt, vals, k);
    NumberThere(PackAll(fmt, vals), fmt[k], vals[k], at, v);
  }

  lemma NumberThere(b: bytes, f: Field, x: Value, at: nat, v: int)
    requires Packable(f, x) && f == I && x == Num(v)
    requires at + Width(f) <= |b| && b[at..at + Width(f)] == PackField(f, x)
    ensures Width(f) == 4 && Le32(b, at, v)
  {
    var s := b[at..at + 4];
    assert s == Pack32(v);
    hide Pack32;
    assert s[0] == b[at] && s[1] == b[at + 1] && s[2] == b[at + 2] && s[3] == b[at + 3];
  }

  lemma TextField(fmt: seq<Field>, vals: seq<Value>, k: nat, at: nat, n: nat, text: bytes)
    requires AllPackable(fmt, vals) && k < |fmt| && fmt[k] == S(n) && vals[k] == Str(text) && CalcSize(fmt[..k]) == at
    ensures TextAt(PackAll(fmt, vals), at, n, text) && CalcSize(fmt[..k + 1]) == at + n
  {
    hide *;
    OffsetStep(fmt, k);
    FieldBytes(fmt, vals, k);
    CutFormat(fmt, vals, k);
    TextThere(PackAll(fmt, vals), fmt[k], vals[k], at, n, text);
  }

  lemma TextThere(b: bytes, f: Field, x: Value, at: nat, n: nat, text: bytes)
    requires Packable(f, x) && f == S(n) && x == Str(text)
    requires at + Width(f) <= |b| && b[at..at + Width(f)] == PackField(f, x)
    ensures Width(f) == n && TextAt(b, at, n, text)
  {
    var s := b[at..at + n];
    assert s == Fixed(text, n);
    hide Fixed;
    assert forall j :: at <= j < at + n ==> b[j] == s[j - at];
  }

  lemma FrontEmpty(fmt: seq<Field>)
    ensures CalcSize(fmt[..0]) == 0
  {
  }

  /** Every byte of a file header. */
  lemma FileHeaderBytes(e: FileEntry, size: int, offset: int)
    requires FileHeader(e, size, offset).Ok?
    ensures var b := FileHeader(e, size, offset).value;
            && |b| == 2580 && Le32(b, 0, 2580) && TextAt(b, 4, 512, Utf16(e.id)) && TextAt(b, 516, 512, Utf16(e.name))
            && TextAt(b, 1028, 512, []) && Le32(b, 1540, size) && Le32(b, 1544, e.flag) && Le32(b, 1548, e.check)
            && Le32(b, 1552, offset) && Le32(b, 1556, e.omit) && Le32(b, 1560, 1) && Le32(b, 1564, e.address)
            && Le32(b, 1568, 0) && Le32(b, 1572, 0) && Le32(b, 1576, 0) && Le32(b, 1580, 0) && TextAt(b, 1584, 996, [])
  {
    hide *;
    FileHeaderIs(e, size, offset);
    FileHeaderOk(e, size, offset);
    FileHeaderFields(e, size, offset);
    FileHeaderConstants(e, size, offset);
    HeaderSizes();
    var f, v := FILE_HEADER, FileHeaderValues(e, size, offset);
    FrontEmpty(f);
    NumberField(f, v, 0, 0, 2580);
    TextField(f, v, 1, 4, 512, Utf16(e.id));
    TextField(f, v, 2, 516, 512, Utf16(e.name));
    TextField(f, v, 3, 1028, 512, []);
    NumberField(f, v, 4, 1540, size);
    NumberField(f, v, 5, 1544, e.flag);
    NumberField(f, v, 6, 1548, e.check);
    NumberField(f, v, 7, 1552, offset);
    NumberField(f, v, 8, 1556, e.omit);
    NumberField(f, v, 9, 1560, 1);
    NumberField(f, v, 10, 1564, e.address);
    NumberField(f, v, 11, 1568, 0);
    NumberField(f, v, 12, 1572, 0);
    NumberField(f, v, 13, 1576, 0);
    NumberField(f, v, 14, 1580, 0);
    TextField(f, v, 15, 1584, 996, []);
  }

  lemma HeaderSizes()
    ensures FILE_HEADER_SIZE == 2580 && PAC_HEADER_SIZE == 2124 && PAC_MAGIC == 0xFFFA_FFFA
  {
  }

  /** The first 2120 bytes of a file of this size. */
  lemma FrontBytes(p: PacParams, size: int, count: int)
    requires AllPackable(PAC_HEADER[..17], PacHeaderValues(p, size, count))
    ensures var b := PackAll(PAC_HEADER[..17], PacHeaderValues(p, size, count));
            && TextAt(b, 0, 48, Utf16(p.version)) && Le32(b, 48, size) && TextAt(b, 52, 512, Utf16(p.prdName))
            && TextAt(b, 564, 512, Utf16(p.prdVersion)) && Le32(b, 1076, count) && Le32(b, 1080, 2124)
            && Le32(b, 1084, p.mode) && Le32(b, 1088, p.flashType) && Le32(b, 1092, p.nandStrategy)
            && Le32(b, 1096, p.nvBackup) && Le32(b, 1100, p.nandPageType) && TextAt(b, 1104, 200, Utf16(p.prdAlias))
            && Le32(b, 1304, p.productFlag) && Le32(b, 1308, p.isOmaDm) && Le32(b, 1312, p.isPreload)
            && TextAt(b, 1316, 800, []) && Le32(b, 2116, 0xFFFA_FFFA)
  {
    hide *;
    HeaderSizes();
    PacHeaderFields();
    PacHeaderTexts(p, size, count);
    PacHeaderNumbers(p, size, count);
    SeventeenFields();
    var f, v := PAC_HEADER[..17], PacHeaderValues(p, size, count);
    FrontEmpty(f);
    TextField(f, v, 0, 0, 48, Utf16(p.version));
    NumberField(f, v, 1, 48, size);
    TextField(f, v, 2, 52, 512, Utf16(p.prdName));
    TextField(f, v, 3, 564, 512, Utf16(p.prdVersion));
    NumberField(f, v, 4, 1076, count);
    NumberField(f, v, 5, 1080, 2124);
    NumberField(f, v, 6, 1084, p.mode);
    NumberField(f, v, 7, 1088, p.flashType);
    NumberField(f, v, 8, 1092, p.nandStrategy);
    NumberField(f, v, 9, 1096, p.nvBackup);
    NumberField(f, v, 10, 1100, p.nandPageType);
    TextField(f, v, 11, 1104, 200, Utf16(p.prdAlias));
    NumberField(f, v, 12, 1304, p.productFlag);
    NumberField(f, v, 13, 1308, p.isOmaDm);
    NumberField(f, v, 14, 1312, p.isPreload);
    TextField(f, v, 15, 1316, 800, []);
    NumberField(f, v, 16, 2116, 0xFFFA_FFFA);
  }

  lemma SeventeenFields()
    ensures |PAC_HEADER| == 19 && |PAC_HEADER[..17]| == 17
  {
  }

  /** What stands in the front of a string stands there in the whole. */
  lemma Kept(a: bytes, b: bytes, at: nat, v: int)
    requires |a| <= |b| && b[..|a|] == a
    ensures Le32(a, at, v) ==> Le32(b, at, v)
  {
  }

  lemma KeptText(a: bytes, b: bytes, at: nat, n: nat, text: bytes)
    requires |a| <= |b| && b[..|a|] == a
    ensures TextAt(a, at, n, text) ==> TextAt(b, at, n, text)
  {
  }

  /** The main header of a written package, byte by byte, its magic spelled out. */
  lemma MainHeaderBytes(p: PacParams, ins: seq<FileIn>)
    requires Image(p, ins).Ok?
    ensures var b := Image(p, ins).value;
            && |b| >= 2124 && TextAt(b, 0, 48, Utf16(p.version)) && Le32(b, 48, |b|)
            && TextAt(b, 52, 512, Utf16(p.prdName)) && TextAt(b, 564, 512, Utf16(p.prdVersion))
            && Le32(b, 1076, |ins|) && Le32(b, 1080, 2124)
            && Le32(b, 1084, p.mode) && Le32(b, 1088, p.flashType) && Le32(b, 1092, p.nandStrategy)
            && Le32(b, 1096, p.nvBackup) && Le32(b, 1100, p.nandPageType) && TextAt(b, 1104, 200, Utf16(p.prdAlias))
            && Le32(b, 1304, p.productFlag) && Le32(b, 1308, p.isOmaDm) && Le32(b, 1312, p.isPreload)
            && TextAt(b, 1316, 800, []) && b[2116..2120] == [0xfa, 0xff, 0xfa, 0xff]
            && (b[2120] as int) + 0x100 * (b[2121] as int) == Crc(0, b[..2120]) as int
            && (b[2122] as int) + 0x100 * (b[2123] as int) == Crc(0, b[2124..]) as int
  {
    hide *;
    var b := Image(p, ins).value;
    var header, headers := ImageParts(p, ins);
    PartsLength(p, ins, b, header, headers);
    HeaderOfParts(p, ins, b, header, headers);
    HeaderSizes();
    SeventeenFields();
    FrontBytes(p, |b|, |ins|);
    var a := PackAll(PAC_HEADER[..17], PacHeaderValues(p, |b|, |ins|));
    assert |a| == 2120;
    FrontKept(a, b, p, |b|, |ins|);
    MagicThere(b);
    CrcThere(b, 2120, Crc(0, b[..2120]));
    CrcThere(b, 2122, Crc(0, b[2124..]));
  }

  lemma FrontKept(a: bytes, b: bytes, p: PacParams, size: int, count: int)
    requires |a| <= |b| && b[..|a|] == a
    requires TextAt(a, 0, 48, Utf16(p.version)) && Le32(a, 48, size) && TextAt(a, 52, 512, Utf16(p.prdName))
    requires TextAt(a, 564, 512, Utf16(p.prdVersion)) && Le32(a, 1076, count) && Le32(a, 1080, 2124)
    requires Le32(a, 1084, p.mode) && Le32(a, 1088, p.flashType) && Le32(a, 1092, p.nandStrategy)
    requires Le32(a, 1096, p.nvBackup) && Le32(a, 1100, p.nandPageType) && TextAt(a, 1104, 200, Utf16(p.prdAlias))
    requires Le32(a, 1304, p.productFlag) && Le32(a, 1308, p.isOmaDm) && Le32(a, 1312, p.isPreload)
    requires TextAt(a, 1316, 800, []) && Le32(a, 2116, 0xFFFA_FFFA)
    ensures TextAt(b, 0, 48, Utf16(p.version)) && Le32(b, 48, size) && TextAt(b, 52, 512, Utf16(p.prdName))
    ensures TextAt(b, 564, 512, Utf16(p.prdVersion)) && Le32(b, 1076, count) && Le32(b, 1080, 2124)
    ensures Le32(b, 1084, p.mode) && Le32(b, 1088, p.flashType) && Le32(b, 1092, p.nandStrategy)
    ensures Le32(b, 1096, p.nvBackup) && Le32(b, 1100, p.nandPageType) && TextAt(b, 1104, 200, Utf16(p.prdAlias))
    ensures Le32(b, 1304, p.productFlag) && Le32(b, 1308, p.isOmaDm) && Le32(b, 1312, p.isPreload)
    ensures TextAt(b, 1316, 800, []) && Le32(b, 2116, 0xFFFA_FFFA)
  {
    hide *;
    forall at: nat, v: int ensures Le32(a, at, v) ==> Le32(b, at, v) { Kept(a, b, at, v); }
    forall at: nat, n: nat, text: bytes ensures TextAt(a, at, n, text) ==> TextAt(b, at, n, text) {
      KeptText(a, b, at, n, text);
    }
  }

  lemma MagicThere(b: bytes)
    requires |b| >= 2124 && Le32(b, 2116, 0xFFFA_FFFA)
    ensures b[2116..2120] == [0xfa, 0xff, 0xfa, 0xff]
  {
    var w, x, y, z := b[2116] as int, b[2117] as int, b[2118] as int, b[2119] as int;
    assert w + 0x100 * x + 0x1_0000 * (y + 0x100 * z) == 0xFFFA + 0x1_0000 * 0xFFFA;
    assert y + 0x100 * z == 0xFFFA;
  }

  lemma CrcThere(b: bytes, at: nat, c: bv16)
    requires at + 2 <= |b| && b[at..at + 2] == CrcBytes(c)
    ensures (b[at] as int) + 0x100 * (b[at + 1] as int) == c as int
  {
    var s := b[at..at + 2];
    assert s[0] == b[at] && s[1] == b[at + 1];
  }

  // ---------- The moving offset ----------

  function Number(b: bytes, at: nat): nat
    requires at + 4 <= |b|
  {
    (b[at] as int) + 0x100 * (b[at + 1] as int) + 0x1_0000 * (b[at + 2] as int) + 0x100_0000 * (b[at + 3] as int)
  }

  /** The size and the offset that header i of a file states. */
  function SizeField(b: bytes, i: nat): nat
    requires Slot(i) + FILE_HEADER_SIZE <= |b|
  {
    Number(b, Slot(i) + 1540)
  }

  function OffsetField(b: bytes, i: nat): nat
    requires Slot(i) + FILE_HEADER_SIZE <= |b|
  {
    Number(b, Slot(i) + 1552)
  }

  lemma FieldsRead(p: PacParams, ins: seq<FileIn>, b: bytes, header: bytes, headers: seq<bytes>, i: nat)
    requires Parts(p, ins, b, header, headers) && i < |ins| && AllThere(ins)
    ensures Slot(i) + FILE_HEADER_SIZE <= DataStart(|ins|) <= |b|
    ensures ins[i].content.Ok?
    ensures SizeField(b, i) == |ins[i].content.value| && OffsetField(b, i) == OffsetOf(ins, i)
  {
    hide *;
    ThereAt(ins, i);
    FilePlaced(p, ins, b, header, headers, i);
    HeaderSizes();
    FileHeaderBytes(ins[i].entry, |ins[i].content.value|, OffsetOf(ins, i));
    FieldsAre(b, i, |ins[i].content.value|, OffsetOf(ins, i));
  }

  lemma FieldsAre(b: bytes, i: nat, size: nat, offset: nat)
    requires Slot(i) + FILE_HEADER_SIZE <= |b|
    requires var h := b[Slot(i)..Slot(i) + FILE_HEADER_SIZE]; Le32(h, 1540, size) && Le32(h, 1552, offset)
    ensures SizeField(b, i) == size && OffsetField(b, i) == offset
  {
    hide Slot;
    var at := Slot(i);
    var h := b[at..at + FILE_HEADER_SIZE];
    assert forall k :: 0 <= k < 2580 ==> h[k] == b[at + k];
    assert b[at + 1540 + 1] == h[1541] && b[at + 1540 + 2] == h[1542] && b[at + 1540 + 3] == h[1543];
    assert b[at + 1552 + 1] == h[1553] && b[at + 1552 + 2] == h[1554] && b[at + 1552 + 3] == h[1555];
  }

  lemma NextOffset(ins: seq<FileIn>, i: nat)
    requires AllThere(ins) && i < |ins|
    ensures ins[i].content.Ok? && OffsetOf(ins, i) + |ins[i].content.value| == OffsetOf(ins, i + 1)
  {
    var c := Contents(ins);
    assert c[..i + 1] == c[..i] + [c[i]];
    FlattenAppend(c[..i], [c[i]]);
    assert Flatten([c[i]]) == c[i] + Flatten([c[i]][1..]);
  }

  lemma OffsetLast(ins: seq<FileIn>)
    requires AllThere(ins)
    ensures OffsetOf(ins, 0) == DataStart(|ins|)
    ensures OffsetOf(ins, |ins|) == DataStart(|ins|) + |Flatten(Contents(ins))|
  {
    assert Contents(ins)[..|ins|] == Contents(ins);
  }

  /** The data regions the headers state start right behind the headers, follow each other without gap or
      overlap, and end where the file ends; each has its content's size. */
  lemma ImageTiled(p: PacParams, ins: seq<FileIn>, i: nat)
    requires Image(p, ins).Ok? && i < |ins|
    ensures var b := Image(p, ins).value;
            && AllThere(ins) && Slot(i) + FILE_HEADER_SIZE <= |b|
            && SizeField(b, i) == |ins[i].content.value|
            && OffsetField(b, i) + SizeField(b, i) <= |b|
            && (i == 0 ==> OffsetField(b, i) == PAC_HEADER_SIZE + |ins| * FILE_HEADER_SIZE)
            && (i > 0 ==> Slot(i - 1) + FILE_HEADER_SIZE <= |b|
                          && OffsetField(b, i) == OffsetField(b, i - 1) + SizeField(b, i - 1))
            && (i == |ins| - 1 ==> OffsetField(b, i) + SizeField(b, i) == |b|)
            && b[OffsetField(b, i)..OffsetField(b, i) + SizeField(b, i)] == ins[i].content.value
  {
    hide *;
    var b := Image(p, ins).value;
    var header, headers := ImageParts(p, ins);
    PartsThere(p, ins, b, header, headers);
    ThereAt(ins, i);
    FieldsRead(p, ins, b, header, headers, i);
    FilePlaced(p, ins, b, header, headers, i);
    HeaderOfParts(p, ins, b, header, headers);
    OffsetLast(ins);
    NextOffset(ins, i);
    DataStartIs(|ins|);
    if i > 0 {
      FieldsRead(p, ins, b, header, headers, i - 1);
      NextOffset(ins, i - 1);
    }
  }

  lemma DataStartIs(n: nat)
    ensures DataStart(n) == PAC_HEADER_SIZE + n * FILE_HEADER_SIZE
  {
  }
}
