/** The old binary little-endian cpio format as the package builder writes it, and a reader for it. */
module Cpio {
  import opened Bytes
  import opened Struct
  import opened Disk

  /** CPIO_OLDLE_MAGIC: 0x71c7, low byte first. */
  const MAGIC: bytes := [0xc7, 0x71]
  /** "TRAILER!!!" */
  const TRAILER: bytes := [0x54, 0x52, 0x41, 0x49, 0x4c, 0x45, 0x52, 0x21, 0x21, 0x21]

  function UshortLo(x: int): (r: nat)
    ensures r < 0x1_0000
  {
    x % 0x1_0000
  }

  function UshortHi(x: int): (r: nat)
    ensures r < 0x1_0000
  {
    x / 0x1_0000 % 0x1_0000
  }

  /** The two halves of a value below 2^32 rebuild it; larger or negative values come back modulo 2^32. */
  lemma HalvesRebuild(x: int)
    ensures UshortHi(x) * 0x1_0000 + UshortLo(x) == x % 0x1_0000_0000
  {
  }

  /** (n + 1) & ~1 */
  function Even(n: nat): (r: nat)
    ensures r % 2 == 0 && n <= r <= n + 1
  {
    (n + 1) / 2 * 2
  }

  /** The magic and the 12 shorts of CPIO_FILE_FORMAT. */
  const HEADER: seq<Field> := [S(2), H, H, H, H, H, H, H, H, H, H, H, H]

  /** The values struct.pack is given in front of name and data. */
  function HeaderValues(st: Stat, nameSize: nat, fileSize: nat): seq<Value> {
    [Str(MAGIC),
     Num(UshortLo(st.dev)),
     Num(UshortLo(st.ino)),
     Num(UshortLo(st.mode)),
     Num(UshortLo(st.uid)),
     Num(UshortLo(st.gid)),
     Num(UshortLo(st.nlink)),
     Num(0),
     Num(UshortHi(st.mtime)),
     Num(UshortLo(st.mtime)),
     Num(UshortLo(nameSize)),
     Num(UshortHi(fileSize)),
     Num(UshortLo(fileSize))]
  }

  /** struct.pack of one record: header, padded name, padded data. */
  function PackRecord(st: Stat, name: bytes, data: bytes): (r: Result<bytes>) {
    var nameSize := |name| + 1;
    Pack(HEADER + [S(Even(nameSize)), S(Even(|data|))],
         HeaderValues(st, nameSize, |data|) + [Str(name), Str(data)])
  }

  /** The trailer's stat fields: all zero but the link count. */
  const TRAILER_STAT := Stat(0, 0, 0, 0, 0, 1, 0)

  // ---------- The bytes of a record ----------

  function Header(st: Stat, nameSize: nat, fileSize: nat): (b: bytes)
    ensures |b| == 26
  {
    HeaderIsPackable(st, nameSize, fileSize);
    HeaderSize();
    PackAll(HEADER, HeaderValues(st, nameSize, fileSize))
  }

  lemma HeaderSize()
    ensures CalcSize(HEADER) == 26
  {
    CalcSizeAppend([S(2), H, H, H], [H, H, H, H, H, H, H, H, H]);
    CalcSizeAppend([H, H, H], [H, H, H, H, H, H]);
    CalcSizeAppend([H, H, H], [H, H, H]);
    assert HEADER == [S(2), H, H, H] + ([H, H, H] + ([H, H, H] + [H, H, H]));
    assert CalcSize([H, H, H]) == 6 && CalcSize([S(2), H, H, H]) == 8;
  }

  lemma HeaderIsPackable(st: Stat, nameSize: nat, fileSize: nat)
    ensures AllPackable(HEADER, HeaderValues(st, nameSize, fileSize))
  {
  }

  function RecordBytes(st: Stat, name: bytes, data: bytes): (b: bytes)
    ensures |b| == 26 + Even(|name| + 1) + Even(|data|)
  {
    Header(st, |name| + 1, |data|) + Fixed(name, Even(|name| + 1)) + Fixed(data, Even(|data|))
  }

  lemma PackRecordIs(st: Stat, name: bytes, data: bytes)
    ensures PackRecord(st, name, data) == Ok(RecordBytes(st, name, data))
  {
    hide *;
    var n, d := Even(|name| + 1), Even(|data|);
    var hv, tail := HeaderValues(st, |name| + 1, |data|), [Str(name), Str(data)];
    PackRecordPacks(st, name, data);
    HeaderIs(st, |name| + 1, |data|);
    TwoFields(n, d, name, data);
    PackAppend(HEADER, hv, [S(n), S(d)], tail);
    PackIs(HEADER + [S(n), S(d)], hv + tail);
    Regroup(Header(st, |name| + 1, |data|), Fixed(name, n), Fixed(data, d));
  }

  lemma PackRecordPacks(st: Stat, name: bytes, data: bytes)
    ensures PackRecord(st, name, data) == Pack(HEADER + [S(Even(|name| + 1)), S(Even(|data|))],
                                               HeaderValues(st, |name| + 1, |data|) + [Str(name), Str(data)])
    ensures RecordBytes(st, name, data)
              == Header(st, |name| + 1, |data|) + Fixed(name, Even(|name| + 1)) + Fixed(data, Even(|data|))
  {
    hide Pack, HeaderValues, HEADER, Even;
  }

  lemma HeaderIs(st: Stat, nameSize: nat, fileSize: nat)
    ensures AllPackable(HEADER, HeaderValues(st, nameSize, fileSize))
    ensures Header(st, nameSize, fileSize) == PackAll(HEADER, HeaderValues(st, nameSize, fileSize))
  {
    HeaderIsPackable(st, nameSize, fileSize);
  }

  lemma TwoFields(n: nat, d: nat, name: bytes, data: bytes)
    ensures AllPackable([S(n), S(d)], [Str(name), Str(data)])
    ensures PackAll([S(n), S(d)], [Str(name), Str(data)]) == Fixed(name, n) + Fixed(data, d)
  {
    var f, v := [S(n), S(d)], [Str(name), Str(data)];
    assert f[1..] == [S(d)] && v[1..] == [Str(data)];
    assert PackAll(f[1..], v[1..]) == Fixed(data, d) + PackAll([], []);
  }

  // ---------- A reader, record by record ----------

  datatype Record = Record(dev: nat, ino: nat, mode: nat, uid: nat, gid: nat, nlink: nat, rdev: nat, mtime: nat,
                           name: bytes, data: bytes)

  /** The first record of b and the bytes it takes; None when b does not start with a whole record. */
  function ReadRecord(b: bytes): (r: Option<(Record, nat)>)
    ensures r.Some? ==> 0 < r.value.1 <= |b|
  {
    if |b| < 26 then None
    else
      HeaderSize();
      ReadBody(b, Unpack(HEADER, b[..26]))
  }

  function ReadBody(b: bytes, v: seq<Value>): (r: Option<(Record, nat)>)
    requires |b| >= 26 && AllPackable(HEADER, v)
    ensures r.Some? ==> 0 < r.value.1 <= |b|
  {
    var nameSize, fileSize := v[10].v, v[11].v * 0x1_0000 + v[12].v;
    var dataAt := 26 + Even(nameSize);
    var end := dataAt + Even(fileSize);
    if v[0].b != MAGIC || nameSize == 0 || end > |b| || b[26 + nameSize - 1] != 0 then None
    else Some((Record(v[1].v, v[2].v, v[3].v, v[4].v, v[5].v, v[6].v, v[7].v,
                      v[8].v * 0x1_0000 + v[9].v,
                      b[26..26 + nameSize - 1], b[dataAt..dataAt + fileSize]), end))
  }

  /** The records in front of the trailer. */
  function ReadArchive(b: bytes): Option<seq<Record>>
    decreases |b|
  {
    match ReadRecord(b)
    case None => None
    case Some((r, n)) =>
      if r.name == TRAILER then Some([])
      else match ReadArchive(b[n..])
           case None => None
           case Some(rest) => Some([r] + rest)
  }

  /** What a reader should find: the stat fields at 16 bits, the time at 32. */
  function Expected(st: Stat, name: bytes, data: bytes): Record {
    Record(UshortLo(st.dev), UshortLo(st.ino), UshortLo(st.mode), UshortLo(st.uid), UshortLo(st.gid),
           UshortLo(st.nlink), 0, st.mtime % 0x1_0000_0000, name, data)
  }

  predicate Fits(name: bytes, data: bytes) { |name| + 1 < 0x1_0000 && |data| < 0x1_0000_0000 }

  /** The header's values come back from its bytes. */
  lemma HeaderRead(st: Stat, nameSize: nat, fileSize: nat)
    ensures |Header(st, nameSize, fileSize)| == CalcSize(HEADER)
    ensures Unpack(HEADER, Header(st, nameSize, fileSize)) == HeaderValues(st, nameSize, fileSize)
  {
    hide *;
    var v := HeaderValues(st, nameSize, fileSize);
    HeaderIs(st, nameSize, fileSize);
    UnpackPack(HEADER, v);
    HeaderStored(st, nameSize, fileSize);
  }

  lemma HeaderStored(st: Stat, nameSize: nat, fileSize: nat)
    ensures |HEADER| == |HeaderValues(st, nameSize, fileSize)| && AllPackable(HEADER, HeaderValues(st, nameSize, fileSize))
    ensures forall i :: 0 <= i < |HEADER| ==>
              Stored(HEADER[i], HeaderValues(st, nameSize, fileSize)[i]) == HeaderValues(st, nameSize, fileSize)[i]
  {
    hide UshortLo, UshortHi;
    HeaderIsPackable(st, nameSize, fileSize);
    assert Fixed(MAGIC, 2) == MAGIC;
  }

  /** Behind a 26-byte header stand the name, its NUL and the data. */
  ghost predicate BodyAt(b: bytes, name: bytes, data: bytes) {
    var dataAt := 26 + Even(|name| + 1);
    && dataAt + Even(|data|) <= |b|
    && b[26..26 + |name|] == name && b[26 + |name|] == 0
    && b[dataAt..dataAt + |data|] == data
  }

  lemma RecordParts(st: Stat, name: bytes, data: bytes, rest: bytes)
    ensures var b := RecordBytes(st, name, data) + rest;
            b[..26] == Header(st, |name| + 1, |data|) && BodyAt(b, name, data)
            && b[|RecordBytes(st, name, data)|..] == rest
  {
    hide Header;
    var n := |name| + 1;
    var h, f, d := Header(st, n, |data|), Fixed(name, Even(n)), Fixed(data, Even(|data|));
    var b := RecordBytes(st, name, data) + rest;
    assert b == h + f + d + rest;
    assert b[26..26 + Even(n)] == f;
    assert b[26..26 + |name|] == f[..|name|] == name;
    assert b[26 + |name|] == f[|name|] == 0;
    assert b[26 + Even(n)..26 + Even(n) + |d|] == d;
    assert b[26 + Even(n)..26 + Even(n) + |data|] == d[..|data|] == data;
  }

  // ---------- Reading back one record ----------

  lemma SizesRead(name: bytes, data: bytes)
    ensures UshortHi(|data|) * 0x1_0000 + UshortLo(|data|) == |data| % 0x1_0000_0000
    ensures |name| + 1 < 0x1_0000 ==> UshortLo(|name| + 1) == |name| + 1
    ensures |name| + 1 >= 0x1_0000 ==> UshortLo(|name| + 1) < |name| + 1
    ensures |data| >= 0x1_0000_0000 ==> |data| % 0x1_0000_0000 < |data|
  {
    HalvesRebuild(|data|);
  }

  /** What the reader makes of a header and a body of the sizes the header states. */
  lemma ReadBodyIs(b: bytes, v: seq<Value>, name: bytes, data: bytes)
    requires |b| >= 26 && AllPackable(HEADER, v) && v[0].b == MAGIC
    requires v[10].v == |name| + 1 && v[11].v * 0x1_0000 + v[12].v == |data|
    requires BodyAt(b, name, data)
    ensures ReadBody(b, v) == Some((Record(v[1].v, v[2].v, v[3].v, v[4].v, v[5].v, v[6].v, v[7].v,
                                           v[8].v * 0x1_0000 + v[9].v, name, data),
                                    26 + Even(|name| + 1) + Even(|data|)))
  {
    hide Even;
  }

  /** The reader takes as many bytes of name and data as the header states. */
  lemma ReadBodySizes(b: bytes, v: seq<Value>)
    requires |b| >= 26 && AllPackable(HEADER, v)
    ensures ReadBody(b, v).Some? ==>
              |ReadBody(b, v).value.0.name| + 1 == v[10].v
              && |ReadBody(b, v).value.0.data| == v[11].v * 0x1_0000 + v[12].v
  {
    hide Even;
  }

  lemma ReadRecordIs(st: Stat, name: bytes, data: bytes, rest: bytes)
    ensures AllPackable(HEADER, HeaderValues(st, |name| + 1, |data|))
    ensures ReadRecord(RecordBytes(st, name, data) + rest)
              == ReadBody(RecordBytes(st, name, data) + rest, HeaderValues(st, |name| + 1, |data|))
  {
    hide Header, Unpack, UshortLo, UshortHi, Even, ReadBody;
    HeaderIsPackable(st, |name| + 1, |data|);
    RecordParts(st, name, data, rest);
    HeaderRead(st, |name| + 1, |data|);
  }

  lemma HeaderValuesAre(st: Stat, n: nat, d: nat)
    ensures AllPackable(HEADER, HeaderValues(st, n, d))
    ensures var v := HeaderValues(st, n, d);
            && v[0].b == MAGIC && v[1].v == UshortLo(st.dev) && v[2].v == UshortLo(st.ino)
            && v[3].v == UshortLo(st.mode) && v[4].v == UshortLo(st.uid) && v[5].v == UshortLo(st.gid)
            && v[6].v == UshortLo(st.nlink) && v[7].v == 0
            && v[8].v * 0x1_0000 + v[9].v == UshortHi(st.mtime) * 0x1_0000 + UshortLo(st.mtime)
            && v[10].v == UshortLo(n)
            && v[11].v * 0x1_0000 + v[12].v == UshortHi(d) * 0x1_0000 + UshortLo(d)
  {
    hide UshortLo, UshortHi;
  }

  /** The sizes in a fitting record's header are the true ones. */
  lemma HeaderSizesAre(st: Stat, name: bytes, data: bytes)
    requires Fits(name, data)
    ensures var v := HeaderValues(st, |name| + 1, |data|);
            && |v| == 13 && v[10].Num? && v[11].Num? && v[12].Num?
            && v[10].v == |name| + 1 && v[11].v * 0x1_0000 + v[12].v == |data|
  {
    HeaderValuesAre(st, |name| + 1, |data|);
    SizesRead(name, data);
    hide HeaderValues, UshortLo, UshortHi;
  }

  /** The values in the header are those of the expected record. */
  lemma ExpectedIs(st: Stat, name: bytes, data: bytes, v: seq<Value>)
    requires v == HeaderValues(st, |name| + 1, |data|) && AllPackable(HEADER, v)
    ensures Expected(st, name, data) == Record(v[1].v, v[2].v, v[3].v, v[4].v, v[5].v, v[6].v, v[7].v,
                                               v[8].v * 0x1_0000 + v[9].v, name, data)
  {
    hide AllPackable, HeaderValues, UshortLo, UshortHi;
    HeaderValuesAre(st, |name| + 1, |data|);
    HalvesRebuild(st.mtime);
  }

  /** A record whose sizes fit is read back whole, wherever it stands. */
  lemma ReadBack(st: Stat, name: bytes, data: bytes, rest: bytes)
    requires Fits(name, data)
    ensures ReadRecord(RecordBytes(st, name, data) + rest)
              == Some((Expected(st, name, data), |RecordBytes(st, name, data)|))
  {
    hide *;
    var v := HeaderValues(st, |name| + 1, |data|);
    HeaderValuesAre(st, |name| + 1, |data|);
    HeaderSizesAre(st, name, data);
    RecordParts(st, name, data, rest);
    ReadRecordIs(st, name, data, rest);
    ReadBodyIs(RecordBytes(st, name, data) + rest, v, name, data);
    ExpectedIs(st, name, data, v);
  }

  /** A record whose sizes do not fit is read as something else, if at all. */
  lemma OversizeMisread(st: Stat, name: bytes, data: bytes, rest: bytes)
    requires !Fits(name, data)
    ensures var r := ReadRecord(RecordBytes(st, name, data) + rest);
            r.Some? ==> r.value.0.name != name || r.value.0.data != data
  {
    var v := HeaderValues(st, |name| + 1, |data|);
    ReadRecordIs(st, name, data, rest);
    SizesRead(name, data);
    hide ReadRecord, Header, UshortLo, UshortHi, Even, RecordBytes, ReadBody, AllPackable;
    ReadBodySizes(RecordBytes(st, name, data) + rest, v);
  }

  // ---------- Archives ----------

  /** One entry to archive: its encoded remote name, its stat, and its data. */
  datatype Item = Item(st: Stat, name: bytes, data: bytes)

  function ItemBytes(e: Item): bytes { RecordBytes(e.st, e.name, e.data) }

  function ArchiveBytes(es: seq<Item>): bytes {
    if es == [] then RecordBytes(TRAILER_STAT, TRAILER, []) else ItemBytes(es[0]) + ArchiveBytes(es[1..])
  }

  function ExpectedAll(es: seq<Item>): (rs: seq<Record>)
    ensures |rs| == |es|
  {
    seq(|es|, i requires 0 <= i < |es| => Expected(es[i].st, es[i].name, es[i].data))
  }

  predicate Archivable(e: Item) { Fits(e.name, e.data) && e.name != TRAILER }

  lemma ExpectedStep(es: seq<Item>)
    requires es != []
    ensures ExpectedAll(es) == [Expected(es[0].st, es[0].name, es[0].data)] + ExpectedAll(es[1..])
  {
  }

  lemma ReadStep(e: Item, rest: bytes)
    requires Fits(e.name, e.data)
    ensures ReadArchive(ItemBytes(e) + rest)
              == if e.name == TRAILER then Some([])
                 else match ReadArchive(rest)
                      case None => None
                      case Some(rs) => Some([Expected(e.st, e.name, e.data)] + rs)
  {
    hide RecordBytes, ReadRecord;
    ReadBack(e.st, e.name, e.data, rest);
    assert (ItemBytes(e) + rest)[|ItemBytes(e)|..] == rest;
  }

  lemma ReadStepExact(e: Item, rest: bytes, rs: seq<Record>)
    requires Fits(e.name, e.data)
    ensures ReadArchive(ItemBytes(e) + rest) == Some([Expected(e.st, e.name, e.data)] + rs) <==>
            e.name != TRAILER && ReadArchive(rest) == Some(rs)
  {
    hide *;
    ReadStep(e, rest);
    var x := Expected(e.st, e.name, e.data);
    if ReadArchive(rest).Some? { SameTail(x, ReadArchive(rest).value, rs); }
  }

  lemma SameTail(x: Record, q: seq<Record>, rs: seq<Record>)
    ensures [x] + q == [x] + rs <==> q == rs
  {
    assert q == ([x] + q)[1..] && rs == ([x] + rs)[1..];
  }

  /** An archive decodes to exactly its entries iff every size fits and no name is the trailer's. */
  lemma {:induction false} ArchiveRoundTrip(es: seq<Item>)
    ensures ReadArchive(ArchiveBytes(es)) == Some(ExpectedAll(es)) <==> forall e :: e in es ==> Archivable(e)
  {
    hide *;
    if es == [] {
      ReadTrailer();
    } else {
      ArchiveHead(es);
      ExpectedStep(es);
      ArchiveRoundTrip(es[1..]);
      RoundTripStep(es[0], ArchiveBytes(es[1..]), ExpectedAll(es[1..]));
      assert es == [es[0]] + es[1..];
    }
  }

  lemma ReadTrailer()
    ensures ArchiveBytes([]) == RecordBytes(TRAILER_STAT, TRAILER, []) && ExpectedAll([]) == []
    ensures ReadArchive(ArchiveBytes([])) == Some([])
  {
    hide RecordBytes, ReadRecord;
    ReadBack(TRAILER_STAT, TRAILER, [], []);
    assert ArchiveBytes([]) == RecordBytes(TRAILER_STAT, TRAILER, []) + [];
  }

  lemma ArchiveHead(es: seq<Item>)
    requires es != []
    ensures ArchiveBytes(es) == ItemBytes(es[0]) + ArchiveBytes(es[1..])
  {
  }

  /** One entry in front of what is known. */
  lemma RoundTripStep(e: Item, rest: bytes, rs: seq<Record>)
    ensures ReadArchive(ItemBytes(e) + rest) == Some([Expected(e.st, e.name, e.data)] + rs) <==>
            Archivable(e) && ReadArchive(rest) == Some(rs)
  {
    hide RecordBytes, ReadRecord, Expected, Fits;
    ExpectedNamed(e.st, e.name, e.data);
    if Fits(e.name, e.data) {
      hide ReadArchive;
      ReadStepExact(e, rest, rs);
    } else {
      OversizeMisread(e.st, e.name, e.data, rest);
      ReadHead(ItemBytes(e) + rest);
    }
  }

  lemma ExpectedNamed(st: Stat, name: bytes, data: bytes)
    ensures Expected(st, name, data).name == name && Expected(st, name, data).data == data
  {
  }

  /** The first record of an archive is the one at its start. */
  lemma ReadHead(b: bytes)
    ensures ReadArchive(b).Some? && ReadArchive(b).value != [] ==>
              ReadRecord(b).Some? && ReadArchive(b).value[0] == ReadRecord(b).value.0
  {
    hide ReadRecord;
  }

  /** Where record k starts. */
  function StartOf(es: seq<Item>, k: nat): nat
    requires k <= |es|
  {
    if k == 0 then 0 else |ItemBytes(es[0])| + StartOf(es[1..], k - 1)
  }

  lemma EvenSum(a: nat, b: nat)
    requires a % 2 == 0 && b % 2 == 0
    ensures (a + b) % 2 == 0
  {
  }

  lemma RecordIsEven(st: Stat, name: bytes, data: bytes)
    ensures |RecordBytes(st, name, data)| % 2 == 0
  {
    hide RecordBytes, Even;
    EvenSum(26, Even(|name| + 1));
    EvenSum(26 + Even(|name| + 1), Even(|data|));
  }

  /** The archive's length is even. */
  lemma {:induction false} ArchiveIsEven(es: seq<Item>)
    ensures |ArchiveBytes(es)| % 2 == 0
  {
    hide RecordBytes;
    if es == [] {
      RecordIsEven(TRAILER_STAT, TRAILER, []);
    } else {
      RecordIsEven(es[0].st, es[0].name, es[0].data);
      ArchiveIsEven(es[1..]);
      EvenSum(|ItemBytes(es[0])|, |ArchiveBytes(es[1..])|);
    }
  }

  /** At this place stand a record's magic, name and terminating NUL. */
  ghost predicate RecordAt(b: bytes, at: nat, name: bytes) {
    && at + 26 + |name| < |b|
    && b[at..at + 2] == MAGIC
    && b[at + 26..at + 26 + |name|] == name && b[at + 26 + |name|] == 0
  }

  /** Every record, the trailer too, starts at an even offset. */
  lemma {:induction false} ArchiveLayout(es: seq<Item>, k: nat)
    requires k <= |es|
    ensures StartOf(es, k) % 2 == 0
    ensures RecordAt(ArchiveBytes(es), StartOf(es, k), if k < |es| then es[k].name else TRAILER)
    decreases k
  {
    hide RecordBytes, Header, RecordAt;
    var b := ArchiveBytes(es);
    if es == [] {
      RecordStart(TRAILER_STAT, TRAILER, [], []);
      assert b == b + [];
    } else if k == 0 {
      RecordStart(es[0].st, es[0].name, es[0].data, ArchiveBytes(es[1..]));
    } else {
      var rest, n, at := ArchiveBytes(es[1..]), |ItemBytes(es[0])|, StartOf(es[1..], k - 1);
      ArchiveLayout(es[1..], k - 1);
      RecordIsEven(es[0].st, es[0].name, es[0].data);
      EvenSum(n, at);
      RecordShifted(ItemBytes(es[0]), rest, at, if k < |es| then es[k].name else TRAILER);
    }
  }

  lemma RecordShifted(a: bytes, b: bytes, at: nat, name: bytes)
    requires RecordAt(b, at, name)
    ensures RecordAt(a + b, |a| + at, name)
  {
    var s, i := a + b, |a| + at;
    assert s[i..i + 2] == b[at..at + 2];
    assert s[i + 26..i + 26 + |name|] == b[at + 26..at + 26 + |name|];
  }

  /** The NUL after the name is the first one exactly when the name holds none. */
  lemma FirstNul(b: bytes, at: nat, name: bytes)
    requires RecordAt(b, at, name)
    ensures 0 !in name <==> forall i :: at + 26 <= i < at + 26 + |name| ==> b[i] != 0
  {
    assert forall i :: 0 <= i < |name| ==> name[i] == b[at + 26..at + 26 + |name|][i] == b[at + 26 + i];
    assert forall i :: at + 26 <= i < at + 26 + |name| ==> b[i] == name[i - at - 26];
  }

  lemma RecordStart(st: Stat, name: bytes, data: bytes, rest: bytes)
    ensures RecordAt(RecordBytes(st, name, data) + rest, 0, name)
  {
    hide Header, Even;
    RecordParts(st, name, data, rest);
    HeaderMagic(st, |name| + 1, |data|);
    var b := RecordBytes(st, name, data) + rest;
    assert b[..2] == b[..26][..2];
  }

  lemma HeaderMagic(st: Stat, nameSize: nat, fileSize: nat)
    ensures Header(st, nameSize, fileSize)[..2] == MAGIC
  {
    HeaderIs(st, nameSize, fileSize);
    assert Fixed(MAGIC, 2) == MAGIC;
    assert PackField(HEADER[0], HeaderValues(st, nameSize, fileSize)[0]) == MAGIC;
  }

  // ---------- The bytes of a record, one by one ----------

  lemma HeaderOffsets()
    ensures |HEADER| == 13 && CalcSize(HEADER[..0]) == 0 && HEADER[0] == S(2)
    ensures forall k :: 1 <= k < 13 ==> HEADER[k] == H && CalcSize(HEADER[..k]) == 2 * k
  {
    hide CalcSize;
    OffsetStep(HEADER, 0);
    OffsetStep(HEADER, 1);
    OffsetStep(HEADER, 2);
    OffsetStep(HEADER, 3);
    OffsetStep(HEADER, 4);
    OffsetStep(HEADER, 5);
    OffsetStep(HEADER, 6);
    OffsetStep(HEADER, 7);
    OffsetStep(HEADER, 8);
    OffsetStep(HEADER, 9);
    OffsetStep(HEADER, 10);
    OffsetStep(HEADER, 11);
  }

  /** The short at an even place, low byte first. */
  lemma ShortAt(st: Stat, name: bytes, data: bytes, k: nat)
    requires 1 <= k < 13
    ensures AllPackable(HEADER, HeaderValues(st, |name| + 1, |data|)) && |HEADER| == 13 && HEADER[k] == H
    ensures var b := RecordBytes(st, name, data);
            (b[2 * k] as int) + 256 * (b[2 * k + 1] as int) == HeaderValues(st, |name| + 1, |data|)[k].v
  {
    hide *;
    var v, h, at := HeaderValues(st, |name| + 1, |data|), Header(st, |name| + 1, |data|), 2 * k;
    HeaderOffsets();
    HeaderIs(st, |name| + 1, |data|);
    FieldBytes(HEADER, v, k);
    CutFormat(HEADER, v, k);
    RecordFront(st, name, data);
    ShortThere(h, at, v[k]);
  }

  lemma ShortThere(h: bytes, at: nat, v: Value)
    requires Packable(H, v) && at + Width(H) <= |h| && h[at..at + Width(H)] == PackField(H, v)
    ensures at + 2 <= |h| && v.Num? && (h[at] as int) + 256 * (h[at + 1] as int) == v.v
  {
    var s := h[at..at + 2];
    assert s == Pack16(v.v);
    hide Pack16;
    assert s[0] == h[at] && s[1] == h[at + 1];
  }

  lemma RecordFront(st: Stat, name: bytes, data: bytes)
    ensures |Header(st, |name| + 1, |data|)| == 26 <= |RecordBytes(st, name, data)|
    ensures forall i :: 0 <= i < 26 ==> RecordBytes(st, name, data)[i] == Header(st, |name| + 1, |data|)[i]
  {
    hide Header, Fixed, Even;
  }

  /** The twelve shorts, each low byte first, 32-bit numbers high half first. */
  lemma RecordShorts(st: Stat, name: bytes, data: bytes)
    ensures var b := RecordBytes(st, name, data);
            && (b[2] as int) + 256 * (b[3] as int) == st.dev % 0x1_0000
            && (b[4] as int) + 256 * (b[5] as int) == st.ino % 0x1_0000
            && (b[6] as int) + 256 * (b[7] as int) == st.mode % 0x1_0000
            && (b[8] as int) + 256 * (b[9] as int) == st.uid % 0x1_0000
            && (b[10] as int) + 256 * (b[11] as int) == st.gid % 0x1_0000
            && (b[12] as int) + 256 * (b[13] as int) == st.nlink % 0x1_0000
            && (b[14] as int) + 256 * (b[15] as int) == 0
            && (b[16] as int) + 256 * (b[17] as int) == st.mtime / 0x1_0000 % 0x1_0000
            && (b[18] as int) + 256 * (b[19] as int) == st.mtime % 0x1_0000
            && (b[20] as int) + 256 * (b[21] as int) == (|name| + 1) % 0x1_0000
            && (b[22] as int) + 256 * (b[23] as int) == |data| / 0x1_0000 % 0x1_0000
            && (b[24] as int) + 256 * (b[25] as int) == |data| % 0x1_0000
  {
    hide RecordBytes, HEADER, AllPackable;
    ShortAt(st, name, data, 1);
    ShortAt(st, name, data, 2);
    ShortAt(st, name, data, 3);
    ShortAt(st, name, data, 4);
    ShortAt(st, name, data, 5);
    ShortAt(st, name, data, 6);
    ShortAt(st, name, data, 7);
    ShortAt(st, name, data, 8);
    ShortAt(st, name, data, 9);
    ShortAt(st, name, data, 10);
    ShortAt(st, name, data, 11);
    ShortAt(st, name, data, 12);
  }

  /** The magic in front, and behind the shorts the name and the data, each filled up with zeros to even length. */
  lemma RecordBody(st: Stat, name: bytes, data: bytes)
    ensures var b := RecordBytes(st, name, data);
            var d := 26 + |name| + 1 + (|name| + 1) % 2;
            && |b| == d + |data| + |data| % 2 && b[0] == 0xc7 && b[1] == 0x71
            && b[26..26 + |name|] == name && (forall i :: 26 + |name| <= i < d ==> b[i] == 0)
            && b[d..d + |data|] == data && (forall i :: d + |data| <= i < |b| ==> b[i] == 0)
  {
    hide *;
    RecordCut(st, name, data);
    MagicFront(st, name, data);
    EvenIs(|name| + 1);
    EvenIs(|data|);
    Padded(RecordBytes(st, name, data), 26, Even(|name| + 1), name);
    Padded(RecordBytes(st, name, data), 26 + Even(|name| + 1), Even(|data|), data);
  }

  lemma RecordCut(st: Stat, name: bytes, data: bytes)
    ensures var b, d := RecordBytes(st, name, data), 26 + Even(|name| + 1);
            b[26..d] == Fixed(name, Even(|name| + 1)) && b[d..d + Even(|data|)] == Fixed(data, Even(|data|))
  {
    hide Header, Fixed, Even;
  }

  lemma MagicFront(st: Stat, name: bytes, data: bytes)
    ensures RecordBytes(st, name, data)[0] == 0xc7 && RecordBytes(st, name, data)[1] == 0x71
  {
    HeaderMagic(st, |name| + 1, |data|);
    RecordFront(st, name, data);
    hide RecordBytes, Header;
    var h := Header(st, |name| + 1, |data|);
    assert h[0] == h[..2][0] && h[1] == h[..2][1];
  }

  /** A text filled up to n bytes, found at this place. */
  lemma Padded(b: bytes, at: nat, n: nat, x: bytes)
    requires |x| <= n && at + n <= |b| && b[at..at + n] == Fixed(x, n)
    ensures b[at..at + |x|] == x && forall i :: at + |x| <= i < at + n ==> b[i] == 0
  {
    hide Fixed;
    forall i | 0 <= i < n
      ensures b[at + i] == Fixed(x, n)[i]
    {
      assert b[at..at + n][i] == b[at + i];
    }
    forall i | at + |x| <= i < at + n
      ensures b[i] == 0
    {
      assert b[at + (i - at)] == Fixed(x, n)[i - at];
    }
  }

  lemma EvenIs(n: nat)
    ensures Even(n) == n + n % 2
  {
  }

  /** The trailer, whatever the archive: a record with one link, no other number but the name size, and no data. */
  lemma TrailerBytes()
    ensures RecordBytes(TRAILER_STAT, TRAILER, []) ==
            [0xc7, 0x71, 0, 0, 0, 0, 0, 0, 0, 0, 0, 0, 1, 0, 0, 0, 0, 0, 0, 0, 11, 0, 0, 0, 0, 0] +
            ['T' as int, 'R' as int, 'A' as int, 'I' as int, 'L' as int, 'E' as int, 'R' as int,
             '!' as int, '!' as int, '!' as int, 0, 0]
  {
    var b := RecordBytes(TRAILER_STAT, TRAILER, []);
    TrailerShorts();
    TrailerName();
    hide RecordBytes;
    assert b == b[..26] + b[26..];
  }

  lemma TrailerShorts()
    ensures RecordBytes(TRAILER_STAT, TRAILER, [])[..26] ==
            [0xc7, 0x71, 0, 0, 0, 0, 0, 0, 0, 0, 0, 0, 1, 0, 0, 0, 0, 0, 0, 0, 11, 0, 0, 0, 0, 0]
  {
    RecordShorts(TRAILER_STAT, TRAILER, []);
    MagicFront(TRAILER_STAT, TRAILER, []);
    hide RecordBytes;
  }

  lemma TrailerName()
    ensures |RecordBytes(TRAILER_STAT, TRAILER, [])| == 38
    ensures RecordBytes(TRAILER_STAT, TRAILER, [])[26..] ==
            ['T' as int, 'R' as int, 'A' as int, 'I' as int, 'L' as int, 'E' as int, 'R' as int,
             '!' as int, '!' as int, '!' as int, 0, 0]
  {
    var b := RecordBytes(TRAILER_STAT, TRAILER, []);
    RecordBody(TRAILER_STAT, TRAILER, []);
    hide RecordBytes;
    assert b[26..] == b[26..36] + [b[36], b[37]];
  }

  /** Every archive ends with the trailer's bytes. */
  lemma {:induction false} ArchiveEnds(es: seq<Item>)
    ensures |ArchiveBytes(es)| >= 38
    ensures ArchiveBytes(es)[|ArchiveBytes(es)| - 38..] == RecordBytes(TRAILER_STAT, TRAILER, [])
  {
    TrailerBytes();
    hide RecordBytes;
    if es == [] {
    } else {
      ArchiveEnds(es[1..]);
    }
  }
}
