/** Python's struct module on a little-endian host, for the field codes the package builder uses. */
module Struct {
  import opened Bytes

  /** 'Ns' (N bytes), 'I' (32 bits) and 'H' (16 bits). */
  datatype Field = S(n: nat) | I | H

  datatype Value = Str(b: bytes) | Num(v: int)

  function Width(f: Field): nat {
    match f
    case S(n) => n
    case I => 4
    case H => 2
  }

  /** struct.calcsize of a format without padding holes. */
  function CalcSize(fmt: seq<Field>): nat {
    if fmt == [] then 0 else Width(fmt[0]) + CalcSize(fmt[1..])
  }

  /** Whether native alignment inserts no padding when the format starts at this offset. */
  predicate NoHoles(fmt: seq<Field>, offset: nat) {
    fmt != [] ==>
      && (fmt[0].I? ==> offset % 4 == 0)
      && (fmt[0].H? ==> offset % 2 == 0)
      && NoHoles(fmt[1..], offset + Width(fmt[0]))
  }

  function Pack16(v: int): (b: bytes)
    requires 0 <= v < 0x1_0000
    ensures |b| == 2 && (b[0] as int) + 256 * (b[1] as int) == v
  {
    [v % 256, v / 256]
  }

  function Pack32(v: int): (b: bytes)
    requires 0 <= v < 0x1_0000_0000
    ensures |b| == 4
    ensures (b[0] as int) + 256 * (b[1] as int) + 0x1_0000 * (b[2] as int) + 0x100_0000 * (b[3] as int) == v
  {
    Pack16(v % 0x1_0000) + Pack16(v / 0x1_0000)
  }

  function Read16(b: bytes): (v: nat)
    requires |b| == 2
    ensures v < 0x1_0000
  {
    (b[0] as int) + 256 * (b[1] as int)
  }

  function Read32(b: bytes): (v: nat)
    requires |b| == 4
    ensures v < 0x1_0000_0000
  {
    Read16(b[..2]) + 0x1_0000 * Read16(b[2..])
  }

  lemma Read16Pack16(v: int)
    requires 0 <= v < 0x1_0000
    ensures Read16(Pack16(v)) == v
  {
  }

  lemma Read32Pack32(v: int)
    requires 0 <= v < 0x1_0000_0000
    ensures Read32(Pack32(v)) == v
  {
    assert Pack32(v)[..2] == Pack16(v % 0x1_0000);
    assert Pack32(v)[2..] == Pack16(v / 0x1_0000);
    Read16Pack16(v % 0x1_0000);
    Read16Pack16(v / 0x1_0000);
  }

  /** An 's' field: cut to its size, or filled up with NULs. */
  function Fixed(b: bytes, n: nat): (r: bytes)
    ensures |r| == n && (forall i :: 0 <= i < n && i < |b| ==> r[i] == b[i]) && forall i :: |b| <= i < n ==> r[i] == 0
  {
    if |b| >= n then b[..n] else b + Zeros(n - |b|)
  }

  /** Whether struct.pack takes this value for this field; otherwise it raises struct.error. */
  predicate Packable(f: Field, v: Value) {
    match f
    case S(_) => v.Str?
    case I => v.Num? && 0 <= v.v < 0x1_0000_0000
    case H => v.Num? && 0 <= v.v < 0x1_0000
  }

  function PackField(f: Field, v: Value): (b: bytes)
    requires Packable(f, v)
    ensures |b| == Width(f)
  {
    match f
    case S(n) => Fixed(v.b, n)
    case I => Pack32(v.v)
    case H => Pack16(v.v)
  }

  predicate AllPackable(fmt: seq<Field>, vals: seq<Value>) {
    |fmt| == |vals| && forall i :: 0 <= i < |fmt| ==> Packable(fmt[i], vals[i])
  }

  function PackAll(fmt: seq<Field>, vals: seq<Value>): (b: bytes)
    requires AllPackable(fmt, vals)
    ensures |b| == CalcSize(fmt)
  {
    if fmt == [] then [] else PackField(fmt[0], vals[0]) + PackAll(fmt[1..], vals[1..])
  }

  /** struct.pack */
  function Pack(fmt: seq<Field>, vals: seq<Value>): (r: Result<bytes>)
    ensures r.Ok? <==> AllPackable(fmt, vals)
    ensures r.Ok? ==> |r.value| == CalcSize(fmt)
  {
    if AllPackable(fmt, vals) then Ok(PackAll(fmt, vals)) else Err(StructError)
  }

  lemma PackIs(fmt: seq<Field>, vals: seq<Value>)
    ensures Pack(fmt, vals).Ok? ==> Pack(fmt, vals).value == PackAll(fmt, vals)
    ensures !Pack(fmt, vals).Ok? ==> Pack(fmt, vals) == Err(StructError)
  {
  }

  function UnpackField(f: Field, b: bytes): (v: Value)
    requires |b| == Width(f)
    ensures Packable(f, v)
  {
    match f
    case S(_) => Str(b)
    case I => Num(Read32(b))
    case H => Num(Read16(b))
  }

  /** struct.unpack */
  function Unpack(fmt: seq<Field>, b: bytes): (vals: seq<Value>)
    requires |b| == CalcSize(fmt)
    ensures AllPackable(fmt, vals)
  {
    if fmt == [] then []
    else [UnpackField(fmt[0], b[..Width(fmt[0])])] + Unpack(fmt[1..], b[Width(fmt[0])..])
  }

  /** What a reader gets back for a packed value. */
  function Stored(f: Field, v: Value): Value
    requires Packable(f, v)
  {
    match f
    case S(n) => Str(Fixed(v.b, n))
    case _ => v
  }

  lemma UnpackPackField(f: Field, v: Value)
    requires Packable(f, v)
    ensures UnpackField(f, PackField(f, v)) == Stored(f, v)
  {
    match f
    case S(n) =>
    case I => Read32Pack32(v.v);
    case H => Read16Pack16(v.v);
  }

  /** Unpacking with the same format gives every value back, 's' fields at their fixed size. */
  lemma {:induction false} UnpackPack(fmt: seq<Field>, vals: seq<Value>)
    requires AllPackable(fmt, vals)
    ensures |Unpack(fmt, PackAll(fmt, vals))| == |fmt|
    ensures forall i :: 0 <= i < |fmt| ==> Unpack(fmt, PackAll(fmt, vals))[i] == Stored(fmt[i], vals[i])
  {
    if fmt == [] {
    } else {
      var b := PackAll(fmt, vals);
      var rest := PackAll(fmt[1..], vals[1..]);
      UnpackPackField(fmt[0], vals[0]);
      UnpackPack(fmt[1..], vals[1..]);
      assert b[..Width(fmt[0])] == PackField(fmt[0], vals[0]) && b[Width(fmt[0])..] == rest;
      forall i | 0 <= i < |fmt|
        ensures Unpack(fmt, b)[i] == Stored(fmt[i], vals[i])
      {
        if i > 0 {
          assert Unpack(fmt, b)[i] == Unpack(fmt[1..], rest)[i - 1];
        }
      }
    }
  }

  lemma StoredAt(fmt: seq<Field>, vals: seq<Value>, k: nat)
    requires AllPackable(fmt, vals) && k < |fmt|
    ensures Unpack(fmt, PackAll(fmt, vals))[k] == Stored(fmt[k], vals[k])
  {
    UnpackPack(fmt, vals);
  }

  lemma AllPackableAppend(fmt: seq<Field>, vals: seq<Value>, fmt': seq<Field>, vals': seq<Value>)
    requires AllPackable(fmt, vals) && AllPackable(fmt', vals')
    ensures AllPackable(fmt + fmt', vals + vals')
  {
    hide Packable;
  }

  /** Packing a format in two parts. */
  lemma {:induction false} PackAppend(fmt: seq<Field>, vals: seq<Value>, fmt': seq<Field>, vals': seq<Value>)
    requires AllPackable(fmt, vals) && AllPackable(fmt', vals')
    ensures AllPackable(fmt + fmt', vals + vals')
    ensures PackAll(fmt + fmt', vals + vals') == PackAll(fmt, vals) + PackAll(fmt', vals')
  {
    hide Packable, PackField;
    AllPackableAppend(fmt, vals, fmt', vals');
    if fmt == [] {
      assert fmt + fmt' == fmt' && vals + vals' == vals';
    } else {
      assert (fmt + fmt')[1..] == fmt[1..] + fmt' && (vals + vals')[1..] == vals[1..] + vals';
      PackAppend(fmt[1..], vals[1..], fmt', vals');
      var head := PackField(fmt[0], vals[0]);
      assert PackAll(fmt + fmt', vals + vals') == head + PackAll(fmt[1..] + fmt', vals[1..] + vals');
    }
  }

  lemma {:induction false} CalcSizeAppend(fmt: seq<Field>, fmt': seq<Field>)
    ensures CalcSize(fmt + fmt') == CalcSize(fmt) + CalcSize(fmt')
  {
    if fmt == [] {
      assert fmt + fmt' == fmt';
    } else {
      assert (fmt + fmt')[1..] == fmt[1..] + fmt';
      CalcSizeAppend(fmt[1..], fmt');
    }
  }

  lemma {:induction false} UnpackAppend(fmt: seq<Field>, x: bytes, fmt': seq<Field>, y: bytes)
    requires |x| == CalcSize(fmt) && |y| == CalcSize(fmt')
    ensures |x + y| == CalcSize(fmt + fmt')
    ensures Unpack(fmt + fmt', x + y) == Unpack(fmt, x) + Unpack(fmt', y)
    decreases fmt
  {
    hide *;
    CalcSizeAppend(fmt, fmt');
    if fmt == [] {
      NothingUnpacked();
      assert fmt + fmt' == fmt' && x + y == y;
    } else {
      var f, rest := fmt[0], fmt[1..];
      HeadAndRest(fmt, 1);
      CalcSizeHead(f, rest);
      var h, t := x[..Width(f)], x[Width(f)..];
      UnpackAppend(rest, t, fmt', y);
      HeadAndRest(x, Width(f));
      UnpackAppendStep(f, rest, h, t, fmt', y);
    }
  }

  lemma NothingUnpacked()
    ensures CalcSize([]) == 0 && Unpack([], []) == []
  {
  }

  lemma CalcSizeHead(f: Field, rest: seq<Field>)
    ensures CalcSize([f] + rest) == Width(f) + CalcSize(rest)
  {
    assert ([f] + rest)[1..] == rest;
  }

  /** One field in front of what is known. */
  lemma UnpackAppendStep(f: Field, rest: seq<Field>, h: bytes, t: bytes, fmt': seq<Field>, y: bytes)
    requires |h| == Width(f) && |t| == CalcSize(rest) && |y| == CalcSize(fmt') && |t + y| == CalcSize(rest + fmt')
    requires Unpack(rest + fmt', t + y) == Unpack(rest, t) + Unpack(fmt', y)
    ensures |h + t| == CalcSize([f] + rest) && |h + t + y| == CalcSize([f] + rest + fmt')
    ensures Unpack([f] + rest + fmt', h + t + y) == Unpack([f] + rest, h + t) + Unpack(fmt', y)
  {
    hide *;
    Regroup([f], rest, fmt');
    Regroup(h, t, y);
    UnpackHead(f, rest, h, t);
    UnpackHead(f, rest + fmt', h, t + y);
    Regroup([UnpackField(f, h)], Unpack(rest, t), Unpack(fmt', y));
  }

  lemma HeadAndRest<T>(x: seq<T>, w: nat)
    requires w <= |x|
    ensures x == x[..w] + x[w..] && (w == 1 ==> x == [x[0]] + x[1..])
  {
  }

  lemma Regroup<T>(a: seq<T>, b: seq<T>, c: seq<T>)
    ensures a + (b + c) == a + b + c
  {
  }

  lemma UnpackHead(f: Field, rest: seq<Field>, h: bytes, t: bytes)
    requires |h| == Width(f) && |t| == CalcSize(rest)
    ensures |h + t| == CalcSize([f] + rest)
    ensures Unpack([f] + rest, h + t) == [UnpackField(f, h)] + Unpack(rest, t)
  {
    CalcSizeHead(f, rest);
    assert ([f] + rest)[1..] == rest && (h + t)[..Width(f)] == h && (h + t)[Width(f)..] == t;
    hide UnpackField, Width;
  }

  lemma {:induction false} NoHolesAppend(fmt: seq<Field>, fmt': seq<Field>, offset: nat)
    requires NoHoles(fmt, offset) && NoHoles(fmt', offset + CalcSize(fmt))
    ensures NoHoles(fmt + fmt', offset)
    decreases fmt
  {
    if fmt == [] {
      assert fmt + fmt' == fmt';
    } else {
      assert (fmt + fmt')[1..] == fmt[1..] + fmt';
      NoHolesAppend(fmt[1..], fmt', offset + Width(fmt[0]));
    }
  }

  /** n 'I' fields in a row. */
  function Numbers(n: nat): (fmt: seq<Field>)
    ensures |fmt| == n
  {
    seq(n, i => I)
  }

  lemma {:induction false} NumbersLayout(n: nat, offset: nat)
    requires offset % 4 == 0
    ensures CalcSize(Numbers(n)) == 4 * n && NoHoles(Numbers(n), offset)
    decreases n
  {
    if n == 0 {
    } else {
      assert Numbers(n)[1..] == Numbers(n - 1);
      NumbersLayout(n - 1, offset + 4);
    }
  }

  // ---------- Where each field is ----------

  lemma OffsetStep(fmt: seq<Field>, k: nat)
    requires k < |fmt|
    ensures CalcSize(fmt[..0]) == 0
    ensures CalcSize(fmt[..k + 1]) == CalcSize(fmt[..k]) + Width(fmt[k])
  {
    assert fmt[..k + 1] == fmt[..k] + [fmt[k]];
    CalcSizeAppend(fmt[..k], [fmt[k]]);
    CalcSizeHead(fmt[k], []);
    assert [fmt[k]] + [] == [fmt[k]];
  }

  /** Field k stands behind the sizes of the fields before it. */
  lemma FieldBytes(fmt: seq<Field>, vals: seq<Value>, k: nat)
    requires AllPackable(fmt, vals) && k < |fmt|
    ensures CalcSize(fmt[..k]) + Width(fmt[k]) <= CalcSize(fmt)
    ensures PackAll(fmt, vals)[CalcSize(fmt[..k])..CalcSize(fmt[..k]) + Width(fmt[k])] == PackField(fmt[k], vals[k])
  {
    hide *;
    CutFormat(fmt, vals, k);
    var f, v, front, vs := [fmt[k]], [vals[k]], fmt[..k], vals[..k];
    var rest, ws := fmt[k + 1..], vals[k + 1..];
    PackOne(fmt[k], vals[k]);
    PackAppend(f, v, rest, ws);
    PackAppend(front, vs, f + rest, v + ws);
    CalcSizeAppend(front, f + rest);
    CalcSizeAppend(f, rest);
    Middle(PackAll(front, vs), PackAll(f, v), PackAll(rest, ws));
  }

  lemma CutFormat(fmt: seq<Field>, vals: seq<Value>, k: nat)
    requires AllPackable(fmt, vals) && k < |fmt|
    ensures |fmt| == |vals|
    ensures fmt == fmt[..k] + ([fmt[k]] + fmt[k + 1..]) && vals == vals[..k] + ([vals[k]] + vals[k + 1..])
    ensures AllPackable(fmt[..k], vals[..k]) && Packable(fmt[k], vals[k]) && AllPackable(fmt[k + 1..], vals[k + 1..])
  {
    hide Packable;
  }

  lemma PackOne(f: Field, v: Value)
    requires Packable(f, v)
    ensures AllPackable([f], [v]) && PackAll([f], [v]) == PackField(f, v) && CalcSize([f]) == Width(f)
  {
    hide PackField, Packable;
    assert [f][1..] == [] && [v][1..] == [];
  }

  lemma Middle<T>(a: seq<T>, b: seq<T>, c: seq<T>)
    ensures (a + (b + c))[|a|..|a| + |b|] == b
  {
  }
}
