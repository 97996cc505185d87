/** End to end: what a reader of the finished package gets back of a directory tree that went into it. */
module Package {
  import opened Bytes
  import opened Text
  import opened Disk
  import opened Paths
  import opened Sorting
  import opened Cpio
  import opened PacImage
  import opened PacReader
  import opened PacConfig
  import C = CpioConfig

  /** The name part of what an archive can hold. */
  predicate NamesFit(items: map<string, string>) {
    forall k :: k in items ==> |Utf8(items[k])| + 1 < 0x1_0000 && Utf8(items[k]) != TRAILER
  }

  lemma {:induction false} DataInArchive(es: seq<Item>, i: nat)
    requires i < |es|
    ensures |es[i].data| <= |ArchiveBytes(es)|
  {
    hide RecordBytes;
    if i == 0 {
    } else {
      DataInArchive(es[1..], i - 1);
    }
  }

  lemma {:induction false} ContentInImage(chunks: seq<bytes>, i: nat)
    requires i < |chunks|
    ensures |chunks[i]| <= |Flatten(chunks)|
  {
    FlattenSlice(chunks, i);
  }

  /** A file that went into an archive below 4 GiB is itself below 4 GiB. */
  lemma ItemsFit(items: map<string, string>, disk: Disk)
    requires C.Archive(items, disk).Ok?
    requires |C.Archive(items, disk).value| < 0x1_0000_0000
    ensures forall k :: k in items && disk(k).File? ==> |disk(k).data| < 0x1_0000_0000
  {
    hide ArchiveBytes, Utf8, Sorted;
    var locals := Sorted(items.Keys);
    forall k | k in items && disk(k).File? ensures |disk(k).data| < 0x1_0000_0000 {
      assert k in locals;
      var i :| 0 <= i < |locals| && locals[i] == k;
      DataInArchive(C.ItemsFor(items, locals, disk), i);
    }
  }

  /** The reader finds file k of the image, whatever the others are. */
  lemma FileShipped(p: PacParams, ins: seq<FileIn>, k: nat)
    requires Image(p, ins).Ok? && k < |ins|
    requires ParamTextsFit(p) && forall i :: 0 <= i < |ins| ==> EntryTextsFit(ins[i].entry)
    ensures ins[k].content.Ok? && |ins[k].content.value| < 0x1_0000_0000
    ensures ReadPac(Image(p, ins).value).Some?
    ensures var files := ReadPac(Image(p, ins).value).value.files;
            |files| == |ins| && files[k] == PacFile(ins[k].entry, ins[k].content.value)
  {
    hide *;
    ImageReadBack(p, ins);
    ImageOk(p, ins);
    ThereAt(ins, k);
    ExpectedFile(ins, k);
    ContentSmall(ins, k);
  }

  lemma ContentSmall(ins: seq<FileIn>, k: nat)
    requires AllThere(ins) && k < |ins| && U32(DataStart(|ins|) + |Flatten(Contents(ins))|)
    ensures ins[k].content.Ok? && |ins[k].content.value| < 0x1_0000_0000
  {
    hide Flatten, Contents;
    ContentInImage(Contents(ins), k);
    ContentAt(ins, k);
  }

  lemma {:induction false} ContentAt(ins: seq<FileIn>, k: nat)
    requires AllThere(ins) && k < |ins|
    ensures ins[k].content.Ok? && Contents(ins)[k] == ins[k].content.value
  {
    if k == 0 {
    } else {
      ContentAt(ins[1..], k - 1);
    }
  }

  /** The whole way: a loaded pack file, its tree unchanged when its header is made, comes back from a package that
      carries it, first by the package reader and then by the archive reader: every node with its path, its status
      and, if it is a regular file, its content. */
  lemma PackFileShipped(b: bytes, c: PacConfig, env: nat -> Disk, xml: bytes, k: nat, loadedFrom: Disk)
    returns (nodes: seq<seq<string>>)
    requires Carries(b, c, env, xml) && k < |c.files|
    requires Loaded(c.files[k], loadedFrom) && c.files[k].attrs.cfgType.PackFile? && Coherent(env(2 * k))
    requires var local, remote := c.files[k].attrs.filePath, c.files[k].attrs.remotePath;
             && env(2 * k)(NormLocal(local)) == loadedFrom(NormLocal(local))
             && WellFormed(loadedFrom(NormLocal(local))) && !loadedFrom(NormLocal(local)).Missing?
             && !HasThreeInside(remote)
             && NamesFit(c.files[k].cpioConfig.items)
    ensures ReadPac(b).Some? && |ReadPac(b).value.files| == |c.files| + 1
    ensures ReadArchive(ReadPac(b).value.files[k].content).Some?
    ensures var rs := ReadArchive(ReadPac(b).value.files[k].content).value;
            var t := loadedFrom(NormLocal(c.files[k].attrs.filePath));
            var local, remote := NormLocal(c.files[k].attrs.filePath), NormRemote(c.files[k].attrs.remotePath);
            && C.IsTree(rs, t, local, remote) && C.Lists(nodes, t, local, remote) && |rs| == |nodes|
            && forall i :: 0 <= i < |nodes| ==>
                 && ReadUtf8(rs[i].name) == Some(RemoteAt(remote, nodes[i]))
                 && !At(t, nodes[i]).Missing? && C.HasStat(rs[i], At(t, nodes[i]).stat)
                 && (At(t, nodes[i]).File? ==> rs[i].data == At(t, nodes[i]).data)
                 && (At(t, nodes[i]).Dir? || At(t, nodes[i]).Other? ==> rs[i].data == [])
  {
    hide *;
    var f := c.files[k];
    var now := env(2 * k);
    CarriesPack(b, c, env, xml, k, loadedFrom);
    ReadWithin(b);
    var items := f.cpioConfig.items;
    PackedIs(now, f.attrs.filePath, f.attrs.remotePath, now(NormLocal(f.attrs.filePath)), items);
    nodes := TreeShipped(now, f.attrs.filePath, f.attrs.remotePath, now(NormLocal(f.attrs.filePath)), items);
  }

  lemma CarriesPack(b: bytes, c: PacConfig, env: nat -> Disk, xml: bytes, k: nat, loadedFrom: Disk)
    requires Carries(b, c, env, xml) && k < |c.files|
    requires Loaded(c.files[k], loadedFrom) && c.files[k].attrs.cfgType.PackFile?
    ensures ReadPac(b).Some? && |ReadPac(b).value.files| == |c.files| + 1
    ensures c.files[k].cpioConfig != null
    ensures var f := c.files[k];
            && f.cpioConfig.items == Walk(loadedFrom(NormLocal(f.attrs.filePath)), NormLocal(f.attrs.filePath), NormRemote(f.attrs.remotePath))
            && C.Archive(f.cpioConfig.items, env(2 * k)) == Ok(ReadPac(b).value.files[k].content)
  {
    hide Walk, NormLocal, NormRemote, C.Archive, ReadPac, HoldsParams;
  }

  lemma PackedIs(disk: Disk, local: string, remote: string, t: Tree, items: map<string, string>)
    requires Coherent(disk) && t == disk(NormLocal(local)) && WellFormed(t) && !t.Missing?
    requires items == Walk(t, NormLocal(local), NormRemote(remote))
    ensures C.Packed(disk, local, remote, t, items)
  {
  }

  lemma TreeShipped(disk: Disk, local: string, remote: string, t: Tree, items: map<string, string>)
    returns (nodes: seq<seq<string>>)
    requires C.Packed(disk, local, remote, t, items) && !HasThreeInside(remote) && NamesFit(items)
    requires C.Archive(items, disk).Ok? && |C.Archive(items, disk).value| < 0x1_0000_0000
    ensures ReadArchive(C.Archive(items, disk).value).Some?
    ensures C.IsTree(ReadArchive(C.Archive(items, disk).value).value, t, NormLocal(local), NormRemote(remote))
    ensures C.Lists(nodes, t, NormLocal(local), NormRemote(remote))
    ensures var rs := ReadArchive(C.Archive(items, disk).value).value;
            && |rs| == |nodes|
            && forall i :: 0 <= i < |nodes| ==>
                 && ReadUtf8(rs[i].name) == Some(RemoteAt(NormRemote(remote), nodes[i]))
                 && !At(t, nodes[i]).Missing? && C.HasStat(rs[i], At(t, nodes[i]).stat)
                 && (At(t, nodes[i]).File? ==> rs[i].data == At(t, nodes[i]).data)
                 && (At(t, nodes[i]).Dir? || At(t, nodes[i]).Other? ==> rs[i].data == [])
  {
    hide *;
    ItemsFit(items, disk);
    NamesAre(items);
    nodes := C.TreeRecovered(disk, local, remote, t, items);
  }

  lemma NamesAre(items: map<string, string>)
    requires NamesFit(items)
    ensures forall k :: k in items ==> |Utf8(items[k])| + 1 < 0x1_0000 && Utf8(items[k]) != TRAILER
  {
  }
}
