/** The cpio configuration object: the local -> remote map and the archive made of it. */
module CpioConfig {
  import opened Bytes
  import opened Text
  import opened Paths
  import opened PathKeys
  import opened Disk
  import opened DirectoryOrder
  import opened Sorting
  import opened Cpio

  /** File content as _gen_file_data reads it: only regular files have any. */
  function DataOf(t: Tree): bytes {
    if t.File? then t.data else []
  }

  predicate Present(items: map<string, string>, locals: seq<string>, disk: Disk) {
    forall k :: k in locals ==> k in items && !disk(k).Missing?
  }

  function ItemAt(items: map<string, string>, local: string, disk: Disk): Item
    requires local in items && !disk(local).Missing?
  {
    Item(disk(local).stat, Utf8(items[local]), DataOf(disk(local)))
  }

  /** The archive entries of these local paths. */
  function ItemsFor(items: map<string, string>, locals: seq<string>, disk: Disk): (es: seq<Item>)
    requires Present(items, locals, disk)
    ensures |es| == |locals|
  {
    seq(|locals|, i requires 0 <= i < |locals| => ItemAt(items, locals[i], disk))
  }

  lemma ItemsForStep(items: map<string, string>, locals: seq<string>, disk: Disk, i: nat)
    requires i < |locals| && Present(items, locals[..i], disk)
    requires locals[i] in items && !disk(locals[i]).Missing?
    ensures Present(items, locals[..i + 1], disk)
    ensures ItemsFor(items, locals[..i + 1], disk)
              == ItemsFor(items, locals[..i], disk) + [ItemAt(items, locals[i], disk)]
  {
    assert locals[..i + 1] == locals[..i] + [locals[i]];
  }

  /** What gen_data returns: an OSError when a recorded path no longer exists. */
  ghost function Archive(items: map<string, string>, disk: Disk): Result<bytes> {
    if exists k :: k in items && disk(k).Missing? then Err(OsError)
    else Ok(ArchiveBytes(ItemsFor(items, Sorted(items.Keys), disk)))
  }

  lemma OwnRecord(m: map<string, string>, l: string, r: string)
    ensures Over(m, Own(l, r)) == if r != "" then m[l := r] else m
  {
  }

  class CpioConfig {
    var items: map<string, string>

    constructor ()
      ensures items == map[]
    {
      items := map[];
    }

    /** _insert_path: the records of the tree at local are put over those already there. */
    method InsertPath(disk: Disk, local: string, remote: string)
      requires Coherent(disk)
      modifies this
      ensures items == Over(old(items), Walk(disk(NormLocal(local)), NormLocal(local), NormRemote(remote)))
      ensures !disk(NormLocal(local)).Dir? ==>
                items == if NormRemote(remote) == "" then old(items) else old(items)[NormLocal(local) := NormRemote(remote)]
      decreases disk(NormLocal(local))
    {
      hide NormLocal, NormRemote, Over;
      var l, r := NormLocal(local), NormRemote(remote);
      ghost var before := items;
      if r != "" {
        items := items[l := r];
      }
      OwnRecord(before, l, r);
      if disk(l).Dir? {
        var entries := disk(l).entries;
        ghost var all := Over(items, WalkAll(entries, l, r));
        for i := 0 to |entries|
          invariant Over(items, WalkAll(entries[i..], l, r)) == all
        {
          var e := entries[i];
          assert disk(l).entries[i] == e;
          assert entries[i..][1..] == entries[i + 1..];
          OverAssociative(items, Walk(e.node, NormLocal(l + "/" + e.name), NormRemote(r + "/" + e.name)),
                          WalkAll(entries[i + 1..], l, r));
          InsertPath(disk, l + "/" + e.name, r + "/" + e.name);
        }
        OverNothing(items);
        OverAssociative(before, Own(l, r), WalkAll(entries, l, r));
      } else {
        OverNothing(Own(l, r));
      }
    }

    method AddPath(disk: Disk, local: string, remote: string)
      requires Coherent(disk)
      modifies this
      ensures items == Over(old(items), Walk(disk(NormLocal(local)), NormLocal(local), NormRemote(remote)))
      ensures !disk(NormLocal(local)).Dir? ==>
                items == if NormRemote(remote) == "" then old(items) else old(items)[NormLocal(local) := NormRemote(remote)]
    {
      InsertPath(disk, local, remote);
    }

    /** _gen_file_data: one record with the status found on disk, and the content only of a regular file. */
    method GenFileData(disk: Disk, local: string) returns (r: Result<bytes>)
      requires local in items
      ensures disk(local).Missing? ==> r == Err(OsError)
      ensures disk(local).File? ==> r == Ok(RecordBytes(disk(local).stat, Utf8(items[local]), disk(local).data))
      ensures disk(local).Dir? || disk(local).Other? ==> r == Ok(RecordBytes(disk(local).stat, Utf8(items[local]), []))
      ensures !disk(local).Missing? ==> r == Ok(ItemBytes(ItemAt(items, local, disk)))
    {
      var name := Utf8(items[local]);
      var data := [];
      if disk(local).File? {
        data := disk(local).data;
      }
      if disk(local).Missing? {
        return Err(OsError);
      }
      PackRecordIs(disk(local).stat, name, data);
      hide RecordBytes, PackRecord;
      r := PackRecord(disk(local).stat, name, data);
    }

    /** _gen_trailer */
    method GenTrailer() returns (r: Result<bytes>)
      ensures r == Ok(RecordBytes(TRAILER_STAT, TRAILER, []))
    {
      PackRecordIs(TRAILER_STAT, TRAILER, []);
      hide RecordBytes, PackRecord;
      r := PackRecord(TRAILER_STAT, TRAILER, []);
    }

    /** gen_data */
    method GenData(disk: Disk) returns (r: Result<bytes>)
      ensures r == Archive(items, disk)
    {
      hide *;
      var data: bytes := [];
      var locals := SortKeys(items.Keys);
      StartEmpty(items, locals, disk);
      for i := 0 to |locals|
        invariant Present(items, locals[..i], disk)
        invariant data == Joined(ItemsFor(items, locals[..i], disk))
      {
        assert locals[i] in locals;
        var one := GenFileData(disk, locals[i]);
        if one.Err? {
          ArchiveFails(items, disk, locals[i]);
          return one;
        }
        ItemsForStep(items, locals, disk, i);
        JoinedSnoc(ItemsFor(items, locals[..i], disk), ItemAt(items, locals[i], disk));
        data := data + one.value;
      }
      assert locals[..|locals|] == locals;
      var end := GenTrailer();
      ArchiveIsJoined(ItemsFor(items, locals, disk));
      ArchiveOfPresent(items, disk);
      r := Ok(data + end.value);
    }
  }

  lemma StartEmpty(items: map<string, string>, locals: seq<string>, disk: Disk)
    ensures Present(items, locals[..0], disk) && Joined(ItemsFor(items, locals[..0], disk)) == []
  {
  }

  lemma ArchiveFails(items: map<string, string>, disk: Disk, k: string)
    requires k in items && disk(k).Missing?
    ensures Archive(items, disk) == Err(OsError)
  {
  }

  lemma ArchiveOfPresent(items: map<string, string>, disk: Disk)
    requires Present(items, Sorted(items.Keys), disk)
    ensures Archive(items, disk) == Ok(ArchiveBytes(ItemsFor(items, Sorted(items.Keys), disk)))
  {
  }

  /** The records one after another, without the trailer. */
  function Joined(es: seq<Item>): bytes {
    if es == [] then [] else ItemBytes(es[0]) + Joined(es[1..])
  }

  lemma {:induction false} JoinedSnoc(es: seq<Item>, e: Item)
    ensures Joined(es + [e]) == Joined(es) + ItemBytes(e)
  {
    hide ItemBytes;
    if es == [] {
      assert [e][1..] == [];
      assert es + [e] == [e];
      assert Joined([e]) == ItemBytes(e) + [];
    } else {
      assert (es + [e])[1..] == es[1..] + [e];
      JoinedSnoc(es[1..], e);
    }
  }

  lemma {:induction false} ArchiveIsJoined(es: seq<Item>)
    ensures ArchiveBytes(es) == Joined(es) + RecordBytes(TRAILER_STAT, TRAILER, [])
  {
    hide ItemBytes, RecordBytes;
    if es == [] {
    } else {
      ArchiveIsJoined(es[1..]);
    }
  }

  // ---------- From the tree to the archive and back ----------

  /** Every node is found on disk at its own recorded path. */
  lemma {:induction false} DiskAt(disk: Disk, local: string, names: seq<string>)
    requires Coherent(disk) && WellFormed(disk(local)) && !At(disk(local), names).Missing?
    ensures disk(LocalKey(local, names)) == At(disk(local), names)
    decreases |names|
  {
    hide NormLocal;
    var t := disk(local);
    if names == [] {
    } else {
      AtNotMissing(Lookup(t.entries, names[0]), names[1..]);
      var i := LookupIndex(t.entries, names[0]);
      assert t.entries[i] in t.entries;
      assert disk(NormLocal(local + "/" + names[0])) == disk(local).entries[i].node;
      DiskAt(disk, NormLocal(local + "/" + names[0]), names[1..]);
    }
  }

  /** The nodes that have a record, each once, in the order of their local paths. */
  ghost predicate Lists(nodes: seq<seq<string>>, t: Tree, local: string, remote: string) {
    && (forall i :: 0 <= i < |nodes| ==> Recorded(t, remote, nodes[i]))
    && (forall names :: Recorded(t, remote, names) ==> names in nodes)
    && (forall i, j :: 0 <= i < j < |nodes| ==> StrLt(LocalKey(local, nodes[i]), LocalKey(local, nodes[j])))
  }

  /** The nodes of some records of a walk. */
  lemma {:induction false} NodesOf(t: Tree, local: string, remote: string, keys: seq<string>) returns (nodes: seq<seq<string>>)
    requires WellFormed(t) && !t.Missing? && forall k :: k in keys ==> k in Walk(t, local, remote)
    ensures |nodes| == |keys|
    ensures forall i :: 0 <= i < |keys| ==>
              && Recorded(t, remote, nodes[i]) && AreNames(nodes[i]) && keys[i] == LocalKey(local, nodes[i])
              && Walk(t, local, remote)[keys[i]] == RemoteKey(remote, nodes[i])
  {
    hide Walk, Recorded, LocalKey, RemoteKey, AreNames, WellFormed;
    if keys == [] {
      nodes := [];
    } else {
      var rest := NodesOf(t, local, remote, keys[1..]);
      var first := RecordNode(t, local, remote, keys[0]);
      nodes := [first] + rest;
      forall i | 0 <= i < |keys|
        ensures && Recorded(t, remote, nodes[i]) && AreNames(nodes[i]) && keys[i] == LocalKey(local, nodes[i])
                && Walk(t, local, remote)[keys[i]] == RemoteKey(remote, nodes[i])
      {
        if i > 0 { assert keys[i] == keys[1..][i - 1] && nodes[i] == rest[i - 1]; }
      }
    }
  }

  /** The sorted records of a walk are its nodes. */
  lemma SortedNodes(t: Tree, local: string, remote: string) returns (nodes: seq<seq<string>>)
    requires WellFormed(t) && !t.Missing? && '\\' !in local
    ensures Lists(nodes, t, local, remote)
    ensures var keys := Sorted(Walk(t, local, remote).Keys);
            && |nodes| == |keys| == |Walk(t, local, remote)|
            && forall i :: 0 <= i < |keys| ==>
                 && AreNames(nodes[i]) && keys[i] == LocalKey(local, nodes[i])
                 && keys[i] in Walk(t, local, remote) && Walk(t, local, remote)[keys[i]] == RemoteKey(remote, nodes[i])
  {
    hide Walk, Recorded, LocalKey, RemoteKey, AreNames, WellFormed, StrLt;
    var keys := Sorted(Walk(t, local, remote).Keys);
    nodes := NodesOf(t, local, remote, keys);
    forall names | Recorded(t, remote, names)
      ensures names in nodes
    {
      WalkRecord(t, local, remote, names);
      assert LocalKey(local, names) in keys;
      var i :| 0 <= i < |keys| && keys[i] == LocalKey(local, names);
      LocalKeyInjective(local, names, nodes[i]);
    }
  }

  /** There is only one such list. */
  lemma ListsIsUnique(a: seq<seq<string>>, b: seq<seq<string>>, t: Tree, local: string, remote: string)
    requires WellFormed(t) && '\\' !in local && Lists(a, t, local, remote) && Lists(b, t, local, remote)
    ensures a == b
  {
    hide Recorded, LocalKey, StrLt, WellFormed, At;
    var ka := seq(|a|, i requires 0 <= i < |a| => LocalKey(local, a[i]));
    var kb := seq(|b|, i requires 0 <= i < |b| => LocalKey(local, b[i]));
    KeysListed(a, b, ka, kb, t, local, remote);
    KeysListed(b, a, kb, ka, t, local, remote);
    var keys := set k | k in ka;
    SortedIsUnique(keys, ka);
    SortedIsUnique(keys, kb);
    forall i | 0 <= i < |a|
      ensures a[i] == b[i]
    {
      assert ka[i] == kb[i];
      NodeNames(t, remote, a[i]);
      NodeNames(t, remote, b[i]);
      LocalKeyInjective(local, a[i], b[i]);
    }
  }

  lemma KeysListed(a: seq<seq<string>>, b: seq<seq<string>>, ka: seq<string>, kb: seq<string>, t: Tree, local: string,
                   remote: string)
    requires Lists(a, t, local, remote) && Lists(b, t, local, remote)
    requires |ka| == |a| && forall i :: 0 <= i < |a| ==> ka[i] == LocalKey(local, a[i])
    requires |kb| == |b| && forall i :: 0 <= i < |b| ==> kb[i] == LocalKey(local, b[i])
    ensures Increasing(ka) && forall k :: k in ka ==> k in kb
  {
    hide Recorded, LocalKey, StrLt;
    forall k | k in ka
      ensures k in kb
    {
      var i :| 0 <= i < |ka| && ka[i] == k;
      assert Recorded(t, remote, a[i]) && a[i] in b;
      var j :| 0 <= j < |b| && b[j] == a[i];
      assert kb[j] == k;
    }
  }

  lemma NodeNames(t: Tree, remote: string, names: seq<string>)
    requires WellFormed(t) && Recorded(t, remote, names)
    ensures AreNames(names)
  {
    AtNames(t, names);
  }

  /** Record r has this status: each number cut to 16 bits, the time to 32. */
  ghost predicate HasStat(r: Record, st: Stat) {
    && r.dev == st.dev % 0x1_0000 && r.ino == st.ino % 0x1_0000 && r.mode == st.mode % 0x1_0000
    && r.uid == st.uid % 0x1_0000 && r.gid == st.gid % 0x1_0000 && r.nlink == st.nlink % 0x1_0000
    && r.rdev == 0 && r.mtime == st.mtime % 0x1_0000_0000
  }

  /** Record r is the node reached by names: a regular file with its content, anything else without. */
  ghost predicate Recovers(r: Record, t: Tree, remote: string, names: seq<string>) {
    var n := At(t, names);
    && !n.Missing? && ReadUtf8(r.name) == Some(RemoteAt(remote, names)) && HasStat(r, n.stat)
    && (n.File? ==> r.data == n.data) && (n.Dir? || n.Other? ==> r.data == [])
  }

  /** What a record read from the archive of this item says. */
  lemma ExpectedStat(st: Stat, name: bytes, data: bytes)
    ensures var r := Expected(st, name, data); HasStat(r, st) && r.name == name && r.data == data
  {
  }

  /** The records are these nodes, one for one. */
  ghost predicate Reads(rs: seq<Record>, nodes: seq<seq<string>>, t: Tree, remote: string) {
    |rs| == |nodes| && forall i :: 0 <= i < |nodes| ==> Recovers(rs[i], t, remote, nodes[i])
  }

  /** The records are the tree: every node but a nameless root is one record, nothing else is, and they stand in
      the order of the local paths. */
  ghost predicate IsTree(rs: seq<Record>, t: Tree, local: string, remote: string) {
    exists nodes :: Lists(nodes, t, local, remote) && Reads(rs, nodes, t, remote)
  }

  ghost predicate Packed(disk: Disk, local: string, remote: string, t: Tree, items: map<string, string>) {
    && Coherent(disk) && t == disk(NormLocal(local)) && WellFormed(t) && !t.Missing?
    && items == Walk(t, NormLocal(local), NormRemote(remote))
  }

  /** A tree packed while the disk stays as it is: archive entry i is node i. */
  lemma PackedTree(disk: Disk, local: string, remote: string, t: Tree, items: map<string, string>)
    returns (nodes: seq<seq<string>>)
    requires Packed(disk, local, remote, t, items) && !HasThreeInside(remote)
    ensures Lists(nodes, t, NormLocal(local), NormRemote(remote)) && Present(items, Sorted(items.Keys), disk)
    ensures var es := ItemsFor(items, Sorted(items.Keys), disk);
            && |es| == |nodes| == |items|
            && forall i :: 0 <= i < |es| ==>
                 Recovers(Expected(es[i].st, es[i].name, es[i].data), t, NormRemote(remote), nodes[i])
  {
    hide NormLocal, NormRemote, Walk, LocalKey, RemoteKey, Recorded, Recovers, Expected, WellFormed, Utf8, Present, ItemsFor;
    hide Coherent, HasThreeInside, Lists, DataOf, AreNames;
    NormHasNoBackslash(local, remote);
    nodes := SortedNodes(t, NormLocal(local), NormRemote(remote));
    var keys := Sorted(items.Keys);
    forall i | 0 <= i < |keys|
      ensures !disk(keys[i]).Missing?
      ensures Recovers(Expected(disk(keys[i]).stat, Utf8(items[keys[i]]), DataOf(disk(keys[i]))), t, NormRemote(remote), nodes[i])
    {
      Listed(nodes, t, NormLocal(local), NormRemote(remote), i);
      EntryRecovers(disk, local, remote, t, items, keys[i], nodes[i]);
    }
    PresentAt(items, keys, disk);
  }

  lemma Listed(nodes: seq<seq<string>>, t: Tree, local: string, remote: string, i: nat)
    requires Lists(nodes, t, local, remote) && i < |nodes|
    ensures Recorded(t, remote, nodes[i])
  {
  }

  lemma PresentAt(items: map<string, string>, keys: seq<string>, disk: Disk)
    requires forall i :: 0 <= i < |keys| ==> keys[i] in items && !disk(keys[i]).Missing?
    ensures Present(items, keys, disk)
    ensures forall i :: 0 <= i < |keys| ==> ItemsFor(items, keys, disk)[i] == ItemAt(items, keys[i], disk)
  {
    hide Utf8, DataOf, ItemAt;
  }

  lemma EntryRecovers(disk: Disk, local: string, remote: string, t: Tree, items: map<string, string>, k: string,
                      names: seq<string>)
    requires Packed(disk, local, remote, t, items) && !HasThreeInside(remote) && k in items
    requires Recorded(t, NormRemote(remote), names) && AreNames(names)
    requires k == LocalKey(NormLocal(local), names) && items[k] == RemoteKey(NormRemote(remote), names)
    ensures !disk(k).Missing?
    ensures Recovers(Expected(disk(k).stat, Utf8(items[k]), DataOf(disk(k))), t, NormRemote(remote), names)
  {
    hide NormLocal, NormRemote, Walk, LocalKey, RemoteKey, Utf8, ReadUtf8, Expected, HasStat;
    DiskAt(disk, NormLocal(local), names);
    ExpectedStat(disk(k).stat, Utf8(items[k]), DataOf(disk(k)));
    NormHasNoBackslash(local, remote);
    RemoteIsClean(remote);
    NormRemoteLead(remote);
    RemoteKeyIsSuffix(NormRemote(remote), names);
    ReadUtf8OfUtf8(items[k]);
  }

  lemma NormRemoteLead(remote: string)
    ensures NormRemote(remote) != "" ==> NormRemote(remote)[0] != '/'
  {
  }

  /** Writing the archive of a tree and reading it back gives the tree, whenever sizes fit and no remote path is the
      trailer's name. The records are listed with their nodes. */
  lemma TreeRecovered(disk: Disk, local: string, remote: string, t: Tree, items: map<string, string>)
    returns (nodes: seq<seq<string>>)
    requires Packed(disk, local, remote, t, items) && !HasThreeInside(remote)
    requires forall k :: k in items ==> |Utf8(items[k])| + 1 < 0x1_0000 && Utf8(items[k]) != TRAILER
    requires forall k :: k in items && disk(k).File? ==> |disk(k).data| < 0x1_0000_0000
    ensures Archive(items, disk).Ok? && ReadArchive(Archive(items, disk).value).Some?
    ensures Lists(nodes, t, NormLocal(local), NormRemote(remote)) && |nodes| == |items|
    ensures var rs := ReadArchive(Archive(items, disk).value).value;
            && |rs| == |nodes|
            && forall i :: 0 <= i < |nodes| ==>
                 && ReadUtf8(rs[i].name) == Some(RemoteAt(NormRemote(remote), nodes[i]))
                 && !At(t, nodes[i]).Missing? && HasStat(rs[i], At(t, nodes[i]).stat)
                 && (At(t, nodes[i]).File? ==> rs[i].data == At(t, nodes[i]).data)
                 && (At(t, nodes[i]).Dir? || At(t, nodes[i]).Other? ==> rs[i].data == [])
    ensures IsTree(ReadArchive(Archive(items, disk).value).value, t, NormLocal(local), NormRemote(remote))
  {
    hide *;
    nodes := PackedTree(disk, local, remote, t, items);
    ArchiveOfPresent(items, disk);
    AllArchivable(items, disk);
    var es := ItemsFor(items, Sorted(items.Keys), disk);
    ArchiveRoundTrip(es);
    forall i | 0 <= i < |es|
      ensures Recovers(ExpectedAll(es)[i], t, NormRemote(remote), nodes[i])
    {
      ExpectedAllAt(es, i);
    }
    TreeListed(ExpectedAll(es), nodes, t, NormLocal(local), NormRemote(remote));
    ReadsNodes(ExpectedAll(es), nodes, t, NormRemote(remote));
  }

  lemma ReadsNodes(rs: seq<Record>, nodes: seq<seq<string>>, t: Tree, remote: string)
    requires Reads(rs, nodes, t, remote)
    ensures |rs| == |nodes|
    ensures forall i :: 0 <= i < |nodes| ==>
              && ReadUtf8(rs[i].name) == Some(RemoteAt(remote, nodes[i]))
              && !At(t, nodes[i]).Missing? && HasStat(rs[i], At(t, nodes[i]).stat)
              && (At(t, nodes[i]).File? ==> rs[i].data == At(t, nodes[i]).data)
              && (At(t, nodes[i]).Dir? || At(t, nodes[i]).Other? ==> rs[i].data == [])
  {
    hide At, HasStat, RemoteAt, ReadUtf8;
  }

  lemma TreeListed(rs: seq<Record>, nodes: seq<seq<string>>, t: Tree, local: string, remote: string)
    requires Lists(nodes, t, local, remote) && |rs| == |nodes|
    requires forall i :: 0 <= i < |nodes| ==> Recovers(rs[i], t, remote, nodes[i])
    ensures Reads(rs, nodes, t, remote) && IsTree(rs, t, local, remote)
  {
    hide Lists, Recovers;
  }

  /** In the archive of a tree at an allowed root a directory stands before everything inside it: the node that
      record i is comes before the longer one that record j is. */
  lemma DirectoryFirst(nodes: seq<seq<string>>, t: Tree, p: string, q: string, i: nat, j: nat)
    requires WellFormed(t) && Lists(nodes, t, NormLocal(p), NormRemote(q)) && RootAllows(NormLocal(p), NormRemote(q))
    requires i < |nodes| && j < |nodes| && nodes[i] < nodes[j]
    ensures i < j
  {
    hide NormLocal, NormRemote, Walk, LocalKey, Recorded, WellFormed, RootAllows, StrLt;
    var local, remote := NormLocal(p), NormRemote(q);
    var more := nodes[j][|nodes[i]|..];
    assert nodes[j] == nodes[i] + more;
    NormHasNoBackslash(p, q);
    NodeNames(t, remote, nodes[j]);
    RecordedIs(t, remote, nodes[i]);
    KeysAscend(local, remote, nodes[i], more);
    if j <= i {
      NotBelowItself(LocalKey(local, nodes[i]), LocalKey(local, nodes[j]));
    }
  }

  lemma RecordedIs(t: Tree, remote: string, names: seq<string>)
    ensures Recorded(t, remote, names) <==> !At(t, names).Missing? && !(remote == "" && names == [])
  {
  }

  lemma NotBelowItself(a: string, b: string)
    ensures !(StrLt(a, b) && StrLt(b, a))
  {
    if StrLe(a, b) && StrLe(b, a) { StrLeAntisymmetric(a, b); }
  }

  lemma ExpectedAllAt(es: seq<Item>, i: nat)
    requires i < |es|
    ensures ExpectedAll(es)[i] == Expected(es[i].st, es[i].name, es[i].data)
  {
  }

  lemma AllArchivable(items: map<string, string>, disk: Disk)
    requires Present(items, Sorted(items.Keys), disk)
    requires forall k :: k in items ==> |Utf8(items[k])| + 1 < 0x1_0000 && Utf8(items[k]) != TRAILER
    requires forall k :: k in items && disk(k).File? ==> |disk(k).data| < 0x1_0000_0000
    ensures forall e :: e in ItemsFor(items, Sorted(items.Keys), disk) ==> Archivable(e)
  {
    hide Utf8, Sorted;
    var keys := Sorted(items.Keys);
    var es := ItemsFor(items, keys, disk);
    forall e | e in es
      ensures Archivable(e)
    {
      var i :| 0 <= i < |es| && es[i] == e;
      assert keys[i] in keys;
    }
  }
}
