/** The local file system and the walk that add_path makes over it. */
module Disk {
  import opened Bytes
  import opened Paths
  import opened PathKeys

  /** os.stat, times cut to whole seconds. */
  datatype Stat = Stat(dev: int, ino: int, mode: int, uid: int, gid: int, nlink: int, mtime: int)

  datatype Entry = Entry(name: string, node: Tree)

  /** What a local path denotes; Other is a socket, a device and the like. */
  datatype Tree =
    | Missing
    | File(stat: Stat, data: bytes)
    | Dir(stat: Stat, entries: seq<Entry>)
    | Other(stat: Stat)

  type Disk = string -> Tree

  /** Everything a listing names exists, under names of its own. */
  predicate WellFormed(t: Tree) {
    t.Dir? ==>
      && (forall e :: e in t.entries ==> IsName(e.name) && !e.node.Missing? && WellFormed(e.node))
      && (forall i, j :: 0 <= i < j < |t.entries| ==> t.entries[i].name != t.entries[j].name)
  }

  /** Looking a listed name up below a directory finds the listed node. */
  ghost predicate Coherent(disk: Disk) {
    forall p: string, i: nat :: disk(p).Dir? && i < |disk(p).entries| ==>
      disk(NormLocal(p + "/" + disk(p).entries[i].name)) == disk(p).entries[i].node
  }

  function Lookup(entries: seq<Entry>, name: string): Tree {
    if entries == [] then Missing
    else if entries[0].name == name then entries[0].node
    else Lookup(entries[1..], name)
  }

  /** The node reached by following names from t. */
  function At(t: Tree, names: seq<string>): Tree
    decreases |names|
  {
    if names == [] then t
    else if t.Dir? then At(Lookup(t.entries, names[0]), names[1..])
    else Missing
  }

  /** Records put over those already there. */
  function Over(m: map<string, string>, n: map<string, string>): map<string, string> { m + n }

  function Own(local: string, remote: string): map<string, string> {
    if remote != "" then map[local := remote] else map[]
  }

  /** The (local, remote) records that inserting t at normalised paths adds. */
  function Walk(t: Tree, local: string, remote: string): map<string, string>
    decreases t, 1
  {
    Over(Own(local, remote), if t.Dir? then WalkAll(t.entries, local, remote) else map[])
  }

  function WalkAll(entries: seq<Entry>, local: string, remote: string): map<string, string>
    decreases entries, 0
  {
    if entries == [] then map[]
    else
      Over(Walk(entries[0].node, NormLocal(local + "/" + entries[0].name), NormRemote(remote + "/" + entries[0].name)),
           WalkAll(entries[1..], local, remote))
  }

  lemma OverAssociative(a: map<string, string>, b: map<string, string>, c: map<string, string>)
    ensures Over(Over(a, b), c) == Over(a, Over(b, c))
  {
  }

  lemma OverNothing(m: map<string, string>)
    ensures Over(m, map[]) == m == Over(map[], m)
  {
  }

  // ---------- Lookup ----------

  lemma {:induction false} LookupFinds(entries: seq<Entry>, i: nat)
    requires i < |entries|
    requires forall j, k :: 0 <= j < k < |entries| ==> entries[j].name != entries[k].name
    ensures Lookup(entries, entries[i].name) == entries[i].node
  {
    if i == 0 {
    } else {
      LookupFinds(entries[1..], i - 1);
    }
  }

  lemma {:induction false} LookupIndex(entries: seq<Entry>, name: string) returns (i: nat)
    requires !Lookup(entries, name).Missing?
    ensures i < |entries| && entries[i] == Entry(name, Lookup(entries, name))
  {
    if entries[0].name == name {
      i := 0;
    } else {
      i := LookupIndex(entries[1..], name);
      i := i + 1;
    }
  }

  lemma {:induction false} AtNames(t: Tree, names: seq<string>)
    requires WellFormed(t) && !At(t, names).Missing?
    ensures AreNames(names) && WellFormed(At(t, names))
    decreases |names|
  {
    if names == [] {
    } else {
      AtNotMissing(Lookup(t.entries, names[0]), names[1..]);
      var i := LookupIndex(t.entries, names[0]);
      assert t.entries[i] in t.entries;
      AtNames(t.entries[i].node, names[1..]);
      assert names == [names[0]] + names[1..];
    }
  }

  lemma AtNotMissing(t: Tree, names: seq<string>)
    requires !At(t, names).Missing?
    ensures !t.Missing?
  {
  }

  // ---------- Every record belongs to a node ----------

  ghost predicate Explains(t: Tree, local: string, remote: string, names: seq<string>, k: string, v: string) {
    !At(t, names).Missing? && k == LocalKey(local, names) && v == RemoteKey(remote, names) && v != ""
  }

  lemma {:induction false} WalkExplained(t: Tree, local: string, remote: string, k: string) returns (names: seq<string>)
    requires WellFormed(t) && !t.Missing? && k in Walk(t, local, remote)
    ensures Explains(t, local, remote, names, k, Walk(t, local, remote)[k])
    decreases t, 1
  {
    if t.Dir? && k in WalkAll(t.entries, local, remote) {
      names := WalkAllExplained(t, t.entries, local, remote, k);
    } else {
      names := [];
    }
  }

  lemma {:induction false} WalkAllExplained(t: Tree, entries: seq<Entry>, local: string, remote: string, k: string)
    returns (names: seq<string>)
    requires t.Dir? && WellFormed(t)
    requires |entries| <= |t.entries| && entries == t.entries[|t.entries| - |entries|..]
    requires k in WalkAll(entries, local, remote)
    ensures Explains(t, local, remote, names, k, WalkAll(entries, local, remote)[k])
    decreases t, 0, |entries|
  {
    hide NormLocal, NormRemote;
    var e := entries[0];
    assert e == t.entries[|t.entries| - |entries|] && e in t.entries;
    if k in WalkAll(entries[1..], local, remote) {
      names := WalkAllExplained(t, entries[1..], local, remote, k);
    } else {
      names := WalkExplained(e.node, NormLocal(local + "/" + e.name), NormRemote(remote + "/" + e.name), k);
      LookupFinds(t.entries, |t.entries| - |entries|);
      assert ([e.name] + names)[1..] == names;
      names := [e.name] + names;
    }
  }

  // ---------- Every node has its record ----------

  lemma {:induction false} WalkComplete(t: Tree, local: string, remote: string, names: seq<string>)
    requires WellFormed(t) && !At(t, names).Missing? && RemoteKey(remote, names) != ""
    ensures LocalKey(local, names) in Walk(t, local, remote)
    decreases |names|
  {
    hide NormLocal, NormRemote;
    if names == [] {
    } else {
      AtNotMissing(Lookup(t.entries, names[0]), names[1..]);
      var i := LookupIndex(t.entries, names[0]);
      var e := t.entries[i];
      assert e in t.entries;
      WalkComplete(e.node, NormLocal(local + "/" + e.name), NormRemote(remote + "/" + e.name), names[1..]);
      WalkAllContains(t.entries, i, local, remote, LocalKey(local, names));
    }
  }

  lemma {:induction false} WalkAllContains(entries: seq<Entry>, i: nat, local: string, remote: string, k: string)
    requires i < |entries|
    requires k in Walk(entries[i].node, NormLocal(local + "/" + entries[i].name), NormRemote(remote + "/" + entries[i].name))
    ensures k in WalkAll(entries, local, remote)
  {
    hide NormLocal, NormRemote, Walk;
    if i == 0 {
    } else {
      WalkAllContains(entries[1..], i - 1, local, remote, k);
    }
  }

  // ---------- The walk, node by node ----------

  /** Whether the node reached by names gets a record: it exists, and it is not a root packed to the remote root. */
  predicate Recorded(t: Tree, remote: string, names: seq<string>) {
    !At(t, names).Missing? && !(remote == "" && names == [])
  }

  /** The record of each node, whatever the root. */
  lemma WalkRecord(t: Tree, local: string, remote: string, names: seq<string>)
    requires WellFormed(t) && Recorded(t, remote, names) && '\\' !in local
    ensures AreNames(names) && LocalKey(local, names) in Walk(t, local, remote)
    ensures Walk(t, local, remote)[LocalKey(local, names)] == RemoteKey(remote, names)
  {
    hide Walk, LocalKey, RemoteKey;
    AtNames(t, names);
    AtNotMissing(t, names);
    RemoteKeyNotEmpty(remote, names);
    WalkComplete(t, local, remote, names);
    var names' := WalkExplained(t, local, remote, LocalKey(local, names));
    AtNames(t, names');
    LocalKeyInjective(local, names, names');
  }

  /** The node of each record. */
  lemma RecordNode(t: Tree, local: string, remote: string, k: string) returns (names: seq<string>)
    requires WellFormed(t) && !t.Missing? && k in Walk(t, local, remote)
    ensures Recorded(t, remote, names) && AreNames(names) && k == LocalKey(local, names)
    ensures Walk(t, local, remote)[k] == RemoteKey(remote, names)
  {
    hide Walk, LocalKey, RemoteKey;
    names := WalkExplained(t, local, remote, k);
    AtNames(t, names);
    RemoteKeyNotEmpty(remote, names);
  }

  /** Exactly one record for each node, only a root with an empty remote path left out. */
  lemma WalkExact(t: Tree, local: string, remote: string)
    requires WellFormed(t) && !t.Missing? && '\\' !in local
    ensures forall names :: Recorded(t, remote, names) ==>
              LocalKey(local, names) in Walk(t, local, remote)
              && Walk(t, local, remote)[LocalKey(local, names)] == RemoteKey(remote, names)
    ensures forall k :: k in Walk(t, local, remote) ==> exists names :: Recorded(t, remote, names) && k == LocalKey(local, names)
    ensures forall a, b :: !At(t, a).Missing? && !At(t, b).Missing? && LocalKey(local, a) == LocalKey(local, b) ==> a == b
  {
    hide Walk, LocalKey, RemoteKey;
    forall names | Recorded(t, remote, names)
      ensures LocalKey(local, names) in Walk(t, local, remote)
      ensures Walk(t, local, remote)[LocalKey(local, names)] == RemoteKey(remote, names)
    {
      WalkRecord(t, local, remote, names);
    }
    forall k | k in Walk(t, local, remote)
      ensures exists names :: Recorded(t, remote, names) && k == LocalKey(local, names)
    {
      var names := RecordNode(t, local, remote, k);
    }
    forall a, b | !At(t, a).Missing? && !At(t, b).Missing? && LocalKey(local, a) == LocalKey(local, b)
      ensures a == b
    {
      AtNames(t, a);
      AtNames(t, b);
      LocalKeyInjective(local, a, b);
    }
  }

  // ---------- When the paths are not clean ----------

  /** In every tree each node, but for a root with an empty remote path, is recorded under root plus suffix on both sides. */
  ghost predicate KeepsSuffixes(local: string, remote: string) {
    forall t: Tree, names: seq<string> ::
      WellFormed(t) && Recorded(t, remote, names) ==>
      LocalAt(local, names) in Walk(t, local, remote)
      && Walk(t, local, remote)[LocalAt(local, names)] == RemoteAt(remote, names)
  }

  function Single(name: string, node: Tree): Tree {
    Dir(Stat(0, 0, 0, 0, 0, 0, 0), [Entry(name, node)])
  }

  /** A directory holding a directory "a" that holds "b". */
  function TwoLevels(): Tree {
    Single("a", Single("b", Other(Stat(0, 0, 0, 0, 0, 0, 0))))
  }

  lemma TwoLevelsNode()
    ensures WellFormed(TwoLevels()) && !At(TwoLevels(), ["a", "b"]).Missing?
  {
    var t := TwoLevels();
    assert IsName("a") && IsName("b");
    assert WellFormed(t.entries[0].node);
    assert At(t, ["a", "b"]) == At(t.entries[0].node, ["b"]) == At(t.entries[0].node.entries[0].node, []);
  }

  /** A tree is walked to the same records whichever way the separators of the two paths are written. */
  lemma SameRecords(t: Tree, p: string, p': string, q: string, q': string)
    requires SamePath(p, p') && SamePath(q, q')
    ensures Walk(t, NormLocal(p), NormRemote(q)) == Walk(t, NormLocal(p'), NormRemote(q'))
  {
    hide *;
    SlashesOrBackslashes(p, p');
    SlashesOrBackslashes(q, q');
  }

  /** One pass of collapsing is enough exactly when no run of three slashes comes in. */
  lemma SuffixesKeptIff(p: string, q: string)
    ensures KeepsSuffixes(NormLocal(p), NormRemote(q)) <==> !HasThree(p) && !HasThreeInside(q)
  {
    var local, remote := NormLocal(p), NormRemote(q);
    LocalIsClean(p);
    RemoteIsClean(q);
    NormHasNoBackslash(p, q);
    if !Double(local) && !Double(remote) {
      hide Walk, LocalKey, RemoteKey;
      forall t: Tree, names: seq<string> | WellFormed(t) && Recorded(t, remote, names)
        ensures LocalAt(local, names) in Walk(t, local, remote)
        ensures Walk(t, local, remote)[LocalAt(local, names)] == RemoteAt(remote, names)
      {
        WalkRecord(t, local, remote, names);
        LocalKeyIsSuffix(local, names);
        RemoteKeyIsSuffix(remote, names);
      }
    } else {
      SuffixLost(local, remote);
    }
  }

  lemma NormHasNoBackslash(p: string, q: string)
    ensures '\\' !in NormLocal(p) && '\\' !in NormRemote(q)
  {
    StripLeadIsSuffix(Collapse(Unback(q)));
  }

  lemma {:induction false} StripLeadIsSuffix(s: string)
    ensures forall c :: c in StripLead(s) ==> c in s
  {
    if s == "" || s[0] != '/' {
    } else {
      StripLeadIsSuffix(s[1..]);
    }
  }

  lemma TwoLevelsNames(names: seq<string>)
    requires !At(TwoLevels(), names).Missing?
    ensures names == [] || names == ["a"] || names == ["a", "b"]
  {
    var leaf := Other(Stat(0, 0, 0, 0, 0, 0, 0));
    AtSingle("a", Single("b", leaf), names);
    if names == [] {
    } else {
      AtSingle("b", leaf, names[1..]);
      assert names == [names[0]] + names[1..];
      assert names[1..] == [] || names[1..] == [names[1..][0]] + names[1..][1..];
    }
  }

  lemma AtSingle(name: string, node: Tree, names: seq<string>)
    requires !At(Single(name, node), names).Missing?
    ensures names == [] || (names[0] == name && !At(node, names[1..]).Missing?)
  {
    assert names == [] || name == names[0] || Lookup(Single(name, node).entries[1..], names[0]).Missing?;
  }

  lemma TwoLevelsKeys(local: string, remote: string)
    ensures LocalKey(local, []) == local && LocalKey(local, ["a"]) == NormLocal(local + "/" + "a")
    ensures LocalKey(local, ["a", "b"]) == NormLocal(NormLocal(local + "/" + "a") + "/" + "b")
    ensures RemoteKey(remote, ["a", "b"]) == NormRemote(NormRemote(remote + "/" + "a") + "/" + "b")
  {
    assert ["a", "b"][1..] == ["b"] && ["a"][1..] == [] && ["b"][1..] == [];
  }

  lemma TwoLevelsLength(base: string)
    ensures |base| + 3 <= |LocalAt(base, ["a", "b"])| && RemoteAt("", ["a", "b"]) == "a/b"
  {
    assert ["a", "b"][1..] == ["b"];
    assert Relative(["a", "b"]) == "a" + "/" + "b";
  }

  lemma SuffixLost(local: string, remote: string)
    requires Double(local) || Double(remote)
    requires '\\' !in local && '\\' !in remote
    requires remote != "" ==> remote[0] != '/'
    ensures !KeepsSuffixes(local, remote)
  {
    hide *;
    if KeepsSuffixes(local, remote) {
      var t, names := TwoLevels(), ["a", "b"];
      TwoLevelsNode();
      Kept(t, local, remote, names);
      TwoLevelsKeys(local, remote);
      if Double(local) { LocalSuffixLost(local, remote); } else { RemoteSuffixLost(local, remote); }
    }
  }

  lemma Kept(t: Tree, local: string, remote: string, names: seq<string>)
    requires KeepsSuffixes(local, remote) && WellFormed(t) && !At(t, names).Missing? && names != []
    ensures LocalAt(local, names) in Walk(t, local, remote)
    ensures Walk(t, local, remote)[LocalAt(local, names)] == RemoteAt(remote, names)
  {
    hide Walk, LocalAt, RemoteAt;
    assert Recorded(t, remote, names);
  }

  /** No node of the two levels has a local path as long as root plus suffix. */
  lemma LocalSuffixLost(local: string, remote: string)
    requires Double(local) && '\\' !in local
    ensures LocalAt(local, ["a", "b"]) !in Walk(TwoLevels(), local, remote)
  {
    hide Walk, At, WellFormed, TwoLevels, LocalKey, RemoteKey, LocalAt, Collapse, Unback, Double;
    TwoLevelsNode();
    AtNotMissing(TwoLevels(), ["a", "b"]);
    TwoLevelsKeys(local, remote);
    TwoLevelsLength(local);
    UnbackKeeps(local + "/" + "a");
    UnbackKeeps(NormLocal(local + "/" + "a") + "/" + "b");
    GrandchildTooShort(local);
    if LocalAt(local, ["a", "b"]) in Walk(TwoLevels(), local, remote) {
      var names := RecordNode(TwoLevels(), local, remote, LocalAt(local, ["a", "b"]));
      TwoLevelsNames(names);
    }
  }

  lemma RemoteSuffixLost(local: string, remote: string)
    requires !Double(local) && '\\' !in local
    requires Double(remote) && '\\' !in remote && (remote != "" ==> remote[0] != '/')
    ensures LocalAt(local, ["a", "b"]) in Walk(TwoLevels(), local, remote) ==>
              Walk(TwoLevels(), local, remote)[LocalAt(local, ["a", "b"])] != RemoteAt(remote, ["a", "b"])
  {
    hide Walk, At, WellFormed, TwoLevels, LocalKey, RemoteKey, LocalAt, Collapse, Unback, NormLocal, NormRemote;
    TwoLevelsNode();
    assert Recorded(TwoLevels(), remote, ["a", "b"]);
    WalkRecord(TwoLevels(), local, remote, ["a", "b"]);
    LocalKeyIsSuffix(local, ["a", "b"]);
    TwoLevelsKeys(local, remote);
    RemoteTwoLevels(remote);
    GrandchildTooShort(remote);
  }

  lemma RemoteTwoLevels(remote: string)
    requires '\\' !in remote && remote != "" && remote[0] != '/'
    ensures NormRemote(NormRemote(remote + "/" + "a") + "/" + "b") == Collapse(Collapse(remote + "/" + "a") + "/" + "b")
  {
    var c := Collapse(remote + "/" + "a");
    UnbackKeeps(remote + "/" + "a");
    UnbackKeeps(c + "/" + "b");
    assert StripLead(c) == c;
    assert StripLead(Collapse(c + "/" + "b")) == Collapse(c + "/" + "b");
  }
}
