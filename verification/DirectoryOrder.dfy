/** Whether the sorted archive puts every directory before what is inside it. */
module DirectoryOrder {
  import opened Paths
  import opened PathKeys
  import opened Disk
  import opened Sorting

  // ---------- Which roots ----------

  /** What stands behind the first run of two or more slashes. */
  function Behind(s: string): (b: string)
    ensures b != "" ==> b[0] != '/'
  {
    if |s| < 2 then ""
    else if s[0] == '/' && s[1] == '/' then StripLead(s)
    else Behind(s[1..])
  }

  /** If there is such a run, it is followed by a character above the slash. */
  predicate Rises(s: string) { Double(s) ==> Behind(s) != "" && Behind(s)[0] > '/' }

  /** And so after every further collapse. */
  predicate AllRise(s: string)
    decreases |s|
  {
    if !Double(s) then true
    else
      DoubleShrinks(s);
      Rises(s) && AllRise(Collapse(s))
  }

  /** The root itself, unless it gets no record, and its share of every path below it. */
  predicate RootAllows(local: string, remote: string) {
    (remote != "" ==> Rises(local)) && AllRise(Front(local, 1))
  }

  /** Both are recorded, and a is written before b. */
  ghost predicate Before(items: map<string, string>, a: string, b: string) {
    && a in items && b in items
    && forall i, j :: 0 <= i < |items| && 0 <= j < |items| && Sorted(items.Keys)[i] == a && Sorted(items.Keys)[j] == b ==> i < j
  }

  /** In every tree, every recorded node is written before everything below it. */
  ghost predicate DirectoriesFirst(local: string, remote: string) {
    forall t: Tree, names: seq<string>, more: seq<string> ::
      WellFormed(t) && Recorded(t, remote, names) && !At(t, names + more).Missing? && more != [] ==>
      Before(Walk(t, local, remote), LocalKey(local, names), LocalKey(local, names + more))
  }

  // ---------- Comparing strings ----------

  lemma {:induction false} SamePrefix(u: string, a: string, b: string)
    ensures StrLe(u + a, u + b) <==> StrLe(a, b)
  {
    if u == "" {
      assert u + a == a && u + b == b;
    } else {
      assert (u + a)[1..] == u[1..] + a && (u + b)[1..] == u[1..] + b;
      SamePrefix(u[1..], a, b);
    }
  }

  lemma FirstDifference(u: string, a: string, b: string)
    requires a != "" && b != "" && a[0] != b[0]
    ensures StrLt(u + a, u + b) <==> a[0] < b[0]
    ensures StrLt(u + b, u + a) <==> b[0] < a[0]
  {
    SamePrefix(u, a, b);
    SamePrefix(u, b, a);
    assert (u + a)[|u|] == a[0] && (u + b)[|u|] == b[0];
  }

  lemma SortedOrder(items: map<string, string>, a: string, b: string)
    requires a in items && b in items
    ensures Before(items, a, b) <==> StrLt(a, b)
  {
    hide StrLt, Increasing;
    var keys := Sorted(items.Keys);
    assert a in keys && b in keys && |keys| == |items|;
    var i :| 0 <= i < |keys| && keys[i] == a;
    var j :| 0 <= j < |keys| && keys[j] == b;
    forall i, j | 0 <= i < |keys| && 0 <= j < |keys| && keys[i] == a && keys[j] == b
      ensures i < j <==> StrLt(a, b)
    {
      OrderOfIndices(keys, i, j);
    }
  }

  lemma OrderOfIndices(keys: seq<string>, i: nat, j: nat)
    requires Increasing(keys) && i < |keys| && j < |keys|
    ensures i < j <==> StrLt(keys[i], keys[j])
  {
    hide StrLe;
    if j < i && StrLe(keys[i], keys[j]) {
      assert StrLt(keys[j], keys[i]);
      StrLeAntisymmetric(keys[i], keys[j]);
    }
  }

  // ---------- One level ----------

  function Slashes(n: nat): (s: string)
    ensures |s| == n && forall i :: 0 <= i < n ==> s[i] == '/'
  {
    seq(n, _ => '/')
  }

  lemma {:induction false} LeadIsSlashes(x: string)
    ensures |StripLead(x)| <= |x| && x == Slashes(|x| - |StripLead(x)|) + StripLead(x)
  {
    if x == "" || x[0] != '/' {
    } else {
      hide Slashes;
      LeadIsSlashes(x[1..]);
      assert x == "/" + x[1..];
      SlashesStep(|x[1..]| - |StripLead(x)|);
      Assoc("/", Slashes(|x[1..]| - |StripLead(x)|), StripLead(x));
    }
  }

  lemma SlashesStep(n: nat)
    ensures Slashes(n + 1) == "/" + Slashes(n)
  {
  }

  /** A run of slashes is halved, rounded up. */
  lemma {:induction false} RunHalves(n: nat, y: string)
    requires y == "" || y[0] != '/'
    ensures Collapse(Slashes(n) + y) == Slashes((n + 1) / 2) + Collapse(y)
  {
    hide *;
    if n < 2 {
      ShortRun(y);
    } else {
      RunHalves(n - 2, y);
      RunStep(n - 2, (n - 1) / 2, y);
    }
  }

  lemma ShortRun(y: string)
    requires y == "" || y[0] != '/'
    ensures Collapse(Slashes(0) + y) == Slashes(0) + Collapse(y)
    ensures Collapse(Slashes(1) + y) == Slashes(1) + Collapse(y)
  {
    assert Slashes(0) == "" && Slashes(1) == "/";
    hide Slashes;
    assert "" + y == y && "" + Collapse(y) == Collapse(y);
    assert ("/" + y)[1..] == y;
  }

  lemma RunStep(n: nat, h: nat, y: string)
    requires Collapse(Slashes(n) + y) == Slashes(h) + Collapse(y)
    ensures Collapse(Slashes(n + 2) + y) == Slashes(h + 1) + Collapse(y)
  {
    hide *;
    SlashesStep(n + 1);
    SlashesStep(n);
    SlashesStep(h);
    Assoc("/", "/" + Slashes(n), y);
    Assoc("/", Slashes(n), y);
    PairCollapses(Slashes(n) + y);
    Assoc("/", Slashes(h), Collapse(y));
  }

  lemma PairCollapses(s: string)
    ensures Collapse("/" + ("/" + s)) == "/" + Collapse(s)
  {
    assert ("/" + ("/" + s))[2..] == s;
  }

  lemma RunSplits(x: string, t: string) returns (u: string, s: string, w: string)
    requires |x| >= 2 && x[0] == '/' && x[1] == '/' && StripLead(x) != ""
    ensures x == u + ("/" + s) && Collapse(x + t) == u + w
    ensures w != "" && w[0] == StripLead(x)[0]
  {
    var b := StripLead(x);
    var n := |x| - |b|;
    LeadIsSlashes(x);
    RunLength(x);
    RunHalves(n, b + t);
    Assoc(Slashes(n), b, t);
    var h := (n + 1) / 2;
    u, s, w := Slashes(h), Slashes(n - h - 1) + b, Collapse(b + t);
    assert Slashes(n) == Slashes(h) + ("/" + Slashes(n - h - 1));
    assert x == u + ("/" + s);
  }

  lemma RunLength(x: string)
    requires |x| >= 2 && x[0] == '/' && x[1] == '/'
    ensures |StripLead(x)| <= |x| - 2
  {
    assert x[1..][0] == '/';
  }

  /** The first run gets shorter, so that what stood behind it meets a slash. */
  lemma {:induction false} FirstRun(x: string, t: string) returns (u: string, s: string, w: string)
    requires Double(x) && Behind(x) != ""
    ensures x == u + ("/" + s) && Collapse(x + t) == u + w
    ensures w != "" && w[0] == Behind(x)[0]
    decreases |x|
  {
    if x[0] == '/' && x[1] == '/' {
      u, s, w := RunSplits(x, t);
    } else {
      u, s, w := FirstRun(x[1..], t);
      assert (x + t)[1..] == x[1..] + t;
      u := [x[0]] + u;
    }
  }

  /** Below a node whose path has a leftover run, order depends on the character behind it alone. */
  lemma ChildOrder(x: string, m: string)
    requires '\\' !in x && IsName(m) && Double(x) && Behind(x) != ""
    ensures StrLt(x, NormLocal(x + "/" + m)) <==> Rises(x)
  {
    UnbackKeeps(x + "/" + m);
    assert x + "/" + m == x + ("/" + m);
    hide *;
    var u, s, w := FirstRun(x, "/" + m);
    BehindIsNoSlash(x);
    RisesIs(x);
    Normalised(x + "/" + m);
    assert ("/" + s)[0] == '/';
    FirstDifference(u, "/" + s, w);
  }

  lemma BehindIsNoSlash(x: string)
    ensures Behind(x) != "" ==> Behind(x)[0] != '/'
  {
  }

  lemma RisesIs(x: string)
    ensures Rises(x) <==> (Double(x) ==> Behind(x) != "" && Behind(x)[0] > '/')
  {
  }

  lemma Normalised(x: string)
    requires Unback(x) == x
    ensures NormLocal(x) == Collapse(x)
  {
  }

  lemma ChildRises(x: string, m: string)
    requires '\\' !in x && IsName(m) && Rises(x)
    ensures StrLt(x, NormLocal(x + "/" + m))
  {
    RisesIs(x);
    hide *;
    if Double(x) {
      ChildOrder(x, m);
    } else {
      ChildLocal(x, m);
      JoinExtends(x, m);
    }
  }

  lemma JoinExtends(x: string, m: string)
    requires IsName(m)
    ensures StrLt(x, Join(x, m))
  {
    PrefixIsBelow(x, Sep(x) + m);
    hide StrLe;
    assert x + Sep(x) + m == x + (Sep(x) + m);
    assert |x + (Sep(x) + m)| > |x|;
  }

  // ---------- Any number of levels ----------

  lemma {:induction false} LocalKeySnoc(local: string, names: seq<string>, m: string)
    ensures LocalKey(local, names + [m]) == NormLocal(LocalKey(local, names) + "/" + m)
    decreases |names|
  {
    hide NormLocal;
    if names == [] {
      assert (names + [m])[1..] == [];
    } else {
      assert (names + [m])[1..] == names[1..] + [m];
      LocalKeySnoc(NormLocal(local + "/" + names[0]), names[1..], m);
    }
  }

  /** A clean tail behind the root's share changes nothing, or stands behind its last run. */
  lemma {:induction false} RisesAppend(f: string, r: string)
    requires r != "" && r[0] != '/' && !Double(r)
    ensures Rises(f) ==> Rises(f + r)
    ensures Double(f) && !Rises(f) && r[0] < '/' ==> Double(f + r) && Behind(f + r) != "" && !Rises(f + r)
  {
    if f == "" {
      assert f + r == r;
    } else if |f| >= 2 && f[0] == '/' && f[1] == '/' {
      StripAppend(f, r);
    } else {
      assert (f + r)[0] == f[0] && (f + r)[1..] == f[1..] + r;
      RisesAppend(f[1..], r);
    }
  }

  lemma {:induction false} StripAppend(f: string, r: string)
    requires r != "" && r[0] != '/'
    ensures StripLead(f + r) == StripLead(f) + r
  {
    if f == "" || f[0] != '/' {
      assert StripLead(f + r) == f + r;
    } else {
      assert (f + r)[1..] == f[1..] + r;
      StripAppend(f[1..], r);
    }
  }

  lemma {:induction false} RelativeIsClean(names: seq<string>)
    requires AreNames(names) && names != []
    ensures Relative(names) != "" && Relative(names)[0] == names[0][0] != '/' && !Double(Relative(names))
    decreases |names|
  {
    var n := names[0];
    assert IsName(n) && n[0] in n;
    if |names| == 1 {
      NameIsClean(n);
    } else {
      RelativeIsClean(names[1..]);
      NameThenClean(n, Relative(names[1..]));
    }
  }

  lemma {:induction false} NameThenClean(n: string, r: string)
    requires '/' !in n && !Double(r) && r != "" && r[0] != '/'
    ensures !Double(n + "/" + r)
  {
    var s := n + "/" + r;
    if n == "" {
      assert s[1..] == r;
    } else {
      assert s[0] == n[0] && s[1..] == n[1..] + "/" + r;
      NameThenClean(n[1..], r);
    }
  }

  lemma {:induction false} AllRiseFront(local: string, k: nat)
    requires AllRise(Front(local, 1)) && k > 0
    ensures AllRise(Front(local, k)) && Rises(Front(local, k))
  {
    if k == 1 {
    } else {
      AllRiseFront(local, k - 1);
      if !Double(Front(local, k - 1)) { CollapseKeeps(Front(local, k - 1)); }
    }
  }

  lemma KeyRises(local: string, remote: string, names: seq<string>)
    requires '\\' !in local && AreNames(names) && RootAllows(local, remote) && !(remote == "" && names == [])
    ensures Rises(LocalKey(local, names))
  {
    if names == [] {
    } else {
      hide Rises, AllRise, LocalKey, Front, Relative;
      KeyIsFront(local, names);
      AllRiseFront(local, |names|);
      RelativeIsClean(names);
      RisesAppend(Front(local, |names|), Relative(names));
    }
  }

  lemma KeyHasNoBackslash(local: string, names: seq<string>)
    requires '\\' !in local
    ensures '\\' !in LocalKey(local, names)
    decreases |names|
  {
    if names == [] {
    } else {
      KeyHasNoBackslash(NormLocal(local + "/" + names[0]), names[1..]);
    }
  }

  lemma {:induction false} KeysAscend(local: string, remote: string, names: seq<string>, more: seq<string>)
    requires '\\' !in local && AreNames(names + more) && RootAllows(local, remote)
    requires !(remote == "" && names == []) && more != []
    ensures StrLt(LocalKey(local, names), LocalKey(local, names + more))
    decreases |more|
  {
    hide RootAllows, LocalKey, StrLt, NormLocal, IsName;
    var next := names + [more[0]];
    assert IsName((names + more)[|names|]);
    assert AreNames(names) by { assert forall i :: 0 <= i < |names| ==> names[i] == (names + more)[i]; }
    KeyRises(local, remote, names);
    KeyHasNoBackslash(local, names);
    ChildRises(LocalKey(local, names), more[0]);
    LocalKeySnoc(local, names, more[0]);
    if |more| == 1 {
      assert names + more == next;
    } else {
      assert names + more == next + more[1..];
      KeysAscend(local, remote, next, more[1..]);
      Ascend(LocalKey(local, names), LocalKey(local, next), LocalKey(local, names + more));
    }
  }

  lemma Ascend(a: string, b: string, c: string)
    requires StrLt(a, b) && StrLt(b, c)
    ensures StrLt(a, c)
  {
    StrLeTransitive(a, b, c);
    if a == c { StrLeAntisymmetric(a, b); }
  }

  /** At an allowed root every tree keeps the order. */
  lemma OrderKept(t: Tree, local: string, remote: string, names: seq<string>, more: seq<string>)
    requires '\\' !in local && RootAllows(local, remote)
    requires WellFormed(t) && Recorded(t, remote, names) && !At(t, names + more).Missing? && more != []
    ensures Before(Walk(t, local, remote), LocalKey(local, names), LocalKey(local, names + more))
  {
    hide *;
    RecordedBelow(t, remote, names, more);
    WalkRecord(t, local, remote, names);
    WalkRecord(t, local, remote, names + more);
    NotTheRoot(t, remote, names);
    KeysAscend(local, remote, names, more);
    SortedOrder(Walk(t, local, remote), LocalKey(local, names), LocalKey(local, names + more));
  }

  lemma RecordedBelow(t: Tree, remote: string, names: seq<string>, more: seq<string>)
    requires !At(t, names + more).Missing? && more != []
    ensures Recorded(t, remote, names + more)
  {
  }

  lemma NotTheRoot(t: Tree, remote: string, names: seq<string>)
    requires Recorded(t, remote, names)
    ensures !(remote == "" && names == [])
  {
  }

  // ---------- At no other root ----------

  /** n directories inside each other, all named "-". */
  function Chain(n: nat): Tree {
    if n == 0 then Other(Stat(0, 0, 0, 0, 0, 0, 0)) else Single("-", Chain(n - 1))
  }

  function Dashes(n: nat): seq<string> {
    if n == 0 then [] else ["-"] + Dashes(n - 1)
  }

  lemma {:induction false} ChainHolds(n: nat, k: nat)
    requires k <= n
    ensures WellFormed(Chain(n)) && !At(Chain(n), Dashes(k)).Missing?
    ensures AreNames(Dashes(k)) && |Dashes(k)| == k
    decreases n
  {
    assert IsName("-");
    if n == 0 {
    } else {
      ChainHolds(n - 1, if k == 0 then 0 else k - 1);
      if k > 0 {
        assert Dashes(k)[1..] == Dashes(k - 1);
        assert Dashes(k)[0] == "-";
      }
    }
  }

  lemma {:induction false} DashesSnoc(k: nat)
    ensures Dashes(k + 1) == Dashes(k) + ["-"]
  {
    if k == 0 {
    } else {
      DashesSnoc(k - 1);
      assert Dashes(k + 1) == ["-"] + (Dashes(k - 1) + ["-"]);
    }
  }

  /** k levels down a chain, a path whose leftover run meets a lower character spoils the order. */
  lemma OrderSpoilt(local: string, remote: string, k: nat)
    requires '\\' !in local && Recorded(Chain(k + 1), remote, Dashes(k))
    requires var x := LocalKey(local, Dashes(k)); Double(x) && Behind(x) != "" && !Rises(x)
    ensures !DirectoriesFirst(local, remote)
  {
    hide *;
    var t, names := Chain(k + 1), Dashes(k);
    ChainHolds(k + 1, k);
    ChainHolds(k + 1, k + 1);
    DashesSnoc(k);
    DashIsName();
    LocalKeySnoc(local, names, "-");
    KeyHasNoBackslash(local, names);
    ChildOrder(LocalKey(local, names), "-");
    RecordedBelow(t, remote, names, ["-"]);
    WalkRecord(t, local, remote, names);
    WalkRecord(t, local, remote, names + ["-"]);
    SortedOrder(Walk(t, local, remote), LocalKey(local, names), LocalKey(local, names + ["-"]));
    if DirectoriesFirst(local, remote) { OrderOf(t, local, remote, names, ["-"]); }
  }

  lemma DashIsName()
    ensures IsName("-")
  {
  }

  lemma OrderOf(t: Tree, local: string, remote: string, names: seq<string>, more: seq<string>)
    requires DirectoriesFirst(local, remote)
    requires WellFormed(t) && Recorded(t, remote, names) && !At(t, names + more).Missing? && more != []
    ensures Before(Walk(t, local, remote), LocalKey(local, names), LocalKey(local, names + more))
  {
    hide Before, Walk, LocalKey;
  }

  /** A root's share that does not rise, some levels down. */
  lemma {:induction false} SomeFrontSinks(local: string, k: nat) returns (m: nat)
    requires k > 0 && !AllRise(Front(local, k))
    ensures m > 0 && Double(Front(local, m)) && !Rises(Front(local, m))
    decreases |Front(local, k)|
  {
    if Rises(Front(local, k)) {
      DoubleShrinks(Front(local, k));
      m := SomeFrontSinks(local, k + 1);
    } else {
      m := k;
    }
  }

  lemma DashesSink(local: string, remote: string, m: nat)
    requires '\\' !in local && m > 0 && Double(Front(local, m)) && !Rises(Front(local, m))
    ensures !DirectoriesFirst(local, remote)
  {
    hide *;
    ChainHolds(m + 1, m);
    NamesBelow(m);
    KeyIsFront(local, Dashes(m));
    RelativeIsClean(Dashes(m));
    RisesAppend(Front(local, m), Relative(Dashes(m)));
    DashesRecorded(remote, m);
    OrderSpoilt(local, remote, m);
  }

  lemma NamesBelow(m: nat)
    requires m > 0
    ensures Dashes(m) != [] && Dashes(m)[0] == "-" && "-"[0] < '/'
  {
  }

  lemma DashesRecorded(remote: string, k: nat)
    ensures k > 0 || remote != "" ==> Recorded(Chain(k + 1), remote, Dashes(k))
  {
    ChainHolds(k + 1, k);
  }

  /** A run left at the end of the root is still there one level down, in front of any name. */
  lemma {:induction false} TrailingRunSinks(local: string)
    requires Double(local) && Behind(local) == ""
    ensures Double(Collapse(local + "/")) && Behind(Collapse(local + "/")) == ""
  {
    if local[0] == '/' && local[1] == '/' {
      LeadIsSlashes(local);
      var n := |local|;
      assert local + "/" == Slashes(n + 1) + "";
      RunHalves(n + 1, "");
      var s := Slashes((n + 2) / 2);
      assert Collapse(local + "/") == s && s[0] == '/' && s[1] == '/';
      LeadOfSlashes((n + 2) / 2);
    } else {
      TrailingRunSinks(local[1..]);
      assert (local + "/")[1..] == local[1..] + "/";
      assert Collapse(local + "/")[1..] == Collapse(local[1..] + "/");
    }
  }

  lemma {:induction false} LeadOfSlashes(n: nat)
    ensures StripLead(Slashes(n)) == ""
  {
    if n == 0 {
    } else {
      assert Slashes(n)[1..] == Slashes(n - 1);
      LeadOfSlashes(n - 1);
    }
  }

  lemma RootSinks(local: string, remote: string)
    requires '\\' !in local && remote != "" && !Rises(local) && AllRise(Front(local, 1))
    ensures !DirectoriesFirst(local, remote)
  {
    if Behind(local) == "" {
      TrailingRunSinks(local);
    } else {
      DashesRecorded(remote, 0);
      OrderSpoilt(local, remote, 0);
    }
  }

  /** Every tree keeps its directories first if and only if, however often the path is collapsed further, what stands
      behind its first leftover run of slashes is a character above the slash. */
  lemma DirectoriesFirstIff(p: string, q: string)
    ensures DirectoriesFirst(NormLocal(p), NormRemote(q)) <==> RootAllows(NormLocal(p), NormRemote(q))
  {
    var local, remote := NormLocal(p), NormRemote(q);
    NormHasNoBackslash(p, q);
    hide NormLocal, NormRemote, Walk, Before, LocalKey, Rises, AllRise, At, Recorded, WellFormed;
    if RootAllows(local, remote) {
      forall t: Tree, names: seq<string>, more: seq<string> |
        WellFormed(t) && Recorded(t, remote, names) && !At(t, names + more).Missing? && more != []
        ensures Before(Walk(t, local, remote), LocalKey(local, names), LocalKey(local, names + more))
      {
        OrderKept(t, local, remote, names, more);
      }
    } else if AllRise(Front(local, 1)) {
      RootSinks(local, remote);
    } else {
      var m := SomeFrontSinks(local, 1);
      DashesSink(local, remote, m);
    }
  }

  /** A path without three slashes in a row keeps the order. */
  lemma CleanRootAllows(p: string, q: string)
    requires !HasThree(p)
    ensures RootAllows(NormLocal(p), NormRemote(q))
  {
    LocalIsClean(p);
    var local := NormLocal(p);
    JoinKeepsClean(local);
  }

  /** One more slash, collapsed, leaves no double slash either. */
  lemma {:induction false} JoinKeepsClean(s: string)
    requires !Double(s)
    ensures !Double(Collapse(s + "/"))
  {
    if |s| < 2 {
    } else {
      assert (s + "/")[1..] == s[1..] + "/";
      JoinKeepsClean(s[1..]);
      assert Collapse(s + "/")[1..] == Collapse(s[1..] + "/");
    }
  }

  function AThen(n: nat, tail: string): string { "a" + (Slashes(n) + tail) }

  predicate IsTail(tail: string) { '\\' !in tail && !Double(tail) && tail != "" && tail[0] != '/' }

  lemma AThenCollapses(n: nat, tail: string)
    requires IsTail(tail)
    ensures Collapse(AThen(n, tail)) == AThen((n + 1) / 2, tail) && NormLocal(AThen(n, tail)) == AThen((n + 1) / 2, tail)
  {
    UnbackKeeps(AThen(n, tail));
    CollapseKeeps(tail);
    RunHalves(n, tail);
    assert AThen(n, tail)[1..] == Slashes(n) + tail;
  }

  lemma AThenDouble(tail: string)
    requires IsTail(tail)
    ensures Double(AThen(2, tail)) && Behind(AThen(2, tail)) == tail && !Double(AThen(1, tail))
  {
    var run := Slashes(2) + tail;
    assert AThen(2, tail)[1..] == run && run[1..] == "/" + tail && ("/" + tail)[1..] == tail;
    assert run[0] == '/' && run[1] == '/' && StripLead(tail) == tail;
    assert StripLead("/" + tail) == tail && StripLead(run) == StripLead(run[1..]);
    assert Behind(AThen(2, tail)) == Behind(run);
    assert AThen(1, tail)[1..] == "/" + tail;
  }

  lemma Texts()
    ensures AThen(3, "-z") == "a///-z" && AThen(2, "-z") == "a//-z" && AThen(2, "-z/x") == "a//-z" + "/" + "x"
    ensures AThen(1, "-z/x") == "a/-z/x" && "a/-z/x" == "a/" + "-z/x" && "a//-z" == "a/" + "/-z"
    ensures AThen(3, "z") == "a///z" && AThen(2, "z/") == AThen(2, "z") + "/"
    ensures NormRemote("r") == "r"
  {
    assert Slashes(1) == "/" && Slashes(2) == "//" && Slashes(3) == "///";
    assert Unback("r") == "r";
  }

  lemma Tails()
    ensures IsTail("-z") && IsTail("-z/x") && IsTail("z") && IsTail("z/") && IsName("x")
  {
    assert "-z"[1..] == "z" && "-z/x"[1..] == "z/x" && "z/x"[1..] == "/x" && "/x"[1..] == "x" && "z/"[1..] == "/";
  }

  /** A directory that holds x. */
  function HoldsX(): Tree { Single("x", Other(Stat(0, 0, 0, 0, 0, 0, 0))) }

  lemma HoldsXNodes()
    ensures WellFormed(HoldsX()) && Recorded(HoldsX(), "r", []) && Recorded(HoldsX(), "r", ["x"])
    ensures LocalKey("a//-z", []) == "a//-z" && LocalKey("a//-z", ["x"]) == NormLocal("a//-z" + "/" + "x")
    ensures RemoteKey("r", []) == "r"
  {
    assert ["x"][1..] == [] && IsName("x");
  }

  /** Packing a///-z over a directory that holds x: the directory keeps the path a//-z, what it holds gets a/-z/x
      and is written first. */
  lemma LowCharacterBehindRun()
    ensures var items := Walk(HoldsX(), NormLocal("a///-z"), NormRemote("r"));
            Before(items, "a/-z/x", "a//-z") && items["a//-z"] == "r"
  {
    hide *;
    Texts();
    Tails();
    AThenCollapses(3, "-z");
    AThenCollapses(2, "-z/x");
    HoldsXNodes();
    WalkRecord(HoldsX(), "a//-z", "r", []);
    WalkRecord(HoldsX(), "a//-z", "r", ["x"]);
    FirstDifference("a/", "-z/x", "/-z");
    SortedOrder(Walk(HoldsX(), "a//-z", "r"), "a/-z/x", "a//-z");
  }

  /** Packing a///z leaves a double slash over too, and keeps the order. */
  lemma HighCharacterBehindRun()
    ensures Double(NormLocal("a///z")) && RootAllows(NormLocal("a///z"), NormRemote("r"))
  {
    hide AThen, Double, Behind, Collapse, NormLocal, NormRemote;
    Texts();
    Tails();
    AThenCollapses(3, "z");
    AThenCollapses(2, "z/");
    AThenDouble("z");
    AThenDouble("z/");
  }
}
