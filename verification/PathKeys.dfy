/** The paths that the recursive insertion gives to the nodes below any root, clean or not. */
module PathKeys {
  import opened Paths

  /** The local path of the node reached by names: every level normalises once more. */
  function LocalKey(local: string, names: seq<string>): string
    decreases |names|
  {
    if names == [] then local else LocalKey(NormLocal(local + "/" + names[0]), names[1..])
  }

  function RemoteKey(remote: string, names: seq<string>): string
    decreases |names|
  {
    if names == [] then remote else RemoteKey(NormRemote(remote + "/" + names[0]), names[1..])
  }

  // ---------- Clean roots ----------

  lemma {:induction false} LocalKeyIsSuffix(local: string, names: seq<string>)
    requires !Double(local) && '\\' !in local && AreNames(names)
    ensures LocalKey(local, names) == LocalAt(local, names)
    decreases |names|
  {
    if names == [] {
    } else {
      assert IsName(names[0]);
      ChildLocal(local, names[0]);
      LocalKeyIsSuffix(Join(local, names[0]), names[1..]);
      LocalAtChild(local, names[0], names[1..]);
      assert names == [names[0]] + names[1..];
    }
  }

  lemma {:induction false} RemoteKeyIsSuffix(remote: string, names: seq<string>)
    requires CleanRemote(remote) && AreNames(names)
    ensures RemoteKey(remote, names) == RemoteAt(remote, names)
    decreases |names|
  {
    if names == [] {
    } else {
      assert IsName(names[0]);
      ChildRemote(remote, names[0]);
      RemoteKeyIsSuffix(JoinRemote(remote, names[0]), names[1..]);
      RemoteAtChild(remote, names[0], names[1..]);
      assert names == [names[0]] + names[1..];
    }
  }

  // ---------- All roots ----------

  /** Collapsing works on either side of a character that is no slash. */
  lemma {:induction false} CollapseAppend(x: string, t: string)
    requires t == "" || t[0] != '/'
    ensures Collapse(x + t) == Collapse(x) + Collapse(t)
    decreases |x|
  {
    if x == "" {
      assert x + t == t;
    } else {
      hide Collapse;
      var n := if |x| >= 2 && x[0] == '/' && x[1] == '/' then 2 else 1;
      CollapseAppend(x[n..], t);
      CollapseHead(x, t, n);
      Assoc([x[0]], Collapse(x[n..]), Collapse(t));
    }
  }

  lemma Assoc(a: string, b: string, c: string)
    ensures a + (b + c) == a + b + c
  {
  }

  lemma CollapseHead(x: string, t: string, n: nat)
    requires x != "" && (t == "" || t[0] != '/')
    requires n == if |x| >= 2 && x[0] == '/' && x[1] == '/' then 2 else 1
    ensures Collapse(x) == [x[0]] + Collapse(x[n..])
    ensures Collapse(x + t) == [x[0]] + Collapse(x[n..] + t)
  {
    var y := x + t;
    assert y[0] == x[0] && y[n..] == x[n..] + t;
    if |x| >= 2 {
      assert y[1] == x[1];
    } else if t != "" {
      assert y[1] == t[0];
    }
  }

  /** The root's share of the paths k levels down. */
  function Front(local: string, k: nat): string
    requires k > 0
  {
    if k == 1 then Collapse(local + "/") else Collapse(Front(local, k - 1))
  }

  lemma NameCollapses(n: string)
    requires IsName(n)
    ensures n[0] != '/' && Collapse(n) == n && Collapse(n + "/") == n + "/"
  {
    assert n[0] in n;
    NameIsClean(n);
    CollapseKeeps(n);
    CollapseJoin(n, "x");
    NameSlash(n);
  }

  lemma {:induction false} NameSlash(n: string)
    requires '/' !in n
    ensures Collapse(n + "/") == n + "/"
  {
    if n == "" {
    } else {
      assert (n + "/")[0] == n[0] && (n + "/")[1..] == n[1..] + "/";
      NameSlash(n[1..]);
    }
  }

  /** One level down: the root's share and the name. */
  lemma ChildKey(local: string, n: string)
    requires '\\' !in local && IsName(n)
    ensures NormLocal(local + "/" + n) == Front(local, 1) + n
    ensures '\\' !in NormLocal(local + "/" + n)
  {
    UnbackKeeps(local + "/" + n);
    NameCollapses(n);
    CollapseAppend(local + "/", n);
  }

  lemma {:induction false} FrontOfChild(local: string, n: string, k: nat)
    requires k > 0 && IsName(n)
    ensures Front(Front(local, 1) + n, k) == Front(local, k + 1) + (n + "/")
    decreases k
  {
    NameCollapses(n);
    if k == 1 {
      assert Front(local, 1) + n + "/" == Front(local, 1) + (n + "/");
      CollapseAppend(Front(local, 1), n + "/");
    } else {
      FrontOfChild(local, n, k - 1);
      CollapseAppend(Front(local, k), n + "/");
    }
  }

  lemma {:induction false} KeyIsFront(local: string, names: seq<string>)
    requires '\\' !in local && AreNames(names) && names != []
    ensures LocalKey(local, names) == Front(local, |names|) + Relative(names)
    decreases |names|
  {
    var n, rest := names[0], names[1..];
    assert IsName(n);
    ChildKey(local, n);
    if rest == [] {
    } else {
      KeyIsFront(Front(local, 1) + n, rest);
      FrontOfChild(local, n, |rest|);
      assert Front(local, |names|) + (n + "/") + Relative(rest) == Front(local, |names|) + (n + "/" + Relative(rest));
    }
  }

  // ---------- Different nodes have different paths ----------

  function Letters(s: string): nat {
    if s == "" then 0 else (if s[0] == '/' then 0 else 1) + Letters(s[1..])
  }

  lemma {:induction false} LettersAppend(s: string, t: string)
    ensures Letters(s + t) == Letters(s) + Letters(t)
  {
    if s == "" {
      assert s + t == t;
    } else {
      assert (s + t)[1..] == s[1..] + t;
      LettersAppend(s[1..], t);
    }
  }

  lemma {:induction false} LettersKept(s: string)
    ensures Letters(Collapse(s)) == Letters(s)
    decreases |s|
  {
    if s == "" {
    } else if |s| >= 2 && s[0] == '/' && s[1] == '/' {
      LettersKept(s[2..]);
      assert s[1..][1..] == s[2..];
      assert Collapse(s)[1..] == Collapse(s[2..]);
    } else {
      LettersKept(s[1..]);
      assert Collapse(s)[1..] == Collapse(s[1..]);
    }
  }

  lemma {:induction false} FrontLetters(local: string, k: nat)
    requires k > 0
    ensures Letters(Front(local, k)) == Letters(local)
  {
    if k == 1 {
      LettersKept(local + "/");
      LettersAppend(local, "/");
    } else {
      FrontLetters(local, k - 1);
      LettersKept(Front(local, k - 1));
    }
  }

  lemma {:induction false} FrontShrinks(local: string, k: nat, m: nat)
    requires 0 < k <= m
    ensures |Front(local, m)| <= |Front(local, k)|
    decreases m
  {
    if k == m {
    } else {
      FrontShrinks(local, k, m - 1);
    }
  }

  lemma LocalKeyInjective(local: string, a: seq<string>, b: seq<string>)
    requires '\\' !in local && AreNames(a) && AreNames(b)
    requires LocalKey(local, a) == LocalKey(local, b)
    ensures a == b
  {
    if |a| <= |b| { ShorterIsSame(local, a, b); } else { ShorterIsSame(local, b, a); }
  }

  lemma ShorterIsSame(local: string, a: seq<string>, b: seq<string>)
    requires '\\' !in local && AreNames(a) && AreNames(b) && |a| <= |b|
    requires LocalKey(local, a) == LocalKey(local, b)
    ensures a == b
  {
    if b == [] {
    } else {
      var g, s := Front(local, |b|), Relative(b);
      KeyIsFront(local, b);
      FrontLetters(local, |b|);
      LettersAppend(g, s);
      RelativeNotEmpty(b);
      if a == [] {
        assert false;
      } else {
        var f, r := Front(local, |a|), Relative(a);
        KeyIsFront(local, a);
        FrontLetters(local, |a|);
        FrontShrinks(local, |a|, |b|);
        SameTail(f, r, g, s);
        RelativeInjective(a, b);
      }
    }
  }

  /** Two ways to cut one string. */
  lemma CutTwice(f: string, r: string, g: string, s: string) returns (w: string)
    requires f + r == g + s && |g| <= |f|
    ensures f == g + w && s == w + r
  {
    w := f[|g|..];
    var whole := f + r;
    assert g == whole[..|g|] == f[..|g|];
    assert s == whole[|g|..] == w + r;
  }

  lemma LettersOfStart(w: string)
    ensures w == "" || w[0] == '/' || Letters(w) > 0
  {
  }

  /** Only slashes can move from one side to the other, and a tail that starts with none leaves no choice. */
  lemma SameTail(f: string, r: string, g: string, s: string)
    requires f + r == g + s && |g| <= |f| && Letters(f) == Letters(g)
    requires s != "" && s[0] != '/'
    ensures r == s
  {
    hide Letters;
    var w := CutTwice(f, r, g, s);
    LettersAppend(g, w);
    LettersOfStart(w);
    assert w == "" ==> w + r == r;
  }

  lemma ChildRemoteNotEmpty(remote: string, n: string)
    requires IsName(n)
    ensures NormRemote(remote + "/" + n) != ""
  {
    var u := Unback(remote + "/" + n);
    assert n[0] in n;
    LettersKept(u);
    assert u == u[..|remote| + 1] + n;
    LettersAppend(u[..|remote| + 1], n);
    StripKeepsLetters(Collapse(u));
  }

  lemma {:induction false} StripKeepsLetters(s: string)
    ensures Letters(StripLead(s)) == Letters(s)
  {
    if s == "" || s[0] != '/' {
    } else {
      StripKeepsLetters(s[1..]);
    }
  }

  /** Only the root itself can be left without a remote path. */
  lemma {:induction false} RemoteKeyNotEmpty(remote: string, names: seq<string>)
    requires AreNames(names)
    ensures RemoteKey(remote, names) == "" <==> remote == "" && names == []
    decreases |names|
  {
    if names == [] {
    } else {
      assert IsName(names[0]);
      ChildRemoteNotEmpty(remote, names[0]);
      RemoteKeyNotEmpty(NormRemote(remote + "/" + names[0]), names[1..]);
    }
  }
}
