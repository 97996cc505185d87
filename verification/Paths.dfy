/** Path normalisation of the cpio builder. */
module Paths {
  /** What separates names in a path given by the user. */
  predicate IsSeparator(c: char) { c == '/' || c == '\\' }

  /** replace('\\', '/') */
  function Unback(s: string): (r: string)
    ensures '\\' !in r && |r| == |s|
    ensures forall i :: 0 <= i < |s| ==> (r[i] == '/' <==> IsSeparator(s[i]))
    ensures forall i :: 0 <= i < |s| && !IsSeparator(s[i]) ==> r[i] == s[i]
  {
    seq(|s|, i requires 0 <= i < |s| => if s[i] == '\\' then '/' else s[i])
  }

  /** replace('//', '/'): one pass, left to right. */
  function Collapse(s: string): (r: string)
    ensures |r| <= |s|
    ensures s != "" ==> r != "" && r[0] == s[0]
    ensures forall c :: c in r ==> c in s
  {
    if |s| >= 2 && s[0] == '/' && s[1] == '/' then "/" + Collapse(s[2..])
    else if s == "" then "" else [s[0]] + Collapse(s[1..])
  }

  /** lstrip('/') */
  function StripLead(s: string): (r: string)
    ensures r != "" ==> r[0] != '/'
    ensures |r| <= |s|
  {
    if s != "" && s[0] == '/' then StripLead(s[1..]) else s
  }

  function NormLocal(p: string): string { Collapse(Unback(p)) }

  function NormRemote(p: string): string { StripLead(Collapse(Unback(p))) }

  predicate Double(s: string) {
    |s| >= 2 && ((s[0] == '/' && s[1] == '/') || Double(s[1..]))
  }

  predicate Triple(s: string) {
    |s| >= 3 && ((s[0] == '/' && s[1] == '/' && s[2] == '/') || Triple(s[1..]))
  }

  /** One pass leaves a double slash exactly where there was a run of three or more. */
  lemma {:induction false} CollapseLeavesDouble(s: string)
    ensures Double(Collapse(s)) <==> Triple(s)
  {
    if |s| >= 2 && s[0] == '/' && s[1] == '/' {
      var rest := s[2..];
      CollapseLeavesDouble(rest);
      assert Collapse(s)[1..] == Collapse(rest);
      assert s[1..][1..] == rest;
      assert Triple(s) <==> (|s| >= 3 && s[2] == '/') || Triple(rest);
    } else if s != "" {
      CollapseLeavesDouble(s[1..]);
      assert Collapse(s)[1..] == Collapse(s[1..]);
    }
  }

  /** Stripping leading slashes before or after the collapse is the same. */
  lemma {:induction false} StripThenCollapse(s: string)
    ensures StripLead(Collapse(s)) == Collapse(StripLead(s))
    decreases |s|
  {
    if |s| >= 2 && s[0] == '/' && s[1] == '/' {
      StripThenCollapse(s[2..]);
      assert Collapse(s)[1..] == Collapse(s[2..]);
      assert s[1..][1..] == s[2..];
    } else if s != "" {
      StripThenCollapse(s[1..]);
      assert Collapse(s)[1..] == Collapse(s[1..]);
    }
  }

  // ---------- Paths as they are given ----------

  predicate ThreeAt(p: string, i: int) {
    0 <= i && i + 2 < |p| && IsSeparator(p[i]) && IsSeparator(p[i + 1]) && IsSeparator(p[i + 2])
  }

  /** Three slashes or backslashes in a row. */
  ghost predicate HasThree(p: string) { exists i :: ThreeAt(p, i) }

  /** Three in a row that do not all belong to the start of the path. */
  ghost predicate HasThreeInside(p: string) { exists k, i :: 0 <= k < i < |p| && !IsSeparator(p[k]) && ThreeAt(p, i) }

  lemma {:induction false} TripleIff(s: string)
    ensures Triple(s) <==> exists i :: 0 <= i && i + 2 < |s| && s[i] == '/' && s[i + 1] == '/' && s[i + 2] == '/'
  {
    if |s| < 3 {
    } else {
      TripleIff(s[1..]);
      if i :| 0 <= i && i + 2 < |s| && s[i] == '/' && s[i + 1] == '/' && s[i + 2] == '/' && i > 0 {
        assert s[1..][i - 1] == '/' && s[1..][i] == '/' && s[1..][i + 1] == '/';
      }
      if Triple(s[1..]) {
        var i :| 0 <= i && i + 2 < |s[1..]| && s[1..][i] == '/' && s[1..][i + 1] == '/' && s[1..][i + 2] == '/';
        assert s[i + 1] == '/' && s[i + 2] == '/' && s[i + 3] == '/';
      }
    }
  }

  lemma HasThreeIff(p: string)
    ensures Triple(Unback(p)) <==> HasThree(p)
  {
    var u := Unback(p);
    TripleIff(u);
    hide Triple, Unback;
    forall i | 0 <= i && i + 2 < |p|
      ensures ThreeAt(p, i) <==> u[i] == '/' && u[i + 1] == '/' && u[i + 2] == '/'
    {
    }
  }

  /** A local path comes out without double slashes exactly when it has no three slashes or backslashes in a row. */
  lemma LocalIsClean(p: string)
    ensures Double(NormLocal(p)) <==> HasThree(p)
  {
    CollapseLeavesDouble(Unback(p));
    HasThreeIff(p);
  }

  /** How many slashes lead. */
  lemma {:induction false} LeadLength(s: string) returns (n: nat)
    ensures n <= |s| && StripLead(s) == s[n..]
    ensures (forall k :: 0 <= k < n ==> s[k] == '/') && (n < |s| ==> s[n] != '/')
  {
    if s == "" || s[0] != '/' {
      n := 0;
    } else {
      var m := LeadLength(s[1..]);
      n := m + 1;
      assert forall k :: 0 < k < n ==> s[k] == s[1..][k - 1];
    }
  }

  lemma HasThreeInsideIff(q: string)
    ensures Triple(StripLead(Unback(q))) <==> HasThreeInside(q)
  {
    var u := Unback(q);
    var n := LeadLength(u);
    var s := StripLead(u);
    TripleIff(s);
    hide Triple, Unback, StripLead;
    assert forall i :: 0 <= i < |s| ==> s[i] == u[n + i];
    if i :| 0 <= i && i + 2 < |s| && s[i] == '/' && s[i + 1] == '/' && s[i + 2] == '/' {
      assert u[n + i + 1] == '/' && u[n + i + 2] == '/';
      assert ThreeAt(q, n + i) && !IsSeparator(q[n]);
    }
    if k, i :| 0 <= k < i < |q| && !IsSeparator(q[k]) && ThreeAt(q, i) {
      assert n <= k;
      assert s[i - n] == '/' && s[i - n + 1] == u[i + 1] && s[i - n + 2] == u[i + 2];
    }
  }

  /** For a remote path the leading ones do not count. */
  lemma RemoteIsClean(q: string)
    ensures Double(NormRemote(q)) <==> HasThreeInside(q)
  {
    StripThenCollapse(Unback(q));
    CollapseLeavesDouble(StripLead(Unback(q)));
    HasThreeInsideIff(q);
  }

  /** The same path, whichever way its separators are written. */
  ghost predicate SamePath(p: string, p': string) {
    |p| == |p'| && forall i :: 0 <= i < |p| ==> p[i] == p'[i] || (IsSeparator(p[i]) && IsSeparator(p'[i]))
  }

  lemma SlashesOrBackslashes(p: string, p': string)
    requires SamePath(p, p')
    ensures NormLocal(p) == NormLocal(p') && NormRemote(p) == NormRemote(p')
  {
    hide Collapse, StripLead;
    assert Unback(p) == Unback(p');
  }

  // ---------- Going down one level ----------

  /** A name a directory listing can hold. */
  predicate IsName(n: string) { n != "" && '/' !in n && '\\' !in n }

  function Sep(base: string): string {
    if base != "" && base[|base| - 1] == '/' then "" else "/"
  }

  function Join(base: string, n: string): string { base + Sep(base) + n }

  function JoinRemote(base: string, n: string): string {
    if base == "" then n else Join(base, n)
  }

  lemma UnbackKeeps(s: string)
    requires '\\' !in s
    ensures Unback(s) == s
  {
  }

  lemma {:induction false} CollapseKeeps(s: string)
    requires !Double(s)
    ensures Collapse(s) == s
  {
    if s == "" {
    } else {
      CollapseKeeps(s[1..]);
    }
  }

  lemma {:induction false} NameIsClean(n: string)
    requires '/' !in n
    ensures !Double(n)
  {
    if n == "" {
    } else {
      NameIsClean(n[1..]);
    }
  }

  lemma JoinTail(base: string, n: string)
    requires |base| >= 2
    ensures Join(base, n) == [base[0]] + Join(base[1..], n)
    ensures base + "/" + n == [base[0]] + (base[1..] + "/" + n)
  {
  }

  lemma {:induction false} CollapseJoin(base: string, n: string)
    requires !Double(base) && IsName(n)
    ensures Collapse(base + "/" + n) == Join(base, n)
    ensures !Double(Join(base, n))
  {
    NameIsClean(n);
    CollapseKeeps(n);
    if |base| >= 2 {
      CollapseJoin(base[1..], n);
      JoinTail(base, n);
      CollapseStep(base[0], base[1..] + "/" + n, Join(base[1..], n));
    } else if base == "/" {
      assert (base + "/" + n)[2..] == n && Join(base, n)[1..] == n;
    } else {
      assert ("/" + n)[1..] == n;
      CollapseStep('/', n, n);
      if base != "" {
        assert base + "/" + n == base + ("/" + n);
        CollapseStep(base[0], "/" + n, "/" + n);
      }
    }
  }

  /** A character that opens no double slash stays. */
  lemma CollapseStep(c: char, s: string, r: string)
    requires s != "" && Collapse(s) == r && !Double(r)
    requires !(c == '/' && s[0] == '/')
    ensures Collapse([c] + s) == [c] + r && !Double([c] + r)
  {
    assert ([c] + s)[1..] == s && ([c] + r)[1..] == r;
  }

  lemma ChildLocal(base: string, n: string)
    requires !Double(base) && '\\' !in base && IsName(n)
    ensures NormLocal(base + "/" + n) == Join(base, n)
    ensures !Double(Join(base, n)) && '\\' !in Join(base, n)
  {
    UnbackKeeps(base + "/" + n);
    CollapseJoin(base, n);
  }

  predicate CleanRemote(r: string) { !Double(r) && '\\' !in r && (r != "" ==> r[0] != '/') }

  lemma ChildRemote(base: string, n: string)
    requires CleanRemote(base) && IsName(n)
    ensures NormRemote(base + "/" + n) == JoinRemote(base, n)
    ensures CleanRemote(JoinRemote(base, n))
  {
    UnbackKeeps(base + "/" + n);
    CollapseJoin(base, n);
    NameIsClean(n);
    if base == "" {
      assert n[0] in n;
      assert Join("", n)[1..] == n;
      assert StripLead(n) == n;
    }
  }

  // ---------- Going down any number of levels ----------

  predicate AreNames(names: seq<string>) { forall i :: 0 <= i < |names| ==> IsName(names[i]) }

  /** The names below a root, joined by slashes. */
  function Relative(names: seq<string>): (s: string)
    requires names != []
  {
    if |names| == 1 then names[0] else names[0] + "/" + Relative(names[1..])
  }

  /** The root plus the suffix. */
  function LocalAt(base: string, names: seq<string>): string {
    if names == [] then base else base + Sep(base) + Relative(names)
  }

  function RemoteAt(base: string, names: seq<string>): string {
    if base == "" && names != [] then Relative(names) else LocalAt(base, names)
  }

  lemma LocalAtChild(base: string, n: string, names: seq<string>)
    requires IsName(n)
    ensures LocalAt(Join(base, n), names) == LocalAt(base, [n] + names)
  {
    assert ([n] + names)[1..] == names;
    assert Sep(Join(base, n)) == "/";
  }

  lemma RemoteAtChild(base: string, n: string, names: seq<string>)
    requires IsName(n)
    ensures RemoteAt(JoinRemote(base, n), names) == RemoteAt(base, [n] + names)
  {
    assert ([n] + names)[1..] == names;
    LocalAtChild(base, n, names);
    assert Sep(n) == "/";
  }

  lemma {:induction false} RelativeNotEmpty(names: seq<string>)
    requires names != [] && AreNames(names)
    ensures Relative(names) != "" && Relative(names)[0] != '/'
  {
    assert IsName(names[0]);
    assert Relative(names)[0] == names[0][0];
  }

  /** The name up to the first slash is the first component. */
  lemma FirstSlash(a: string, b: string, x: string, y: string)
    requires '/' !in a && '/' !in b
    requires a + "/" + x == b + "/" + y
    ensures a == b && x == y
  {
    var s := a + "/" + x;
    assert s == b + "/" + y;
    assert s[|a|] == '/' && s[|b|] == '/';
    assert forall i :: 0 <= i < |a| ==> s[i] == a[i] && a[i] in a;
    assert forall i :: 0 <= i < |b| ==> s[i] == b[i] && b[i] in b;
    assert a == s[..|a|] && b == s[..|b|];
    assert x == s[|a| + 1..] && y == s[|b| + 1..];
  }

  lemma RelativeSlash(names: seq<string>)
    requires names != [] && AreNames(names)
    ensures '/' in Relative(names) <==> |names| > 1
  {
    assert IsName(names[0]);
    if |names| > 1 {
      assert Relative(names)[|names[0]|] == '/';
    }
  }

  lemma {:induction false} RelativeInjective(a: seq<string>, b: seq<string>)
    requires a != [] && b != [] && AreNames(a) && AreNames(b)
    requires Relative(a) == Relative(b)
    ensures a == b
  {
    RelativeSlash(a);
    RelativeSlash(b);
    if |a| == 1 {
    } else {
      FirstSlash(a[0], b[0], Relative(a[1..]), Relative(b[1..]));
      RelativeInjective(a[1..], b[1..]);
      assert a == [a[0]] + a[1..] && b == [b[0]] + b[1..];
    }
  }

  /** Different suffixes have different local paths. */
  lemma LocalAtInjective(base: string, a: seq<string>, b: seq<string>)
    requires AreNames(a) && AreNames(b)
    requires LocalAt(base, a) == LocalAt(base, b)
    ensures a == b
  {
    var root := base + Sep(base);
    if a != [] { RelativeNotEmpty(a); }
    if b != [] { RelativeNotEmpty(b); }
    if a != [] && b != [] {
      assert LocalAt(base, a)[|root|..] == Relative(a);
      assert LocalAt(base, b)[|root|..] == Relative(b);
      RelativeInjective(a, b);
    }
  }

  // ---------- What a leftover double slash does ----------

  lemma {:induction false} DoubleShrinks(s: string)
    requires Double(s)
    ensures |Collapse(s)| < |s|
  {
    if s[0] == '/' && s[1] == '/' {
    } else {
      DoubleShrinks(s[1..]);
    }
  }

  lemma {:induction false} DoublePrefix(s: string, t: string)
    requires Double(s)
    ensures Double(s + t)
  {
    if s[0] == '/' && s[1] == '/' {
    } else {
      DoublePrefix(s[1..], t);
      assert (s + t)[1..] == s[1..] + t;
    }
  }

  /** After a trailing slash, a double slash either costs two characters at once or survives. */
  lemma {:induction false} DoubleBeforeSlash(base: string, t: string)
    requires Double(base) && base[|base| - 1] == '/'
    ensures var s := base + "/" + t;
            |Collapse(s)| + 2 <= |s| || Double(Collapse(s))
  {
    var s := base + "/" + t;
    if base == "//" {
      assert s[2..] == "/" + t;
      assert Collapse(s)[1] == '/';
    } else if base[0] == '/' && base[1] == '/' {
      var rest := base[2..];
      assert s[2..] == rest + "/" + t;
      assert s[2..][|rest| - 1] == '/' && s[2..][|rest|] == '/';
      DoubleAt(s[2..], |rest| - 1);
      DoubleShrinks(s[2..]);
    } else {
      DoubleBeforeSlash(base[1..], t);
      assert s[1..] == base[1..] + "/" + t;
      assert Collapse(s) == [s[0]] + Collapse(s[1..]);
      assert Collapse(s)[1..] == Collapse(s[1..]);
    }
  }

  lemma {:induction false} DoubleAt(s: string, i: nat)
    requires i + 1 < |s| && s[i] == '/' && s[i + 1] == '/'
    ensures Double(s)
  {
    if i == 0 {
    } else {
      DoubleAt(s[1..], i - 1);
    }
  }

  /** Two levels below a path with a double slash, the path is shorter than root plus suffix. */
  lemma GrandchildTooShort(base: string)
    requires Double(base)
    ensures |Collapse(Collapse(base + "/" + "a") + "/" + "b")| < |LocalAt(base, ["a", "b"])|
  {
    var s := base + "/" + "a";
    var c := Collapse(s);
    assert Relative(["a", "b"]) == "a/b";
    DoublePrefix(base, "/" + "a");
    assert s == base + ("/" + "a");
    DoubleShrinks(s);
    if Sep(base) == "" {
      DoubleBeforeSlash(base, "a");
      if Double(c) {
        DoublePrefix(c, "/" + "b");
        assert c + "/" + "b" == c + ("/" + "b");
        DoubleShrinks(c + "/" + "b");
      }
    }
  }
}
