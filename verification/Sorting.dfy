/** Python's sorted() on a set of strings: code point order. */
module Sorting {
  predicate StrLe(a: string, b: string) {
    a == "" || (b != "" && (a[0] < b[0] || (a[0] == b[0] && StrLe(a[1..], b[1..]))))
  }

  predicate StrLt(a: string, b: string) { StrLe(a, b) && a != b }

  lemma {:induction false} StrLeTotal(a: string, b: string)
    ensures StrLe(a, b) || StrLe(b, a)
  {
    if a == "" || b == "" || a[0] != b[0] {
    } else {
      StrLeTotal(a[1..], b[1..]);
    }
  }

  lemma {:induction false} StrLeAntisymmetric(a: string, b: string)
    requires StrLe(a, b) && StrLe(b, a)
    ensures a == b
  {
    if a == "" || b == "" {
    } else {
      StrLeAntisymmetric(a[1..], b[1..]);
      assert a == [a[0]] + a[1..] && b == [b[0]] + b[1..];
    }
  }

  lemma {:induction false} StrLeTransitive(a: string, b: string, c: string)
    requires StrLe(a, b) && StrLe(b, c)
    ensures StrLe(a, c)
  {
    if a == "" || a[0] != b[0] || b[0] != c[0] {
    } else {
      StrLeTransitive(a[1..], b[1..], c[1..]);
    }
  }

  /** A string comes before its own extensions. */
  lemma {:induction false} PrefixIsBelow(a: string, x: string)
    ensures StrLe(a, a + x)
  {
    if a == "" {
    } else {
      assert (a + x)[1..] == a[1..] + x;
      PrefixIsBelow(a[1..], x);
    }
  }

  ghost predicate IsLeast(m: string, keys: set<string>) {
    m in keys && forall k :: k in keys ==> StrLe(m, k)
  }

  lemma LeastExists(keys: set<string>) returns (m: string)
    requires keys != {}
    ensures IsLeast(m, keys)
    decreases keys
  {
    m :| m in keys;
    var rest := keys - {m};
    StrLeTotal(m, m);
    if rest != {} {
      var n := LeastExists(rest);
      StrLeTotal(m, n);
      if StrLe(m, n) {
        forall k | k in keys
          ensures StrLe(m, k)
        {
          if k != m { StrLeTransitive(m, n, k); }
        }
      } else {
        m := n;
      }
    } else {
      assert keys == {m};
    }
  }

  predicate Increasing(s: seq<string>) {
    forall i, j :: 0 <= i < j < |s| ==> StrLt(s[i], s[j])
  }

  /** The keys in increasing order. */
  ghost function Sorted(keys: set<string>): (s: seq<string>)
    ensures |s| == |keys|
    ensures forall k :: k in s <==> k in keys
    ensures Increasing(s)
    decreases keys
  {
    if keys == {} then []
    else
      var m := LeastOf(keys);
      var rest := Sorted(keys - {m});
      assert |rest| == |keys| - 1;
      [m] + rest
  }

  ghost function LeastOf(keys: set<string>): (m: string)
    requires keys != {}
    ensures IsLeast(m, keys)
  {
    assert exists m :: IsLeast(m, keys) by {
      var m := LeastExists(keys);
    }
    var m :| IsLeast(m, keys);
    m
  }

  /** Any increasing listing of the keys is the sorted one. */
  lemma {:induction false} SortedIsUnique(keys: set<string>, s: seq<string>)
    requires Increasing(s) && forall k :: k in s <==> k in keys
    ensures s == Sorted(keys)
    decreases keys
  {
    hide StrLe, StrLt, Increasing, IsLeast;
    if s == [] {
      assert keys == {};
    } else {
      FirstIsLeast(keys, s);
      RestOfKeys(keys, s);
      SortedIsUnique(keys - {s[0]}, s[1..]);
    }
  }

  lemma FirstIsLeast(keys: set<string>, s: seq<string>)
    requires s != [] && Increasing(s) && forall k :: k in s <==> k in keys
    ensures keys != {} && s[0] in keys && LeastOf(keys) == s[0]
  {
    hide StrLe;
    assert s[0] in s;
    var m := LeastOf(keys);
    var i :| 0 <= i < |s| && s[i] == m;
    StrLeTotal(s[0], s[0]);
    assert i == 0 || StrLt(s[0], s[i]);
    StrLeAntisymmetric(s[0], m);
  }

  lemma RestOfKeys(keys: set<string>, s: seq<string>)
    requires s != [] && Increasing(s) && forall k :: k in s <==> k in keys
    ensures Increasing(s[1..]) && forall k :: k in s[1..] <==> k in keys - {s[0]}
  {
    hide StrLe;
    forall k
      ensures k in s[1..] <==> k in keys - {s[0]}
    {
      if k in s[1..] {
        var i :| 1 <= i < |s| && s[i] == k;
        assert StrLt(s[0], s[i]);
      }
    }
  }

  /** sorted() by repeatedly taking the least remaining key. */
  method SortKeys(keys: set<string>) returns (s: seq<string>)
    ensures s == Sorted(keys)
  {
    s := [];
    var rest := keys;
    while rest != {}
      invariant rest <= keys
      invariant forall k :: k in keys <==> k in s || k in rest
      invariant Increasing(s)
      invariant forall i, k :: 0 <= i < |s| && k in rest ==> StrLt(s[i], k)
      decreases rest
    {
      ghost var w := LeastExists(rest);
      assert IsLeast(w, rest);
      var m :| m in rest && forall k | k in rest :: StrLe(m, k);
      assert forall k :: k in rest - {m} ==> StrLt(m, k);
      s := s + [m];
      rest := rest - {m};
    }
    SortedIsUnique(keys, s);
  }
}
