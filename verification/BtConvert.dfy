/** The name and address converters of the Bluetooth example; char is unsigned. */
module BtConvert {
  import opened Bytes

  /** strlen, or the whole length where there is no NUL. */
  function StrLen(s: seq<int>): (n: nat)
    ensures n <= |s| && (n < |s| ==> s[n] == 0)
    ensures forall i :: 0 <= i < n ==> s[i] != 0
  {
    if s == [] || s[0] == 0 then 0 else 1 + StrLen(s[1..])
  }

  // Widening and narrowing.

  /** What is copied over the start of dst, what is behind it stays. */
  function Overwrite<T>(x: seq<T>, dst: seq<T>): (r: seq<T>)
    requires |x| <= |dst|
    ensures |r| == |dst| && forall k :: 0 <= k < |dst| ==> r[k] == if k < |x| then x[k] else dst[k]
  {
    x + dst[|x|..]
  }

  lemma OverwriteIs<T>(x: seq<T>, was: seq<T>, now: seq<T>)
    requires |x| <= |was| == |now|
    requires forall k :: 0 <= k < |x| ==> now[k] == x[k]
    requires forall k :: |x| <= k < |was| ==> now[k] == was[k]
    ensures now == Overwrite(x, was)
  {
  }

  lemma OverwriteStart<T>(x: seq<T>, dst: seq<T>)
    requires |x| <= |dst|
    ensures Overwrite(x, dst)[..|x|] == x
    ensures forall k :: 0 <= k < |x| ==> Overwrite(x, dst)[k] == x[k]
  {
  }

  /** The string with its NUL, as bytes or as 16-bit units. */
  function CString(s: bytes): (r: bytes)
    requires StrLen(s) < |s|
    ensures |r| == StrLen(s) + 1 && r[|r| - 1] == 0 && forall k :: 0 <= k < |r| - 1 ==> r[k] == s[k] && r[k] != 0
  {
    s[..StrLen(s) + 1]
  }

  function Wide(s: bytes): (w: seq<word>)
    ensures |w| == |s| && forall i :: 0 <= i < |s| ==> w[i] == s[i]
  {
    seq(|s|, i requires 0 <= i < |s| => s[i])
  }

  method ConvertStrToWstr(src: array?<byte>, dst: array?<word>)
    requires src != null && dst != null ==> StrLen(src[..]) < src.Length && StrLen(src[..]) < dst.Length
    modifies dst
    ensures dst != null ==>
              dst[..] == if src == null then old(dst[..]) else Overwrite(Wide(CString(src[..])), old(dst[..]))
  {
    if src == null || dst == null {
      return;
    }
    hide Overwrite;
    var n, i := StrLen(src[..]), 0;
    while true
      invariant 0 <= i <= n
      invariant forall k :: 0 <= k < i ==> dst[k] == src[k]
      invariant forall k :: i <= k < dst.Length ==> dst[k] == old(dst[k])
      decreases n - i
    {
      dst[i] := src[i];
      i := i + 1;
      if src[i - 1] == 0 {
        break;
      }
    }
    OverwriteIs(Wide(CString(src[..])), old(dst[..]), dst[..]);
  }

  /** How many units the narrowing loop copies: up to the first with a high byte, or through the NUL. */
  function Narrowable(w: seq<word>): (n: nat)
    ensures n <= |w| && forall i :: 0 <= i < n ==> w[i] < 256
  {
    if w == [] || w[0] >= 256 then 0
    else if w[0] == 0 then 1
    else 1 + Narrowable(w[1..])
  }

  predicate Stops(w: seq<word>) { exists i :: 0 <= i < |w| && (w[i] == 0 || w[i] >= 256) }

  function Narrow(w: seq<word>): (s: bytes)
    requires forall i :: 0 <= i < |w| ==> w[i] < 256
    ensures |s| == |w| && forall i :: 0 <= i < |w| ==> s[i] == w[i]
  {
    seq(|w|, i requires 0 <= i < |w| => w[i])
  }

  lemma {:induction false} NarrowableAt(w: seq<word>, i: nat)
    requires i < |w| && forall k :: 0 <= k < i ==> 0 < w[k] < 256
    ensures i <= Narrowable(w)
    ensures w[i] >= 256 ==> Narrowable(w) == i
    ensures w[i] == 0 ==> Narrowable(w) == i + 1
  {
    if i == 0 {
    } else {
      NarrowableAt(w[1..], i - 1);
    }
  }

  method ConvertWstrToStr(src: array?<word>, dst: array?<byte>)
    requires src != null && dst != null ==> Stops(src[..]) && Narrowable(src[..]) <= dst.Length
    modifies dst
    ensures dst != null ==>
              dst[..] == if src == null then old(dst[..])
                         else Overwrite(Narrow(src[..][..Narrowable(src[..])]), old(dst[..]))
  {
    if src == null || dst == null {
      return;
    }
    ghost var w := src[..];
    ghost var last := StopOf(w);
    hide Overwrite, Narrowable, Narrow, Stops;
    var i := 0;
    while true
      invariant 0 <= i <= last
      invariant forall k :: 0 <= k < i ==> 0 < w[k] < 256
      invariant i <= dst.Length
      invariant forall k :: 0 <= k < i ==> dst[k] == w[k]
      invariant forall k :: i <= k < dst.Length ==> dst[k] == old(dst[k])
      decreases last - i
    {
      NarrowableAt(w, i);
      if src[i] >= 256 {
        break;
      }
      NextNarrowable(w, i);
      dst[i] := src[i];
      i := i + 1;
      if src[i - 1] == 0 {
        break;
      }
    }
    OverwriteIs(Narrow(w[..i]), old(dst[..]), dst[..]);
  }

  lemma StopOf(w: seq<word>) returns (i: nat)
    requires Stops(w)
    ensures i < |w| && (w[i] == 0 || w[i] >= 256)
  {
    i :| 0 <= i < |w| && (w[i] == 0 || w[i] >= 256);
  }

  lemma {:induction false} NextNarrowable(w: seq<word>, i: nat)
    requires i < |w| && (forall k :: 0 <= k < i ==> 0 < w[k] < 256) && w[i] < 256
    ensures i + 1 <= Narrowable(w)
  {
    if i == 0 {
    } else {
      NextNarrowable(w[1..], i - 1);
    }
  }

  /** Narrowing what widening wrote gives the string back, its NUL included, whatever the buffers held. */
  lemma NarrowOfWide(s: bytes, units: seq<word>, dst: bytes)
    requires StrLen(s) < |s| && StrLen(s) < |units| && StrLen(s) < |dst|
    ensures var w := Overwrite(Wide(CString(s)), units);
            && Stops(w) && Narrowable(w) == StrLen(s) + 1
            && Overwrite(Narrow(w[..Narrowable(w)]), dst) == Overwrite(CString(s), dst)
  {
    hide *;
    var x := CString(s);
    var w := Overwrite(Wide(x), units);
    CStringEnds(s);
    OverwriteStart(Wide(x), units);
    NarrowFront(w, x, StrLen(s));
    assert Narrow(w[..Narrowable(w)]) == x;
  }

  /** Units that start with a string and its NUL. */
  lemma NarrowFront(w: seq<word>, x: bytes, n: nat)
    requires |x| == n + 1 <= |w| && (forall k :: 0 <= k < |x| ==> w[k] == x[k])
    requires x[n] == 0 && forall k :: 0 <= k < n ==> x[k] != 0
    ensures Stops(w) && Narrowable(w) == n + 1 && Narrow(w[..n + 1]) == x
  {
    hide Narrowable, Narrow;
    assert w[n] == 0;
    NarrowableAt(w, n);
    NarrowIs(w, x);
  }

  lemma CStringEnds(s: bytes)
    requires StrLen(s) < |s|
    ensures CString(s)[StrLen(s)] == 0 && forall k :: 0 <= k < StrLen(s) ==> CString(s)[k] != 0
  {
  }

  lemma NarrowIs(w: seq<word>, x: bytes)
    requires |x| <= |w| && forall k :: 0 <= k < |x| ==> w[k] == x[k]
    ensures (forall k :: 0 <= k < |x| ==> w[..|x|][k] < 256) && Narrow(w[..|x|]) == x
  {
  }

  /** A wide string comes out whole and terminated exactly when every unit before its NUL fits a byte. */
  lemma NarrowWhole(w: seq<word>)
    requires StrLen(w) < |w|
    ensures Narrowable(w) == StrLen(w) + 1 <==> forall i :: 0 <= i < StrLen(w) ==> w[i] < 256
  {
    var n := StrLen(w);
    if forall i :: 0 <= i < n ==> w[i] < 256 { NarrowableAt(w, n); }
  }
}
