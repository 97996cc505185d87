/** Cutting the command line into one argument list per sub-command. */
module SplitCmd {
  function Concat(groups: seq<seq<string>>): seq<string> {
    if groups == [] then [] else groups[0] + Concat(groups[1..])
  }

  /** A group is not empty and names no command after its first element. */
  predicate IsGroup(g: seq<string>, cmds: set<string>) {
    g != [] && forall i :: 1 <= i < |g| ==> g[i] !in cmds
  }

  /** Nothing lost, every group well formed, and only the first may start without a command. */
  predicate IsSplit(groups: seq<seq<string>>, args: seq<string>, cmds: set<string>) {
    && Concat(groups) == args
    && (forall k :: 0 <= k < |groups| ==> IsGroup(groups[k], cmds))
    && (forall k :: 1 <= k < |groups| ==> groups[k][0] in cmds)
  }

  lemma {:induction false} ConcatSnoc(groups: seq<seq<string>>, g: seq<string>)
    ensures Concat(groups + [g]) == Concat(groups) + g
  {
    if groups == [] {
      assert [g][1..] == [] && groups + [g] == [g];
    } else {
      assert (groups + [g])[1..] == groups[1..] + [g];
      ConcatSnoc(groups[1..], g);
    }
  }

  method SplitCmd(args: seq<string>, cmds: set<string>) returns (groups: seq<seq<string>>)
    ensures IsSplit(groups, args, cmds)
  {
    groups := [];
    var subcmd: seq<string> := [];
    for i := 0 to |args|
      invariant Concat(groups) + subcmd == args[..i]
      invariant forall k :: 0 <= k < |groups| ==> IsGroup(groups[k], cmds)
      invariant forall k :: 1 <= k < |groups| ==> groups[k][0] in cmds
      invariant subcmd == [] ==> i == 0
      invariant subcmd != [] ==> IsGroup(subcmd, cmds) && (groups != [] ==> subcmd[0] in cmds)
      invariant groups != [] ==> subcmd != []
    {
      assert args[..i + 1] == args[..i] + [args[i]];
      if args[i] in cmds {
        if subcmd != [] {
          ConcatSnoc(groups, subcmd);
          groups := groups + [subcmd];
        }
        subcmd := [args[i]];
      } else {
        subcmd := subcmd + [args[i]];
      }
    }
    assert args[..|args|] == args;
    if subcmd != [] {
      ConcatSnoc(groups, subcmd);
      groups := groups + [subcmd];
    }
  }

  /** There is only one such decomposition, so the split is determined by what IsSplit says. */
  lemma {:induction false} SplitIsUnique(a: seq<seq<string>>, b: seq<seq<string>>, args: seq<string>, cmds: set<string>)
    requires IsSplit(a, args, cmds) && IsSplit(b, args, cmds)
    ensures a == b
  {
    if a == [] || b == [] {
      assert a == b;
    } else {
      FirstEnds(a, args, cmds);
      FirstEnds(b, args, cmds);
      SplitIsUnique(a[1..], b[1..], args[|a[0]|..], cmds);
      assert a == [a[0]] + a[1..] && b == [b[0]] + b[1..];
    }
  }

  /** The first group ends where the next command, or the end, is met first. */
  ghost predicate EndsAt(n: nat, args: seq<string>, cmds: set<string>) {
    && 1 <= n <= |args|
    && (forall i :: 1 <= i < n ==> args[i] !in cmds)
    && (n < |args| ==> args[n] in cmds)
  }

  lemma FirstEnds(a: seq<seq<string>>, args: seq<string>, cmds: set<string>)
    requires IsSplit(a, args, cmds) && a != []
    ensures EndsAt(|a[0]|, args, cmds)
    ensures a[0] == args[..|a[0]|] && Concat(a[1..]) == args[|a[0]|..]
  {
    var n := |a[0]|;
    assert forall i :: 0 <= i < n ==> args[i] == a[0][i];
    assert Concat(a[1..]) == args[n..];
    if |a| > 1 {
      assert a[1..][0] == a[1];
      assert args[n..][0] == a[1][0];
    }
  }

  /** How many lists there are: one for each command, and one for what comes before the first. */
  function Commands(args: seq<string>, cmds: set<string>): nat {
    if args == [] then 0 else (if args[0] in cmds then 1 else 0) + Commands(args[1..], cmds)
  }

  lemma {:induction false} CommandsAppend(a: seq<string>, b: seq<string>, cmds: set<string>)
    ensures Commands(a + b, cmds) == Commands(a, cmds) + Commands(b, cmds)
  {
    if a == [] {
      assert a + b == b;
    } else {
      assert (a + b)[1..] == a[1..] + b;
      CommandsAppend(a[1..], b, cmds);
    }
  }

  lemma {:induction false} NoCommands(g: seq<string>, cmds: set<string>)
    requires forall i :: 0 <= i < |g| ==> g[i] !in cmds
    ensures Commands(g, cmds) == 0
  {
    if g == [] {
    } else {
      NoCommands(g[1..], cmds);
    }
  }

  lemma {:induction false} SplitCount(groups: seq<seq<string>>, args: seq<string>, cmds: set<string>)
    requires IsSplit(groups, args, cmds)
    ensures |groups| == Commands(args, cmds) + if args != [] && args[0] !in cmds then 1 else 0
  {
    if groups == [] {
    } else {
      var g, rest := groups[0], Concat(groups[1..]);
      CommandsAppend(g, rest, cmds);
      NoCommands(g[1..], cmds);
      if |groups| > 1 { assert rest[0] == groups[1..][0][0]; }
      SplitCount(groups[1..], rest, cmds);
    }
  }
}
