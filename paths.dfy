/** Dotted paths: `s.split(".")` and `".".join(parts)`, and how they undo each other. */
module Paths {
  import opened Common
  import opened Values

  /** `s.split(".")`: the maximal dot-free pieces, always at least one. */
  function Split(s: string): (parts: seq<string>)
    ensures |parts| >= 1
    ensures forall i :: 0 <= i < |parts| ==> '.' !in parts[i]
    decreases |s|
  {
    match DotIndex(s)
    case None => [s]
    case Some(i) => [s[..i]] + Split(s[i + 1..])
  }

  /** `".".join(parts)`. */
  function Join(parts: seq<string>): string
  {
    if |parts| == 0 then ""
    else if |parts| == 1 then parts[0]
    else Join(parts[..|parts| - 1]) + "." + parts[|parts| - 1]
  }

  /** A dot-free head is the first part: `(a + "." + x).split(".") == [a] + x.split(".")`. */
  lemma SplitDotFreeHead(a: string, x: string)
    requires '.' !in a
    ensures Split(a + "." + x) == [a] + Split(x)
  {
    var u := a + "." + x;
    assert u[..|a|] == a && u[|a|] == '.' && u[|a| + 1..] == x;
    SplitAt(u, |a|);
  }

  /** Splitting at the first dot. */
  lemma SplitAt(u: string, i: nat)
    requires i < |u| && u[i] == '.' && '.' !in u[..i]
    ensures Split(u) == [u[..i]] + Split(u[i + 1..])
  {
    FirstDotAt(u, i);
  }

  lemma FirstDotAt(u: string, i: nat)
    requires i < |u| && u[i] == '.' && '.' !in u[..i]
    ensures DotIndex(u) == Some(i)
  {
    var r := DotIndex(u);
    assert r.Some? by { assert u[i] in u; }
    assert forall j :: 0 <= j < i ==> u[..i][j] == u[j];
    assert forall j :: 0 <= j < r.value ==> u[..r.value][j] == u[j];
  }

  /** Joining then splitting gives back dot-free parts. */
  lemma {:induction false} SplitJoin(parts: seq<string>)
    requires |parts| >= 1 && forall i :: 0 <= i < |parts| ==> '.' !in parts[i]
    ensures Split(Join(parts)) == parts
  {
    if |parts| == 1 {
      assert DotIndex(parts[0]).None?;
    } else {
      var rest := parts[1..];
      assert [parts[0]] + rest == parts;
      JoinCons(parts[0], rest);
      SplitJoin(rest);
      SplitDotFreeHead(parts[0], Join(rest));
    }
  }

  lemma {:induction false} JoinCons(a: string, parts: seq<string>)
    requires |parts| >= 1
    ensures Join([a] + parts) == a + "." + Join(parts)
  {
    var n := |parts| - 1;
    if n > 0 {
      JoinCons(a, parts[..n]);
      assert ([a] + parts)[..n + 1] == [a] + parts[..n];
    }
  }

  /** Splitting then joining gives back the string. */
  lemma {:induction false} JoinSplit(s: string)
    ensures Join(Split(s)) == s
    decreases |s|
  {
    match DotIndex(s)
    case None =>
    case Some(i) =>
      JoinSplit(s[i + 1..]);
      JoinCons(s[..i], Split(s[i + 1..]));
      assert s == s[..i] + "." + s[i + 1..];
  }

  /** The last segment of a path. */
  function LastSeg(p: string): string
  {
    Split(p)[|Split(p)| - 1]
  }

  /** The one-shorter prefix of a path; `""` for a one-segment path. */
  function ParentPath(p: string): string
  {
    Join(Split(p)[..|Split(p)| - 1])
  }

  /** A path is its parent prefix, a dot and its last segment (or just the segment). */
  lemma PathDecompose(p: string)
    ensures '.' !in LastSeg(p)
    ensures p == if |Split(p)| == 1 then LastSeg(p) else ParentPath(p) + "." + LastSeg(p)
  {
    JoinSplit(p);
  }

  /** The paths visited for one input path: `".".join(lst[:mix + 1])` for each `mix`. */
  function Prefixes(p: string): (ps: seq<string>)
    ensures |ps| == |Split(p)|
  {
    var lst := Split(p);
    seq(|lst|, mix requires 0 <= mix < |lst| => Join(lst[..mix + 1]))
  }

  /** The `mix`-th visited prefix has the earlier pieces as its parent and `lst[mix]` as its label. */
  lemma PrefixShape(p: string, mix: nat)
    requires mix < |Split(p)|
    ensures var q := Prefixes(p)[mix];
      |Split(q)| == mix + 1 && ParentPath(q) == Join(Split(p)[..mix]) && LastSeg(q) == Split(p)[mix]
  {
    var lst := Split(p);
    SplitJoin(lst[..mix + 1]);
    assert lst[..mix + 1][..mix] == lst[..mix];
  }

  /** The last prefix is the path itself, and each prefix after the first has its parent just before it. */
  lemma PrefixesChain(p: string)
    ensures Prefixes(p)[|Split(p)| - 1] == p
    ensures |Split(Prefixes(p)[0])| == 1
    ensures forall mix :: 0 < mix < |Split(p)| ==> Prefixes(p)[mix - 1] == ParentPath(Prefixes(p)[mix])
  {
    var lst := Split(p);
    JoinSplit(p);
    assert lst[..|lst|] == lst;
    PrefixShape(p, 0);
    forall mix | 0 < mix < |lst| ensures Prefixes(p)[mix - 1] == ParentPath(Prefixes(p)[mix]) {
      PrefixShape(p, mix);
    }
  }
}
