/**
 * `_build_tree`: the dotted paths a tree view lists become one node per
 * distinct prefix. `tree.insert(parent, END, ix, text=label, values=[path])`
 * is modelled as appending an item; the absent parent `''` (the root) is `None`.
 */
module SelectionTree {
  import opened Common
  import opened Paths

  datatype TreeItem = TreeItem(parent: Option<nat>, id: nat, text: string, path: string)

  /** The inserted items and the `tree_ids` dict from path to id. */
  datatype Tree = Tree(items: seq<TreeItem>, ids: map<string, nat>)

  /** Every prefix visited, in visiting order: each input path's prefixes, shortest first. */
  function Stream(paths: seq<string>): (s: seq<string>)
  {
    if paths == [] then [] else Stream(paths[..|paths| - 1]) + Prefixes(paths[|paths| - 1])
  }

  /** The item inserted for a new path `p`; its parent is looked up in `tree_ids`. */
  function NewItem(t: Tree, p: string): TreeItem
  {
    var parent := ParentPath(p);
    TreeItem(if parent in t.ids then Some(t.ids[parent]) else None, |t.items|, LastSeg(p), p)
  }

  /** Visiting one prefix: a path already in `tree_ids` is skipped. */
  function Visit(t: Tree, p: string): Tree
  {
    if p in t.ids then t else Tree(t.items + [NewItem(t, p)], t.ids[p := |t.items|])
  }

  function ItemPaths(items: seq<TreeItem>): (ps: seq<string>)
    ensures |ps| == |items| && forall k :: 0 <= k < |items| ==> ps[k] == items[k].path
  {
    seq(|items|, k requires 0 <= k < |items| => items[k].path)
  }

  /**
   * How a tree built so far looks: ids are positions, `tree_ids` maps each
   * node's path to its id and nothing else, labels are last segments, and
   * a parent is the earlier node of the one-shorter prefix when there is one.
   */
  ghost predicate Consistent(t: Tree)
  {
    (forall k :: 0 <= k < |t.items| ==>
       t.items[k].id == k && t.items[k].path in t.ids && t.ids[t.items[k].path] == k &&
       t.items[k].text == LastSeg(t.items[k].path) &&
       (t.items[k].parent.Some? ==>
          t.items[k].parent.value < k && t.items[t.items[k].parent.value].path == ParentPath(t.items[k].path)) &&
       (t.items[k].parent.None? ==>
          forall j :: 0 <= j < k ==> t.items[j].path != ParentPath(t.items[k].path))) &&
    (forall p :: p in t.ids ==> t.ids[p] < |t.items| && t.items[t.ids[p]].path == p)
  }

  /** The tree after visiting a stream of prefixes from an empty tree. */
  function Build(s: seq<string>): Tree
  {
    if s == [] then Tree([], map[]) else Visit(Build(s[..|s| - 1]), s[|s| - 1])
  }

  /** Building keeps the tree consistent. */
  lemma {:induction false} BuildConsistent(s: seq<string>)
    ensures Consistent(Build(s))
  {
    if s != [] {
      BuildConsistent(s[..|s| - 1]);
      VisitConsistent(Build(s[..|s| - 1]), s[|s| - 1]);
    }
  }

  /** `tree_ids` knows exactly the visited paths. */
  lemma {:induction false} BuildIds(s: seq<string>)
    ensures forall p :: p in Build(s).ids <==> p in s
  {
    if s != [] {
      var n := |s| - 1;
      BuildIds(s[..n]);
      assert s == s[..n] + [s[n]];
    }
  }

  /** The nodes' paths are the visited paths without repeats, in first-seen order. */
  lemma {:induction false} BuildPaths(s: seq<string>)
    ensures ItemPaths(Build(s).items) == Distinct(s)
  {
    if s != [] {
      var n := |s| - 1;
      BuildPaths(s[..n]);
      BuildIds(s[..n]);
      assert s == s[..n] + [s[n]];
      DistinctSnoc(s[..n], s[n]);
      VisitPaths(Build(s[..n]), s[n]);
      if s[n] in s[..n] {
        var i :| 0 <= i < n && s[..n][i] == s[n];
        DistinctCovers(s[..n], i);
      }
    }
  }

  lemma VisitPaths(t: Tree, p: string)
    ensures ItemPaths(Visit(t, p).items) == if p in t.ids then ItemPaths(t.items) else ItemPaths(t.items) + [p]
  {
  }

  lemma VisitConsistent(t: Tree, p: string)
    requires Consistent(t)
    ensures Consistent(Visit(t, p))
  {
    if p !in t.ids {
      var t' := Visit(t, p);
      assert forall j :: 0 <= j < |t.items| ==> t'.items[j] == t.items[j];
      NewItemFits(t, p);
    }
  }

  /** The node appended for a new path sits where `Consistent` wants it. */
  lemma NewItemFits(t: Tree, p: string)
    requires Consistent(t) && p !in t.ids
    ensures var k := |t.items|; var t' := Visit(t, p); var it := t'.items[k];
      it.id == k && it.path == p && t'.ids[p] == k && it.text == LastSeg(p) &&
      (it.parent.Some? ==> it.parent.value < k && t'.items[it.parent.value].path == ParentPath(p)) &&
      (it.parent.None? ==> forall j :: 0 <= j < k ==> t'.items[j].path != ParentPath(p))
  {
    var k := |t.items|;
    var t' := Visit(t, p);
    assert forall j :: 0 <= j < k ==> t'.items[j] == t.items[j];
    if ParentPath(p) !in t.ids {
      assert forall j :: 0 <= j < k ==> t.items[j].path != ParentPath(p);
    }
  }

  lemma BuildSnoc(s: seq<string>, p: string)
    ensures Build(s + [p]) == Visit(Build(s), p)
  {
    assert (s + [p])[..|s|] == s;
  }

  /** Sequence bookkeeping of the inner loop, kept apart from what the sequences hold. */
  lemma Extend<T>(done: seq<T>, pre: seq<T>, mix: nat)
    requires mix <= |pre|
    ensures done + pre[..0] == done && done + pre[..|pre|] == done + pre
    ensures mix < |pre| ==> (done + pre[..mix]) + [pre[mix]] == done + pre[..mix + 1]
  {
    if mix < |pre| {
      assert pre[..mix + 1] == pre[..mix] + [pre[mix]];
    }
    assert pre[..|pre|] == pre;
  }

  lemma StreamSnoc(paths: seq<string>, i: nat)
    requires i < |paths|
    ensures Stream(paths[..i + 1]) == Stream(paths[..i]) + Prefixes(paths[i])
  {
    assert paths[..i + 1][..i] == paths[..i];
  }

  /** Visiting the `mix`-th prefix of `p`, spelled with the pieces of `p` the loop has at hand. */
  lemma VisitStep(t: Tree, p: string, mix: nat)
    requires mix < |Split(p)|
    ensures var lst := Split(p); var path := Join(lst[..mix + 1]); var parent := Join(lst[..mix]);
      Prefixes(p)[mix] == path &&
      Visit(t, path) ==
        if path in t.ids then t
        else Tree(t.items + [TreeItem(if parent in t.ids then Some(t.ids[parent]) else None, |t.items|, lst[mix], path)],
                  t.ids[path := |t.items|])
  {
    PrefixShape(p, mix);
  }

  /** One pass of the inner loop: visiting the `mix`-th prefix of `p` after `seen`. */
  lemma BuildStep(seen: seq<string>, t: Tree, p: string, mix: nat)
    requires Build(seen) == t && mix < |Split(p)|
    ensures var lst := Split(p); var path := Join(lst[..mix + 1]); var parent := Join(lst[..mix]);
      Prefixes(p)[mix] == path &&
      Build(seen + [path]) ==
        if path in t.ids then t
        else Tree(t.items + [TreeItem(if parent in t.ids then Some(t.ids[parent]) else None, |t.items|, lst[mix], path)],
                  t.ids[path := |t.items|])
  {
    VisitStep(t, p, mix);
    BuildSnoc(seen, Join(Split(p)[..mix + 1]));
  }

  /** `_build_tree(paths, tree)`: what it inserts, in order. */
  method BuildTree(paths: seq<string>) returns (items: seq<TreeItem>)
    ensures items == Build(Stream(paths)).items
  {
    var ix: nat := 0;
    var treeIds: map<string, nat> := map[];
    items := [];
    ghost var seen: seq<string> := [];
    var i := 0;
    while i < |paths|
      invariant 0 <= i <= |paths|
      invariant seen == Stream(paths[..i])
      invariant Build(seen) == Tree(items, treeIds) && ix == |items|
    {
      var lst := Split(paths[i]);
      ghost var pre := Prefixes(paths[i]);
      ghost var done := seen;
      var mix := 0;
      Extend(done, pre, 0);
      while mix < |lst|
        invariant 0 <= mix <= |lst| && |pre| == |lst|
        invariant seen == done + pre[..mix]
        invariant Build(seen) == Tree(items, treeIds) && ix == |items|
      {
        var parent := Join(lst[..mix]);
        var path := Join(lst[..mix + 1]);
        BuildStep(seen, Tree(items, treeIds), paths[i], mix);
        if path !in treeIds {
          var parentId := if parent in treeIds then Some(treeIds[parent]) else None;
          items := items + [TreeItem(parentId, ix, lst[mix], path)];
          treeIds := treeIds[path := ix];
          ix := ix + 1;
        }
        Extend(done, pre, mix);
        seen := seen + [path];
        mix := mix + 1;
      }
      Extend(done, pre, mix);
      StreamSnoc(paths, i);
      i := i + 1;
    }
    assert paths[..i] == paths;
  }

  // ---------------------------------------------------------------- what the tree holds

  /** Each prefix with several segments comes after its parent prefix. */
  ghost predicate ParentsEarlier(s: seq<string>)
  {
    forall q :: 0 <= q < |s| && |Split(s[q])| > 1 ==> ParentPath(s[q]) in s[..q]
  }

  /** The visiting order of `_build_tree` meets every prefix's parent first. */
  lemma {:induction false} StreamParents(paths: seq<string>)
    ensures ParentsEarlier(Stream(paths))
  {
    if paths != [] {
      var n := |paths| - 1;
      var a := Stream(paths[..n]);
      var b := Prefixes(paths[n]);
      StreamParents(paths[..n]);
      PrefixesChain(paths[n]);
      var s := Stream(paths);
      assert s == a + b;
      forall q | 0 <= q < |s| && |Split(s[q])| > 1
        ensures ParentPath(s[q]) in s[..q]
      {
        if q < |a| {
          assert s[..q] == a[..q];
        } else {
          var mix := q - |a|;
          assert s[q - 1] == b[mix - 1];
          assert s[..q][q - 1] == s[q - 1];
        }
      }
    }
  }

  /** When parents come first, every node of several segments hangs under a node. */
  lemma {:induction false} BuildParents(s: seq<string>)
    requires ParentsEarlier(s)
    ensures forall k :: 0 <= k < |Build(s).items| && |Split(Build(s).items[k].path)| > 1 ==>
      Build(s).items[k].parent.Some?
  {
    if s != [] {
      var n := |s| - 1;
      var p := s[..n];
      assert ParentsEarlier(p) by {
        forall q | 0 <= q < n ensures p[q] == s[q] && p[..q] == s[..q] { }
      }
      BuildParents(p);
      BuildIds(p);
      VisitParents(Build(p), s[n]);
    }
  }

  lemma VisitParents(t: Tree, x: string)
    requires forall k :: 0 <= k < |t.items| && |Split(t.items[k].path)| > 1 ==> t.items[k].parent.Some?
    requires |Split(x)| > 1 ==> ParentPath(x) in t.ids
    ensures forall k :: 0 <= k < |Visit(t, x).items| && |Split(Visit(t, x).items[k].path)| > 1 ==>
      Visit(t, x).items[k].parent.Some?
  {
  }

  /** Every input path and every prefix of it is visited. */
  lemma {:induction false} StreamCovers(paths: seq<string>)
    ensures forall i, mix :: 0 <= i < |paths| && 0 <= mix < |Prefixes(paths[i])| ==> Prefixes(paths[i])[mix] in Stream(paths)
    ensures forall i :: 0 <= i < |paths| ==> paths[i] in Stream(paths)
  {
    if paths != [] {
      var n := |paths| - 1;
      var pre, b := Stream(paths[..n]), Prefixes(paths[n]);
      StreamCovers(paths[..n]);
      assert Stream(paths) == pre + b;
      forall i, mix | 0 <= i < |paths| && 0 <= mix < |Prefixes(paths[i])|
        ensures Prefixes(paths[i])[mix] in Stream(paths)
      {
        if i < n {
          assert paths[..n][i] == paths[i];
          assert Prefixes(paths[i])[mix] in pre;
        } else {
          assert Prefixes(paths[i])[mix] == b[mix];
        }
      }
    }
    forall i | 0 <= i < |paths| ensures paths[i] in Stream(paths) {
      PrefixesChain(paths[i]);
    }
  }

  /** Every visited prefix is a prefix of an input path. */
  lemma {:induction false} StreamFromPaths(paths: seq<string>)
    ensures forall p :: p in Stream(paths) ==>
      exists i, mix :: 0 <= i < |paths| && 0 <= mix < |Prefixes(paths[i])| && p == Prefixes(paths[i])[mix]
  {
    if paths != [] {
      var n := |paths| - 1;
      StreamFromPaths(paths[..n]);
      forall p | p in Stream(paths)
        ensures exists i, mix :: 0 <= i < |paths| && 0 <= mix < |Prefixes(paths[i])| && p == Prefixes(paths[i])[mix]
      {
        if p in Stream(paths[..n]) {
          var i, mix :| 0 <= i < n && 0 <= mix < |Prefixes(paths[..n][i])| && p == Prefixes(paths[..n][i])[mix];
          assert paths[..n][i] == paths[i];
        } else {
          var b := Prefixes(paths[n]);
          var mix :| 0 <= mix < |b| && b[mix] == p;
        }
      }
    }
  }

  /**
   * The tree `_build_tree` inserts: exactly one node per distinct prefix
   * of the input paths, ids 0, 1, 2, … in first-seen order (the nodes of
   * the prefixes met in any initial part of the visit come first), each
   * with its last segment as text, under the node of its one-shorter
   * prefix, or under the root for a one-segment prefix unless `""` is
   * itself an earlier node.
   */
  lemma TreeShape(paths: seq<string>)
    ensures var items := Build(Stream(paths)).items;
      ItemPaths(items) == Distinct(Stream(paths)) &&
      (forall m :: 0 <= m <= |Stream(paths)| ==> Distinct(Stream(paths)[..m]) <= ItemPaths(items)) &&
      (forall k :: 0 <= k < |items| ==> items[k].id == k && items[k].text == LastSeg(items[k].path)) &&
      (forall k :: 0 <= k < |items| && |Split(items[k].path)| > 1 ==>
         items[k].parent.Some? && items[k].parent.value < k &&
         items[items[k].parent.value].path == ParentPath(items[k].path)) &&
      (forall k :: 0 <= k < |items| && |Split(items[k].path)| == 1 ==>
         (items[k].parent.None? <==> forall j :: 0 <= j < k ==> items[j].path != ""))
  {
    TreeOrder(Stream(paths));
    TreeLabels(Stream(paths));
    TreeParents(paths);
    TreeRoots(Stream(paths));
  }

  /** The items are the visited paths in first-seen order, prefix by prefix of the visit. */
  lemma TreeOrder(s: seq<string>)
    ensures var items := Build(s).items;
      ItemPaths(items) == Distinct(s) &&
      forall m :: 0 <= m <= |s| ==> Distinct(s[..m]) <= ItemPaths(items)
  {
    BuildPaths(s);
    forall m | 0 <= m <= |s|
      ensures Distinct(s[..m]) <= ItemPaths(Build(s).items)
    {
      DistinctPrefix(s, m);
    }
  }

  /** Ids are positions and texts are last segments. */
  lemma TreeLabels(s: seq<string>)
    ensures var items := Build(s).items;
      forall k :: 0 <= k < |items| ==> items[k].id == k && items[k].text == LastSeg(items[k].path)
  {
    BuildConsistent(s);
  }

  /** A path of several segments hangs under the earlier item of its parent path. */
  lemma TreeParents(paths: seq<string>)
    ensures var items := Build(Stream(paths)).items;
      forall k :: 0 <= k < |items| && |Split(items[k].path)| > 1 ==>
        items[k].parent.Some? && items[k].parent.value < k &&
        items[items[k].parent.value].path == ParentPath(items[k].path)
  {
    BuildConsistent(Stream(paths));
    StreamParents(paths);
    BuildParents(Stream(paths));
  }

  /** A one-segment path is a root unless an earlier item has the empty path. */
  lemma TreeRoots(s: seq<string>)
    ensures var items := Build(s).items;
      forall k :: 0 <= k < |items| && |Split(items[k].path)| == 1 ==>
        (items[k].parent.None? <==> forall j :: 0 <= j < k ==> items[j].path != "")
  {
    var items := Build(s).items;
    BuildConsistent(s);
    forall k | 0 <= k < |items| && |Split(items[k].path)| == 1
      ensures ParentPath(items[k].path) == ""
    {
      assert Split(items[k].path)[..0] == [];
    }
  }

  /** `len(tree.get_children(item)) == 0`: no item has `k` as its parent. */
  predicate IsLeaf(items: seq<TreeItem>, k: nat)
  {
    forall j :: 0 <= j < |items| ==> items[j].parent != Some(k)
  }

  /**
   * `[tree.item(item)["values"][0] for item in tree.selection() if …]`:
   * the paths of the selected items that are leaves, in selection order.
   */
  function SelectedLeaves(items: seq<TreeItem>, selected: seq<nat>): (r: seq<string>)
    requires forall i :: 0 <= i < |selected| ==> selected[i] < |items|
    ensures forall p :: p in r <==> exists i :: 0 <= i < |selected| && IsLeaf(items, selected[i]) && items[selected[i]].path == p
  {
    if selected == [] then []
    else
      var n := |selected| - 1;
      var k := selected[n];
      var r := SelectedLeaves(items, selected[..n]);
      assert forall i :: 0 <= i < n ==> selected[..n][i] == selected[i];
      if IsLeaf(items, k) then r + [items[k].path] else r
  }

  /**
   * A leaf of the tree built from `paths` is one of the input paths: every
   * shorter prefix of an input path has the next prefix's node as a child.
   */
  lemma LeafIsPath(paths: seq<string>, k: nat)
    requires k < |Build(Stream(paths)).items| && IsLeaf(Build(Stream(paths)).items, k)
    ensures Build(Stream(paths)).items[k].path in paths
  {
    var items := Build(Stream(paths)).items;
    var q := items[k].path;
    ItemInStream(paths, k);
    var i, mix := PrefixSource(paths, q);
    LeafPrefixIsLast(paths, k, i, mix);
    PrefixesChain(paths[i]);
  }

  /** A leaf's path is the last prefix of the input path it was visited for. */
  lemma LeafPrefixIsLast(paths: seq<string>, k: nat, i: nat, mix: nat)
    requires k < |Build(Stream(paths)).items| && IsLeaf(Build(Stream(paths)).items, k)
    requires i < |paths| && mix < |Prefixes(paths[i])| && Build(Stream(paths)).items[k].path == Prefixes(paths[i])[mix]
    ensures mix == |Split(paths[i])| - 1
  {
    if mix + 1 < |Split(paths[i])| {
      PrefixHasChild(paths, i, mix, k);
      assert false;
    }
  }

  /** The input path and position a visited prefix comes from. */
  lemma PrefixSource(paths: seq<string>, q: string) returns (i: nat, mix: nat)
    requires q in Stream(paths)
    ensures i < |paths| && mix < |Prefixes(paths[i])| && q == Prefixes(paths[i])[mix]
  {
    StreamFromPaths(paths);
    i, mix :| 0 <= i < |paths| && 0 <= mix < |Prefixes(paths[i])| && q == Prefixes(paths[i])[mix];
  }

  /** A selection of exactly one leaf selects one of the paths the tree was built from. */
  lemma SingleLeafIsPath(paths: seq<string>, selected: seq<nat>)
    requires forall i :: 0 <= i < |selected| ==> selected[i] < |Build(Stream(paths)).items|
    requires |SelectedLeaves(Build(Stream(paths)).items, selected)| == 1
    ensures SelectedLeaves(Build(Stream(paths)).items, selected)[0] in paths
  {
    var items := Build(Stream(paths)).items;
    var selection := SelectedLeaves(items, selected);
    assert selection[0] in selection;
    var i :| 0 <= i < |selected| && IsLeaf(items, selected[i]) && items[selected[i]].path == selection[0];
    LeafIsPath(paths, selected[i]);
  }

  lemma ItemInStream(paths: seq<string>, k: nat)
    requires k < |Build(Stream(paths)).items|
    ensures Build(Stream(paths)).items[k].path in Stream(paths)
  {
    BuildPaths(Stream(paths));
    assert ItemPaths(Build(Stream(paths)).items)[k] == Build(Stream(paths)).items[k].path;
  }

  /** The node of a prefix that is not the whole path has the next prefix's node as a child. */
  lemma PrefixHasChild(paths: seq<string>, i: nat, mix: nat, k: nat)
    requires i < |paths| && mix + 1 < |Split(paths[i])|
    requires k < |Build(Stream(paths)).items| && Build(Stream(paths)).items[k].path == Prefixes(paths[i])[mix]
    ensures exists j :: 0 <= j < |Build(Stream(paths)).items| && Build(Stream(paths)).items[j].parent == Some(k)
  {
    var s := Stream(paths);
    var items := Build(s).items;
    var next := Prefixes(paths[i])[mix + 1];
    StreamCovers(paths);
    PrefixShape(paths[i], mix + 1);
    PrefixesChain(paths[i]);
    assert ParentPath(next) == items[k].path;
    assert next in s;
    var j := ItemOfVisited(s, next);
    StreamParents(paths);
    BuildParents(s);
    assert |Split(items[j].path)| > 1;
    BuildParentPath(s, j);
    BuildPathsInjective(s, items[j].parent.value, k);
    assert items[j].parent == Some(k);
  }

  /** Every visited prefix has a node. */
  lemma ItemOfVisited(s: seq<string>, p: string) returns (j: nat)
    requires p in s
    ensures j < |Build(s).items| && Build(s).items[j].path == p
  {
    BuildPaths(s);
    var ps := ItemPaths(Build(s).items);
    var i :| 0 <= i < |s| && s[i] == p;
    DistinctCovers(s, i);
    assert p in ps;
    var m :| 0 <= m < |ps| && ps[m] == p;
    j := m;
  }

  /** A node's parent, when it has one, is the node of its one-shorter prefix. */
  lemma BuildParentPath(s: seq<string>, j: nat)
    requires j < |Build(s).items| && Build(s).items[j].parent.Some?
    ensures var items := Build(s).items;
      items[j].parent.value < |items| && items[items[j].parent.value].path == ParentPath(items[j].path)
  {
    BuildConsistent(s);
  }

  /** No two nodes have the same path. */
  lemma BuildPathsInjective(s: seq<string>, a: nat, b: nat)
    requires a < |Build(s).items| && b < |Build(s).items| && Build(s).items[a].path == Build(s).items[b].path
    ensures a == b
  {
    BuildPaths(s);
    var ps := ItemPaths(Build(s).items);
    assert ps[a] == ps[b];
  }
}
