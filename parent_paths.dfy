/**
 * The parent paths serializeScene writes: the children of the root get ".", and every node
 * further down gets "." followed by "/" and the name of each node between the root and it.
 */
module ParentPaths {
  import opened Options
  import opened SceneModel
  import opened SceneSerializer
  import opened TreeLayout

  /** The path `traverse` hands down from `path` through a chain of nodes named `names`. */
  function Descend(path: Option<string>, names: seq<string>): Option<string>
    decreases |names|
  {
    if names == [] then path else Descend(ChildPath(path, names[0]), names[1..])
  }

  /** "." followed by "/" and each name in turn. */
  function DotPath(names: seq<string>): (r: string)
    ensures |r| > 0 && r[0] == '.'
  {
    if names == [] then "." else DotPath(names[..|names| - 1]) + "/" + names[|names| - 1]
  }

  /** The children of a child of the root `R` get the path "./A" from the child `A`. */
  lemma GrandchildPathExample()
    ensures ChildPath(ChildPath(None, "R"), "A") == Some("./A")
  {
    assert "." + "/" + "A" == "./A";
  }

  /** Handing a dotted path down through more names extends it by those names. */
  lemma {:induction false} DescendDotted(pre: seq<string>, names: seq<string>)
    ensures Descend(Some(DotPath(pre)), names) == Some(DotPath(pre + names))
    decreases |names|
  {
    if names == [] {
      assert pre + names == pre;
    } else {
      var next := pre + [names[0]];
      DotStep(pre, names[0]);
      DescendDotted(next, names[1..]);
      MoveFirst(pre, names);
    }
  }

  /** One more name below a dotted path. */
  lemma DotStep(pre: seq<string>, name: string)
    ensures ChildPath(Some(DotPath(pre)), name) == Some(DotPath(pre + [name]))
  {
    var next := pre + [name];
    assert next[..|next| - 1] == pre;
  }

  /** From the root (no path) through the root `root` and then `names`: the dotted path of `names`. */
  lemma DescendFromRoot(root: string, names: seq<string>)
    ensures Descend(None, [root] + names) == Some(DotPath(names))
  {
    assert ([root] + names)[1..] == names;
    assert ChildPath(None, root) == Some(DotPath([]));
    DescendDotted([], names);
    assert [] + names == names;
  }

  /** Child positions `ks` lead from `t` to a node of the tree. */
  predicate IsChain(t: SceneNode, ks: seq<nat>)
    decreases |ks|
  {
    ks == [] || (ks[0] < |t.children| && IsChain(t.children[ks[0]], ks[1..]))
  }

  /** The node the child positions `ks` lead to from `t`. */
  function Below(t: SceneNode, ks: seq<nat>): SceneNode
    requires IsChain(t, ks)
    decreases |ks|
  {
    if ks == [] then t else Below(t.children[ks[0]], ks[1..])
  }

  /** The names of the nodes the chain passes through from `t`, the node it leads to excluded. */
  function ChainNames(t: SceneNode, ks: seq<nat>): (r: seq<string>)
    requires IsChain(t, ks)
    ensures |r| == |ks|
    decreases |ks|
  {
    if ks == [] then [] else [t.name] + ChainNames(t.children[ks[0]], ks[1..])
  }

  /** Every node below `t` has an entry in `t`'s pre-order, carrying the path handed down to it. */
  lemma {:induction false} EntryOfDescendant(t: SceneNode, path: Option<string>, ks: seq<nat>) returns (i: nat)
    requires IsChain(t, ks)
    ensures i < Size(t) && Flat(t, path)[i] == FlatNode(Below(t, ks), Descend(path, ChainNames(t, ks)))
    decreases |ks|
  {
    if ks == [] {
      i := 0;
    } else {
      var k := ks[0];
      var cs := t.children;
      var down := ChildPath(path, t.name);
      var j := EntryOfDescendant(cs[k], down, ks[1..]);
      FlatForestSplit(cs, k, down);
      ForestSizeSplit(cs, k);
      var front := FlatForest(cs[..k], down);
      i := 1 + |front| + j;
      InMiddle(Flat(t, path), FlatNode(t, path), front, Flat(cs[k], down), FlatForest(cs[k + 1..], down), j);
    }
  }

  /**
   * A node reached from the root through the nodes `A`, `B`, ... below it is written with the
   * parent path "./A/B/...": "." for a child of the root, and one "/name" per ancestor below it.
   */
  lemma DescendantPath(t: SceneNode, ks: seq<nat>) returns (i: nat)
    requires |ks| >= 1 && IsChain(t, ks)
    ensures i < Size(t)
    ensures Flat(t, None)[i] == FlatNode(Below(t, ks), Some(DotPath(ChainNames(t, ks)[1..])))
  {
    i := EntryOfDescendant(t, None, ks);
    var names := ChainNames(t, ks);
    assert names == [t.name] + names[1..];
    DescendFromRoot(t.name, names[1..]);
  }

  /** Moving the first of `names` to the end of `pre` keeps the concatenation. */
  lemma MoveFirst<T>(pre: seq<T>, names: seq<T>)
    requires names != []
    ensures pre + [names[0]] + names[1..] == pre + names
  {
    assert names == [names[0]] + names[1..];
  }

  /** Where an element of the middle piece sits in a sequence laid out as a head and three pieces. */
  lemma InMiddle<T>(s: seq<T>, x: T, a: seq<T>, b: seq<T>, c: seq<T>, j: nat)
    requires s == [x] + (a + b + c) && j < |b|
    ensures 1 + |a| + j < |s| && s[1 + |a| + j] == b[j]
  {
  }
}
