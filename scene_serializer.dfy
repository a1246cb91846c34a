/**
 * serializeScene: the tree is flattened in pre-order, every node paired with the parent path
 * it was reached by, and each entry is written as a `[node ...]` header line, one
 * `key = value` line per property and a blank line, after a fixed preamble.
 */
module SceneSerializer {
  import opened Options
  import opened JsString
  import opened SceneModel

  /** The first line of every serialized scene. */
  const PreambleLine := "[gd_scene load_steps=1 format=3 uid=" + "\"" + "uid://placeholder" + "\"" + "]"

  /** An entry of `flatNodes`: the node and the parent path it was reached by (null for the root). */
  datatype FlatNode = FlatNode(node: SceneNode, parentPath: Option<string>)

  /** JavaScript truthiness of a path: null and the empty string are false. */
  predicate Truthy(path: Option<string>) {
    path.Some? && path.value != ""
  }

  /** The path `traverse` hands to the children of the node `name` that it reached by `path`. */
  function ChildPath(path: Option<string>, name: string): (r: Option<string>)
    ensures Truthy(r)
    ensures !Truthy(path) <==> r == Some(".")
    ensures Truthy(path) ==>
      var p := path.value;
      |r.value| == |p| + 1 + |name| && r.value[..|p|] == p && r.value[|p|] == '/' && r.value[|p| + 1..] == name
    ensures Truthy(path) && '/' !in name ==> LastSegment(r.value) == name
  {
    if Truthy(path) then
      (if '/' !in name then LastSegmentAfterSlash(path.value, name); Some(path.value + "/" + name)
       else Some(path.value + "/" + name))
    else Some(".")
  }

  /** Number of nodes in a tree. */
  function Size(t: SceneNode): nat
    decreases t
  {
    1 + SizeForest(t.children)
  }

  /** Number of nodes in a sequence of trees. */
  function SizeForest(cs: seq<SceneNode>): nat
    decreases cs
  {
    if cs == [] then 0 else SizeForest(cs[..|cs| - 1]) + Size(cs[|cs| - 1])
  }

  /** What `traverse(t, path)` pushes onto `flatNodes`: `t` first, then each child's subtree in order. */
  function Flat(t: SceneNode, path: Option<string>): (r: seq<FlatNode>)
    ensures |r| == Size(t) && r[0] == FlatNode(t, path)
    decreases t
  {
    [FlatNode(t, path)] + FlatForest(t.children, ChildPath(path, t.name))
  }

  /** What the `children.forEach` of `traverse` pushes: the subtrees one after the other, all reached by `path`. */
  function FlatForest(cs: seq<SceneNode>, path: Option<string>): (r: seq<FlatNode>)
    ensures |r| == SizeForest(cs)
    decreases cs
  {
    if cs == [] then [] else FlatForest(cs[..|cs| - 1], path) + Flat(cs[|cs| - 1], path)
  }

  /** The header line of an entry, without its line break. */
  function HeaderLine(fn: FlatNode): string {
    "[node name=\"" + fn.node.name + "\" type=\"" + fn.node.kind + "\"" +
    (if Truthy(fn.parentPath) then " parent=\"" + fn.parentPath.value + "\"" else "") + "]"
  }

  /** The line of one property, without its line break. */
  function PropLine(key: string, value: string): string {
    key + " = " + value
  }

  /** The property lines of an entry, each ended by a line break. */
  function PropsText(ps: Props): string {
    if ps == [] then []
    else
      var n := |ps| - 1;
      PropsText(ps[..n]) + PropLine(ps[n].0, ps[n].1) + "\n"
  }

  /** What one entry of `flatNodes` adds to the output. */
  function BlockText(fn: FlatNode): string {
    HeaderLine(fn) + "\n" + PropsText(fn.node.props) + "\n"
  }

  /** What a run of entries adds to the output. */
  function BlocksText(fns: seq<FlatNode>): string {
    if fns == [] then []
    else BlocksText(fns[..|fns| - 1]) + BlockText(fns[|fns| - 1])
  }

  /** The text serializeScene returns for a tree. */
  function SceneText(t: SceneNode): string {
    PreambleLine + "\n\n" + BlocksText(Flat(t, None))
  }

  /** `traverse(node, parentPath)`, appending to the entries pushed so far. */
  method Traverse(node: SceneNode, parentPath: Option<string>, flat: seq<FlatNode>) returns (out: seq<FlatNode>)
    ensures out == flat + Flat(node, parentPath)
    decreases node
  {
    var head := flat + [FlatNode(node, parentPath)];
    out := head;
    var childPath := ChildPath(parentPath, node.name);
    var i := 0;
    while i < |node.children|
      invariant i <= |node.children|
      invariant out == head + FlatForest(node.children[..i], childPath)
    {
      ghost var before := out;
      out := Traverse(node.children[i], childPath, out);
      ForestExtend(head, node.children, i, childPath, before, out);
      i := i + 1;
    }
    assert node.children[..|node.children|] == node.children;
  }

  /** One more subtree after the subtrees before it. */
  lemma ForestExtend(head: seq<FlatNode>, cs: seq<SceneNode>, i: nat, path: Option<string>,
                     before: seq<FlatNode>, after: seq<FlatNode>)
    requires i < |cs| && before == head + FlatForest(cs[..i], path)
    requires after == before + Flat(cs[i], path)
    ensures after == head + FlatForest(cs[..i + 1], path)
  {
    assert cs[..i + 1][..i] == cs[..i];
  }

  /** The text the `flatNodes.forEach` callback builds in `line` for one entry. */
  method EntryText(fn: FlatNode) returns (line: string)
    ensures line + "\n" == BlockText(fn)
  {
    line := "[node name=\"" + fn.node.name + "\" type=\"" + fn.node.kind + "\"";
    if Truthy(fn.parentPath) {
      line := line + " parent=\"" + fn.parentPath.value + "\"";
    }
    line := line + "]\n";
    ghost var head := line;
    assert head == HeaderLine(fn) + "\n";
    var props := fn.node.props;
    var k := 0;
    while k < |props|
      invariant k <= |props|
      invariant line == head + PropsText(props[..k])
    {
      PropsExtend(head, props, k, line);
      line := line + PropLine(props[k].0, props[k].1) + "\n";
      k := k + 1;
    }
    assert props[..k] == props;
  }

  /** One more property line after the lines before it. */
  lemma PropsExtend(head: string, ps: Props, k: nat, line: string)
    requires k < |ps| && line == head + PropsText(ps[..k])
    ensures line + PropLine(ps[k].0, ps[k].1) + "\n" == head + PropsText(ps[..k + 1])
  {
    assert ps[..k + 1][..k] == ps[..k];
  }

  /** The text of one more entry after the text of the entries before it. */
  lemma AppendBlock(pre: string, fns: seq<FlatNode>, i: nat, line: string)
    requires i < |fns| && line + "\n" == BlockText(fns[i])
    ensures pre + BlocksText(fns[..i]) + line + "\n" == pre + BlocksText(fns[..i + 1])
  {
    assert fns[..i + 1][..i] == fns[..i];
  }

  /** serializeScene: flatten the tree, then write every entry after the preamble. */
  method SerializeScene(root: SceneNode) returns (output: string)
    ensures output == SceneText(root)
  {
    var head := PreambleLine + "\n\n";
    output := head;
    var flat := Traverse(root, None, []);
    assert output == head + BlocksText(flat[..0]);
    var i := 0;
    while i < |flat|
      invariant i <= |flat|
      invariant output == head + BlocksText(flat[..i])
    {
      var line := EntryText(flat[i]);
      AppendBlock(head, flat, i, line);
      output := output + line + "\n";
      i := i + 1;
    }
    assert flat[..|flat|] == flat;
  }
}
