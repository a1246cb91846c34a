/**
 * The serializer's output read as lines: the preamble line, a blank line, then for every
 * entry of the pre-order its header line, its property lines and a blank line.
 */
module SerializedLines {
  import opened Options
  import opened JsString
  import opened SceneModel
  import opened SceneSerializer

  /** The property lines of one node, in order. */
  function PropLines(ps: Props): (r: seq<string>)
    ensures |r| == |ps|
  {
    if ps == [] then []
    else
      var n := |ps| - 1;
      PropLines(ps[..n]) + [PropLine(ps[n].0, ps[n].1)]
  }

  /** The lines one entry is written as. */
  function BlockLines(fn: FlatNode): seq<string> {
    [HeaderLine(fn)] + PropLines(fn.node.props) + [""]
  }

  /** The lines a run of entries is written as. */
  function BlocksLines(fns: seq<FlatNode>): seq<string> {
    if fns == [] then []
    else BlocksLines(fns[..|fns| - 1]) + BlockLines(fns[|fns| - 1])
  }

  /** The lines of a serialized tree. */
  function SceneLines(t: SceneNode): seq<string> {
    [PreambleLine, ""] + BlocksLines(Flat(t, None))
  }

  lemma {:induction false} PropsTextLines(ps: Props)
    ensures PropsText(ps) == JoinLines(PropLines(ps))
  {
    if ps != [] {
      var n := |ps| - 1;
      PropsTextLines(ps[..n]);
      JoinLinesAppend(PropLines(ps[..n]), [PropLine(ps[n].0, ps[n].1)]);
      assert JoinLines([PropLine(ps[n].0, ps[n].1)]) == PropLine(ps[n].0, ps[n].1) + "\n";
    }
  }

  lemma BlockTextLines(fn: FlatNode)
    ensures BlockText(fn) == JoinLines(BlockLines(fn))
  {
    var h := HeaderLine(fn);
    var pl := PropLines(fn.node.props);
    PropsTextLines(fn.node.props);
    JoinLinesAppend([h] + pl, [""]);
    JoinLinesAppend([h], pl);
    assert JoinLines([h]) == h + "\n";
    assert JoinLines([""]) == "\n";
  }

  lemma {:induction false} BlocksTextLines(fns: seq<FlatNode>)
    ensures BlocksText(fns) == JoinLines(BlocksLines(fns))
  {
    if fns != [] {
      var n := |fns| - 1;
      BlocksTextLines(fns[..n]);
      BlockTextLines(fns[n]);
      JoinLinesAppend(BlocksLines(fns[..n]), BlockLines(fns[n]));
    }
  }

  /** serializeScene's text is exactly its lines, each ended by a line break. */
  lemma SceneTextLines(t: SceneNode)
    ensures SceneText(t) == JoinLines(SceneLines(t))
  {
    PreambleAndBlocks(PreambleLine, Flat(t, None));
  }

  /** A first line and a blank line, then the blocks of a run of entries. */
  lemma PreambleAndBlocks(first: string, fns: seq<FlatNode>)
    ensures first + "\n\n" + BlocksText(fns) == JoinLines([first, ""] + BlocksLines(fns))
  {
    var lines := BlocksLines(fns);
    BlocksTextLines(fns);
    JoinLinesAppend([first, ""], lines);
    FirstAndBlank(first);
  }

  lemma FirstAndBlank(first: string)
    ensures JoinLines([first, ""]) == first + "\n\n"
  {
    var two := [first, ""];
    var one := two[..1];
    assert one == [first];
    assert one[..0] == [];
    assert JoinLines(one) == first + "\n";
    assert JoinLines(two) == JoinLines(one) + "" + "\n";
  }

  /** No line of the output holds a line break when no name, type, path, key or value does. */
  lemma {:induction false} BlocksLinesSingle(fns: seq<FlatNode>)
    requires forall i :: 0 <= i < |fns| ==> '\n' !in HeaderLine(fns[i])
    requires forall i, k :: 0 <= i < |fns| && 0 <= k < |fns[i].node.props| ==>
      '\n' !in fns[i].node.props[k].0 && '\n' !in fns[i].node.props[k].1
    ensures forall k :: 0 <= k < |BlocksLines(fns)| ==> '\n' !in BlocksLines(fns)[k]
  {
    if fns != [] {
      var n := |fns| - 1;
      BlocksLinesSingle(fns[..n]);
      var last := fns[n];
      var pl := PropLines(last.node.props);
      PropLinesSingle(last.node.props);
      assert BlocksLines(fns) == BlocksLines(fns[..n]) + ([HeaderLine(last)] + pl + [""]);
    }
  }

  lemma {:induction false} PropLinesSingle(ps: Props)
    requires forall k :: 0 <= k < |ps| ==> '\n' !in ps[k].0 && '\n' !in ps[k].1
    ensures forall k :: 0 <= k < |PropLines(ps)| ==> '\n' !in PropLines(ps)[k]
  {
    if ps != [] {
      var n := |ps| - 1;
      PropLinesSingle(ps[..n]);
      var line := PropLine(ps[n].0, ps[n].1);
      assert line == ps[n].0 + " = " + ps[n].1;
      assert '\n' !in line;
    }
  }
}
