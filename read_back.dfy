/**
 * parseScene's first phase applied to serializeScene's output: the preamble is skipped and
 * every entry of the pre-order comes back as one record carrying the entry's name, type,
 * parent path and properties.
 */
module ReadBack {
  import opened Options
  import opened JsString
  import opened SceneModel
  import opened SceneTokenizer
  import opened SceneSerializer
  import opened SerializedLines
  import opened LineRoundTrip

  /** The record an entry of the pre-order is written as. */
  function RecordOf(fn: FlatNode): Record {
    Record(fn.node.name, fn.node.kind, ParentOf(fn.parentPath), fn.node.props)
  }

  function RecordsOf(fns: seq<FlatNode>): seq<Record> {
    seq(|fns|, i requires 0 <= i < |fns| => RecordOf(fns[i]))
  }

  /** Properties that read back: distinct keys, and keys and values that survive their line. */
  predicate PropsSafe(ps: Props) {
    DistinctKeys(ps) && forall k :: 0 <= k < |ps| ==> KeySafe(ps[k].0) && ValueSafe(ps[k].1)
  }

  /** An entry whose block reads back. */
  predicate EntrySafe(fn: FlatNode) {
    && AttrSafe(fn.node.name) && AttrSafe(fn.node.kind)
    && (Truthy(fn.parentPath) ==> AttrSafe(fn.parentPath.value))
    && PropsSafe(fn.node.props)
  }

  lemma {:induction false} HeadersAppend(a: seq<string>, b: seq<string>)
    ensures Headers(a + b) == Headers(a) + Headers(b)
    decreases |a|
  {
    if a != [] {
      assert (a + b)[1..] == a[1..] + b;
      HeadersAppend(a[1..], b);
    } else {
      assert a + b == b;
    }
  }

  lemma {:induction false} AssignmentsAppend(a: seq<string>, b: seq<string>)
    ensures Assignments(a + b) == Assignments(a) + Assignments(b)
    decreases |a|
  {
    if a != [] {
      assert (a + b)[1..] == a[1..] + b;
      AssignmentsAppend(a[1..], b);
    } else {
      assert a + b == b;
    }
  }

  /** The property lines of a node open no node and assign exactly its properties, in order. */
  lemma {:induction false} PropLinesRead(ps: Props)
    requires forall k :: 0 <= k < |ps| ==> KeySafe(ps[k].0) && ValueSafe(ps[k].1)
    ensures Headers(PropLines(ps)) == [] && Assignments(PropLines(ps)) == ps
  {
    if ps != [] {
      var n := |ps| - 1;
      var line := PropLine(ps[n].0, ps[n].1);
      PropLinesRead(ps[..n]);
      PropLineReadsBack(ps[n].0, ps[n].1);
      HeadersAppend(PropLines(ps[..n]), [line]);
      AssignmentsAppend(PropLines(ps[..n]), [line]);
      assert [line][1..] == [];
      assert ps == ps[..n] + [ps[n]];
    }
  }

  /** One block read after the records so far adds exactly the entry's record. */
  lemma BlockRead(recs: seq<Record>, fn: FlatNode)
    requires EntrySafe(fn)
    ensures Scan(recs, BlockLines(fn)) == recs + [RecordOf(fn)]
  {
    var h := HeaderLine(fn);
    var pl := PropLines(fn.node.props);
    HeaderReadsBack(fn);
    PropLinesRead(fn.node.props);
    assert BlockLines(fn) == [h] + (pl + [""]);
    ScanAppend(recs, [h], pl + [""]);
    var r1 := recs + [ParseHeader(h)];
    assert Scan(recs, [h]) == r1;
    ScanAppend(r1, pl, [""]);
    ScanProps(r1, pl);
    PutAllDistinct(fn.node.props);
    assert r1[..|r1| - 1] == recs;
    assert Trim("") == "";
    assert Scan(recs + [RecordOf(fn)], [""]) == recs + [RecordOf(fn)];
  }

  /** The blocks of a run of entries add the entries' records, in order. */
  lemma {:induction false} BlocksRead(recs: seq<Record>, fns: seq<FlatNode>)
    requires forall i :: 0 <= i < |fns| ==> EntrySafe(fns[i])
    ensures Scan(recs, BlocksLines(fns)) == recs + RecordsOf(fns)
  {
    if fns == [] {
      assert recs + RecordsOf(fns) == recs;
    } else {
      var front := fns[..|fns| - 1];
      assert forall i :: 0 <= i < |front| ==> front[i] == fns[i];
      BlocksRead(recs, front);
      BlockAfterBlocks(recs, fns);
    }
  }

  /** One more block after a run of blocks that read back. */
  lemma BlockAfterBlocks(recs: seq<Record>, fns: seq<FlatNode>)
    requires fns != [] && EntrySafe(fns[|fns| - 1])
    requires Scan(recs, BlocksLines(fns[..|fns| - 1])) == recs + RecordsOf(fns[..|fns| - 1])
    ensures Scan(recs, BlocksLines(fns)) == recs + RecordsOf(fns)
  {
    var n := |fns| - 1;
    var front := fns[..n];
    var pre, blk := BlocksLines(front), BlockLines(fns[n]);
    ScanAppend(recs, pre, blk);
    BlockRead(recs + RecordsOf(front), fns[n]);
    RecordsOfSnoc(fns);
    calc {
      Scan(recs, BlocksLines(fns));
      Scan(recs, pre + blk);
      Scan(Scan(recs, pre), blk);
      Scan(recs + RecordsOf(front), blk);
      recs + RecordsOf(front) + [RecordOf(fns[n])];
      recs + RecordsOf(fns);
    }
  }

  lemma RecordsOfSnoc(fns: seq<FlatNode>)
    requires fns != []
    ensures RecordsOf(fns) == RecordsOf(fns[..|fns| - 1]) + [RecordOf(fns[|fns| - 1])]
  {
  }

  lemma HeaderLineSingle(fn: FlatNode)
    requires EntrySafe(fn)
    ensures '\n' !in HeaderLine(fn)
  {
  }

  /** The preamble and the blank line after it open no record. */
  lemma PreambleRead()
    ensures Scan([], [PreambleLine, ""]) == []
  {
    PreambleKind();
    assert Step([], PreambleLine) == [];
    assert [PreambleLine, ""][1..] == [""];
    assert Scan([], [PreambleLine, ""]) == Scan([], [""]);
    assert Trim("") == "";
    assert Scan([], [""]) == Scan(Step([], ""), []);
  }

  /** The preamble survives trimming and is neither a node line nor a resource line. */
  lemma PreambleKind()
    ensures Trim(PreambleLine) == PreambleLine
    ensures !StartsWith(PreambleLine, NodeTag) && !StartsWith(PreambleLine, ResourceTag)
  {
    var p := PreambleLine;
    assert p[0] == '[' && p[|p| - 1] == ']';
    TrimTrimmed(p);
    assert p[1] == 'g';
  }

  lemma PreambleSingle()
    ensures '\n' !in PreambleLine
  {
  }

  /** serializeScene's output split at its line breaks: its lines, then the empty piece after the last break. */
  lemma SplitSerialized(t: SceneNode)
    requires forall i :: 0 <= i < Size(t) ==> EntrySafe(Flat(t, None)[i])
    ensures SplitLines(SceneText(t)) == SceneLines(t) + [""]
  {
    var F := Flat(t, None);
    SceneTextLines(t);
    forall i | 0 <= i < |F|
      ensures '\n' !in HeaderLine(F[i])
    {
      HeaderLineSingle(F[i]);
    }
    BlocksLinesSingle(F);
    PreambleSingle();
    SplitJoinLines(SceneLines(t));
  }

  /**
   * What parseScene's first phase reads from serializeScene's output is one record per entry of
   * the pre-order, in that order.
   */
  lemma ReadSerialized(t: SceneNode)
    requires forall i :: 0 <= i < Size(t) ==> EntrySafe(Flat(t, None)[i])
    ensures Records(SceneText(t)) == RecordsOf(Flat(t, None))
  {
    var F := Flat(t, None);
    var blocks := BlocksLines(F);
    SplitSerialized(t);
    assert SceneLines(t) + [""] == [PreambleLine, ""] + (blocks + [""]);
    ScanAppend([], [PreambleLine, ""], blocks + [""]);
    PreambleRead();
    ScanAppend([], blocks, [""]);
    BlocksRead([], F);
    BlankRead(RecordsOf(F));
    calc {
      Records(SceneText(t));
      Scan([], [PreambleLine, ""] + (blocks + [""]));
      Scan(Scan([], [PreambleLine, ""]), blocks + [""]);
      Scan([], blocks + [""]);
      Scan(Scan([], blocks), [""]);
      Scan([] + RecordsOf(F), [""]);
      { assert [] + RecordsOf(F) == RecordsOf(F); }
      RecordsOf(F);
    }
  }

  /** A blank line changes nothing. */
  lemma BlankRead(recs: seq<Record>)
    ensures Scan(recs, [""]) == recs
  {
    assert Trim("") == "";
    assert [""][1..] == [];
  }
}
