/**
 * parseScene as a whole: the records the tokenizer reads from the text, linked into the
 * object graph that is returned (none standing for `undefined`).
 */
module SceneParser {
  import opened Options
  import opened JsString
  import opened SceneModel
  import opened SceneTokenizer
  import opened SceneReconstruct

  /** What parseScene returns for a text. */
  function Parse(text: string): (r: Option<Scene>)
    ensures r.None? <==> Records(text) == []
    ensures r.Some? ==> r.value.records == Records(text) && r.value.root < |Records(text)|
  {
    Reconstruction(Records(text))
  }

  /** parseScene: tokenize the lines, then link the records. */
  method ParseScene(text: string) returns (r: Option<Scene>)
    ensures r == Parse(text)
  {
    var recs := Tokenize(text);
    r := Reconstruct(recs);
  }

  /**
   * A text without a `[node` line, the empty text included, yields `undefined`; otherwise the
   * result holds one record per `[node` line, named, typed and parented by that line.
   */
  lemma ParseShape(text: string)
    ensures var hs := Headers(SplitLines(text));
      && (Parse(text).None? <==> hs == [])
      && (Parse(text).Some? ==>
            var recs := Parse(text).value.records;
            |recs| == |hs| && forall m :: 0 <= m < |hs| ==> SameHeader(recs[m], ParseHeader(hs[m])))
  {
    ScanRecords([], SplitLines(text));
  }

  /** The empty text gives `undefined`. */
  lemma EmptyTextIsUndefined()
    ensures Parse("") == None
  {
    assert SplitLines("") == [""];
    assert Trim("") == "";
    ParseShape("");
  }
}
