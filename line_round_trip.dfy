/**
 * The lines serializeScene writes read back as what was written: a header line gives back the
 * name, type and parent path, a property line gives back its key and value.
 */
module LineRoundTrip {
  import opened Options
  import opened JsString
  import opened AttrPattern
  import opened SceneModel
  import opened SceneTokenizer
  import opened SceneSerializer

  /** The length of `[node name="`, after which a header line's name starts. */
  const NameStart := 12

  /** The length of `" type="`, between the end of the name and the start of the type. */
  const TypeGap := 8

  /** The length of ` parent="`, before the parent path. */
  const ParentOpen := 10

  /** A name, type or path that reads back from a header line: non-empty, no quote, no '=', no line break. */
  predicate AttrSafe(s: string) {
    |s| > 0 && '"' !in s && '=' !in s && '\n' !in s
  }

  /** The `parent` a header line carries for an entry's path. */
  function ParentOf(path: Option<string>): Option<string> {
    if Truthy(path) then Some(path.value) else None
  }

  /** The optional parent attribute of a header line. */
  function ParentPart(has: bool, v: string): string {
    if has then " parent" + "=" + "\"" + v + "\"" else ""
  }

  /** A header line cut at its pieces. */
  predicate HeaderCut(n: string, t: string, has: bool, v: string, h: string) {
    HeaderCutMain(n, t, has, v, h) && HeaderCutParent(n, t, has, v, h)
  }

  /** The name and type attributes and the closing bracket of a header line. */
  predicate HeaderCutMain(n: string, t: string, has: bool, v: string, h: string) {
    var b := NameStart + |n|;
    var d := b + TypeGap + |t|;
    && |h| == d + 2 + (if has then ParentOpen + |v| else 0)
    && h[..10] == "[node name" && h[10] == '=' && h[11] == '"'
    && h[NameStart..b] == n
    && h[b..b + 6] == "\" type" && h[b + 6] == '=' && h[b + 7] == '"'
    && h[b + 8..d] == t && h[d] == '"' && h[|h| - 1] == ']'
  }

  /** The parent attribute of a header line, when it has one. */
  predicate HeaderCutParent(n: string, t: string, has: bool, v: string, h: string) {
    var d := NameStart + TypeGap + |n| + |t|;
    has && |h| == d + 12 + |v| ==>
      && h[d + 1..d + 8] == " parent" && h[d + 8] == '=' && h[d + 9] == '"'
      && h[d + 10..d + 10 + |v|] == v && h[d + 10 + |v|] == '"'
  }

  lemma HeaderLineCut(n: string, t: string, has: bool, v: string, h: string)
    requires h == "[node name" + "=" + "\"" + n + "\" type" + "=" + "\"" + t + "\"" + ParentPart(has, v) + "]"
    ensures HeaderCut(n, t, has, v, h)
  {
    var front := "[node name" + "=" + "\"" + n + "\" type" + "=" + "\"" + t + "\"";
    var pp := ParentPart(has, v);
    assert h == front + pp + "]";
    HeaderFrontCut(n, t, front, pp + "]");
    assert |pp| == if has then ParentOpen + |v| else 0;
    assert h[|h| - 1] == ']';
    if has {
      HeaderParentCut(front, pp, v, h);
    }
  }

  lemma HeaderFrontCut(n: string, t: string, front: string, tail: string)
    requires front == "[node name" + "=" + "\"" + n + "\" type" + "=" + "\"" + t + "\""
    ensures var h := front + tail; var b := NameStart + |n|; var d := b + TypeGap + |t|;
      && |front| == d + 1
      && h[..10] == "[node name" && h[10] == '=' && h[11] == '"'
      && h[NameStart..b] == n
      && h[b..b + 6] == "\" type" && h[b + 6] == '=' && h[b + 7] == '"'
      && h[b + 8..d] == t && h[d] == '"'
  {
  }

  lemma HeaderParentCut(front: string, pp: string, v: string, h: string)
    requires pp == " parent" + "=" + "\"" + v + "\"" && h == front + pp + "]"
    ensures var d := |front| - 1;
      && h[d + 1..d + 8] == " parent" && h[d + 8] == '=' && h[d + 9] == '"'
      && h[d + 10..d + 10 + |v|] == v && h[d + 10 + |v|] == '"'
  {
    var d := |front| - 1;
    assert h[d + 1..d + 8] == pp[..7];
    assert h[d + 10..d + 10 + |v|] == pp[9..9 + |v|];
  }

  /** The attribute openers and the letters in front of each '=' of a header line. */
  lemma HeaderOpeners(n: string, t: string, has: bool, v: string, h: string)
    requires HeaderCut(n, t, has, v, h)
    ensures var b := NameStart + |n|; var d := b + TypeGap + |t|;
      && h[4] == 'e' && h[6..12] == "name=\"" && h[b] == '"'
      && h[b + 2..b + 8] == "type=\""
      && (has ==> h[d + 2..d + 10] == "parent=\"")
  {
    var b := NameStart + |n|;
    var d := b + TypeGap + |t|;
    assert h[4] == h[..10][4];
    assert h[6..10] == h[..10][6..10] == "name";
    assert h[6..12] == h[6..10] + [h[10], h[11]];
    assert h[b + 2..b + 6] == h[b..b + 6][2..6] == "type";
    assert h[b + 2..b + 8] == h[b + 2..b + 6] + [h[b + 6], h[b + 7]];
    if has {
      assert h[d + 2..d + 8] == h[d + 1..d + 8][1..7] == "parent";
      assert h[d + 2..d + 10] == h[d + 2..d + 8] + [h[d + 8], h[d + 9]];
    }
  }

  /** The only '=' of a header line are the three that follow the attribute names. */
  lemma HeaderEquals(n: string, t: string, has: bool, v: string, h: string)
    requires '=' !in n && '=' !in t && (has ==> '=' !in v)
    requires HeaderCut(n, t, has, v, h)
    ensures var b := NameStart + |n|; var d := b + TypeGap + |t|;
      forall k :: 0 <= k < |h| && k != 10 && k != b + 6 && (!has || k != d + 8) ==> h[k] != '='
  {
    var b := NameStart + |n|;
    var d := b + TypeGap + |t|;
    forall k | 0 <= k < |h| && k != 10 && k != b + 6 && (!has || k != d + 8)
      ensures h[k] != '='
    {
      if k < 10 {
        assert h[k] == h[..10][k];
      } else if k < 12 {
      } else if k < b {
        assert h[k] == h[12..b][k - 12];
      } else if k < b + 6 {
        assert h[k] == h[b..b + 6][k - b];
      } else if k < b + 8 {
      } else if k < d {
        assert h[k] == h[b + 8..d][k - b - 8];
      } else if k == d || k == |h| - 1 {
      } else if has {
        if k < d + 8 {
          assert h[k] == h[d + 1..d + 8][k - d - 1];
        } else if k < d + 10 {
        } else if k < d + 10 + |v| {
          assert h[k] == h[d + 10..d + 10 + |v|][k - d - 10];
        }
      }
    }
  }

  /** The name attribute of a header line reads back. */
  lemma NameReadsBack(n: string, t: string, has: bool, v: string, h: string)
    requires AttrSafe(n) && AttrSafe(t) && (has ==> AttrSafe(v))
    requires HeaderCut(n, t, has, v, h)
    ensures Match(h, "name") == Some(n)
  {
    HeaderOpeners(n, t, has, v, h);
    HeaderEquals(n, t, has, v, h);
    CaptureAt(h, "name", 6, n);
    NoMatchBefore(h, "name", 6);
    MatchIsLeftmost(h, "name", 6);
  }

  /** The type attribute of a header line reads back. */
  lemma TypeReadsBack(n: string, t: string, has: bool, v: string, h: string)
    requires AttrSafe(n) && AttrSafe(t) && (has ==> AttrSafe(v))
    requires HeaderCut(n, t, has, v, h)
    ensures Match(h, "type") == Some(t)
  {
    var b := NameStart + |n|;
    HeaderOpeners(n, t, has, v, h);
    HeaderEquals(n, t, has, v, h);
    assert h[6] == h[6..12][0] == 'n';
    CaptureAt(h, "type", b + 2, t);
    NoMatchBefore(h, "type", b + 2);
    MatchIsLeftmost(h, "type", b + 2);
  }

  /** The parent attribute of a header line reads back, and is absent when none was written. */
  lemma ParentReadsBack(n: string, t: string, has: bool, v: string, h: string)
    requires AttrSafe(n) && AttrSafe(t) && (has ==> AttrSafe(v))
    requires HeaderCut(n, t, has, v, h)
    ensures Match(h, "parent") == if has then Some(v) else None
  {
    var b := NameStart + |n|;
    var d := b + TypeGap + |t|;
    HeaderOpeners(n, t, has, v, h);
    HeaderEquals(n, t, has, v, h);
    if has {
      CaptureAt(h, "parent", d + 2, v);
      NoMatchBefore(h, "parent", d + 2);
      MatchIsLeftmost(h, "parent", d + 2);
    } else {
      NoMatchBefore(h, "parent", |h| + 1);
      NoMatchAnywhere(h, "parent");
    }
  }

  /**
   * The header line written for an entry is left alone by trimming, opens a node, and reads
   * back as the entry's name, type and parent path.
   */
  lemma HeaderReadsBack(fn: FlatNode)
    requires AttrSafe(fn.node.name) && AttrSafe(fn.node.kind)
    requires Truthy(fn.parentPath) ==> AttrSafe(fn.parentPath.value)
    ensures Trim(HeaderLine(fn)) == HeaderLine(fn) && StartsWith(HeaderLine(fn), NodeTag)
    ensures ParseHeader(HeaderLine(fn)) == Record(fn.node.name, fn.node.kind, ParentOf(fn.parentPath), [])
  {
    var n, t := fn.node.name, fn.node.kind;
    var has := Truthy(fn.parentPath);
    var v := if has then fn.parentPath.value else "";
    var h := HeaderLine(fn);
    HeaderLinePieces(fn);
    HeaderLineCut(n, t, has, v, h);
    HeaderOpensNode(n, t, has, v, h);
    NameReadsBack(n, t, has, v, h);
    TypeReadsBack(n, t, has, v, h);
    ParentReadsBack(n, t, has, v, h);
    ParseHeaderOf(h, n, t, if has then Some(v) else None);
  }

  /** The header line of an entry, as the pieces `HeaderLineCut` takes apart. */
  lemma HeaderLinePieces(fn: FlatNode)
    ensures var has := Truthy(fn.parentPath);
      HeaderLine(fn) == "[node name" + "=" + "\"" + fn.node.name + "\" type" + "=" + "\"" + fn.node.kind + "\"" +
        ParentPart(has, if has then fn.parentPath.value else "") + "]"
  {
  }

  /** The record a header line opens, from what its three patterns capture. */
  lemma ParseHeaderOf(h: string, n: string, t: string, p: Option<string>)
    requires Match(h, "name") == Some(n) && Match(h, "type") == Some(t) && Match(h, "parent") == p
    ensures ParseHeader(h) == Record(n, t, p, [])
  {
  }

  /** A header line is left alone by trimming and opens a node. */
  lemma HeaderOpensNode(n: string, t: string, has: bool, v: string, h: string)
    requires HeaderCut(n, t, has, v, h)
    ensures Trim(h) == h && StartsWith(h, NodeTag)
  {
    assert h[0] == h[..10][0] == '[';
    TrimTrimmed(h);
    assert h[..5] == h[..10][..5] == NodeTag;
  }

  /** The line `key = value` with a trimmed key and value: the text before and after its first '='. */
  lemma PropLineSplit(key: string, value: string)
    requires '=' !in key
    ensures var line := PropLine(key, value);
      IndexOf(line, '=') == |key| + 1 && line[..|key| + 1] == key + " " && line[|key| + 2..] == " " + value
  {
    var line := PropLine(key, value);
    assert line == key + " " + "=" + " " + value;
    assert line[|key| + 1] == '=';
    assert forall m :: 0 <= m < |key| ==> line[m] == key[m];
  }

  /** The first '=' of a line lies inside the part that trimming keeps. */
  lemma EqualsSurvivesTrim(line: string) returns (i: nat, j: nat)
    requires '=' in line
    ensures i <= IndexOf(line, '=') < j <= |line| && Trim(line) == line[i..j]
    ensures AllSpace(line[..i]) && AllSpace(line[j..])
    ensures IndexOf(Trim(line), '=') == IndexOf(line, '=') - i
  {
    i, j := TrimBounds(line);
    var e := IndexOf(line, '=');
    assert line[e] == '=' && !IsSpace('=');
    assert i <= e < j;
    var t := line[i..j];
    assert t[e - i] == '=';
  }

  /** Trimming a line first does not change the key read from it. */
  lemma KeyAfterTrim(line: string)
    requires '=' in line
    ensures PropertyKey(Trim(line)) == Trim(line[..IndexOf(line, '=')])
  {
    var i, j := EqualsSurvivesTrim(line);
    var e := IndexOf(line, '=');
    var t := Trim(line);
    var k := IndexOf(t, '=');
    var before := line[i..e];
    SliceHead(line, i, j, e);
    assert t[..k] == before;
    PrefixSplit(line, i, e);
    TrimAfterSpace(line[..i], before);
    PropertyKeyAt(t, k);
    calc {
      PropertyKey(t);
      Trim(t[..k]);
      Trim(before);
      Trim(line[..i] + before);
      Trim(line[..e]);
    }
  }

  /** Trimming a line first does not change the value read from it. */
  lemma ValueAfterTrim(line: string)
    requires '=' in line
    ensures '=' in Trim(line)
    ensures PropertyValue(Trim(line)) == Trim(line[IndexOf(line, '=') + 1..])
  {
    var i, j := EqualsSurvivesTrim(line);
    var e := IndexOf(line, '=');
    var t := Trim(line);
    var k := IndexOf(t, '=');
    assert t[k] == '=';
    var after := line[e + 1..j];
    SliceTail(line, i, j, e + 1);
    assert t[k + 1..] == after;
    SuffixSplit(line, e + 1, j);
    TrimBeforeSpace(after, line[j..]);
    PropertyValueAt(t, k);
    calc {
      PropertyValue(t);
      Trim(t[k + 1..]);
      Trim(after);
      Trim(after + line[j..]);
      Trim(line[e + 1..]);
    }
  }

  /** What a property key must avoid so that its line reads back as a property of the open node. */
  predicate KeySafe(key: string) {
    '=' !in key && '\n' !in key && Trimmed(key) && !StartsWith(key, NodeTag) && !StartsWith(key, ResourceTag)
  }

  /** What a property value must avoid so that it reads back. */
  predicate ValueSafe(value: string) {
    '\n' !in value && Trimmed(value)
  }

  /**
   * The line written for a property is read as an assignment to the open node, neither opening
   * a node nor declaring a resource, and gives back the key and the value.
   */
  lemma PropLineReadsBack(key: string, value: string)
    requires KeySafe(key) && ValueSafe(value)
    ensures var line := PropLine(key, value);
      && IsAssignment(line) && !StartsWith(Trim(line), NodeTag)
      && PropertyKey(Trim(line)) == key && PropertyValue(Trim(line)) == value
  {
    var line := PropLine(key, value);
    PropLineSplit(key, value);
    KeyAfterTrim(line);
    ValueAfterTrim(line);
    TrimPad([], key, " ");
    assert [] + key + " " == key + " ";
    TrimPad(" ", value, []);
    assert " " + value + [] == " " + value;
    PropLineStart(key, value);
  }

  /** A property line, once trimmed, starts with its key, or with '=' when the key is empty. */
  lemma PropLineStart(key: string, value: string)
    requires KeySafe(key) && ValueSafe(value)
    ensures var line := Trim(PropLine(key, value));
      line != [] && !StartsWith(line, NodeTag) && !StartsWith(line, ResourceTag)
  {
    var line := PropLine(key, value);
    var i, j := TrimBounds(line);
    var e := |key| + 1;
    assert line[e] == '=';
    var t := line[i..j];
    if key == [] {
      assert line[0] == ' ';
      assert t[0] == '=';
    } else {
      assert line[0] == key[0];
      StartsWithKey(key, t, NodeTag);
      StartsWithKey(key, t, ResourceTag);
    }
  }

  /** A line that continues a key with " =" starts with a tag only if the key does. */
  lemma StartsWithKey(key: string, t: string, tag: string)
    requires |key| < |t| && t[..|key|] == key && t[|key|] == ' '
    requires ' ' !in tag && !StartsWith(key, tag)
    ensures !StartsWith(t, tag)
  {
    if |tag| <= |key| {
      assert t[..|tag|] == key[..|tag|];
    }
  }
}
