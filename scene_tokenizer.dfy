/**
 * First phase of parseScene: the text is split at '\n' and every trimmed line either opens a
 * node record (`[node ...]`), sets a property of the most recent record (`key = value`), or
 * is skipped (blank lines, `[ext_resource ...]`, anything else). The node that is "open" in
 * the source, `currentNode`, is always the record pushed last, so here it is the last record.
 */
module SceneTokenizer {
  import opened Options
  import opened JsString
  import opened AttrPattern
  import opened SceneModel

  const NodeTag := "[node"
  const ResourceTag := "[ext_resource"

  /** The record a `[node ...]` line opens; missing attributes default to "Unknown", "Node" and null. */
  function ParseHeader(line: string): (r: Record)
    ensures r.props == []
    ensures |r.name| > 0 && '"' !in r.name && |r.kind| > 0 && '"' !in r.kind
    ensures r.parent.Some? ==> |r.parent.value| > 0 && '"' !in r.parent.value
  {
    Record(Match(line, "name").GetOr("Unknown"), Match(line, "type").GetOr("Node"), Match(line, "parent"), [])
  }

  /**
   * Each field of a header record is the capture at the leftmost position where its pattern
   * matches, or its default ("Unknown", "Node", null) when the pattern matches nowhere.
   */
  lemma HeaderFields(line: string)
    ensures forall q :: 0 <= q <= |line| && MatchAt(line, "name", q).Some? && NoneBefore(line, "name", q) ==>
      ParseHeader(line).name == MatchAt(line, "name", q).value
    ensures NoneBefore(line, "name", |line| + 1) ==> ParseHeader(line).name == "Unknown"
    ensures forall q :: 0 <= q <= |line| && MatchAt(line, "type", q).Some? && NoneBefore(line, "type", q) ==>
      ParseHeader(line).kind == MatchAt(line, "type", q).value
    ensures NoneBefore(line, "type", |line| + 1) ==> ParseHeader(line).kind == "Node"
    ensures forall q :: 0 <= q <= |line| && MatchAt(line, "parent", q).Some? && NoneBefore(line, "parent", q) ==>
      ParseHeader(line).parent == MatchAt(line, "parent", q)
    ensures NoneBefore(line, "parent", |line| + 1) ==> ParseHeader(line).parent.None?
  {
    FieldIsCapture(line, "name");
    FieldIsCapture(line, "type");
    FieldIsCapture(line, "parent");
  }

  /** The pattern for `attr` matches at no position before `q`. */
  predicate NoneBefore(line: string, attr: string, q: nat) {
    forall p :: 0 <= p < q ==> MatchAt(line, attr, p).None?
  }

  /** `Match` is the capture at the leftmost matching position, and null when there is none. */
  lemma FieldIsCapture(line: string, attr: string)
    ensures forall q :: 0 <= q <= |line| && MatchAt(line, attr, q).Some? && NoneBefore(line, attr, q) ==>
      Match(line, attr) == MatchAt(line, attr, q)
    ensures NoneBefore(line, attr, |line| + 1) ==> Match(line, attr).None?
  {
    forall q | 0 <= q <= |line| && MatchAt(line, attr, q).Some? && NoneBefore(line, attr, q)
      ensures Match(line, attr) == MatchAt(line, attr, q)
    {
      MatchIsLeftmost(line, attr, q);
    }
    if NoneBefore(line, attr, |line| + 1) {
      NoMatchAnywhere(line, attr);
    }
  }

  /** The key of a property line: the text before the first '=', trimmed. */
  function PropertyKey(line: string): (r: string)
    ensures Trimmed(r) && '=' !in r && |r| <= IndexOf(line, '=')
  {
    var before := line[..IndexOf(line, '=')];
    TrimWithin(before);
    assert '=' !in before;
    Trim(before)
  }

  /** The value of a property line: everything after the first '=' (later '=' kept), trimmed. */
  function PropertyValue(line: string): (r: string)
    requires '=' in line
    ensures Trimmed(r) && |r| < |line| - IndexOf(line, '=')
  {
    var after := line[IndexOf(line, '=') + 1..];
    TrimWithin(after);
    Trim(after)
  }

  /** The key of a line whose first '=' is at `k`. */
  lemma PropertyKeyAt(line: string, k: nat)
    requires k == IndexOf(line, '=')
    ensures PropertyKey(line) == Trim(line[..k])
  {
  }

  /** The value of a line whose first '=' is at `k`. */
  lemma PropertyValueAt(line: string, k: nat)
    requires '=' in line && k == IndexOf(line, '=')
    ensures PropertyValue(line) == Trim(line[k + 1..])
  {
  }

  /** What one raw line does to the records read so far. */
  function Step(recs: seq<Record>, raw: string): seq<Record> {
    var line := Trim(raw);
    if line == [] then recs
    else if StartsWith(line, NodeTag) then recs + [ParseHeader(line)]
    else if StartsWith(line, ResourceTag) then recs
    else if recs != [] && '=' in line then
      var current := recs[|recs| - 1];
      recs[|recs| - 1 := current.(props := Put(current.props, PropertyKey(line), PropertyValue(line)))]
    else recs
  }

  /** The lines read in order, starting from `recs`. */
  function Scan(recs: seq<Record>, lines: seq<string>): seq<Record>
    decreases |lines|
  {
    if lines == [] then recs else Scan(Step(recs, lines[0]), lines[1..])
  }

  /** The records the first phase of parseScene builds from a text. */
  function Records(text: string): seq<Record> {
    Scan([], SplitLines(text))
  }

  /** The first phase of parseScene: `lines.forEach(...)` over the lines of the text. */
  method Tokenize(text: string) returns (recs: seq<Record>)
    ensures recs == Records(text)
  {
    var lines := SplitLines(text);
    recs := [];
    var i := 0;
    while i < |lines|
      invariant i <= |lines|
      invariant Scan(recs, lines[i..]) == Records(text)
    {
      ScanUnfold(recs, lines, i);
      recs := ReadLine(recs, lines[i]);
      i := i + 1;
    }
  }

  /** The `forEach` callback: what one raw line does to the records read so far. */
  method ReadLine(recs: seq<Record>, raw: string) returns (next: seq<Record>)
    ensures next == Step(recs, raw)
  {
    next := recs;
    var line := Trim(raw);
    if line == [] {
      // blank line
    } else if StartsWith(line, NodeTag) {
      var node := ParseHeader(line);
      next := recs + [node];
    } else if StartsWith(line, ResourceTag) {
      // resource declarations are recognised and ignored
    } else if recs != [] && '=' in line {
      var eq := IndexOf(line, '=');
      var key := Trim(line[..eq]);
      var value := Trim(line[eq + 1..]);
      var current := recs[|recs| - 1];
      next := recs[|recs| - 1 := current.(props := Put(current.props, key, value))];
      StepAssigns(recs, raw, eq);
    }
  }

  /** A property line read with its first '=' at `eq` assigns the trimmed text around it to the last record. */
  lemma StepAssigns(recs: seq<Record>, raw: string, eq: nat)
    requires var line := Trim(raw);
      line != [] && !StartsWith(line, NodeTag) && !StartsWith(line, ResourceTag) &&
      recs != [] && '=' in line && eq == IndexOf(line, '=')
    ensures var line := Trim(raw); var current := recs[|recs| - 1];
      Step(recs, raw) ==
        recs[|recs| - 1 := current.(props := Put(current.props, Trim(line[..eq]), Trim(line[eq + 1..])))]
  {
    PropertyKeyAt(Trim(raw), eq);
    PropertyValueAt(Trim(raw), eq);
  }

  /** Reading the lines from `i` on is one step on line `i`, then reading the rest. */
  lemma ScanUnfold(recs: seq<Record>, lines: seq<string>, i: nat)
    requires i < |lines|
    ensures Scan(recs, lines[i..]) == Scan(Step(recs, lines[i]), lines[i + 1..])
  {
    assert lines[i..][1..] == lines[i + 1..];
  }

  /** The trimmed `[node` lines, in order. */
  function Headers(lines: seq<string>): seq<string> {
    if lines == [] then []
    else if StartsWith(Trim(lines[0]), NodeTag) then [Trim(lines[0])] + Headers(lines[1..])
    else Headers(lines[1..])
  }

  /** Lines that set a property when a node is open. */
  predicate IsAssignment(raw: string) {
    var line := Trim(raw);
    line != [] && !StartsWith(line, NodeTag) && !StartsWith(line, ResourceTag) && '=' in line
  }

  /** The (key, value) pairs of the property lines, in order. */
  function Assignments(lines: seq<string>): Props {
    if lines == [] then []
    else if IsAssignment(lines[0]) then
      var line := Trim(lines[0]);
      [(PropertyKey(line), PropertyValue(line))] + Assignments(lines[1..])
    else Assignments(lines[1..])
  }

  /** Same name, type and parent: everything a record has apart from its properties. */
  predicate SameHeader(a: Record, b: Record) {
    a.name == b.name && a.kind == b.kind && a.parent == b.parent
  }

  /** One line either appends the record its `[node` header describes, or changes at most the last record's properties. */
  lemma StepShape(recs: seq<Record>, raw: string)
    ensures var next := Step(recs, raw);
      if StartsWith(Trim(raw), NodeTag) then next == recs + [ParseHeader(Trim(raw))]
      else
        && |next| == |recs|
        && (recs != [] ==> next[..|recs| - 1] == recs[..|recs| - 1])
        && (forall i :: 0 <= i < |recs| ==> SameHeader(next[i], recs[i]))
  {
  }

  /**
   * Every `[node` line appends exactly one record, in line order, whose name, type and parent
   * come from that line; no other line adds a record, changes a header, or touches any record
   * but the most recent one.
   */
  lemma {:induction false} ScanRecords(recs: seq<Record>, lines: seq<string>)
    ensures var out := Scan(recs, lines);
      && |out| == |recs| + |Headers(lines)|
      && (recs != [] ==> out[..|recs| - 1] == recs[..|recs| - 1])
      && (forall i :: 0 <= i < |recs| ==> SameHeader(out[i], recs[i]))
      && (forall m :: 0 <= m < |Headers(lines)| ==> SameHeader(out[|recs| + m], ParseHeader(Headers(lines)[m])))
    decreases |lines|
  {
    if lines != [] {
      var next := Step(recs, lines[0]);
      StepShape(recs, lines[0]);
      ScanRecords(next, lines[1..]);
      var out := Scan(recs, lines);
      assert out == Scan(next, lines[1..]);
      if StartsWith(Trim(lines[0]), NodeTag) {
        HeaderStep(recs, next, out, lines);
      } else {
        assert Headers(lines) == Headers(lines[1..]);
        KeepHeaders(recs, next, out, Headers(lines));
      }
    }
  }

  /** A line that changes no header leaves the records read after it lined up with the headers. */
  lemma KeepHeaders(recs: seq<Record>, next: seq<Record>, out: seq<Record>, hs: seq<string>)
    requires |next| == |recs|
    requires recs != [] ==> next[..|recs| - 1] == recs[..|recs| - 1]
    requires forall i :: 0 <= i < |recs| ==> SameHeader(next[i], recs[i])
    requires |out| == |next| + |hs|
    requires next != [] ==> out[..|next| - 1] == next[..|next| - 1]
    requires forall i :: 0 <= i < |next| ==> SameHeader(out[i], next[i])
    requires forall m :: 0 <= m < |hs| ==> SameHeader(out[|next| + m], ParseHeader(hs[m]))
    ensures recs != [] ==> out[..|recs| - 1] == recs[..|recs| - 1]
    ensures forall i :: 0 <= i < |recs| ==> SameHeader(out[i], recs[i])
  {
  }

  lemma HeaderStep(recs: seq<Record>, next: seq<Record>, out: seq<Record>, lines: seq<string>)
    requires lines != [] && StartsWith(Trim(lines[0]), NodeTag)
    requires next == recs + [ParseHeader(Trim(lines[0]))]
    requires |out| == |next| + |Headers(lines[1..])|
    requires out[..|next| - 1] == next[..|next| - 1]
    requires forall i :: 0 <= i < |next| ==> SameHeader(out[i], next[i])
    requires forall m :: 0 <= m < |Headers(lines[1..])| ==> SameHeader(out[|next| + m], ParseHeader(Headers(lines[1..])[m]))
    ensures |out| == |recs| + |Headers(lines)|
    ensures recs != [] ==> out[..|recs| - 1] == recs[..|recs| - 1]
    ensures forall i :: 0 <= i < |recs| ==> SameHeader(out[i], recs[i])
    ensures forall m :: 0 <= m < |Headers(lines)| ==> SameHeader(out[|recs| + m], ParseHeader(Headers(lines)[m]))
  {
    assert Headers(lines) == [Trim(lines[0])] + Headers(lines[1..]);
    ShiftHeaders(recs, next, out, Trim(lines[0]), Headers(lines[1..]));
  }

  /** The header lines after the first one line up with the records after the one it appended. */
  lemma ShiftHeaders(recs: seq<Record>, next: seq<Record>, out: seq<Record>, h: string, hs: seq<string>)
    requires next == recs + [ParseHeader(h)]
    requires |out| == |next| + |hs|
    requires out[..|next| - 1] == next[..|next| - 1]
    requires forall i :: 0 <= i < |next| ==> SameHeader(out[i], next[i])
    requires forall m :: 0 <= m < |hs| ==> SameHeader(out[|next| + m], ParseHeader(hs[m]))
    ensures recs != [] ==> out[..|recs| - 1] == recs[..|recs| - 1]
    ensures forall m :: 0 <= m < 1 + |hs| ==> SameHeader(out[|recs| + m], ParseHeader(([h] + hs)[m]))
  {
    ShiftList(out, |recs|, h, hs, ParseHeader);
    if recs != [] {
      assert out[..|recs| - 1] == out[..|next| - 1][..|recs| - 1];
      assert next[..|recs|][..|recs| - 1] == recs[..|recs| - 1];
    }
  }

  /** The records from position `base` on carry the headers `h`, then `hs`, read by `parse`. */
  lemma ShiftList(out: seq<Record>, base: nat, h: string, hs: seq<string>, parse: string -> Record)
    requires |out| == base + 1 + |hs|
    requires SameHeader(out[base], parse(h))
    requires forall m :: 0 <= m < |hs| ==> SameHeader(out[base + 1 + m], parse(hs[m]))
    ensures forall m :: 0 <= m < 1 + |hs| ==> SameHeader(out[base + m], parse(([h] + hs)[m]))
  {
    forall m | 0 <= m < 1 + |hs|
      ensures SameHeader(out[base + m], parse(([h] + hs)[m]))
    {
      if m > 0 {
        assert base + m == base + 1 + (m - 1);
        assert ([h] + hs)[m] == hs[m - 1];
      }
    }
  }

  /** Lines before the first `[node` line (a preamble, stray `key = value` lines) yield nothing. */
  lemma NothingBeforeFirstHeader(lines: seq<string>)
    requires Headers(lines) == []
    ensures Scan([], lines) == []
  {
    ScanRecords([], lines);
  }

  /**
   * Between two `[node` lines the property lines are assignments to the most recent record,
   * applied in order (a repeated key overwrites the earlier value in place); nothing else changes.
   */
  lemma {:induction false} ScanProps(recs: seq<Record>, lines: seq<string>)
    requires recs != [] && Headers(lines) == []
    ensures var last := recs[|recs| - 1];
      Scan(recs, lines) == recs[..|recs| - 1] + [last.(props := PutAll(last.props, Assignments(lines)))]
    decreases |lines|
  {
    var last := recs[|recs| - 1];
    if lines == [] {
      assert recs == recs[..|recs| - 1] + [last];
    } else {
      var next := Step(recs, lines[0]);
      assert Headers(lines[1..]) == [];
      StepProps(recs, lines[0]);
      ScanProps(next, lines[1..]);
    }
  }

  /** A line other than a `[node` line, read with a node open, sets at most one property of the last record. */
  lemma StepProps(recs: seq<Record>, raw: string)
    requires recs != [] && !StartsWith(Trim(raw), NodeTag)
    ensures var last := recs[|recs| - 1]; var line := Trim(raw);
      Step(recs, raw) ==
        if IsAssignment(raw) then recs[..|recs| - 1] + [last.(props := Put(last.props, PropertyKey(line), PropertyValue(line)))]
        else recs
  {
    if IsAssignment(raw) {
      assert recs == recs[..|recs| - 1] + [recs[|recs| - 1]];
    }
  }

  /** Reading two runs of lines one after the other. */
  lemma {:induction false} ScanAppend(recs: seq<Record>, a: seq<string>, b: seq<string>)
    ensures Scan(recs, a + b) == Scan(Scan(recs, a), b)
    decreases |a|
  {
    if a != [] {
      assert (a + b)[1..] == a[1..] + b;
      ScanAppend(Step(recs, a[0]), a[1..], b);
    } else {
      assert a + b == b;
    }
  }
}
