# Godot scene-text codec

A Dafny model of the `.tscn` scene codec of the backend: `parseScene`, which reads Godot's
text scene format into a tree of node objects, and `serializeScene`, which writes such a tree
back as text.

- **Tokenizer.** The text is split at `'\n'` and every line is trimmed.
  - A `[node ...]` line appends a record with the `name`, `type` and `parent` attributes its
    three patterns capture. Missing attributes default to `"Unknown"`, `"Node"` and null.
  - `[ext_resource ...]` lines are ignored.
  - Any other line with an `=` assigns a property of the most recent record. The key is the
    text before the first `=`, the value everything after it, both trimmed.
- **Reconstruction.** The root is the first record without a parent. When every record has a
  parent, the first record is returned before anything is linked. Every record with a parent
  reference is pushed into the `children` of the first record whose name is the target name.
  The target name is the root's name for `"."` and otherwise the last `/`-segment. A `"."`
  reference also matches the root itself.
- **Serializer.** The tree is flattened in pre-order, each node paired with the path it was
  reached by: null for the root, `"."` for its children, `"./A/B"` further down. Each entry is
  written as a header line, one `key = value` line per property and a blank line, after a
  fixed preamble and a blank line.

The result of `parseScene` is modelled as an arena (`SceneReconstruct.Scene`). It holds the
records in declaration order, the index of the returned record, and for every record the
indices pushed into its `children`, in push order. JavaScript object identity becomes a record
index. The node that the source keeps open as `currentNode` is always the record pushed last.

Each `for` and `forEach` loop of the source, the tokenizer's `forEach` callback and the recursive
`traverse` is a method proved equal to a specification function: `SceneTokenizer.Tokenize`,
`SceneTokenizer.ReadLine`, `SceneReconstruct.Reconstruct`, `SceneSerializer.Traverse`,
`SceneSerializer.EntryText` and `SceneSerializer.SerializeScene`.
The two `nodes.find` searches (lines 39 and 52) are the recursive functions
`SceneReconstruct.RootIndex` and `SceneReconstruct.FindParent`. The properties are lemmas
about those functions. The main theorem is `RoundTrip.ParseSerialized`:
`parseScene(serializeScene(t))` gives back `t`'s names, types, properties and child order,
provided that:

- names, types, keys and values survive their lines;
- names are one path segment;
- names are unique.

Names must be unique because `parseScene` finds parents by name.

The source builds a name table (`nodeMap`, lines 42-43) in which the last-declared node wins,
but never reads it. Parents are looked up with `nodes.find`, so the first declared namesake
wins. The model follows the lookup.
`SceneReconstruct.FirstNamesakeWins` states the consequence. `SceneReconstruct.DotShadowedExample`
shows that a `"."` child can even be pushed into an earlier record that shares the root's
name, instead of into the root.

## Model

| member | source | states |
|---|---|---|
| AttrPattern.QuoteFrom | backend/src/services/sceneParser.js:15-17 | the greedy `[^"]+` stops at the first quote at or after its start, or at the end of the line |
| AttrPattern.MatchAt | backend/src/services/sceneParser.js:15-17 | a capture at one position is non-empty and quote-free, and the line holds `attr="`, the capture and a closing quote there |
| AttrPattern.FirstMatch | backend/src/services/sceneParser.js:15-17 | the position found is the leftmost at which the pattern matches; when none is found the pattern matches nowhere |
| AttrPattern.Match | backend/src/services/sceneParser.js:15-22 | a capture of `line.match(...)` is always non-empty and free of `"` |
| AttrPattern.MatchIsLeftmost | backend/src/services/sceneParser.js:15-17 | the match reported is the one at the leftmost matching position |
| AttrPattern.NoMatchAnywhere | backend/src/services/sceneParser.js:15-22 | with no matching position the attribute is absent (its default applies) |
| AttrPattern.CaptureAt | backend/src/services/sceneParser.js:15-17 | `attr="v"` with a non-empty quote-free `v` is captured as exactly `v` |
| AttrPattern.NoMatchBefore | backend/src/services/sceneParser.js:15-17 | no match can start where the attribute's first letter and the following `=` are not both present |
| JsString.Trim | backend/src/services/sceneParser.js:10 | `trim()` leaves neither leading nor trailing white space |
| JsString.TrimIs | backend/src/services/sceneParser.js:10 | `trim()` is the part between an all-space prefix and an all-space suffix |
| JsString.TrimPad | backend/src/services/sceneParser.js:10 | padding a trimmed string with white space and trimming gives it back |
| JsString.TrimBounds | backend/src/services/sceneParser.js:10 | every trimmed string is a slice with white space only before and after it |
| JsString.TrimWithin | backend/src/services/sceneParser.js:10 | `trim()` is no longer than its input and keeps only characters of it |
| JsString.IndexOf | backend/src/services/sceneParser.js:31-33 | the position of the first `=`: none before it, and `=` at it when present |
| JsString.SplitLines | backend/src/services/sceneParser.js:5 | `split('\n')` gives at least one piece and no piece holds a line break |
| JsString.SplitJoin | backend/src/services/sceneParser.js:5 | joining the pieces of `split('\n')` with line breaks gives back the text, for every text |
| JsString.SplitJoinLines | backend/src/services/sceneParser.js:5 | splitting lines that each end with a line break gives the lines back, then one empty piece |
| JsString.JoinLinesAppend | backend/src/services/sceneParser.js:84 | writing two runs of lines is writing one after the other |
| JsString.LastSegment | backend/src/services/sceneParser.js:49 | `split('/').pop()` is the slash-free suffix after the last `/` |
| JsString.LastSegmentAfterSlash | backend/src/services/sceneParser.js:49 | the last segment of `prefix/name` is `name` for a slash-free `name` |
| SceneModel.Put | backend/src/services/sceneParser.js:34 | `properties[key] = value` appends a new key and keeps the key order for an existing one |
| SceneModel.PutLookup | backend/src/services/sceneParser.js:34 | after the assignment the key reads as the new value and every other key as before |
| SceneModel.PutAllFresh | backend/src/services/sceneParser.js:34 | assigning fresh distinct keys appends them in order |
| SceneModel.PutAllDistinct | backend/src/services/sceneParser.js:34 | assigning distinct keys to an empty object rebuilds them in order |
| SceneTokenizer.ParseHeader | backend/src/services/sceneParser.js:15-25 | a header record starts with no properties, and its name, type and parent are non-empty and quote-free |
| SceneTokenizer.HeaderFields | backend/src/services/sceneParser.js:15-25 | each of name, type and parent is the capture at the leftmost position where its pattern matches, or `"Unknown"`, `"Node"` or null when it matches nowhere |
| SceneTokenizer.PropertyKey | backend/src/services/sceneParser.js:32 | a key is trimmed, holds no `=` and is no longer than the text before the first `=` |
| SceneTokenizer.PropertyValue | backend/src/services/sceneParser.js:33 | a value is trimmed and shorter than the text from the first `=` on |
| SceneTokenizer.Tokenize | backend/src/services/sceneParser.js:5-36 | the line loop builds exactly the records of the specification fold over the lines |
| SceneTokenizer.ReadLine | backend/src/services/sceneParser.js:9-35 | the `forEach` callback does to the records exactly what one step of the specification fold does |
| SceneTokenizer.StepAssigns | backend/src/services/sceneParser.js:29-34 | a property line with a node open sets the key before the first `=` to the value after it, both trimmed, on the last record |
| SceneTokenizer.StepProps | backend/src/services/sceneParser.js:27-34 | with a node open, a line that is not a `[node` line sets at most one property of the last record, and only when it is an assignment |
| SceneTokenizer.StepShape | backend/src/services/sceneParser.js:9-35 | a `[node` line appends the record its header describes; any other line changes at most the last record's properties |
| SceneTokenizer.ScanRecords | backend/src/services/sceneParser.js:13-26 | one record per `[node` line, in line order, named, typed and parented by that line; earlier records keep their headers |
| SceneTokenizer.ScanProps | backend/src/services/sceneParser.js:29-34 | between two headers the property lines are applied in order to the most recent record and nothing else changes |
| SceneTokenizer.NothingBeforeFirstHeader | backend/src/services/sceneParser.js:29 | lines before the first `[node` line, `=` lines included, yield no record |
| SceneTokenizer.ScanAppend | backend/src/services/sceneParser.js:9 | reading two runs of lines is reading one and then the other |
| SceneReconstruct.RootIndex | backend/src/services/sceneParser.js:39 | the record found has no parent and every record before it has one; without a result every record has one |
| SceneReconstruct.TargetName | backend/src/services/sceneParser.js:49 | a `"."` reference targets the root's name; any other targets its slash-free suffix that is the whole reference or follows its last `/` |
| SceneReconstruct.Matches | backend/src/services/sceneParser.js:52 | for `"."` the candidates are the root and its namesakes; otherwise the records named as the last segment |
| SceneReconstruct.FindParent | backend/src/services/sceneParser.js:52 | `nodes.find` returns a candidate at or after where the search starts |
| SceneReconstruct.FindParentFirst | backend/src/services/sceneParser.js:52 | no record searched before the result is a candidate; without a result no record searched is one |
| SceneReconstruct.Attach | backend/src/services/sceneParser.js:46-52 | a parentless record is attached nowhere; an attached record goes to a candidate for its reference |
| SceneReconstruct.AttachAt | backend/src/services/sceneParser.js:46-52 | a record is attached to the first candidate for its reference |
| SceneReconstruct.AttachIsLinked | backend/src/services/sceneParser.js:46-52 | `Attach` gives `j` exactly when `j` is the first candidate for `k`'s reference |
| SceneReconstruct.Reconstruction | backend/src/services/sceneParser.js:39-59 | no records give `undefined`; otherwise the records are returned unchanged with a valid root and one children list each |
| SceneReconstruct.Reconstruct | backend/src/services/sceneParser.js:39-59 | the root search and linking loop produce exactly the specified object graph |
| SceneReconstruct.IndicesOfSpec | backend/src/services/sceneParser.js:53-55 | a children list holds exactly the records linked to its owner, each once, in push order |
| SceneReconstruct.IndicesOfAppend | backend/src/services/sceneParser.js:45-57 | linking two runs of records is linking one run and then the other |
| SceneReconstruct.RootChoice | backend/src/services/sceneParser.js:39-40 | the returned record is the first without a parent; otherwise it is record 0 and nothing is linked |
| SceneReconstruct.ChildrenSpec | backend/src/services/sceneParser.js:45-57 | `k` is in `j`'s children exactly when a root exists and `j` is the first record `k`'s reference matches; children lists are increasing |
| SceneReconstruct.Detached | backend/src/services/sceneParser.js:46-55 | parentless records and orphans are in no children list |
| SceneReconstruct.SingleParent | backend/src/services/sceneParser.js:45-57 | a record is pushed into at most one children list, and the returned record into none |
| SceneReconstruct.DotParent | backend/src/services/sceneParser.js:49-52 | a `"."` child goes to the first record carrying the root's name, never later than the root |
| SceneReconstruct.UniquePath | backend/src/services/sceneParser.js:45-57 | every record reachable from the returned record is reached by exactly one chain of children links |
| SceneReconstruct.PathsSimple | backend/src/services/sceneParser.js:45-57 | no chain of children links from the returned record visits a record twice |
| SceneReconstruct.DotShadowedExample | backend/src/services/sceneParser.js:49-52 | in a three-record scene the `"."` child is pushed into an earlier namesake of the root, not into the root |
| SceneReconstruct.FirstNamesakeWins | backend/src/services/sceneParser.js:42-52 | of two namesakes only the first declared can receive a child; the later one never does |
| SceneParser.Parse | backend/src/services/sceneParser.js:4-59 | the result is `undefined` exactly when no record is read; otherwise it holds the records read and a valid root |
| SceneParser.ParseScene | backend/src/services/sceneParser.js:4-60 | parseScene is tokenizing followed by reconstruction |
| SceneParser.ParseShape | backend/src/services/sceneParser.js:4-40 | the result is `undefined` exactly when no line opens a node; otherwise one record per `[node` line, in order |
| SceneParser.EmptyTextIsUndefined | backend/src/services/sceneParser.js:59 | the empty text gives `undefined` |
| SceneSerializer.ChildPath | backend/src/services/sceneParser.js:70 | children of the root get `"."`; below them the path is the parent's path, `/` and the node's name; for a slash-free name its last segment is that name |
| SceneSerializer.Flat | backend/src/services/sceneParser.js:68-71 | the pre-order has one entry per node, starting with the node itself and the path it was reached by |
| SceneSerializer.Traverse | backend/src/services/sceneParser.js:67-72 | the recursive `traverse` appends exactly the pre-order of the subtree to what was pushed before |
| SceneSerializer.ForestExtend | backend/src/services/sceneParser.js:70 | the pre-order of one more child follows the pre-orders of the children before it |
| SceneSerializer.EntryText | backend/src/services/sceneParser.js:75-84 | the text built for an entry, plus the extra line break, is the entry's header line, property lines and blank line |
| SceneSerializer.PropsExtend | backend/src/services/sceneParser.js:81-83 | one more property line follows the lines of the properties before it |
| SceneSerializer.SerializeScene | backend/src/services/sceneParser.js:63-88 | the output is the preamble, a blank line and every entry's block in pre-order |
| SerializedLines.SceneTextLines | backend/src/services/sceneParser.js:64-85 | the output is exactly its lines, each ended by a line break |
| LineRoundTrip.HeaderLineCut | backend/src/services/sceneParser.js:75-79 | a header line holds `name="`, the name, `" type="`, the type, the optional `parent="` and path, and `]`, each at a fixed offset |
| LineRoundTrip.HeaderReadsBack | backend/src/services/sceneParser.js:13-26 | a header line written as at lines 75-79 opens a node and reads back as the entry's name, type and parent |
| LineRoundTrip.PropLineSplit | backend/src/services/sceneParser.js:82 | in `key = value` with an `=`-free key the first `=` follows the key and a space, with the value after the next space |
| LineRoundTrip.PropLineReadsBack | backend/src/services/sceneParser.js:29-34 | a property line written as at line 82 is an assignment that reads back as its key and value |
| LineRoundTrip.KeyAfterTrim | backend/src/services/sceneParser.js:32 | trimming the line first does not change the key read from it |
| LineRoundTrip.ValueAfterTrim | backend/src/services/sceneParser.js:33 | trimming the line first does not change the value read from it |
| ReadBack.PropLinesRead | backend/src/services/sceneParser.js:29-34 | the property lines written for a node at lines 81-83 open no node and assign exactly its properties, in order |
| ReadBack.BlockRead | backend/src/services/sceneParser.js:9-36 | reading one block written at lines 75-84 adds exactly the entry's record |
| ReadBack.BlocksRead | backend/src/services/sceneParser.js:9-36 | reading a run of blocks written at lines 74-85 adds the entries' records in order |
| ReadBack.PreambleRead | backend/src/services/sceneParser.js:11-29 | the preamble written at line 64 and its blank line open no record |
| ReadBack.ReadSerialized | backend/src/services/sceneParser.js:4-36 | the tokenizer reads one record per pre-order entry back from the output, in order |
| TreeLayout.PathLayout | backend/src/services/sceneParser.js:68-71 | every non-root entry's path is the child path of an earlier entry, its parent in the layout |
| TreeLayout.ForestRoots | backend/src/services/sceneParser.js:68-71 | the records linked to a node in the layout are its children's entries, in order |
| TreeLayout.FlatForestAppend | backend/src/services/sceneParser.js:70 | flattening two runs of subtrees is flattening one and then the other |
| ParentPaths.GrandchildPathExample | backend/src/services/sceneParser.js:70 | below the root `R`, the child `A` hands the path `"./A"` to its own children |
| ParentPaths.DotPath | backend/src/services/sceneParser.js:70 | a written path starts with `.` |
| ParentPaths.DescendDotted | backend/src/services/sceneParser.js:70 | handing a `./...` path down through more nodes appends `/` and each node's name |
| ParentPaths.DescendFromRoot | backend/src/services/sceneParser.js:68-71 | from the root, the path handed down through the nodes `A`, `B`, ... is `"./A/B/..."` |
| ParentPaths.EntryOfDescendant | backend/src/services/sceneParser.js:68-71 | every node below a subtree has an entry in its pre-order, carrying the path handed down to it |
| ParentPaths.DescendantPath | backend/src/services/sceneParser.js:68-71 | a node reached from the root through `A`, `B`, ... is written with the parent path `"./A/B/..."` |
| RoundTrip.EntriesSafe | backend/src/services/sceneParser.js:70-77 | in a well-formed tree every entry, its written parent path included, meets what its lines need to read back |
| RoundTrip.AttachFollowsLayout | backend/src/services/sceneParser.js:49-55 | each read-back record is linked to the record of the node it was written under |
| RoundTrip.RepresentsBlock | backend/src/services/sceneParser.js:45-57 | a block of records laid out and linked as a subtree's pre-order stands for that subtree |
| RoundTrip.ParseSerialized | backend/src/services/sceneParser.js:4-88 | parseScene of serializeScene's output returns the root, with the same names, types, properties and child order throughout |

## Left out

- JavaScript object key order: integer-like keys enumerate first in `Object.entries`, before
  the others. `SceneModel.Props` keeps insertion order for every key. So for such keys the
  order of the written property lines differs from the source.
- Keys that are special to JavaScript objects are treated as ordinary keys. In the source,
  `properties['__proto__'] = value` with a string value is ignored (line 34).
- Object identity and aliasing: records and children are values in an arena, linked by index.
  `serializeScene` receives a value tree (`SceneModel.SceneNode`), so a cyclic object graph
  cannot be passed to it. On such an input `traverse` (lines 68-71) recurses until the call
  stack is exhausted and a `RangeError` is thrown.
- The name table built at lines 42-43 is never read by the source. It is not modelled.
- Regular expressions in general: only the three attribute patterns are modelled, as the
  leftmost `attr="` followed by a maximal run of non-quote characters and a closing quote.
- `trim()` uses the JavaScript white-space and line-terminator set, by code point. Strings are
  sequences of Unicode scalar values, with no normalisation, whereas JavaScript strings are
  UTF-16 code units: a lone surrogate cannot be represented, and a character outside the
  Basic Multilingual Plane is one element where JavaScript has two.
- Quote escaping: the serializer never escapes `"`. The round-trip theorem excludes such
  names, types and paths instead of modelling escaping.
- RoundTrip.ParseSerialized: the round trip is proved only for well-formed trees. These have
  unique names, names that are non-empty and free of `"`, `=`, `/` and line breaks, and types
  with the same restrictions except `/`. Property keys must be distinct, trimmed, free of `=`
  and line breaks, and must not start with `[node` or `[ext_resource`. Property values must be
  trimmed and free of line breaks. For other trees the property says nothing. The key
  `__proto__` meets these conditions, but the source drops its assignment at line 34, so the
  source's round trip does not give that property back.
- The rest of the repository is not part of this model: HTTP routing, file-system and git
  access, the Godot process runner, OAuth, and the React front end. All of it is I/O or UI.
