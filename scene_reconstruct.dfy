/**
 * Second phase of parseScene: the records are linked into a tree. The objects the source links
 * are identified here by their index in the record list, so the result is an arena: the
 * records, the index of the node that is returned, and for every record the indices of the
 * records pushed into its `children` array, in push order.
 */
module SceneReconstruct {
  import opened Options
  import opened JsString
  import opened SceneModel

  /**
   * What parseScene returns, with object identity as an index: `records[root]` is the returned
   * node and `children[j]` lists the records in `records[j].children`.
   */
  datatype Scene = Scene(records: seq<Record>, root: nat, children: seq<seq<nat>>)

  /** `nodes.find(n => !n.parent)`: the first record without a parent, if any. */
  function RootIndex(recs: seq<Record>): (r: Option<nat>)
    ensures r.Some? ==> r.value < |recs| && recs[r.value].parent.None?
    ensures forall i :: 0 <= i < |recs| && (r.None? || i < r.value) ==> recs[i].parent.Some?
  {
    if recs == [] then None
    else if recs[0].parent.None? then Some(0)
    else match RootIndex(recs[1..])
      case None => None
      case Some(k) => Some(k + 1)
  }

  /** The name a `parent` reference is looked up by: the root's name for ".", else its last '/'-segment. */
  function TargetName(parent: string, rootName: string): (r: string)
    ensures parent == "." ==> r == rootName
    ensures parent != "." ==> '/' !in r && |r| <= |parent| && r == parent[|parent| - |r|..]
    ensures parent != "." && |r| < |parent| ==> parent[|parent| - |r| - 1] == '/'
  {
    if parent == "." then rootName else LastSegment(parent)
  }

  /** Whether record `j` is a candidate parent for the reference `parent`. */
  predicate Matches(recs: seq<Record>, root: nat, parent: string, j: nat)
    requires root < |recs| && j < |recs|
    ensures parent == "." ==> (Matches(recs, root, parent, j) <==> recs[j].name == recs[root].name)
    ensures parent != "." ==> (Matches(recs, root, parent, j) <==> recs[j].name == LastSegment(parent))
  {
    recs[j].name == TargetName(parent, recs[root].name) || (parent == "." && j == root)
  }

  /** `nodes.find(p => p.name === parentName || (n.parent === '.' && p === root))`, searching from `from` on. */
  function FindParent(recs: seq<Record>, root: nat, parent: string, from: nat): (r: Option<nat>)
    requires root < |recs|
    ensures r.Some? ==> from <= r.value < |recs| && Matches(recs, root, parent, r.value)
    decreases |recs| - from
  {
    if from >= |recs| then None
    else if Matches(recs, root, parent, from) then Some(from)
    else FindParent(recs, root, parent, from + 1)
  }

  /** No record searched before the one `FindParent` returns is a candidate; with no result, none at all. */
  lemma {:induction false} FindParentFirst(recs: seq<Record>, root: nat, parent: string, from: nat)
    requires root < |recs|
    ensures var r := FindParent(recs, root, parent, from);
      forall j :: from <= j < |recs| && (r.None? || j < r.value) ==> !Matches(recs, root, parent, j)
    decreases |recs| - from
  {
    if from < |recs| && !Matches(recs, root, parent, from) {
      FindParentFirst(recs, root, parent, from + 1);
    }
  }

  /** The record whose `children` record `i` is pushed into: none for a parentless record or an orphan. */
  function Attach(recs: seq<Record>, root: nat, i: nat): (r: Option<nat>)
    requires root < |recs| && i < |recs|
    ensures recs[i].parent.None? ==> r.None?
    ensures r.Some? ==> r.value < |recs| && Matches(recs, root, recs[i].parent.value, r.value)
  {
    if recs[i].parent.None? then None else FindParent(recs, root, recs[i].parent.value, 0)
  }

  /** A record is attached to the first candidate for its parent reference. */
  lemma AttachAt(recs: seq<Record>, root: nat, i: nat, v: nat)
    requires root < |recs| && i < |recs| && v < |recs| && recs[i].parent.Some?
    requires Matches(recs, root, recs[i].parent.value, v)
    requires forall j :: 0 <= j < v ==> !Matches(recs, root, recs[i].parent.value, j)
    ensures Attach(recs, root, i) == Some(v)
  {
    FindParentFirst(recs, root, recs[i].parent.value, 0);
  }

  /** `Attach` for every record. */
  function Links(recs: seq<Record>, root: nat): (r: seq<Option<nat>>)
    requires root < |recs|
    ensures |r| == |recs|
  {
    seq(|recs|, i requires 0 <= i < |recs| => Attach(recs, root, i))
  }

  /**
   * The positions (shifted by `base`) at which `links` holds `Some(target)`, in increasing
   * order: the push order of a parent's `children`.
   */
  function IndicesOf(links: seq<Option<nat>>, target: nat, base: nat): seq<nat> {
    if links == [] then []
    else
      var n := |links| - 1;
      IndicesOf(links[..n], target, base) + (if links[n] == Some(target) then [base + n] else [])
  }

  /** `IndicesOf` lists exactly the positions holding the target, each once, in increasing order. */
  lemma IndicesOfSpec(links: seq<Option<nat>>, target: nat, base: nat)
    ensures forall k :: 0 <= k < |IndicesOf(links, target, base)| ==>
      var v := IndicesOf(links, target, base)[k]; base <= v < base + |links| && links[v - base] == Some(target)
    ensures forall i :: 0 <= i < |links| && links[i] == Some(target) ==> base + i in IndicesOf(links, target, base)
    ensures forall a, b :: 0 <= a < b < |IndicesOf(links, target, base)| ==>
      IndicesOf(links, target, base)[a] < IndicesOf(links, target, base)[b]
  {
    IndicesOfSound(links, target, base);
    IndicesOfComplete(links, target, base);
  }

  /** Every listed position holds the target, and the list is increasing. */
  lemma {:induction false} IndicesOfSound(links: seq<Option<nat>>, target: nat, base: nat)
    ensures forall k :: 0 <= k < |IndicesOf(links, target, base)| ==>
      base <= IndicesOf(links, target, base)[k] < base + |links| &&
      links[IndicesOf(links, target, base)[k] - base] == Some(target)
    ensures forall a, b :: 0 <= a < b < |IndicesOf(links, target, base)| ==>
      IndicesOf(links, target, base)[a] < IndicesOf(links, target, base)[b]
  {
    if links != [] {
      var n := |links| - 1;
      var front := IndicesOf(links[..n], target, base);
      IndicesOfSound(links[..n], target, base);
      var r := IndicesOf(links, target, base);
      assert r == front + (if links[n] == Some(target) then [base + n] else []);
      forall k | 0 <= k < |r|
        ensures base <= r[k] < base + |links| && links[r[k] - base] == Some(target)
      {
        if k < |front| {
          assert r[k] == front[k];
          assert links[..n][front[k] - base] == links[front[k] - base];
        }
      }
    }
  }

  /** Every position holding the target is listed. */
  lemma {:induction false} IndicesOfComplete(links: seq<Option<nat>>, target: nat, base: nat)
    ensures forall i :: 0 <= i < |links| && links[i] == Some(target) ==> base + i in IndicesOf(links, target, base)
  {
    if links != [] {
      var n := |links| - 1;
      var front := IndicesOf(links[..n], target, base);
      IndicesOfComplete(links[..n], target, base);
      var r := IndicesOf(links, target, base);
      assert r == front + (if links[n] == Some(target) then [base + n] else []);
      forall i | 0 <= i < |links| && links[i] == Some(target)
        ensures base + i in r
      {
        if i < n {
          assert links[..n][i] == links[i];
          assert base + i in front;
        } else {
          assert r[|r| - 1] == base + n;
        }
      }
    }
  }

  /** Filtering a concatenation filters each part, the second one shifted by the length of the first. */
  lemma {:induction false} IndicesOfAppend(a: seq<Option<nat>>, b: seq<Option<nat>>, target: nat, base: nat)
    ensures IndicesOf(a + b, target, base) == IndicesOf(a, target, base) + IndicesOf(b, target, base + |a|)
    decreases |b|
  {
    if b == [] {
      assert a + b == a;
    } else {
      var n := |b| - 1;
      assert (a + b)[..|a + b| - 1] == a + b[..n];
      IndicesOfAppend(a, b[..n], target, base);
    }
  }

  lemma IndicesOfSingle(x: Option<nat>, target: nat, base: nat)
    ensures IndicesOf([x], target, base) == if x == Some(target) then [base] else []
  {
    assert [x][..0] == [];
  }

  /** The children lists before any record is linked. */
  function NoChildren(count: nat): (r: seq<seq<nat>>)
    ensures |r| == count && forall j :: 0 <= j < count ==> r[j] == []
  {
    seq(count, _ => [])
  }

  /** Children lists as the linking loop leaves them after the records before `i`. */
  function ChildrenAfter(recs: seq<Record>, root: nat, i: nat): (r: seq<seq<nat>>)
    requires root < |recs| && i <= |recs|
    ensures |r| == |recs|
  {
    seq(|recs|, j requires 0 <= j < |recs| => IndicesOf(Links(recs, root)[..i], j, 0))
  }

  /** The object graph parseScene returns for the records, or none (`undefined`) for no records. */
  function Reconstruction(recs: seq<Record>): (r: Option<Scene>)
    ensures r.None? <==> recs == []
    ensures r.Some? ==> r.value.records == recs && r.value.root < |recs| && |r.value.children| == |recs|
  {
    match RootIndex(recs)
    case None => if recs == [] then None else Some(Scene(recs, 0, NoChildren(|recs|)))
    case Some(root) => Some(Scene(recs, root, ChildrenAfter(recs, root, |recs|)))
  }

  /** The reconstruction loop of parseScene: find the root, then push every linked record into its parent. */
  method Reconstruct(recs: seq<Record>) returns (r: Option<Scene>)
    ensures r == Reconstruction(recs)
  {
    var rootIdx := RootIndex(recs);
    if rootIdx.None? && |recs| > 0 {
      // every record has a parent: the first one is returned before anything is linked
      return Some(Scene(recs, 0, NoChildren(|recs|)));
    }
    if rootIdx.None? {
      return None;
    }
    var root := rootIdx.value;
    var children := NoChildren(|recs|);
    var i := 0;
    while i < |recs|
      invariant i <= |recs| && |children| == |recs|
      invariant forall j :: 0 <= j < |recs| ==> children[j] == IndicesOf(Links(recs, root)[..i], j, 0)
    {
      assert Links(recs, root)[..i + 1][..i] == Links(recs, root)[..i];
      var n := recs[i];
      if n.parent.Some? {
        var parent := FindParent(recs, root, n.parent.value, 0);
        if parent.Some? {
          children := children[parent.value := children[parent.value] + [i]];
        }
      }
      i := i + 1;
    }
    assert children == ChildrenAfter(recs, root, |recs|);
    r := Some(Scene(recs, root, children));
  }

  /** Reference reading of the lookup: record `k` has a parent reference and `j` is the first record it matches. */
  predicate LinkedTo(recs: seq<Record>, root: nat, k: nat, j: nat)
    requires root < |recs| && k < |recs| && j < |recs|
  {
    && recs[k].parent.Some?
    && Matches(recs, root, recs[k].parent.value, j)
    && forall j' :: 0 <= j' < j ==> !Matches(recs, root, recs[k].parent.value, j')
  }

  /**
   * The returned node is the first record without a parent; when every record has one, it is
   * the first record, returned with no children at all.
   */
  lemma RootChoice(recs: seq<Record>)
    requires recs != []
    ensures var s := Reconstruction(recs).value;
      || (recs[s.root].parent.None? && forall i :: 0 <= i < s.root ==> recs[i].parent.Some?)
      || (&& s.root == 0
          && (forall i :: 0 <= i < |recs| ==> recs[i].parent.Some?)
          && (forall j :: 0 <= j < |recs| ==> s.children[j] == []))
  {
  }

  /**
   * Record `k` is in the children of record `j` exactly when a root was found and `j` is the
   * first record that `k`'s parent reference matches; every children list is in declaration
   * order and holds valid indices.
   */
  lemma ChildrenSpec(recs: seq<Record>)
    requires recs != []
    ensures var s := Reconstruction(recs).value;
      && (forall j, k :: 0 <= j < |recs| && 0 <= k < |recs| ==>
            (k in s.children[j] <==> RootIndex(recs).Some? && LinkedTo(recs, s.root, k, j)))
      && (forall j, a :: 0 <= j < |recs| && 0 <= a < |s.children[j]| ==> s.children[j][a] < |recs|)
      && (forall j, a, b :: 0 <= j < |recs| && 0 <= a < b < |s.children[j]| ==> s.children[j][a] < s.children[j][b])
  {
    var s := Reconstruction(recs).value;
    if RootIndex(recs).Some? {
      var root := s.root;
      var links := Links(recs, root);
      assert links[..|recs|] == links;
      forall j | 0 <= j < |recs|
        ensures forall k :: 0 <= k < |recs| ==> (k in s.children[j] <==> LinkedTo(recs, root, k, j))
        ensures forall a :: 0 <= a < |s.children[j]| ==> s.children[j][a] < |recs|
        ensures forall a, b :: 0 <= a < b < |s.children[j]| ==> s.children[j][a] < s.children[j][b]
      {
        assert s.children[j] == IndicesOf(links, j, 0);
        LinkedIndices(recs, root, j);
      }
    }
  }

  /** The positions linked to `j` are the records whose reference finds `j` first, in increasing order. */
  lemma LinkedIndices(recs: seq<Record>, root: nat, j: nat)
    requires root < |recs| && j < |recs|
    ensures forall k :: 0 <= k < |recs| ==> (k in IndicesOf(Links(recs, root), j, 0) <==> LinkedTo(recs, root, k, j))
    ensures forall a :: 0 <= a < |IndicesOf(Links(recs, root), j, 0)| ==> IndicesOf(Links(recs, root), j, 0)[a] < |recs|
    ensures forall a, b :: 0 <= a < b < |IndicesOf(Links(recs, root), j, 0)| ==>
      IndicesOf(Links(recs, root), j, 0)[a] < IndicesOf(Links(recs, root), j, 0)[b]
  {
    var links := Links(recs, root);
    var r := IndicesOf(links, j, 0);
    IndicesOfSpec(links, j, 0);
    forall k | 0 <= k < |recs|
      ensures k in r <==> LinkedTo(recs, root, k, j)
    {
      assert links[k] == Attach(recs, root, k);
      AttachIsLinked(recs, root, k, j);
      if k in r {
        var a :| 0 <= a < |r| && r[a] == k;
      }
    }
  }

  /** `Attach` agrees with the reference reading of the lookup. */
  lemma AttachIsLinked(recs: seq<Record>, root: nat, k: nat, j: nat)
    requires root < |recs| && k < |recs| && j < |recs|
    ensures Attach(recs, root, k) == Some(j) <==> LinkedTo(recs, root, k, j)
  {
    if recs[k].parent.Some? {
      FindParentFirst(recs, root, recs[k].parent.value, 0);
    }
  }

  /**
   * Records attached nowhere: a parentless record (such as any parentless record after the
   * root) and an orphan, whose reference matches no record, are in no children list.
   */
  lemma Detached(recs: seq<Record>, k: nat)
    requires recs != [] && k < |recs|
    requires var root := Reconstruction(recs).value.root;
      recs[k].parent.None? || forall j :: 0 <= j < |recs| ==> !Matches(recs, root, recs[k].parent.value, j)
    ensures forall j :: 0 <= j < |recs| ==> k !in Reconstruction(recs).value.children[j]
  {
    ChildrenSpec(recs);
  }

  /** Every record is pushed into at most one children list, and the returned node into none. */
  lemma SingleParent(recs: seq<Record>, k: nat, j1: nat, j2: nat)
    requires recs != [] && j1 < |recs| && j2 < |recs|
    requires var s := Reconstruction(recs).value; k in s.children[j1] && k in s.children[j2]
    ensures j1 == j2 && k != Reconstruction(recs).value.root
  {
    ChildrenSpec(recs);
    var a :| 0 <= a < |Reconstruction(recs).value.children[j1]| && Reconstruction(recs).value.children[j1][a] == k;
  }

  /**
   * A `"."` reference links to the first record carrying the root's name: the root itself, or a
   * namesake declared before it.
   */
  lemma DotParent(recs: seq<Record>, k: nat, j: nat)
    requires RootIndex(recs).Some? && k < |recs| && recs[k].parent == Some(".") && j < |recs|
    requires var root := Reconstruction(recs).value.root;
      recs[j].name == recs[root].name && forall j' :: 0 <= j' < j ==> recs[j'].name != recs[root].name
    ensures j <= Reconstruction(recs).value.root && k in Reconstruction(recs).value.children[j]
  {
    var s := Reconstruction(recs).value;
    assert TargetName(".", recs[s.root].name) == recs[s.root].name;
    assert Matches(recs, s.root, ".", j);
    forall j' | 0 <= j' < j
      ensures !Matches(recs, s.root, ".", j')
    {
    }
    ChildrenSpec(recs);
    assert LinkedTo(recs, s.root, k, j);
  }

  /** A chain of children links starting at the returned node. */
  predicate IsPath(s: Scene, p: seq<nat>) {
    && |p| > 0 && p[0] == s.root
    && forall m :: 0 <= m < |p| - 1 ==> p[m] < |s.children| && p[m + 1] in s.children[p[m]]
  }

  /** A non-empty prefix of a chain of children links is one. */
  lemma PathPrefix(s: Scene, p: seq<nat>, m: nat)
    requires IsPath(s, p) && 0 < m <= |p|
    ensures IsPath(s, p[..m])
  {
  }

  /**
   * The part reachable from the returned node is a tree: every reachable record is reached by
   * exactly one chain of children links.
   */
  lemma {:induction false} UniquePath(recs: seq<Record>, p: seq<nat>, q: seq<nat>)
    requires recs != []
    requires IsPath(Reconstruction(recs).value, p) && IsPath(Reconstruction(recs).value, q)
    requires p[|p| - 1] == q[|q| - 1]
    ensures p == q
    decreases |p|
  {
    var s := Reconstruction(recs).value;
    if |p| > 1 && |q| > 1 {
      var m, n := |p| - 1, |q| - 1;
      SingleParent(recs, p[m], p[m - 1], q[n - 1]);
      PathPrefix(s, p, m);
      PathPrefix(s, q, n);
      UniquePath(recs, p[..m], q[..n]);
      assert p == p[..m] + [p[m]] && q == q[..n] + [q[n]];
    } else if |p| > 1 {
      SingleParent(recs, p[|p| - 1], p[|p| - 2], p[|p| - 2]);
    } else if |q| > 1 {
      SingleParent(recs, q[|q| - 1], q[|q| - 2], q[|q| - 2]);
    }
  }

  /** No chain of children links from the returned node visits a record twice: there are no cycles to follow. */
  lemma PathsSimple(recs: seq<Record>, p: seq<nat>)
    requires recs != [] && IsPath(Reconstruction(recs).value, p)
    ensures forall a, b :: 0 <= a < b < |p| ==> p[a] != p[b]
  {
    var s := Reconstruction(recs).value;
    forall a, b | 0 <= a < b < |p|
      ensures p[a] != p[b]
    {
      if p[a] == p[b] {
        PathPrefix(s, p, a + 1);
        PathPrefix(s, p, b + 1);
        UniquePath(recs, p[..a + 1], p[..b + 1]);
        assert false;
      }
    }
  }

  /**
   * Three records where a `"."` reference misses the root: record 0, an orphan declared before
   * the root, carries the root's name.
   */
  const ShadowRecords := [
    Record("Main", "Node", Some("Gone"), []),
    Record("Main", "Node2D", None, []),
    Record("Child", "Sprite2D", Some("."), [])]

  lemma ShadowRoot()
    ensures RootIndex(ShadowRecords) == Some(1)
  {
    var recs := ShadowRecords;
    assert recs[0].parent.Some? && recs[1].parent.None?;
  }

  /** Record 0's reference "Gone" names no record. */
  lemma ShadowOrphan()
    ensures Attach(ShadowRecords, 1, 0) == None
  {
    var recs := ShadowRecords;
    assert LastSegment("Gone") == "Gone";
    forall j | 0 <= j < 3
      ensures !Matches(recs, 1, "Gone", j)
    {
    }
  }

  /** Record 2's reference "." finds record 0 first, because it carries the root's name. */
  lemma ShadowDot()
    ensures Attach(ShadowRecords, 1, 2) == Some(0)
  {
    var recs := ShadowRecords;
    assert recs[2].parent.value == ".";
    assert Matches(recs, 1, ".", 0);
    AttachAt(recs, 1, 2, 0);
  }

  lemma ShadowLinks()
    ensures Links(ShadowRecords, 1) == [None, None, Some(0)]
  {
    LinksOfThree(ShadowRecords, 1);
    ShadowOrphan();
    ShadowDot();
    ShadowRootless();
  }

  lemma ShadowRootless()
    ensures Attach(ShadowRecords, 1, 1) == None
  {
    assert ShadowRecords[1].parent == None;
  }

  lemma LinksOfThree(recs: seq<Record>, root: nat)
    requires |recs| == 3 && root < 3
    ensures Links(recs, root) == [Attach(recs, root, 0), Attach(recs, root, 1), Attach(recs, root, 2)]
  {
  }

  lemma ShadowChildren()
    ensures ChildrenAfter(ShadowRecords, 1, 3) == [[2], [], []]
  {
    ShadowLinks();
    ChildrenOfLinks(ShadowRecords, 1);
  }

  /** Three records linked as in the example: only record 2 is pushed, into record 0. */
  lemma ChildrenOfLinks(recs: seq<Record>, root: nat)
    requires |recs| == 3 && root < 3 && Links(recs, root) == [None, None, Some(0)]
    ensures ChildrenAfter(recs, root, 3) == [[2], [], []]
  {
    ChildEntries(recs, root);
    ShadowIndices(0);
    ShadowIndices(1);
    ShadowIndices(2);
    ThreeLists(ChildrenAfter(recs, root, 3));
  }

  lemma ThreeLists(ch: seq<seq<nat>>)
    requires |ch| == 3 && ch[0] == [2] && ch[1] == [] && ch[2] == []
    ensures ch == [[2], [], []]
  {
  }

  /** With all three records linked, each children list filters the whole of `Links`. */
  lemma ChildEntries(recs: seq<Record>, root: nat)
    requires |recs| == 3 && root < 3
    ensures forall j :: 0 <= j < 3 ==> ChildrenAfter(recs, root, 3)[j] == IndicesOf(Links(recs, root), j, 0)
  {
    var links := Links(recs, root);
    assert links[..3] == links;
  }

  lemma ShadowIndices(t: nat)
    ensures IndicesOf([None, None, Some(0)], t, 0) == if t == 0 then [2] else []
  {
    assert [None, None, Some(0)] == [None] + [None] + [Some(0)];
    IndicesOfAppend([None] + [None], [Some(0)], t, 0);
    IndicesOfAppend([None], [None], t, 0);
    IndicesOfSingle(None, t, 0);
    IndicesOfSingle(None, t, 1);
    IndicesOfSingle(Some(0), t, 2);
  }

  /** In that scene the `"."` child is pushed into record 0 instead of into the root. */
  lemma DotShadowedExample()
    ensures Reconstruction(ShadowRecords).value.root == 1
    ensures Reconstruction(ShadowRecords).value.children == [[2], [], []]
  {
    ShadowRoot();
    ShadowChildren();
  }

  /**
   * Of two records carrying the name a reference looks for, only the one declared first can
   * receive the referring record: the later namesake never does, whatever the order of the
   * declarations around them.
   */
  lemma FirstNamesakeWins(recs: seq<Record>, k: nat, j1: nat, j2: nat)
    requires RootIndex(recs).Some? && k < |recs| && j1 < j2 < |recs|
    requires recs[k].parent.Some? && recs[k].parent.value != "."
    requires recs[j1].name == recs[j2].name == LastSegment(recs[k].parent.value)
    ensures var s := Reconstruction(recs).value;
      k !in s.children[j2] && exists j :: 0 <= j <= j1 && k in s.children[j]
  {
    var s := Reconstruction(recs).value;
    var j := FirstNamesakeLinked(recs, s.root, k, j1, j2);
    ChildrenSpec(recs);
  }

  /** The lookup behind `FirstNamesakeWins`, for any root. */
  lemma FirstNamesakeLinked(recs: seq<Record>, root: nat, k: nat, j1: nat, j2: nat) returns (j: nat)
    requires root < |recs| && k < |recs| && j1 < j2 < |recs|
    requires recs[k].parent.Some? && recs[k].parent.value != "."
    requires recs[j1].name == recs[j2].name == LastSegment(recs[k].parent.value)
    ensures j <= j1 && LinkedTo(recs, root, k, j) && !LinkedTo(recs, root, k, j2)
  {
    var p := recs[k].parent.value;
    assert Matches(recs, root, p, j1);
    var found := FindParent(recs, root, p, 0);
    FindParentFirst(recs, root, p, 0);
    j := found.value;
  }
}
