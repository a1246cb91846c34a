/**
 * parseScene(serializeScene(t)) gives back `t`: the node returned has `t`'s name, type and
 * properties, and its children arrays hold, in order, nodes that give back `t`'s children.
 * This holds when names, types, keys and values survive their lines and names are unique
 * and free of '/', because the parser finds parents by name.
 */
module RoundTrip {
  import opened Options
  import opened JsString
  import opened SceneModel
  import opened SceneReconstruct
  import opened SceneParser
  import opened SceneSerializer
  import opened LineRoundTrip
  import opened TreeLayout
  import opened ReadBack

  /** A node whose header and property lines read back, and whose name is one path segment. */
  predicate NodeSafe(n: SceneNode) {
    AttrSafe(n.name) && '/' !in n.name && AttrSafe(n.kind) && PropsSafe(n.props)
  }

  /** Every node of the tree is safe, and no two nodes share a name. */
  predicate WellFormed(t: SceneNode) {
    var F := Flat(t, None);
    && (forall i :: 0 <= i < |F| ==> NodeSafe(F[i].node))
    && (forall i, j :: 0 <= i < j < |F| ==> F[i].node.name != F[j].node.name)
  }

  /**
   * Node `i` of a parsed scene stands for `t`: same name, type and properties, and its
   * children, in push order, stand for `t`'s children.
   */
  predicate Represents(s: Scene, i: nat, t: SceneNode)
    decreases t
  {
    && i < |s.records| && i < |s.children|
    && s.records[i].name == t.name && s.records[i].kind == t.kind && s.records[i].props == t.props
    && |s.children[i]| == |t.children|
    && forall k :: 0 <= k < |t.children| ==> Represents(s, s.children[i][k], t.children[k])
  }

  /** The parent paths serializeScene writes are themselves safe attribute values. */
  lemma {:induction false} PathSafe(t: SceneNode, i: nat)
    requires WellFormed(t) && i < Size(t)
    ensures Truthy(Flat(t, None)[i].parentPath) ==> AttrSafe(Flat(t, None)[i].parentPath.value)
    decreases i
  {
    var F := Flat(t, None);
    if i > 0 {
      PathLayout(t, 0, None, None);
      var v := Parents(t, 0, None)[i].value;
      PathSafe(t, v);
      assert NodeSafe(F[v].node);
      if Truthy(F[v].parentPath) {
        var q := F[v].parentPath.value;
        var n := F[v].node.name;
        assert F[i].parentPath == Some(q + "/" + n);
        assert '"' !in q + "/" + n && '=' !in q + "/" + n && '\n' !in q + "/" + n;
      }
    }
  }

  lemma EntriesSafe(t: SceneNode)
    requires WellFormed(t)
    ensures forall i :: 0 <= i < Size(t) ==> EntrySafe(Flat(t, None)[i])
  {
    forall i | 0 <= i < Size(t)
      ensures EntrySafe(Flat(t, None)[i])
    {
      PathSafe(t, i);
    }
  }

  /**
   * parseScene links the record of every entry to the record of the entry it was written
   * under: "." finds the root, and the last segment of any longer path names the parent.
   */
  lemma AttachFollowsLayout(t: SceneNode, i: nat)
    requires WellFormed(t) && i < Size(t)
    ensures Attach(RecordsOf(Flat(t, None)), 0, i) == Parents(t, 0, None)[i]
  {
    var F := Flat(t, None);
    var R := RecordsOf(F);
    var P := Parents(t, 0, None);
    assert R[i] == RecordOf(F[i]);
    if i > 0 {
      PathLayout(t, 0, None, None);
      var v := P[i].value;
      assert F[i].parentPath == ChildPath(F[v].parentPath, F[v].node.name);
      var path := F[i].parentPath.value;
      assert R[i].parent == Some(path);
      if v == 0 {
        assert path == ".";
        assert Matches(R, 0, path, 0);
      } else {
        assert F[v].parentPath == ChildPath(F[P[v].value].parentPath, F[P[v].value].node.name);
        var name := F[v].node.name;
        assert path == F[v].parentPath.value + "/" + name;
        assert path[|path| - |name| - 1] == '/';
        LastSegmentAfterSlash(F[v].parentPath.value, name);
        assert R[v] == RecordOf(F[v]);
        assert Matches(R, 0, path, v);
        forall j | 0 <= j < v
          ensures !Matches(R, 0, path, j)
        {
          assert R[j] == RecordOf(F[j]);
        }
      }
      AttachAt(R, 0, i, v);
    }
  }

  lemma LinksFollowLayout(t: SceneNode)
    requires WellFormed(t)
    ensures Links(RecordsOf(Flat(t, None)), 0) == Parents(t, 0, None)
  {
    forall i | 0 <= i < Size(t)
      ensures Links(RecordsOf(Flat(t, None)), 0)[i] == Parents(t, 0, None)[i]
    {
      AttachFollowsLayout(t, i);
    }
  }

  /**
   * A stretch of `s` from `lo` on that is laid out as a top `w` followed by the blocks `a`, `b`
   * and `c`: where each piece sits in `s`.
   */
  lemma Pieces<T>(s: seq<T>, lo: nat, hi: nat, w: T, rest: seq<T>, a: seq<T>, b: seq<T>, c: seq<T>)
    requires lo <= hi <= |s| && s[lo..hi] == [w] + rest && rest == a + b + c
    ensures hi == lo + 1 + |a| + |b| + |c| && s[lo] == w
    ensures forall m :: 0 <= m < |a| ==> s[lo + 1 + m] == a[m]
    ensures s[lo + 1 + |a|..lo + 1 + |a| + |b|] == b
    ensures forall m :: 0 <= m < |c| ==> s[lo + 1 + |a| + |b| + m] == c[m]
  {
    assert forall m :: 0 <= m < |b| ==> s[lo + 1 + |a| + m] == s[lo..hi][1 + |a| + m] == b[m];
  }

  /** A sequence cut at two positions. */
  lemma ThreeParts<T>(s: seq<T>, a: nat, b: nat)
    requires a <= b <= |s|
    ensures s == s[..a] + s[a..b] + s[b..]
  {
  }

  /** In the layout of `t` placed at `o`, the entries under `o` are the tops of its children's blocks. */
  lemma BlockRoots(t: SceneNode, o: nat, p: Option<nat>)
    requires p.Some? ==> p.value < o
    ensures IndicesOf(Parents(t, o, p), o, o) == Offsets(t.children, o + 1)
  {
    IndicesOfAppend([p], ParentsForest(t.children, o + 1, o), o, o);
    IndicesOfSingle(p, o, o);
    ForestRoots(t.children, o + 1, o);
  }

  /** Entries that cannot hold the target add no positions after `front`. */
  lemma IndicesOfTail(front: seq<Option<nat>>, post: seq<Option<nat>>, target: nat)
    requires forall i :: 0 <= i < |post| ==> post[i] != Some(target)
    ensures IndicesOf(front + post, target, 0) == IndicesOf(front, target, 0)
  {
    IndicesOfAbsent(post, target, |front|);
    IndicesOfAppend(front, post, target, 0);
  }

  /** Entries that cannot hold the target add no positions before `mid`, and shift those of `mid`. */
  lemma IndicesOfHead(pre: seq<Option<nat>>, mid: seq<Option<nat>>, target: nat)
    requires forall i :: 0 <= i < |pre| ==> pre[i] != Some(target)
    ensures IndicesOf(pre + mid, target, 0) == IndicesOf(mid, target, |pre|)
  {
    IndicesOfAbsent(pre, target, 0);
    IndicesOfAppend(pre, mid, target, 0);
    var base := 0 + |pre|;
    calc {
      IndicesOf(pre + mid, target, 0);
      IndicesOf(pre, target, 0) + IndicesOf(mid, target, base);
      [] + IndicesOf(mid, target, base);
      IndicesOf(mid, target, |pre|);
    }
  }

  /** Within the block of `t`, the entries linked to its top are exactly the tops of its children's blocks. */
  lemma ChildrenOfBlock(links: seq<Option<nat>>, t: SceneNode, o: nat, p: Option<nat>)
    requires o + Size(t) <= |links|
    requires links[o..o + Size(t)] == Parents(t, o, p)
    requires p.Some? ==> p.value < o
    requires forall i :: 0 <= i < |links| && !(o <= i < o + Size(t)) && links[i].Some? ==>
      !(o <= links[i].value < o + Size(t))
    ensures IndicesOf(links, o, 0) == Offsets(t.children, o + 1)
  {
    var e := o + Size(t);
    var pre, mid, post := links[..o], links[o..e], links[e..];
    ThreeParts(links, o, e);
    forall i | 0 <= i < |pre|
      ensures pre[i] != Some(o)
    {
      assert pre[i] == links[i];
    }
    forall i | 0 <= i < |post|
      ensures post[i] != Some(o)
    {
      assert post[i] == links[e + i];
    }
    IndicesOfTail(pre + mid, post, o);
    IndicesOfHead(pre, mid, o);
    BlockRoots(t, o, p);
  }

  /**
   * The layout of `t` cut around its `k`-th child: the top, the blocks of the earlier children,
   * the `k`-th child's block and the blocks of the later children.
   */
  lemma ChildCut(t: SceneNode, o: nat, p: Option<nat>, k: nat, ok: nat)
      returns (rest: seq<Option<nat>>, pa: seq<Option<nat>>, pb: seq<Option<nat>>, pc: seq<Option<nat>>)
    requires k < |t.children| && ok == Offsets(t.children, o + 1)[k]
    ensures Parents(t, o, p) == [p] + rest && rest == pa + pb + pc
    ensures ok == o + 1 + |pa| && pb == Parents(t.children[k], ok, Some(o))
    ensures pa == ParentsForest(t.children[..k], o + 1, o)
    ensures pc == ParentsForest(t.children[k + 1..], ok + Size(t.children[k]), o)
  {
    var cs := t.children;
    var b := o + 1;
    var oc := ok + Size(cs[k]);
    rest, pa := ParentsForest(cs, b, o), ParentsForest(cs[..k], b, o);
    pb, pc := Parents(cs[k], ok, Some(o)), ParentsForest(cs[k + 1..], oc, o);
    ForestSplit(cs, k, b, o, ok, oc);
  }

  /** The same cut inside `links`, where the earlier and later children link nowhere into the `k`-th. */
  lemma ChildPieces(links: seq<Option<nat>>, t: SceneNode, o: nat, p: Option<nat>, k: nat, ok: nat)
      returns (rest: seq<Option<nat>>, pa: seq<Option<nat>>, pb: seq<Option<nat>>, pc: seq<Option<nat>>)
    requires o + Size(t) <= |links|
    requires links[o..o + Size(t)] == Parents(t, o, p)
    requires k < |t.children| && ok == Offsets(t.children, o + 1)[k]
    ensures links[o..o + Size(t)] == [p] + rest && rest == pa + pb + pc
    ensures ok == o + 1 + |pa| && pb == Parents(t.children[k], ok, Some(o))
    ensures Avoids(pa, ok, ok + |pb|) && Avoids(pc, ok, ok + |pb|)
  {
    rest, pa, pb, pc := ChildCut(t, o, p, k, ok);
    ForestAvoids(t.children[..k], o + 1, o, ok, ok + |pb|);
    ForestAvoids(t.children[k + 1..], ok + Size(t.children[k]), o, ok, ok + |pb|);
  }

  /** The `k`-th child's block sits inside its parent's block. */
  lemma ChildLinks(links: seq<Option<nat>>, t: SceneNode, o: nat, p: Option<nat>, k: nat, ok: nat)
    requires o + Size(t) <= |links|
    requires links[o..o + Size(t)] == Parents(t, o, p)
    requires k < |t.children| && ok == Offsets(t.children, o + 1)[k]
    ensures o < ok && ok + Size(t.children[k]) <= o + Size(t)
    ensures links[ok..ok + Size(t.children[k])] == Parents(t.children[k], ok, Some(o))
  {
    var rest, pa, pb, pc := ChildPieces(links, t, o, p, k, ok);
    Pieces(links, o, o + Size(t), p, rest, pa, pb, pc);
  }

  /** No entry of `links` is linked into the positions `lo` to `hi`. */
  predicate Avoids(links: seq<Option<nat>>, lo: nat, hi: nat) {
    forall i :: 0 <= i < |links| && links[i].Some? ==> !(lo <= links[i].value < hi)
  }

  /** The entries of a run of siblings placed at `b` under `x` avoid any range that misses both. */
  lemma ForestAvoids(cs: seq<SceneNode>, b: nat, x: nat, lo: nat, hi: nat)
    requires !(lo <= x < hi) && (b + SizeForest(cs) <= lo || hi <= b)
    ensures Avoids(ParentsForest(cs, b, x), lo, hi)
  {
    ParentsForestRange(cs, b, x);
  }

  /**
   * A stretch laid out as a top linked to `p`, then blocks `a`, `b` and `c`, sealed from outside:
   * when `p`, `a` and `c` avoid `b`'s positions, so does everything outside `b`.
   */
  lemma SealedMiddle(links: seq<Option<nat>>, lo: nat, hi: nat, p: Option<nat>, rest: seq<Option<nat>>,
                     a: seq<Option<nat>>, b: seq<Option<nat>>, c: seq<Option<nat>>, start: nat)
    requires lo <= hi <= |links| && links[lo..hi] == [p] + rest && rest == a + b + c
    requires start == lo + 1 + |a|
    requires forall i :: 0 <= i < |links| && !(lo <= i < hi) && links[i].Some? ==> !(lo <= links[i].value < hi)
    requires p.Some? ==> p.value < lo
    requires Avoids(a, start, start + |b|) && Avoids(c, start, start + |b|)
    ensures forall i :: 0 <= i < |links| && !(start <= i < start + |b|) && links[i].Some? ==>
      !(start <= links[i].value < start + |b|)
  {
    Pieces(links, lo, hi, p, rest, a, b, c);
    forall i | 0 <= i < |links| && !(start <= i < start + |b|) && links[i].Some?
      ensures !(start <= links[i].value < start + |b|)
    {
      if lo < i < start {
        assert links[i] == a[i - lo - 1];
      } else if start + |b| <= i < hi {
        assert links[i] == c[i - start - |b|];
      }
    }
  }

  /** Nothing outside the `k`-th child's block is linked into it. */
  lemma ChildSealed(links: seq<Option<nat>>, t: SceneNode, o: nat, p: Option<nat>, k: nat, ok: nat)
    requires o + Size(t) <= |links|
    requires links[o..o + Size(t)] == Parents(t, o, p)
    requires p.Some? ==> p.value < o
    requires forall i :: 0 <= i < |links| && !(o <= i < o + Size(t)) && links[i].Some? ==>
      !(o <= links[i].value < o + Size(t))
    requires k < |t.children| && ok == Offsets(t.children, o + 1)[k]
    ensures forall i :: 0 <= i < |links| && !(ok <= i < ok + Size(t.children[k])) && links[i].Some? ==>
      !(ok <= links[i].value < ok + Size(t.children[k]))
  {
    var rest, pa, pb, pc := ChildPieces(links, t, o, p, k, ok);
    SealedMiddle(links, o, o + Size(t), p, rest, pa, pb, pc, ok);
  }

  /** Records laid out as a pre-order hold, at a sub-block of it, that sub-block's records. */
  lemma RecordsSlice(records: seq<Record>, o: nat, F: seq<FlatNode>, j: nat, G: seq<FlatNode>)
    requires o + |F| <= |records| && records[o..o + |F|] == RecordsOf(F)
    requires j + |G| <= |F| && F[j..j + |G|] == G
    ensures records[o + j..o + j + |G|] == RecordsOf(G)
  {
    forall m | 0 <= m < |G|
      ensures records[o + j + m] == RecordOf(G[m])
    {
      assert records[o + j + m] == records[o..o + |F|][j + m];
      assert F[j + m] == F[j..j + |G|][m];
    }
  }

  /** The pre-order of `t` cut around its `k`-th child, as `ChildCut` cuts the layout. */
  lemma ChildFlatCut(t: SceneNode, path: Option<string>, k: nat)
      returns (rest: seq<FlatNode>, fa: seq<FlatNode>, fb: seq<FlatNode>, fc: seq<FlatNode>)
    requires k < |t.children|
    ensures Flat(t, path)[0..Size(t)] == [FlatNode(t, path)] + rest && rest == fa + fb + fc
    ensures |fa| == SizeForest(t.children[..k]) && fb == Flat(t.children[k], ChildPath(path, t.name))
  {
    var cs := t.children;
    var cp := ChildPath(path, t.name);
    rest, fa, fb, fc := FlatForest(cs, cp), FlatForest(cs[..k], cp), Flat(cs[k], cp), FlatForest(cs[k + 1..], cp);
    FlatForestSplit(cs, k, cp);
    assert Flat(t, path)[0..Size(t)] == Flat(t, path);
  }

  /** The records of the `k`-th child's block are those of the child's own pre-order. */
  lemma ChildRecords(records: seq<Record>, t: SceneNode, o: nat, path: Option<string>, k: nat, ok: nat)
    requires o + Size(t) <= |records|
    requires records[o..o + Size(t)] == RecordsOf(Flat(t, path))
    requires k < |t.children| && ok == Offsets(t.children, o + 1)[k]
    ensures ok + Size(t.children[k]) <= o + Size(t)
    ensures records[ok..ok + Size(t.children[k])] == RecordsOf(Flat(t.children[k], ChildPath(path, t.name)))
  {
    var F := Flat(t, path);
    var rest, fa, fb, fc := ChildFlatCut(t, path, k);
    Pieces(F, 0, Size(t), FlatNode(t, path), rest, fa, fb, fc);
    assert ok == o + 1 + |fa|;
    RecordsSlice(records, o, F, 1 + |fa|, fb);
  }

  /**
   * A block of consecutive records laid out as the pre-order of `t`, linked as `t`'s layout says
   * and linked to from nowhere outside, stands for `t`.
   */
  lemma {:induction false} RepresentsBlock(s: Scene, links: seq<Option<nat>>, t: SceneNode, o: nat, p: Option<nat>, path: Option<string>)
    requires |s.records| == |links| == |s.children|
    requires forall j :: 0 <= j < |links| ==> s.children[j] == IndicesOf(links, j, 0)
    requires o + Size(t) <= |links|
    requires links[o..o + Size(t)] == Parents(t, o, p)
    requires s.records[o..o + Size(t)] == RecordsOf(Flat(t, path))
    requires p.Some? ==> p.value < o
    requires forall i :: 0 <= i < |links| && !(o <= i < o + Size(t)) && links[i].Some? ==>
      !(o <= links[i].value < o + Size(t))
    ensures Represents(s, o, t)
    decreases t
  {
    assert s.records[o] == s.records[o..o + Size(t)][0];
    ChildrenOfBlock(links, t, o, p);
    var offsets := Offsets(t.children, o + 1);
    forall k | 0 <= k < |t.children|
      ensures Represents(s, s.children[o][k], t.children[k])
    {
      ChildLinks(links, t, o, p, k, offsets[k]);
      ChildSealed(links, t, o, p, k, offsets[k]);
      ChildRecords(s.records, t, o, path, k, offsets[k]);
      RepresentsBlock(s, links, t.children[k], offsets[k], Some(o), ChildPath(path, t.name));
    }
  }

  /**
   * The round trip: for a well-formed tree, parseScene(serializeScene(t)) returns a scene whose
   * root is the first record and stands for `t`.
   */
  lemma ParseSerialized(t: SceneNode)
    requires WellFormed(t)
    ensures Parse(SceneText(t)).Some?
    ensures Parse(SceneText(t)).value.root == 0
    ensures Represents(Parse(SceneText(t)).value, 0, t)
  {
    var F := Flat(t, None);
    var R := RecordsOf(F);
    EntriesSafe(t);
    ReadSerialized(t);
    assert RootIndex(R) == Some(0);
    var s := Reconstruction(R).value;
    var links := Parents(t, 0, None);
    LinksFollowLayout(t);
    assert links[..|R|] == links;
    assert links[0..Size(t)] == links;
    assert s.records[0..Size(t)] == R;
    RepresentsBlock(s, links, t, 0, None, None);
  }
}
