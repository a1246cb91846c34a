/**
 * How serializeScene's pre-order lays a tree out: for every entry, the position of the entry
 * its node hangs under, and the parent path it carries as a consequence.
 */
module TreeLayout {
  import opened Options
  import opened SceneModel
  import opened SceneSerializer
  import opened SceneReconstruct

  /**
   * For the pre-order of `t` placed at position `o`: the position of each entry's parent, with
   * `p` for `t` itself.
   */
  function Parents(t: SceneNode, o: nat, p: Option<nat>): (r: seq<Option<nat>>)
    ensures |r| == Size(t) && r[0] == p
    decreases t
  {
    [p] + ParentsForest(t.children, o + 1, o)
  }

  /** The same for a run of sibling trees placed from position `b` on, all hanging under `x`. */
  function ParentsForest(cs: seq<SceneNode>, b: nat, x: nat): (r: seq<Option<nat>>)
    ensures |r| == SizeForest(cs)
    decreases cs
  {
    if cs == [] then []
    else
      var n := |cs| - 1;
      ParentsForest(cs[..n], b, x) + Parents(cs[n], b + SizeForest(cs[..n]), Some(x))
  }

  /** Every entry but the first hangs under an earlier entry of the same subtree. */
  lemma {:induction false} ParentsRange(t: SceneNode, o: nat, p: Option<nat>)
    ensures forall i :: 0 < i < Size(t) ==>
      Parents(t, o, p)[i].Some? && o <= Parents(t, o, p)[i].value < o + i
    decreases t, 1
  {
    var pf := ParentsForest(t.children, o + 1, o);
    ParentsForestRange(t.children, o + 1, o);
    assert forall i :: 0 < i < Size(t) ==> Parents(t, o, p)[i] == pf[i - 1];
  }

  /** Every entry of a run of siblings hangs under `x` or under an earlier entry of the run. */
  lemma {:induction false} ParentsForestRange(cs: seq<SceneNode>, b: nat, x: nat)
    ensures forall i :: 0 <= i < SizeForest(cs) ==>
      var q := ParentsForest(cs, b, x)[i];
      q == Some(x) || (q.Some? && b <= q.value < b + i)
    decreases cs, 0
  {
    if cs != [] {
      var n := |cs| - 1;
      var s := SizeForest(cs[..n]);
      var front := ParentsForest(cs[..n], b, x);
      var last := Parents(cs[n], b + s, Some(x));
      ParentsForestRange(cs[..n], b, x);
      ParentsRange(cs[n], b + s, Some(x));
      var r := ParentsForest(cs, b, x);
      assert r == front + last;
      forall i | 0 <= i < SizeForest(cs)
        ensures r[i] == Some(x) || (r[i].Some? && b <= r[i].value < b + i)
      {
        if i < s {
          assert r[i] == front[i];
        } else {
          assert r[i] == last[i - s];
        }
      }
    }
  }

  /**
   * The entry at `i` of the pre-order of `t` carries the path `traverse` computes from the entry
   * it hangs under: that entry's own path followed by that entry's name.
   */
  lemma {:induction false} PathLayout(t: SceneNode, o: nat, p: Option<nat>, path: Option<string>)
    ensures forall i :: 0 < i < Size(t) ==>
      Parents(t, o, p)[i].Some? && o <= Parents(t, o, p)[i].value < o + i &&
      Flat(t, path)[i].parentPath ==
        ChildPath(Flat(t, path)[Parents(t, o, p)[i].value - o].parentPath, Flat(t, path)[Parents(t, o, p)[i].value - o].node.name)
    decreases t, 1
  {
    var cp := ChildPath(path, t.name);
    var pf := ParentsForest(t.children, o + 1, o);
    var ff := FlatForest(t.children, cp);
    ParentsRange(t, o, p);
    PathForestLayout(t.children, o + 1, o, cp);
    var P, F := Parents(t, o, p), Flat(t, path);
    assert F == [FlatNode(t, path)] + ff;
    forall i | 0 < i < Size(t)
      ensures P[i].Some? && var v := P[i].value - o;
        0 <= v < i && F[i].parentPath == ChildPath(F[v].parentPath, F[v].node.name)
    {
      assert P[i] == pf[i - 1] && F[i] == ff[i - 1];
      assert HangsRight(pf, ff, o + 1, o, cp, i - 1);
      var v := P[i].value - o;
      if v > 0 {
        assert F[v] == ff[v - 1];
      }
    }
  }

  /** The same for a run of siblings reached by `path`: entries hanging under `x` carry `path` itself. */
  lemma {:induction false} PathForestLayout(cs: seq<SceneNode>, b: nat, x: nat, path: Option<string>)
    requires x < b
    ensures forall i :: 0 <= i < SizeForest(cs) ==> HangsRight(ParentsForest(cs, b, x), FlatForest(cs, path), b, x, path, i)
    decreases cs, 0
  {
    if cs != [] {
      var n := |cs| - 1;
      var s := SizeForest(cs[..n]);
      var front := ParentsForest(cs[..n], b, x);
      var ffront := FlatForest(cs[..n], path);
      var last := Parents(cs[n], b + s, Some(x));
      var flast := Flat(cs[n], path);
      PathForestLayout(cs[..n], b, x, path);
      PathLayout(cs[n], b + s, Some(x), path);
      ParentsForestRange(cs[..n], b, x);
      var r, F := ParentsForest(cs, b, x), FlatForest(cs, path);
      assert r == front + last && F == ffront + flast;
      forall i | 0 <= i < SizeForest(cs)
        ensures HangsRight(r, F, b, x, path, i)
      {
        if i < s {
          FrontHangs(r, F, front, ffront, last, flast, b, x, path, i);
        } else if i == s {
          assert r[i] == last[0] && F[i] == flast[0];
        } else {
          BackHangs(r, F, front, ffront, last, flast, b + s, x, path, i - s);
        }
      }
    }
  }

  /**
   * Entry `i` of a layout `r` with pre-order `F` placed from `b` on: it hangs under `x` and
   * carries `path`, or it hangs under an earlier entry and carries that entry's child path.
   */
  predicate HangsRight(r: seq<Option<nat>>, F: seq<FlatNode>, b: nat, x: nat, path: Option<string>, i: nat)
    requires i < |r| == |F|
  {
    r[i].Some? &&
    (if r[i].value == x then F[i].parentPath == path
     else b <= r[i].value < b + i && F[i].parentPath == ChildPath(F[r[i].value - b].parentPath, F[r[i].value - b].node.name))
  }

  /** An entry of the first siblings keeps its place after more siblings follow. */
  lemma FrontHangs(r: seq<Option<nat>>, F: seq<FlatNode>, front: seq<Option<nat>>, ffront: seq<FlatNode>,
                   last: seq<Option<nat>>, flast: seq<FlatNode>, b: nat, x: nat, path: Option<string>, i: nat)
    requires r == front + last && F == ffront + flast && |front| == |ffront| && |last| == |flast|
    requires i < |front| && HangsRight(front, ffront, b, x, path, i)
    ensures HangsRight(r, F, b, x, path, i)
  {
    assert r[i] == front[i] && F[i] == ffront[i];
    if r[i].value != x {
      assert F[r[i].value - b] == ffront[r[i].value - b];
    }
  }

  /** An entry below the top of the last sibling, which is placed at `o`, hangs inside that sibling. */
  lemma BackHangs(r: seq<Option<nat>>, F: seq<FlatNode>, front: seq<Option<nat>>, ffront: seq<FlatNode>,
                  last: seq<Option<nat>>, flast: seq<FlatNode>, o: nat, x: nat, path: Option<string>, j: nat)
    requires r == front + last && F == ffront + flast && |front| == |ffront| && |last| == |flast|
    requires 0 < j < |last| && x < o - |front| && o >= |front|
    requires last[j].Some? && o <= last[j].value < o + j
    requires flast[j].parentPath == ChildPath(flast[last[j].value - o].parentPath, flast[last[j].value - o].node.name)
    ensures HangsRight(r, F, o - |front|, x, path, |front| + j)
  {
    var i := |front| + j;
    assert r[i] == last[j] && F[i] == flast[j];
    var w := last[j].value - o;
    assert F[|front| + w] == flast[w];
  }

  lemma {:induction false} SizeForestAppend(a: seq<SceneNode>, c: seq<SceneNode>)
    ensures SizeForest(a + c) == SizeForest(a) + SizeForest(c)
    decreases |c|
  {
    if c != [] {
      var n := |c| - 1;
      assert (a + c)[..|a + c| - 1] == a + c[..n] && (a + c)[|a + c| - 1] == c[n];
      SizeForestAppend(a, c[..n]);
    } else {
      assert a + c == a;
    }
  }

  lemma {:induction false} ParentsForestAppend(a: seq<SceneNode>, c: seq<SceneNode>, b: nat, x: nat)
    ensures ParentsForest(a + c, b, x) == ParentsForest(a, b, x) + ParentsForest(c, b + SizeForest(a), x)
    decreases |c|
  {
    if c != [] {
      var n := |c| - 1;
      var init := c[..n];
      var b2 := b + SizeForest(a);
      assert (a + c)[..|a + c| - 1] == a + init && (a + c)[|a + c| - 1] == c[n];
      SizeForestAppend(a, init);
      var last := Parents(c[n], b2 + SizeForest(init), Some(x));
      assert ParentsForest(a + c, b, x) == ParentsForest(a + init, b, x) + last;
      assert ParentsForest(c, b2, x) == ParentsForest(init, b2, x) + last;
      ParentsForestAppend(a, init, b, x);
      Rejoin(ParentsForest(a + c, b, x), ParentsForest(a + init, b, x), ParentsForest(a, b, x),
             ParentsForest(init, b2, x), ParentsForest(c, b2, x), last);
    } else {
      assert a + c == a;
    }
  }

  lemma {:induction false} FlatForestAppend(a: seq<SceneNode>, c: seq<SceneNode>, path: Option<string>)
    ensures FlatForest(a + c, path) == FlatForest(a, path) + FlatForest(c, path)
    decreases |c|
  {
    if c != [] {
      var n := |c| - 1;
      var init := c[..n];
      assert (a + c)[..|a + c| - 1] == a + init && (a + c)[|a + c| - 1] == c[n];
      assert FlatForest(a + c, path) == FlatForest(a + init, path) + Flat(c[n], path);
      assert FlatForest(c, path) == FlatForest(init, path) + Flat(c[n], path);
      FlatForestAppend(a, init, path);
      Regroup(FlatForest(a, path), FlatForest(init, path), Flat(c[n], path));
    } else {
      assert a + c == a;
    }
  }

  /** A run that is `a` and `ci` followed by `last` is `a` followed by the run `ci` then `last`. */
  lemma Rejoin<T>(whole: seq<T>, front: seq<T>, a: seq<T>, ci: seq<T>, c: seq<T>, last: seq<T>)
    requires whole == front + last && front == a + ci && c == ci + last
    ensures whole == a + c
  {
  }

  /** Concatenation regrouped. */
  lemma Regroup<T>(p: seq<T>, q: seq<T>, r: seq<T>)
    ensures (p + q) + r == p + (q + r)
  {
  }

  /** The positions at which the subtrees of a run of siblings placed from `b` on begin. */
  function Offsets(cs: seq<SceneNode>, b: nat): (r: seq<nat>)
    ensures |r| == |cs|
  {
    seq(|cs|, k requires 0 <= k < |cs| => b + SizeForest(cs[..k]))
  }

  lemma OffsetsSnoc(cs: seq<SceneNode>, b: nat)
    requires cs != []
    ensures Offsets(cs, b) == Offsets(cs[..|cs| - 1], b) + [b + SizeForest(cs[..|cs| - 1])]
  {
    var n := |cs| - 1;
    forall k | 0 <= k < n
      ensures cs[..k] == cs[..n][..k]
    {
    }
  }

  /** A target that no link names has no entries. */
  lemma {:induction false} IndicesOfAbsent(links: seq<Option<nat>>, target: nat, base: nat)
    requires forall i :: 0 <= i < |links| ==> links[i] != Some(target)
    ensures IndicesOf(links, target, base) == []
  {
    if links != [] {
      IndicesOfAbsent(links[..|links| - 1], target, base);
    }
  }

  /** Within a subtree placed at `o` under `x < o`, only its top hangs under `x`. */
  lemma TopOnly(t: SceneNode, o: nat, x: nat)
    requires x < o
    ensures IndicesOf(Parents(t, o, Some(x)), x, o) == [o]
  {
    BelowTopAbsent(t, o, x);
    OnlyFirst(Parents(t, o, Some(x)), ParentsForest(t.children, o + 1, o), x, o);
  }

  /** A run that names `x` first and never after has `x`'s entry only at its start. */
  lemma OnlyFirst(links: seq<Option<nat>>, rest: seq<Option<nat>>, x: nat, o: nat)
    requires links == [Some(x)] + rest && IndicesOf(rest, x, o + 1) == []
    ensures IndicesOf(links, x, o) == [o]
  {
    IndicesOfAppend([Some(x)], rest, x, o);
    IndicesOfSingle(Some(x), x, o);
  }

  /** Below the top of a subtree placed at `o`, no entry hangs under `x < o`. */
  lemma BelowTopAbsent(t: SceneNode, o: nat, x: nat)
    requires x < o
    ensures IndicesOf(ParentsForest(t.children, o + 1, o), x, o + 1) == []
  {
    ParentsForestRange(t.children, o + 1, o);
    IndicesOfAbsent(ParentsForest(t.children, o + 1, o), x, o + 1);
  }

  /** The entries hanging directly under `x` in a run of siblings are exactly the tops of the subtrees, in order. */
  lemma {:induction false} ForestRoots(cs: seq<SceneNode>, b: nat, x: nat)
    requires x < b
    ensures IndicesOf(ParentsForest(cs, b, x), x, b) == Offsets(cs, b)
  {
    if cs != [] {
      var n := |cs| - 1;
      var s := SizeForest(cs[..n]);
      ForestRoots(cs[..n], b, x);
      IndicesOfAppend(ParentsForest(cs[..n], b, x), Parents(cs[n], b + s, Some(x)), x, b);
      TopOnly(cs[n], b + s, x);
      OffsetsSnoc(cs, b);
    }
  }

  /** The size of a run of siblings seen around its `k`-th subtree. */
  lemma ForestSizeSplit(cs: seq<SceneNode>, k: nat)
    requires k < |cs|
    ensures SizeForest(cs) == SizeForest(cs[..k]) + Size(cs[k]) + SizeForest(cs[k + 1..])
  {
    var front := cs[..k + 1];
    assert cs == front + cs[k + 1..];
    assert front[..|front| - 1] == cs[..k] && front[|front| - 1] == cs[k];
    SizeForestAppend(front, cs[k + 1..]);
  }

  /**
   * The layout of a run of siblings placed from `b` on, seen around its `k`-th subtree, which
   * begins at `ok`; the subtrees after it begin at `oc`.
   */
  lemma ForestSplit(cs: seq<SceneNode>, k: nat, b: nat, x: nat, ok: nat, oc: nat)
    requires k < |cs| && ok == b + SizeForest(cs[..k]) && oc == ok + Size(cs[k])
    ensures ParentsForest(cs, b, x) ==
      ParentsForest(cs[..k], b, x) + Parents(cs[k], ok, Some(x)) + ParentsForest(cs[k + 1..], oc, x)
  {
    var front := cs[..k + 1];
    var back := cs[k + 1..];
    ParentsLast(cs, k, b, x, ok);
    assert cs == front + back;
    ParentsForestAppend(front, back, b, x);
    assert b + SizeForest(front) == oc;
    assert ParentsForest(cs, b, x) == ParentsForest(front, b, x) + ParentsForest(back, oc, x);
  }

  /** The layout of the first `k + 1` siblings ends with the `k`-th subtree, placed at `ok`. */
  lemma ParentsLast(cs: seq<SceneNode>, k: nat, b: nat, x: nat, ok: nat)
    requires k < |cs| && ok == b + SizeForest(cs[..k])
    ensures SizeForest(cs[..k + 1]) == SizeForest(cs[..k]) + Size(cs[k])
    ensures ParentsForest(cs[..k + 1], b, x) == ParentsForest(cs[..k], b, x) + Parents(cs[k], ok, Some(x))
  {
    var front := cs[..k + 1];
    assert front[..|front| - 1] == cs[..k] && front[|front| - 1] == cs[k];
  }

  /** The pre-order of a run of siblings seen around its `k`-th subtree. */
  lemma FlatForestSplit(cs: seq<SceneNode>, k: nat, path: Option<string>)
    requires k < |cs|
    ensures FlatForest(cs, path) == FlatForest(cs[..k], path) + Flat(cs[k], path) + FlatForest(cs[k + 1..], path)
  {
    var front := cs[..k + 1];
    assert cs == front + cs[k + 1..];
    assert front[..|front| - 1] == cs[..k] && front[|front| - 1] == cs[k];
    FlatForestAppend(front, cs[k + 1..], path);
  }
}
