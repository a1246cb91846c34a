/**
 * The values the scene codec works on: the flat node records the parser produces, their
 * properties, and the node tree the serializer consumes.
 */
module SceneModel {
  import opened Options

  /**
   * A node's properties. In the source a JavaScript object from key to raw value; here an
   * association list in insertion order, where writing an existing key keeps its position.
   */
  type Props = seq<(string, string)>

  function Keys(ps: Props): seq<string> {
    seq(|ps|, i requires 0 <= i < |ps| => ps[i].0)
  }

  /** No key twice: what a JavaScript object guarantees. */
  predicate DistinctKeys(ps: Props) {
    forall i, j :: 0 <= i < j < |ps| ==> ps[i].0 != ps[j].0
  }

  /** `props[key]` */
  function Lookup(ps: Props, key: string): Option<string> {
    if ps == [] then None
    else if ps[0].0 == key then Some(ps[0].1)
    else Lookup(ps[1..], key)
  }

  /**
   * `props[key] = value`: a key already present keeps its place and gets the new value,
   * a new key goes to the end.
   */
  function Put(ps: Props, key: string, value: string): (r: Props)
    ensures key !in Keys(ps) ==> r == ps + [(key, value)]
    ensures key in Keys(ps) ==> Keys(r) == Keys(ps)
  {
    if ps == [] then [(key, value)]
    else if ps[0].0 == key then
      assert Keys(ps)[0] == key;
      assert Keys([(key, value)] + ps[1..]) == Keys(ps);
      [(key, value)] + ps[1..]
    else
      var rest := Put(ps[1..], key, value);
      assert Keys(ps) == [ps[0].0] + Keys(ps[1..]);
      assert Keys([ps[0]] + rest) == [ps[0].0] + Keys(rest);
      [ps[0]] + rest
  }

  /** Reading a key after `props[key] = value` gives `value`; every other key reads as before. */
  lemma {:induction false} PutLookup(ps: Props, key: string, value: string, k: string)
    ensures Lookup(Put(ps, key, value), k) == if k == key then Some(value) else Lookup(ps, k)
  {
    if ps != [] && ps[0].0 != key {
      PutLookup(ps[1..], key, value, k);
    }
  }

  /** Successive `props[k] = v` assignments, in order. */
  function PutAll(ps: Props, assignments: Props): Props
    decreases |assignments|
  {
    if assignments == [] then ps
    else PutAll(Put(ps, assignments[0].0, assignments[0].1), assignments[1..])
  }

  /** Assigning fresh, distinct keys appends them in order. */
  lemma {:induction false} PutAllFresh(ps: Props, assignments: Props)
    requires DistinctKeys(assignments)
    requires forall i :: 0 <= i < |assignments| ==> assignments[i].0 !in Keys(ps)
    ensures PutAll(ps, assignments) == ps + assignments
    decreases |assignments|
  {
    if assignments != [] {
      var k, v := assignments[0].0, assignments[0].1;
      var rest := assignments[1..];
      var ps' := ps + [(k, v)];
      FreshTail(ps, assignments);
      assert PutAll(ps, assignments) == PutAll(ps', rest);
      PutAllFresh(ps', rest);
      assert assignments == [assignments[0]] + rest;
      assert ps' + rest == ps + assignments;
    }
  }

  lemma FreshTail(ps: Props, assignments: Props)
    requires assignments != [] && DistinctKeys(assignments)
    requires forall i :: 0 <= i < |assignments| ==> assignments[i].0 !in Keys(ps)
    ensures DistinctKeys(assignments[1..])
    ensures forall i :: 0 <= i < |assignments| - 1 ==> assignments[1..][i].0 !in Keys(ps + [assignments[0]])
  {
    var rest := assignments[1..];
    var ps' := ps + [assignments[0]];
    assert Keys(ps') == Keys(ps) + [assignments[0].0];
    forall i | 0 <= i < |rest| ensures rest[i].0 !in Keys(ps') {
      assert rest[i] == assignments[i + 1];
    }
  }

  /** Assigning distinct keys to an empty object rebuilds them in the same order. */
  lemma PutAllDistinct(assignments: Props)
    requires DistinctKeys(assignments)
    ensures PutAll([], assignments) == assignments
  {
    PutAllFresh([], assignments);
  }

  /** One parsed `[node ...]` entry: `name`, `type`, `parent` and `properties` in the source. */
  datatype Record = Record(name: string, kind: string, parent: Option<string>, props: Props)

  /** A node of the in-memory scene tree that the serializer writes out. */
  datatype SceneNode = SceneNode(name: string, kind: string, props: Props, children: seq<SceneNode>)
}
