/**
 * The attribute patterns of a node header line, `/name="([^"]+)"/` and its `type` and
 * `parent` twins, as `line.match(...)` evaluates them: the leftmost position where `attr="`
 * is followed by one or more non-quote characters and a closing quote. The capture is that
 * run of non-quote characters (the greedy `[^"]+` cannot stop earlier, because the character
 * after a shorter run is not a quote).
 */
module AttrPattern {
  import opened Options

  /** The first '"' at or after `k`, or `|s|`: where the greedy `[^"]+` stops. */
  function QuoteFrom(s: string, k: nat): (e: nat)
    requires k <= |s|
    ensures k <= e <= |s|
    ensures forall m :: k <= m < e ==> s[m] != '"'
    ensures e < |s| ==> s[e] == '"'
    decreases |s| - k
  {
    if k == |s| || s[k] == '"' then k else QuoteFrom(s, k + 1)
  }

  /** The capture when the pattern is tried at position `q` only. */
  function MatchAt(s: string, attr: string, q: nat): (r: Option<string>)
    ensures r.Some? ==> |r.value| > 0 && '"' !in r.value
    ensures r.Some? ==> q + |attr| + |r.value| + 3 <= |s| &&
                        s[q..q + |attr| + |r.value| + 3] == attr + "=\"" + r.value + "\""
  {
    var open := attr + "=\"";
    if q + |open| <= |s| && s[q..q + |open|] == open then
      var k := q + |open|;
      var e := QuoteFrom(s, k);
      if k < e < |s| then
        assert s[q..e + 1] == s[q..k] + s[k..e] + [s[e]];
        Some(s[k..e])
      else None
    else None
  }

  /** The leftmost position at or after `q` where the pattern matches. */
  function FirstMatch(s: string, attr: string, q: nat): (r: Option<nat>)
    requires q <= |s|
    ensures r.Some? ==> q <= r.value <= |s| && MatchAt(s, attr, r.value).Some?
    ensures r.Some? ==> forall p :: q <= p < r.value ==> MatchAt(s, attr, p).None?
    ensures r.None? ==> forall p :: q <= p <= |s| ==> MatchAt(s, attr, p).None?
    decreases |s| - q
  {
    if MatchAt(s, attr, q).Some? then Some(q)
    else if q == |s| then None
    else FirstMatch(s, attr, q + 1)
  }

  /** `line.match(/attr="([^"]+)"/)`, reduced to its capture group (`null` when nothing matches). */
  function Match(s: string, attr: string): (r: Option<string>)
    ensures r.Some? ==> |r.value| > 0 && '"' !in r.value
  {
    match FirstMatch(s, attr, 0)
    case Some(p) => MatchAt(s, attr, p)
    case None => None
  }

  /** When the pattern matches at `q0` and nowhere before it, `Match` captures what follows `q0`. */
  lemma MatchIsLeftmost(s: string, attr: string, q0: nat)
    requires q0 <= |s|
    requires MatchAt(s, attr, q0).Some?
    requires forall p :: 0 <= p < q0 ==> MatchAt(s, attr, p).None?
    ensures Match(s, attr) == MatchAt(s, attr, q0)
  {
  }

  /** When the pattern matches nowhere, `Match` gives nothing. */
  lemma NoMatchAnywhere(s: string, attr: string)
    requires forall p :: 0 <= p <= |s| ==> MatchAt(s, attr, p).None?
    ensures Match(s, attr).None?
  {
  }

  /** The pattern cannot match at `p` unless an '=' follows the attribute name there. */
  lemma NeedsEquals(s: string, attr: string, p: nat)
    requires p + |attr| < |s| ==> s[p + |attr|] != '='
    ensures MatchAt(s, attr, p).None?
  {
  }

  /** The pattern cannot match at `p` unless the attribute name's first letter is there. */
  lemma NeedsFirstLetter(s: string, attr: string, p: nat)
    requires |attr| > 0 && p < |s| && s[p] != attr[0]
    ensures MatchAt(s, attr, p).None?
  {
  }

  /** Where `attr="`, a non-empty quote-free `v` and a quote stand at `q`, the pattern captures `v` there. */
  lemma CaptureAt(s: string, attr: string, q: nat, v: string)
    requires |v| > 0 && '"' !in v
    requires q + |attr| + 2 + |v| < |s|
    requires s[q..q + |attr| + 2] == attr + "=\""
    requires s[q + |attr| + 2..q + |attr| + 2 + |v|] == v
    requires s[q + |attr| + 2 + |v|] == '"'
    ensures MatchAt(s, attr, q) == Some(v)
  {
    var k := q + |attr| + 2;
    var e := QuoteFrom(s, k);
    forall m | k <= m < k + |v|
      ensures s[m] != '"'
    {
      assert s[m] == v[m - k];
    }
    assert e == k + |v|;
  }

  /** No match starts before `q` if no earlier position has both the first letter and the '='. */
  lemma NoMatchBefore(s: string, attr: string, q: nat)
    requires |attr| > 0
    requires forall p :: 0 <= p < q && p < |s| && s[p] == attr[0] && p + |attr| < |s| ==> s[p + |attr|] != '='
    ensures forall p :: 0 <= p < q ==> MatchAt(s, attr, p).None?
  {
    forall p | 0 <= p < q
      ensures MatchAt(s, attr, p).None?
    {
      if p < |s| && s[p] != attr[0] {
        NeedsFirstLetter(s, attr, p);
      } else {
        NeedsEquals(s, attr, p);
      }
    }
  }
}
