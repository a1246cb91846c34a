/**
 * The few members of JavaScript's String.prototype that the scene codec relies on:
 * trim, startsWith, includes / indexOf, split('\n') and split('/').pop().
 */
module JsString {

  /** The code points String.prototype.trim removes (ECMAScript WhiteSpace and LineTerminator). */
  predicate IsSpace(c: char) {
    var n := c as int;
    n == 0x09 || n == 0x0A || n == 0x0B || n == 0x0C || n == 0x0D || n == 0x20 || n == 0xA0 ||
    n == 0x1680 || (0x2000 <= n <= 0x200A) || n == 0x2028 || n == 0x2029 || n == 0x202F ||
    n == 0x205F || n == 0x3000 || n == 0xFEFF
  }

  predicate AllSpace(s: string) {
    forall i :: 0 <= i < |s| ==> IsSpace(s[i])
  }

  /** Neither begins nor ends with white space: what `Trim` returns. */
  predicate Trimmed(s: string) {
    s == [] || (!IsSpace(s[0]) && !IsSpace(s[|s| - 1]))
  }

  /** Drops leading white space. */
  function TrimStart(s: string): string {
    if s != [] && IsSpace(s[0]) then TrimStart(s[1..]) else s
  }

  /** Drops trailing white space. */
  function TrimEnd(s: string): string {
    if s != [] && IsSpace(s[|s| - 1]) then TrimEnd(s[..|s| - 1]) else s
  }

  /** `TrimStart` removes an all-space prefix and stops at the first other character. */
  lemma {:induction false} TrimStartShape(s: string)
    ensures var r := TrimStart(s);
      |r| <= |s| && r == s[|s| - |r|..] && AllSpace(s[..|s| - |r|]) && (r == [] || !IsSpace(r[0]))
  {
    if s != [] && IsSpace(s[0]) {
      TrimStartShape(s[1..]);
      var r := TrimStart(s);
      assert s[..|s| - |r|] == [s[0]] + s[1..][..|s| - 1 - |r|];
    } else {
      assert s[..0] == [];
    }
  }

  /** `TrimEnd` removes an all-space suffix and stops at the last other character. */
  lemma {:induction false} TrimEndShape(s: string)
    ensures var r := TrimEnd(s);
      |r| <= |s| && r == s[..|r|] && AllSpace(s[|r|..]) && (r == [] || !IsSpace(r[|r| - 1]))
  {
    if s != [] && IsSpace(s[|s| - 1]) {
      var s' := s[..|s| - 1];
      TrimEndShape(s');
      var r := TrimEnd(s);
      assert s[|r|..] == s'[|r|..] + [s[|s| - 1]];
    }
  }

  /** String.prototype.trim */
  function Trim(s: string): (r: string)
    ensures Trimmed(r)
  {
    TrimStartShape(s);
    TrimEndShape(TrimStart(s));
    TrimEnd(TrimStart(s))
  }

  lemma {:induction false} TrimStartSkips(s: string, i: nat)
    requires i <= |s| && AllSpace(s[..i])
    requires i < |s| ==> !IsSpace(s[i])
    ensures TrimStart(s) == s[i..]
  {
    if i > 0 {
      assert IsSpace(s[..i][0]);
      assert s[1..][..i - 1] == s[1..i];
      assert forall k :: 0 <= k < i - 1 ==> s[1..i][k] == s[..i][k + 1];
      TrimStartSkips(s[1..], i - 1);
      assert s[1..][i - 1..] == s[i..];
    }
  }

  lemma {:induction false} TrimEndSkips(s: string, j: nat)
    requires j <= |s| && AllSpace(s[j..])
    requires 0 < j ==> !IsSpace(s[j - 1])
    ensures TrimEnd(s) == s[..j]
    decreases |s|
  {
    if j < |s| {
      assert IsSpace(s[j..][|s| - 1 - j]);
      var s' := s[..|s| - 1];
      assert s'[j..] == s[j..|s| - 1];
      assert forall k :: 0 <= k < |s'| - j ==> s'[j..][k] == s[j..][k];
      TrimEndSkips(s', j);
      assert s'[..j] == s[..j];
    }
  }

  /** `Trim(s)` is the part of `s` between an all-space prefix and an all-space suffix. */
  lemma TrimIs(s: string, i: nat, j: nat)
    requires i <= j <= |s|
    requires AllSpace(s[..i]) && AllSpace(s[j..])
    requires i < j ==> !IsSpace(s[i]) && !IsSpace(s[j - 1])
    ensures Trim(s) == s[i..j]
  {
    if i < j {
      TrimStartSkips(s, i);
      var t := s[i..];
      assert t[j - i..] == s[j..];
      assert t[j - i - 1] == s[j - 1];
      TrimEndSkips(t, j - i);
      assert t[..j - i] == s[i..j];
    } else {
      AllSpaceSplit(s, i);
      assert s[..|s|] == s;
      TrimStartSkips(s, |s|);
    }
  }

  lemma AllSpaceSplit(s: string, i: nat)
    requires i <= |s| && AllSpace(s[..i]) && AllSpace(s[i..])
    ensures AllSpace(s)
  {
    forall k | 0 <= k < |s| ensures IsSpace(s[k]) {
      if k < i { assert s[..i][k] == s[k]; } else { assert s[i..][k - i] == s[k]; }
    }
  }

  /** White space around an already trimmed string is all that `Trim` removes. */
  lemma TrimPad(w1: string, x: string, w2: string)
    requires AllSpace(w1) && AllSpace(w2) && Trimmed(x)
    ensures Trim(w1 + x + w2) == x
  {
    var s := w1 + x + w2;
    assert s[..|w1|] == w1 && s[|w1| + |x|..] == w2 && s[|w1|..|w1| + |x|] == x;
    TrimIs(s, |w1|, |w1| + |x|);
  }

  /** A trimmed string is left alone by `Trim`. */
  lemma TrimTrimmed(x: string)
    requires Trimmed(x)
    ensures Trim(x) == x
  {
    assert [] + x + [] == x;
    TrimPad([], x, []);
  }

  /** `Trim(s)` is the slice of `s` between the white space it removes at either end. */
  lemma TrimBounds(s: string) returns (i: nat, j: nat)
    ensures i <= j <= |s| && Trim(s) == s[i..j] && AllSpace(s[..i]) && AllSpace(s[j..])
    ensures i < j ==> !IsSpace(s[i]) && !IsSpace(s[j - 1])
  {
    TrimStartShape(s);
    var r := TrimStart(s);
    i := |s| - |r|;
    TrimEndShape(r);
    j := i + |TrimEnd(r)|;
    assert r[|TrimEnd(r)|..] == s[j..];
    assert TrimEnd(r) == s[i..j];
  }

  /** `Trim` only removes characters. */
  lemma TrimWithin(s: string)
    ensures |Trim(s)| <= |s| && forall c :: c in Trim(s) ==> c in s
  {
    var i, j := TrimBounds(s);
    forall c | c in Trim(s)
      ensures c in s
    {
      var m :| 0 <= m < |Trim(s)| && Trim(s)[m] == c;
      assert s[i + m] == c;
    }
  }

  /** White space in front of a string does not change what `Trim` returns. */
  lemma TrimAfterSpace(w: string, x: string)
    requires AllSpace(w)
    ensures Trim(w + x) == Trim(x)
  {
    var i, j := TrimBounds(x);
    var s := w + x;
    assert s[..|w| + i] == w + x[..i];
    AllSpaceSplit(s[..|w| + i], |w|);
    assert s[|w| + j..] == x[j..];
    assert s[|w| + i..|w| + j] == x[i..j];
    TrimIs(s, |w| + i, |w| + j);
  }

  /** White space after a string does not change what `Trim` returns. */
  lemma TrimBeforeSpace(x: string, w: string)
    requires AllSpace(w)
    ensures Trim(x + w) == Trim(x)
  {
    var i, j := TrimBounds(x);
    var s := x + w;
    assert s[j..] == x[j..] + w;
    AllSpaceSplit(s[j..], |x| - j);
    assert s[..i] == x[..i];
    assert s[i..j] == x[i..j];
    TrimIs(s, i, j);
  }

  /** A suffix of a string cut in two. */
  lemma SuffixSplit(s: string, a: nat, b: nat)
    requires a <= b <= |s|
    ensures s[a..] == s[a..b] + s[b..]
  {
  }

  /** The tail of a slice is a slice. */
  lemma SliceTail(s: string, i: nat, j: nat, a: nat)
    requires i <= a <= j <= |s|
    ensures s[i..j][a - i..] == s[a..j]
  {
  }

  /** The head of a slice is a slice. */
  lemma SliceHead(s: string, i: nat, j: nat, a: nat)
    requires i <= a <= j <= |s|
    ensures s[i..j][..a - i] == s[i..a]
  {
  }

  /** A prefix of a string cut in two. */
  lemma PrefixSplit(s: string, a: nat, b: nat)
    requires a <= b <= |s|
    ensures s[..b] == s[..a] + s[a..b]
  {
  }

  /** String.prototype.startsWith */
  predicate StartsWith(s: string, prefix: string) {
    |prefix| <= |s| && s[..|prefix|] == prefix
  }

  /** String.prototype.indexOf for one character, with `|s|` for "not found". */
  function IndexOf(s: string, c: char): (r: nat)
    ensures r <= |s|
    ensures forall k :: 0 <= k < r ==> s[k] != c
    ensures r < |s| ==> s[r] == c
  {
    if s == [] || s[0] == c then 0 else 1 + IndexOf(s[1..], c)
  }

  /** `s.split('\n')` */
  function SplitLines(s: string): (r: seq<string>)
    ensures |r| >= 1
    ensures forall k :: 0 <= k < |r| ==> '\n' !in r[k]
  {
    if s == [] then [[]]
    else
      var rest := SplitLines(s[1..]);
      if s[0] == '\n' then [[]] + rest
      else [[s[0]] + rest[0]] + rest[1..]
  }

  /** `pieces.join('\n')`: the pieces with one line break between neighbours. */
  function JoinWith(pieces: seq<string>): string
    requires |pieces| >= 1
    decreases |pieces|
  {
    if |pieces| == 1 then pieces[0] else pieces[0] + "\n" + JoinWith(pieces[1..])
  }

  /** Splitting at line breaks loses nothing: joining the pieces with line breaks gives back any text. */
  lemma {:induction false} SplitJoin(s: string)
    ensures JoinWith(SplitLines(s)) == s
    decreases |s|
  {
    if s != [] {
      var rest := SplitLines(s[1..]);
      SplitJoin(s[1..]);
      if s[0] == '\n' {
        assert SplitLines(s) == [[]] + rest;
        JoinWithBreak(rest);
      } else {
        assert SplitLines(s) == [[s[0]] + rest[0]] + rest[1..];
        JoinWithChar(s[0], rest);
      }
      assert s == [s[0]] + s[1..];
    }
  }

  /** An empty first piece puts a line break in front of the rest. */
  lemma JoinWithBreak(rest: seq<string>)
    requires |rest| >= 1
    ensures JoinWith([[]] + rest) == "\n" + JoinWith(rest)
  {
    assert ([[]] + rest)[1..] == rest;
  }

  /** A character glued to the first piece is a character in front of the joined text. */
  lemma JoinWithChar(c: char, rest: seq<string>)
    requires |rest| >= 1
    ensures JoinWith([[c] + rest[0]] + rest[1..]) == [c] + JoinWith(rest)
  {
    var head := [c] + rest[0];
    if |rest| == 1 {
      assert [head] + rest[1..] == [head];
    } else {
      var tail := rest[1..];
      JoinWithCons(head, tail);
      JoinWithCons(rest[0], tail);
      assert [rest[0]] + tail == rest;
      Glue(c, rest[0], JoinWith(tail));
    }
  }

  lemma Glue(c: char, x: string, y: string)
    ensures [c] + x + "\n" + y == [c] + (x + "\n" + y)
  {
  }

  lemma JoinWithCons(x: string, rest: seq<string>)
    requires |rest| >= 1
    ensures JoinWith([x] + rest) == x + "\n" + JoinWith(rest)
  {
    assert ([x] + rest)[1..] == rest;
  }

  /** Every line followed by a line break: the shape of the text the serializer writes. */
  function JoinLines(lines: seq<string>): (r: string)
  {
    if lines == [] then []
    else JoinLines(lines[..|lines| - 1]) + lines[|lines| - 1] + "\n"
  }

  lemma {:induction false} JoinLinesAppend(a: seq<string>, b: seq<string>)
    ensures JoinLines(a + b) == JoinLines(a) + JoinLines(b)
    decreases |b|
  {
    if b != [] {
      var b' := b[..|b| - 1];
      assert (a + b)[..|a + b| - 1] == a + b';
      JoinLinesAppend(a, b');
    } else {
      assert a + b == a;
    }
  }

  /** Splitting a line followed by a break and more text gives that line first. */
  lemma {:induction false} SplitLinesCons(line: string, rest: string)
    requires '\n' !in line
    ensures SplitLines(line + "\n" + rest) == [line] + SplitLines(rest)
  {
    var s := line + "\n" + rest;
    if line == [] {
      assert s == "\n" + rest && s[1..] == rest;
    } else {
      assert s[1..] == line[1..] + "\n" + rest;
      SplitLinesCons(line[1..], rest);
      assert [s[0]] + line[1..] == line;
    }
  }

  /** Round trip of lines: splitting joined lines gives them back, then the empty piece after the last break. */
  lemma {:induction false} SplitJoinLines(lines: seq<string>)
    requires forall k :: 0 <= k < |lines| ==> '\n' !in lines[k]
    ensures SplitLines(JoinLines(lines)) == lines + [""]
  {
    if lines != [] {
      var tail := lines[1..];
      assert lines == [lines[0]] + tail;
      JoinLinesAppend([lines[0]], tail);
      assert JoinLines([lines[0]]) == lines[0] + "\n" by {
        assert [lines[0]][..0] == [];
      }
      SplitJoinLines(tail);
      SplitLinesCons(lines[0], JoinLines(tail));
      assert JoinLines(lines) == lines[0] + "\n" + JoinLines(tail);
    }
  }

  /** `p.split('/').pop()`: the text after the last '/', or all of `p`. */
  function LastSegment(p: string): (r: string)
    ensures |r| <= |p| && r == p[|p| - |r|..]
    ensures '/' !in r
    ensures |r| < |p| ==> p[|p| - |r| - 1] == '/'
  {
    if p == [] then []
    else if p[|p| - 1] == '/' then []
    else LastSegment(p[..|p| - 1]) + [p[|p| - 1]]
  }

  /** The last segment of `prefix/name` is `name` when `name` holds no '/'. */
  lemma LastSegmentAfterSlash(prefix: string, name: string)
    requires '/' !in name
    ensures LastSegment(prefix + "/" + name) == name
  {
    var p := prefix + "/" + name;
    assert p[|p| - |name|..] == name;
    assert p[|p| - |name| - 1] == '/';
  }
}
