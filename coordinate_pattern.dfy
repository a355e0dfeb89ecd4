/**
 * The coordinate pattern `([\w.-]+):([\w.-]+):([\w.-]+):([\w.-]+)` and
 * `Matcher.find`, written out as a matcher over characters.
 *
 * Since ':' is not in the class `[\w.-]`, a greedy segment followed by ':'
 * can only match the longest run of segment characters, so at a given start
 * position the match (if any) is unique and backtracking never changes it.
 */
module CoordinatePattern {
  import opened Wrappers
  import opened DependencyNodes

  /** Where a greedy `[\w.-]+` that starts at `i` stops: the end of the longest run. */
  function RunEnd(s: string, i: nat): (j: nat)
    requires i <= |s|
    ensures i <= j <= |s|
    ensures forall k :: i <= k < j ==> IsSegmentChar(s[k])
    ensures j == |s| || !IsSegmentChar(s[j])
    decreases |s| - i
  {
    if i < |s| && IsSegmentChar(s[i]) then RunEnd(s, i + 1) else i
  }

  /** The longest run is the only run that ends at a non-segment character. */
  lemma {:induction false} RunEndAt(s: string, i: nat, j: nat)
    requires i <= j <= |s|
    requires forall k :: i <= k < j ==> IsSegmentChar(s[k])
    requires j == |s| || !IsSegmentChar(s[j])
    ensures RunEnd(s, i) == j
    decreases j - i
  {
    if i < j {
      RunEndAt(s, i + 1, j);
    }
  }

  lemma SliceConcat(s: string, a: nat, b: nat, c: nat)
    requires a <= b <= c <= |s|
    ensures s[a..c] == s[a..b] + s[b..c]
  {
  }

  /** `([\w.-]+):` at position `i`: the index of the colon. */
  function SegmentColon(s: string, i: nat): (r: Option<nat>)
    requires i <= |s|
    ensures r.Some? ==> i < r.value < |s| && s[r.value] == ':' && IsSegment(s[i..r.value])
  {
    var j := RunEnd(s, i);
    if i < j < |s| && s[j] == ':' then Some(j) else None
  }

  /** The whole pattern tried at position `i`; groups 1 to 3 form the node, group 4 (the scope) is dropped. */
  function MatchAt(s: string, i: nat): (r: Option<DependencyNode>)
    requires i <= |s|
    ensures r.Some? ==> WellFormed(r.value)
  {
    match SegmentColon(s, i)
    case None => None
    case Some(c1) =>
      match SegmentColon(s, c1 + 1)
      case None => None
      case Some(c2) =>
        match SegmentColon(s, c2 + 1)
        case None => None
        case Some(c3) =>
          if c3 + 1 < |s| && IsSegmentChar(s[c3 + 1])
          then Some(DependencyNode(s[i..c1], s[c1 + 1..c2], s[c2 + 1..c3]))
          else None
  }

  /**
   * The language of the pattern at `i`: `s[i..]` begins with `Id(n) + ":"`
   * for a well-formed `n`, followed by at least one segment character.
   */
  predicate CoordinateAt(s: string, i: nat, n: DependencyNode)
    requires i <= |s|
  {
    WellFormed(n) &&
    var p := Id(n) + ":";
    i + |p| < |s| && s[i..i + |p|] == p && IsSegmentChar(s[i + |p|])
  }

  /** The matcher accepts exactly the strings of the pattern, with the right groups. */
  lemma MatchAtIff(s: string, i: nat, n: DependencyNode)
    requires i <= |s|
    ensures MatchAt(s, i) == Some(n) <==> CoordinateAt(s, i, n)
  {
    if MatchAt(s, i) == Some(n) {
      MatchAtSound(s, i);
    }
    if CoordinateAt(s, i, n) {
      MatchAtComplete(s, i, n);
    }
  }

  /** The text between three colons, put back together with the colons. */
  lemma RejoinAtColons(s: string, i: nat, c1: nat, c2: nat, c3: nat)
    requires i <= c1 < c2 < c3 < |s|
    requires s[c1] == ':' && s[c2] == ':' && s[c3] == ':'
    ensures s[i..c1] + ":" + s[c1 + 1..c2] + ":" + s[c2 + 1..c3] + ":" == s[i..c3 + 1]
  {
    assert s[c1..c1 + 1] == ":" && s[c2..c2 + 1] == ":" && s[c3..c3 + 1] == ":";
    SliceConcat(s, i, c1, c1 + 1);
    SliceConcat(s, i, c1 + 1, c2);
    SliceConcat(s, i, c2, c2 + 1);
    SliceConcat(s, i, c2 + 1, c3);
    SliceConcat(s, i, c3, c3 + 1);
  }

  lemma MatchAtSound(s: string, i: nat)
    requires i <= |s| && MatchAt(s, i).Some?
    ensures CoordinateAt(s, i, MatchAt(s, i).value)
  {
    var c1 := SegmentColon(s, i).value;
    var c2 := SegmentColon(s, c1 + 1).value;
    var c3 := SegmentColon(s, c2 + 1).value;
    var n := MatchAt(s, i).value;
    assert n == DependencyNode(s[i..c1], s[c1 + 1..c2], s[c2 + 1..c3]);
    RejoinAtColons(s, i, c1, c2, c3);
  }

  /** The three parts of `g:a:v:` and its three colons, by position. */
  lemma ColonParts(g: string, a: string, v: string)
    ensures var p := g + ":" + a + ":" + v + ":";
            var c1 := |g|;
            var c2 := c1 + 1 + |a|;
            var c3 := c2 + 1 + |v|;
            && |p| == c3 + 1
            && p[..c1] == g && p[c1 + 1..c2] == a && p[c2 + 1..c3] == v
            && p[c1] == ':' && p[c2] == ':' && p[c3] == ':'
  {
    var p := g + ":" + a + ":" + v + ":";
    var c1, c2 := |g|, |g| + 1 + |a|;
    forall k | 0 <= k < |g| ensures p[k] == g[k] {
    }
    forall k | 0 <= k < |a| ensures p[c1 + 1 + k] == a[k] {
    }
    forall k | 0 <= k < |v| ensures p[c2 + 1 + k] == v[k] {
    }
    assert p[..c1] == g;
    assert p[c1 + 1..c2] == a;
    assert p[c2 + 1..c2 + 1 + |v|] == v;
  }

  /** A slice of a slice is a slice. */
  lemma SliceOfSlice(s: string, i: nat, j: nat, lo: nat, hi: nat)
    requires i <= j <= |s| && lo <= hi <= j - i
    ensures s[i..j][lo..hi] == s[i + lo..i + hi]
  {
    forall k | 0 <= k < hi - lo ensures s[i..j][lo..hi][k] == s[i + lo..i + hi][k] {
    }
  }

  /** What `p` says by position holds of `s` once `p` is found at `i`. */
  lemma PartsAt(s: string, i: nat, p: string, c1: nat, c2: nat, c3: nat)
    requires c1 < c2 < c3 < |p| && i + |p| <= |s| && s[i..i + |p|] == p
    ensures s[i..i + c1] == p[..c1] && s[i + c1 + 1..i + c2] == p[c1 + 1..c2] && s[i + c2 + 1..i + c3] == p[c2 + 1..c3]
    ensures s[i + c1] == p[c1] && s[i + c2] == p[c2] && s[i + c3] == p[c3]
  {
    SliceOfSlice(s, i, i + |p|, 0, c1);
    SliceOfSlice(s, i, i + |p|, c1 + 1, c2);
    SliceOfSlice(s, i, i + |p|, c2 + 1, c3);
    assert s[i..i + |p|][c1] == s[i + c1] && s[i..i + |p|][c2] == s[i + c2] && s[i..i + |p|][c3] == s[i + c3];
  }

  /** Where the text of a coordinate sits inside `s`: its three parts and its three colons. */
  lemma CoordinateChars(s: string, i: nat, n: DependencyNode)
    requires i <= |s| && CoordinateAt(s, i, n)
    ensures var c1 := i + |n.groupId|;
            var c2 := c1 + 1 + |n.artifactId|;
            var c3 := c2 + 1 + |n.version|;
            && c3 + 1 < |s| && IsSegmentChar(s[c3 + 1])
            && s[i..c1] == n.groupId && s[c1 + 1..c2] == n.artifactId && s[c2 + 1..c3] == n.version
            && s[c1] == ':' && s[c2] == ':' && s[c3] == ':'
  {
    var g, a, v := n.groupId, n.artifactId, n.version;
    var p := Id(n) + ":";
    assert p == g + ":" + a + ":" + v + ":";
    ColonParts(g, a, v);
    PartsAt(s, i, p, |g|, |g| + 1 + |a|, |g| + 1 + |a| + 1 + |v|);
  }

  /** A segment that ends at a colon is exactly what `([\w.-]+):` matches. */
  lemma SegmentColonAt(s: string, i: nat, j: nat)
    requires i < j < |s| && s[j] == ':' && IsSegment(s[i..j])
    ensures SegmentColon(s, i) == Some(j)
  {
    forall k | i <= k < j ensures IsSegmentChar(s[k]) {
      assert s[i..j][k - i] == s[k];
    }
    forall c | IsSegmentChar(c) ensures c != ':' {
      SegmentCharFacts(c);
    }
    RunEndAt(s, i, j);
  }

  /** Three segments, each closed by a colon, and one more segment character: the pattern matches there. */
  lemma MatchAtFromParts(s: string, i: nat, c1: nat, c2: nat, c3: nat)
    requires i < c1 < c2 < c3 && c3 + 1 < |s|
    requires s[c1] == ':' && s[c2] == ':' && s[c3] == ':'
    requires IsSegment(s[i..c1]) && IsSegment(s[c1 + 1..c2]) && IsSegment(s[c2 + 1..c3])
    requires IsSegmentChar(s[c3 + 1])
    ensures MatchAt(s, i) == Some(DependencyNode(s[i..c1], s[c1 + 1..c2], s[c2 + 1..c3]))
  {
    SegmentColonAt(s, i, c1);
    SegmentColonAt(s, c1 + 1, c2);
    SegmentColonAt(s, c2 + 1, c3);
  }

  lemma MatchAtComplete(s: string, i: nat, n: DependencyNode)
    requires i <= |s| && CoordinateAt(s, i, n)
    ensures MatchAt(s, i) == Some(n)
  {
    var c1 := i + |n.groupId|;
    var c2 := c1 + 1 + |n.artifactId|;
    var c3 := c2 + 1 + |n.version|;
    CoordinateChars(s, i, n);
    MatchAtFromParts(s, i, c1, c2, c3);
  }

  /**
   * `Matcher.find` from position `i`: the leftmost position where the
   * pattern matches, with the node its groups give.
   */
  function FindFrom(s: string, i: nat): (r: Option<(nat, DependencyNode)>)
    requires i <= |s|
    ensures r.Some? ==> i <= r.value.0 <= |s| && MatchAt(s, r.value.0) == Some(r.value.1)
    ensures r.Some? ==> forall k :: i <= k < r.value.0 ==> MatchAt(s, k).None?
    ensures r.None? ==> forall k :: i <= k <= |s| ==> MatchAt(s, k).None?
    decreases |s| - i
  {
    if MatchAt(s, i).Some? then Some((i, MatchAt(s, i).value))
    else if i == |s| then None
    else FindFrom(s, i + 1)
  }

  /**
   * A coordinate written out in full, `group:artifact:version:scope`
   * followed by anything, is found at position 0 and yields its own node:
   * the scope takes no part in it.
   */
  lemma FindRenderedCoordinate(n: DependencyNode, scope: string, tail: string)
    requires WellFormed(n) && IsSegment(scope)
    ensures FindFrom(Id(n) + ":" + scope + tail, 0) == Some((0, n))
  {
    var s := Id(n) + ":" + scope + tail;
    var p := Id(n) + ":";
    assert s[..|p|] == p;
    assert s[|p|] == scope[0];
    MatchAtComplete(s, 0, n);
  }
}
