/**
 * The first half of the main loop's body: how one report line is turned into
 * a nesting level and a coordinate, or skipped.
 */
module LineClassifier {
  import opened Wrappers
  import opened DependencyNodes
  import opened CoordinatePattern

  /** The number of leading ' ' characters; tabs and other blanks do not count. */
  function Indentation(s: string): (n: nat)
    ensures n <= |s|
    ensures forall i :: 0 <= i < n ==> s[i] == ' '
    ensures n == |s| || s[n] != ' '
  {
    if |s| > 0 && s[0] == ' ' then 1 + Indentation(s[1..]) else 0
  }

  /** The `while (line.startsWith(" "))` loop: strip one space at a time and count it. */
  method StripIndentation(line: string) returns (level: nat, rest: string)
    ensures level == Indentation(line) && rest == line[level..]
  {
    level, rest := 0, line;
    while |rest| > 0 && rest[0] == ' '
      invariant level <= |line| && rest == line[level..]
      invariant Indentation(line) == level + Indentation(rest)
    {
      rest := rest[1..];
      level := level + 1;
    }
  }

  /** How many characters `String.trim` removes from the front: those at or below U+0020. */
  function TrimStart(s: string): (i: nat)
    ensures i <= |s|
    ensures forall k :: 0 <= k < i ==> s[k] <= ' '
    ensures i == |s| || s[i] > ' '
  {
    if |s| > 0 && s[0] <= ' ' then 1 + TrimStart(s[1..]) else 0
  }

  /** Where `String.trim` stops at the back, never going below `lo`. */
  function TrimEnd(s: string, lo: nat): (j: nat)
    requires lo <= |s|
    ensures lo <= j <= |s|
    ensures forall k :: j <= k < |s| ==> s[k] <= ' '
    ensures j == lo || s[j - 1] > ' '
    decreases |s|
  {
    if |s| > lo && s[|s| - 1] <= ' ' then TrimEnd(s[..|s| - 1], lo) else |s|
  }

  /** `String.trim`. */
  function Trim(s: string): (r: string)
    ensures r == [] || (r[0] > ' ' && r[|r| - 1] > ' ')
  {
    var i := TrimStart(s);
    s[i..TrimEnd(s, i)]
  }

  predicate StartsWith(s: string, prefix: string) {
    |prefix| <= |s| && s[..|prefix|] == prefix
  }

  /** The lines the loop skips with `continue`: log banners, blank lines and separators. */
  predicate IsNoise(t: string) {
    StartsWith(t, "[INFO]") || t == [] || StartsWith(t, "---")
  }

  /** A classified line: its nesting level and the node its coordinate names. */
  datatype Entry = Entry(level: nat, node: DependencyNode)

  /** The text the loop searches: the line without its indentation, trimmed. */
  function Body(line: string): string {
    Trim(line[Indentation(line)..])
  }

  /**
   * What lines 53-67 make of one line: `None` when it is skipped, otherwise
   * its level and the first three groups of the leftmost coordinate in it.
   */
  function Classify(line: string): (r: Option<Entry>)
    ensures r.Some? ==> WellFormed(r.value.node) && r.value.level == Indentation(line)
  {
    var t := Body(line);
    if IsNoise(t) then None
    else match FindFrom(t, 0)
      case None => None
      case Some((_, n)) => Some(Entry(Indentation(line), n))
  }

  /**
   * A line is skipped exactly when its body is noise or holds no coordinate
   * at any position; the skip leaves everything unchanged in the builder.
   */
  lemma ClassifySkipsIff(line: string)
    ensures Classify(line).None? <==>
              IsNoise(Body(line)) || forall i, n :: 0 <= i <= |Body(line)| ==> !CoordinateAt(Body(line), i, n)
  {
    var t := Body(line);
    if !IsNoise(t) {
      match FindFrom(t, 0)
      case None =>
        forall i, n | 0 <= i <= |t| ensures !CoordinateAt(t, i, n) {
          MatchAtIff(t, i, n);
        }
      case Some((j, m)) =>
        MatchAtIff(t, j, m);
    }
  }

  /**
   * A line that is kept names the coordinate at the leftmost position of
   * its body where one starts, and its level is its indentation.
   */
  lemma ClassifyFindsLeftmost(line: string)
    ensures Classify(line).Some? ==>
              && !IsNoise(Body(line))
              && exists i :: 0 <= i <= |Body(line)| && CoordinateAt(Body(line), i, Classify(line).value.node) &&
                   forall k, m :: 0 <= k < i ==> !CoordinateAt(Body(line), k, m)
  {
    var t := Body(line);
    if Classify(line).Some? {
      var (j, m) := FindFrom(t, 0).value;
      MatchAtIff(t, j, m);
      forall k, m' | 0 <= k < j ensures !CoordinateAt(t, k, m') {
        MatchAtIff(t, k, m');
      }
    }
  }

  function Spaces(k: nat): (r: string)
    ensures |r| == k && forall i :: 0 <= i < k ==> r[i] == ' '
  {
    if k == 0 then [] else [' '] + Spaces(k - 1)
  }

  /**
   * A dependency line as the report writes it, `k` spaces, then blanks that
   * do not start with a space (a tab, say), the full coordinate with its
   * scope, and any trailing annotation, classifies as level `k` and the
   * coordinate's node. The extra blanks only fall to `trim`.
   */
  lemma ClassifyReportLine(k: nat, pad: string, n: DependencyNode, scope: string, tail: string)
    requires forall i :: 0 <= i < |pad| ==> pad[i] <= ' '
    requires pad == [] || pad[0] != ' '
    requires WellFormed(n) && IsSegment(scope)
    requires !StartsWith(n.groupId, "---")
    ensures Classify(Spaces(k) + pad + Id(n) + ":" + scope + tail) == Some(Entry(k, n))
  {
    var body := Id(n) + ":" + scope;
    var u := pad + body + tail;
    Regroup(Spaces(k), pad, Id(n), ":", scope, tail);
    BodyEnds(n, scope);
    assert u == [] || u[0] != ' ' by {
      assert u[0] == if pad == [] then body[0] else pad[0];
    }
    IndentationOfSpaces(k, u);
    var t := Trim(u);
    TrimKeepsBody(pad, body, tail);
    NotNoise(t, n, scope);
    FindRenderedPrefix(t, n, scope);
  }

  /** A coordinate with its scope after `k` spaces classifies as level `k` and that coordinate's node. */
  lemma ClassifyIndentedCoordinate(k: nat, n: DependencyNode, scope: string)
    requires WellFormed(n) && IsSegment(scope) && !StartsWith(n.groupId, "---")
    ensures Classify(Spaces(k) + Id(n) + ":" + scope) == Some(Entry(k, n))
  {
    NoPadNoTail(Spaces(k), Id(n), ":", scope);
    ClassifyReportLine(k, [], n, scope, []);
  }

  lemma NoPadNoTail(a: string, b: string, c: string, d: string)
    ensures a + [] + b + c + d + [] == a + b + c + d
  {
    assert a + [] == a;
    assert a + b + c + d + [] == a + b + c + d;
  }

  lemma Regroup(a: string, b: string, c: string, d: string, e: string, f: string)
    ensures a + b + c + d + e + f == a + (b + (c + d + e) + f)
  {
  }

  /** A written-out coordinate starts and ends with a segment character. */
  lemma BodyEnds(n: DependencyNode, scope: string)
    requires WellFormed(n) && IsSegment(scope)
    ensures var body := Id(n) + ":" + scope;
      |body| > 0 && ' ' < body[0] && body[0] != ' ' && ' ' < body[|body| - 1]
  {
    SegmentCharFacts(n.groupId[0]);
    SegmentCharFacts(scope[|scope| - 1]);
  }

  lemma IndentationOfSpaces(k: nat, u: string)
    requires u == [] || u[0] != ' '
    ensures Indentation(Spaces(k) + u) == k && (Spaces(k) + u)[k..] == u
  {
    var line := Spaces(k) + u;
    assert k == |line| || line[k] == u[0];
  }

  /** Trimming blanks around a text that starts and ends with a printable character leaves that text in front. */
  lemma TrimKeepsBody(pad: string, body: string, tail: string)
    requires forall i :: 0 <= i < |pad| ==> pad[i] <= ' '
    requires |body| > 0 && body[0] > ' ' && body[|body| - 1] > ' '
    ensures |body| <= |Trim(pad + body + tail)| && Trim(pad + body + tail)[..|body|] == body
  {
    var u := pad + body + tail;
    assert u[|pad|] == body[0];
    TrimStartAt(u, |pad|);
    var j := TrimEnd(u, |pad|);
    assert u[|pad| + |body| - 1] == body[|body| - 1];
    assert j >= |pad| + |body|;
    assert u[|pad|..j][..|body|] == u[|pad|..|pad| + |body|] == body;
  }

  lemma TrimStartAt(u: string, p: nat)
    requires p < |u| && u[p] > ' '
    requires forall i :: 0 <= i < p ==> u[i] <= ' '
    ensures TrimStart(u) == p
  {
  }

  lemma NotNoise(t: string, n: DependencyNode, scope: string)
    requires WellFormed(n) && IsSegment(scope) && !StartsWith(n.groupId, "---")
    requires |Id(n) + ":" + scope| <= |t| && t[..|Id(n) + ":" + scope|] == Id(n) + ":" + scope
    ensures !IsNoise(t)
  {
    var g := n.groupId;
    SegmentCharFacts(g[0]);
    assert t[0] == g[0];
    if |g| >= 3 {
      assert t[..3] == g[..3];
    } else {
      SegmentHasNoColon(g);
      assert t[|g|] == ':';
    }
  }

  lemma FindRenderedPrefix(t: string, n: DependencyNode, scope: string)
    requires WellFormed(n) && IsSegment(scope)
    requires |Id(n) + ":" + scope| <= |t| && t[..|Id(n) + ":" + scope|] == Id(n) + ":" + scope
    ensures FindFrom(t, 0) == Some((0, n))
  {
    var body := Id(n) + ":" + scope;
    var rest := t[|body|..];
    assert t == body + rest;
    FindRenderedCoordinate(n, scope, rest);
  }
}
