/**
 * The value model of `DependencyNode`: a Maven coordinate without its scope.
 * Its three fields are set once by the constructor and never change, and
 * `equals` compares exactly those three, so a datatype is the faithful form.
 */
module DependencyNodes {

  datatype DependencyNode = DependencyNode(groupId: string, artifactId: string, version: string)

  /** A character class as a list of inclusive ranges. */
  predicate InRanges(c: char, ranges: seq<(char, char)>) {
    ranges != [] && ((ranges[0].0 <= c <= ranges[0].1) || InRanges(c, ranges[1..]))
  }

  /** `[\w.-]`, where `\w` is `[a-zA-Z_0-9]` (java.util.regex without UNICODE_CHARACTER_CLASS). */
  const SegmentClass: seq<(char, char)> := [('a', 'z'), ('A', 'Z'), ('0', '9'), ('_', '_'), ('.', '.'), ('-', '-')]

  predicate IsSegmentChar(c: char) {
    InRanges(c, SegmentClass)
  }

  lemma {:induction false} InRangesSome(c: char, ranges: seq<(char, char)>) returns (k: nat)
    requires InRanges(c, ranges)
    ensures k < |ranges| && ranges[k].0 <= c <= ranges[k].1
  {
    if ranges[0].0 <= c <= ranges[0].1 {
      k := 0;
    } else {
      var k' := InRangesSome(c, ranges[1..]);
      k := k' + 1;
    }
  }

  /** Segment characters are printable and are none of the separators the parser looks for. */
  lemma SegmentCharFacts(c: char)
    requires IsSegmentChar(c)
    ensures ' ' < c && c != ':' && c != '['
  {
    var k := InRangesSome(c, SegmentClass);
  }

  /** A string matched by `[\w.-]+`. */
  predicate IsSegment(s: string) {
    |s| > 0 && forall i :: 0 <= i < |s| ==> IsSegmentChar(s[i])
  }

  /** A node whose three fields could have come out of the coordinate pattern. */
  predicate WellFormed(n: DependencyNode) {
    IsSegment(n.groupId) && IsSegment(n.artifactId) && IsSegment(n.version)
  }

  /**
   * `getId`: the registry key `group:artifact:version`, the three fields
   * with a ':' after the group and after the artifact.
   */
  function Id(n: DependencyNode): (r: string)
    ensures |r| == |n.groupId| + 1 + |n.artifactId| + 1 + |n.version|
    ensures r[|n.groupId|] == ':' && r[|n.groupId| + 1 + |n.artifactId|] == ':'
  {
    n.groupId + ":" + n.artifactId + ":" + n.version
  }

  /** `equals`: two nodes are equal exactly when their three fields are. */
  function Equals(a: DependencyNode, b: DependencyNode): (r: bool)
    ensures r <==> a == b
  {
    a.groupId == b.groupId && a.artifactId == b.artifactId && a.version == b.version
  }

  predicate NoColon(s: string) {
    forall i :: 0 <= i < |s| ==> s[i] != ':'
  }

  /** Position of the first ':' in `s`, or `|s|` when there is none. */
  function FirstColon(s: string): nat {
    if s == [] || s[0] == ':' then 0 else 1 + FirstColon(s[1..])
  }

  lemma {:induction false} FirstColonAfter(x: string, u: string)
    requires NoColon(x)
    ensures FirstColon(x + ":" + u) == |x|
  {
    if x != [] {
      assert (x + ":" + u)[1..] == x[1..] + ":" + u;
      FirstColonAfter(x[1..], u);
    }
  }

  /** A prefix free of ':' is recovered from the text before the first ':'. */
  lemma ColonSplit(x: string, u: string, y: string, v: string)
    requires NoColon(x) && NoColon(y)
    requires x + ":" + u == y + ":" + v
    ensures x == y && u == v
  {
    var l := x + ":" + u;
    FirstColonAfter(x, u);
    FirstColonAfter(y, v);
    assert x == l[..|x|] == y;
    assert u == l[|x| + 1..] == v;
  }

  lemma SegmentHasNoColon(s: string)
    requires IsSegment(s)
    ensures NoColon(s)
  {
    forall i | 0 <= i < |s| ensures s[i] != ':' {
      SegmentCharFacts(s[i]);
    }
  }

  /**
   * The registry keyed by `getId` and the node equality agree: for nodes the
   * pattern can produce, equal ids mean equal nodes and vice versa.
   */
  lemma IdInjective(a: DependencyNode, b: DependencyNode)
    requires WellFormed(a) && WellFormed(b)
    ensures Id(a) == Id(b) <==> Equals(a, b)
  {
    if Id(a) == Id(b) {
      SegmentHasNoColon(a.groupId);
      SegmentHasNoColon(b.groupId);
      SegmentHasNoColon(a.artifactId);
      SegmentHasNoColon(b.artifactId);
      assert Id(a) == a.groupId + ":" + (a.artifactId + ":" + a.version);
      assert Id(b) == b.groupId + ":" + (b.artifactId + ":" + b.version);
      ColonSplit(a.groupId, a.artifactId + ":" + a.version, b.groupId, b.artifactId + ":" + b.version);
      ColonSplit(a.artifactId, a.version, b.artifactId, b.version);
    }
  }
}
