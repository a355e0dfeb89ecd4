/**
 * `buildDependencyGraphFromOutput`: one pass over the report's lines that
 * interns every coordinate into a registry keyed by `getId`, makes the first
 * level-0 entry the root, and hangs every later entry under a node that
 * `findParentAtLevel` finds one level up.
 *
 * The report lines are a parameter; running `mvn dependency:tree` to get
 * them is not part of this model. The locals `graph`, `nodes` and `root`
 * are kept together in a `BuildState`, and the loop body is the method
 * `ClassifyLine` followed by `ApplyEntry`. Because the parent lookup may pick any node at the right
 * depth (set order), one line is specified by the relation `OptStep`, and
 * a whole run by a ghost trace of states that `OptStep` links.
 */
module GraphBuilder {
  import opened Wrappers
  import opened DependencyNodes
  import opened CoordinatePattern
  import opened LineClassifier
  import opened Walks
  import opened ParentSearch

  datatype BuildState = BuildState(graph: Graph, nodes: map<string, DependencyNode>, root: Option<DependencyNode>)

  function Initial(): BuildState {
    BuildState(map[], map[], None)
  }

  /** The registry maps every id to the one node that has that id. */
  predicate NodesKeyed(nodes: map<string, DependencyNode>) {
    forall id :: id in nodes ==> WellFormed(nodes[id]) && Id(nodes[id]) == id
  }

  /**
   * `nodes.computeIfAbsent(currentNode.getId(), k -> currentNode)`: a new id
   * is registered, an existing entry is kept, and the node registered under
   * the id is then equal to the new node.
   */
  function Intern(nodes: map<string, DependencyNode>, n: DependencyNode): (r: map<string, DependencyNode>)
    ensures Id(n) in r && r.Keys == nodes.Keys + {Id(n)}
    ensures forall id :: id in nodes ==> r[id] == nodes[id]
    ensures NodesKeyed(nodes) && WellFormed(n) ==> NodesKeyed(r) && r[Id(n)] == n
  {
    if Id(n) !in nodes then nodes[Id(n) := n]
    else
      assert NodesKeyed(nodes) && WellFormed(n) ==> nodes[Id(n)] == n by {
        if NodesKeyed(nodes) && WellFormed(n) {
          IdInjective(nodes[Id(n)], n);
        }
      }
      nodes
  }

  /**
   * Lines 79-80: add the edge `parent -> child` to the parent's set (making
   * the set if needed) and give the child an entry if it has none. Exactly
   * one edge is added and no other entry changes.
   */
  function Attach(g: Graph, parent: DependencyNode, child: DependencyNode): (h: Graph)
    ensures h.Keys == g.Keys + {parent, child}
    ensures forall p, c :: HasEdge(h, p, c) <==> HasEdge(g, p, c) || (p == parent && c == child)
  {
    var withEdge := g[parent := (if parent in g then g[parent] else {}) + {child}];
    if child in withEdge then withEdge else withEdge[child := {}]
  }

  /**
   * Lines 68-82 for a classified entry: the registry always takes the node;
   * the first level-0 entry becomes the root with an empty child set; an
   * entry before the root, or a later level-0 entry, changes nothing else;
   * any other entry is attached under some node at walk length `level - 1`
   * from the root, or dropped when there is none.
   */
  ghost predicate EntryStep(s: BuildState, e: Entry, t: BuildState) {
    t.nodes == Intern(s.nodes, e.node) &&
    if e.level == 0 && s.root.None? then
      t.root == Some(e.node) && t.graph == s.graph[e.node := {}]
    else if s.root.None? || e.level == 0 then
      t.root == s.root && t.graph == s.graph
    else
      t.root == s.root &&
      ((!CanReach(s.graph, s.root.value, e.level - 1) && t.graph == s.graph) ||
       (exists p :: WalkTo(s.graph, s.root.value, p, e.level - 1) && t.graph == Attach(s.graph, p, e.node)))
  }

  /** One iteration for a line that classifies as `e`: a skipped line changes nothing. */
  ghost predicate OptStep(s: BuildState, e: Option<Entry>, t: BuildState) {
    match e
    case None => t == s
    case Some(e) => WellFormed(e.node) && EntryStep(s, e, t)
  }

  /** What holds of the locals between two iterations. */
  ghost predicate Inv(s: BuildState) {
    && NodesKeyed(s.nodes)
    && NoDangling(s.graph)
    && (forall k :: k in s.graph ==> WellFormed(k) && Id(k) in s.nodes && s.nodes[Id(k)] == k)
    && (s.root.None? ==> s.graph == map[])
    && (s.root.Some? ==> s.root.value in s.graph && forall k :: k in s.graph ==> Reachable(s.graph, s.root.value, k))
  }

  /** Every step keeps the invariant; in particular no child is ever left without an entry. */
  lemma StepPreservesInv(s: BuildState, e: Option<Entry>, t: BuildState)
    requires Inv(s) && OptStep(s, e, t)
    ensures Inv(t)
  {
    if e.Some? {
      EntryStepPreservesInv(s, e.value, t);
    }
  }

  lemma EntryStepPreservesInv(s: BuildState, e: Entry, t: BuildState)
    requires Inv(s) && WellFormed(e.node) && EntryStep(s, e, t)
    ensures Inv(t)
  {
    var c := e.node;
    assert NodesKeyed(t.nodes) && t.nodes[Id(c)] == c;
    if e.level == 0 && s.root.None? {
      assert WalkTo(t.graph, c, c, 0);
    } else if s.root.Some? && e.level > 0 && t.graph != s.graph {
      var r := s.root.value;
      var p :| WalkTo(s.graph, r, p, e.level - 1) && t.graph == Attach(s.graph, p, c);
      AttachPreservesInv(s, p, e.level - 1, c, t);
    }
  }

  lemma AttachPreservesInv(s: BuildState, p: DependencyNode, level: nat, c: DependencyNode, t: BuildState)
    requires Inv(s) && s.root.Some? && WellFormed(c)
    requires WalkTo(s.graph, s.root.value, p, level)
    requires t.root == s.root && t.nodes == Intern(s.nodes, c) && t.graph == Attach(s.graph, p, c)
    ensures Inv(t)
  {
    var r, g, h := s.root.value, s.graph, t.graph;
    WalkStaysInGraph(g, r, p, level);
    assert SubGraph(g, h) by {
      forall k | k in g ensures k in h && g[k] <= h[k] {
        forall x | x in g[k] ensures x in h[k] {
          assert HasEdge(g, k, x);
        }
      }
    }
    forall k | k in h
      ensures WellFormed(k) && Id(k) in t.nodes && t.nodes[Id(k)] == k
      ensures Reachable(h, r, k)
    {
      if k == c {
        WalkMono(g, h, r, p, level);
        WalkExtend(h, r, p, level, c);
      } else {
        var n: nat :| WalkTo(g, r, k, n);
        WalkMono(g, h, r, k, n);
      }
    }
    forall k, x | k in h && x in h[k] ensures x in h {
      assert HasEdge(h, k, x);
    }
  }

  /**
   * What `Attach` changes: the keys grow, and the one new edge is
   * `parent -> child`. A corollary of `Attach`'s contract in the form
   * `StepChanges` uses, kept apart so that its proof stays small.
   */
  lemma AttachChanges(g: Graph, parent: DependencyNode, child: DependencyNode)
    ensures SubGraph(g, Attach(g, parent, child))
    ensures forall p, c :: HasEdge(Attach(g, parent, child), p, c) && !HasEdge(g, p, c) ==> p == parent && c == child
  {
    var h := Attach(g, parent, child);
    forall k | k in g ensures k in h && g[k] <= h[k] {
      forall x | x in g[k] ensures x in h[k] {
        assert HasEdge(g, k, x);
      }
    }
  }

  /**
   * One line changes the graph only by growing it: no key and no edge goes
   * away, the only new key is the line's node, and the only new edge (at
   * most one) runs from a node at walk length `level - 1` from the root to
   * the line's node.
   */
  lemma StepChanges(s: BuildState, e: Option<Entry>, t: BuildState)
    requires Inv(s) && OptStep(s, e, t)
    ensures SubGraph(s.graph, t.graph)
    ensures forall k :: k in t.graph && k !in s.graph ==> e.Some? && k == e.value.node
    ensures forall p, c :: HasEdge(t.graph, p, c) && !HasEdge(s.graph, p, c) ==>
              && e.Some? && c == e.value.node
              && s.root.Some? && e.value.level >= 1
              && WalkTo(s.graph, s.root.value, p, e.value.level - 1)
    ensures forall p, c, p', c' ::
              (HasEdge(t.graph, p, c) && !HasEdge(s.graph, p, c) &&
               HasEdge(t.graph, p', c') && !HasEdge(s.graph, p', c')) ==> p == p' && c == c'
  {
    if e.Some? && s.root.Some? && e.value.level > 0 && t.graph != s.graph {
      var p :| WalkTo(s.graph, s.root.value, p, e.value.level - 1) && t.graph == Attach(s.graph, p, e.value.node);
      WalkStaysInGraph(s.graph, s.root.value, p, e.value.level - 1);
      AttachChanges(s.graph, p, e.value.node);
    }
  }

  /**
   * A matched line whose parent lookup finds nothing leaves the graph and
   * the root as they were, while its node still goes into the registry.
   */
  lemma UnresolvedEntryIsDropped(s: BuildState, e: Entry, t: BuildState)
    requires EntryStep(s, e, t) && s.root.Some?
    requires e.level == 0 || !CanReach(s.graph, s.root.value, e.level - 1)
    ensures t.graph == s.graph && t.root == s.root
    ensures t.nodes == Intern(s.nodes, e.node)
  {
  }

  /** Right after the root, nothing is one edge away, so a level-2 entry is dropped. */
  lemma LevelTwoUnderBareRootIsDropped(s: BuildState, r: DependencyNode, n: DependencyNode, t: BuildState)
    requires s.root == Some(r) && s.graph == map[r := {}]
    requires OptStep(s, Some(Entry(2, n)), t)
    ensures t.graph == s.graph && t.root == s.root
  {
    forall x ensures !WalkTo(s.graph, r, x, 1) {
    }
    UnresolvedEntryIsDropped(s, Entry(2, n), t);
  }

  /**
   * Levels count single spaces. A report that indents by two spaces per
   * level therefore puts a direct child of the root at level 2, where the
   * lookup wants a node one edge from the root; right after the root there
   * is none, so the line is dropped and the graph stays as it was.
   */
  lemma TwoSpaceIndentedChildIsDropped(s: BuildState, r: DependencyNode, n: DependencyNode, scope: string, t: BuildState)
    requires s.root == Some(r) && s.graph == map[r := {}]
    requires WellFormed(n) && IsSegment(scope) && !StartsWith(n.groupId, "---")
    requires OptStep(s, Classify(Spaces(2) + Id(n) + ":" + scope), t)
    ensures t.graph == s.graph && t.root == s.root
  {
    ClassifyIndentedCoordinate(2, n, scope);
    LevelTwoUnderBareRootIsDropped(s, r, n, t);
  }

  /** Lines 53-67: the classification a line gets, computed the way the loop does it. */
  method ClassifyLine(line: string) returns (e: Option<Entry>)
    ensures e == Classify(line)
  {
    var level, rest := StripIndentation(line);
    var trimmed := Trim(rest);
    if StartsWith(trimmed, "[INFO]") || |trimmed| == 0 || StartsWith(trimmed, "---") {
      return None;
    }
    var matcher := FindFrom(trimmed, 0);
    if matcher.None? {
      return None;
    }
    return Some(Entry(level, matcher.value.1));
  }

  /**
   * Lines 69-81: intern the node, then set the root or attach the node under
   * the parent that the lookup returns.
   */
  method ApplyEntry(st: BuildState, e: Entry) returns (next: BuildState)
    requires Inv(st) && WellFormed(e.node)
    ensures EntryStep(st, e, next) && Inv(next)
    ensures next.nodes[Id(e.node)] == e.node
  {
    var nodes := Intern(st.nodes, e.node);
    var currentNode := nodes[Id(e.node)];
    var graph, root := st.graph, st.root;
    if e.level == 0 && root.None? {
      root := Some(currentNode);
      graph := graph[currentNode := {}];
    } else if root.Some? {
      var parent := FindParentAtLevel(graph, root.value, e.level - 1);
      if parent.Some? {
        graph := Attach(graph, parent.value, currentNode);
      }
    }
    next := BuildState(graph, nodes, root);
    EntryStepPreservesInv(st, e, next);
  }

  /** The classification of every line, in order. */
  function Entries(lines: seq<string>): (es: seq<Option<Entry>>)
    ensures |es| == |lines|
  {
    seq(|lines|, i requires 0 <= i < |lines| => Classify(lines[i]))
  }

  /** The node of the first level-0 entry: the root that the run settles on. */
  function FirstRoot(es: seq<Option<Entry>>): Option<DependencyNode> {
    if es == [] then None
    else if es[0].Some? && es[0].value.level == 0 then Some(es[0].value.node)
    else FirstRoot(es[1..])
  }

  lemma {:induction false} FirstRootSnoc(es: seq<Option<Entry>>, e: Option<Entry>)
    ensures FirstRoot(es + [e]) ==
      if FirstRoot(es).Some? then FirstRoot(es)
      else if e.Some? && e.value.level == 0 then Some(e.value.node)
      else None
    decreases |es|
  {
    if es == [] {
      assert [e][1..] == [];
    } else {
      assert (es + [e])[0] == es[0] && (es + [e])[1..] == es[1..] + [e];
      FirstRootSnoc(es[1..], e);
    }
  }

  /** `trace` is a run over the entries `es`: one state per iteration boundary, linked by `OptStep`. */
  ghost predicate IsRun(es: seq<Option<Entry>>, trace: seq<BuildState>) {
    && |trace| == |es| + 1
    && trace[0] == Initial()
    && forall i :: 0 <= i < |es| ==> OptStep(trace[i], es[i], trace[i + 1])
  }

  /**
   * The whole method. The graph it returns is the last state of a run over
   * the lines' classifications; no child lacks an entry; an input without a
   * level-0 match gives the empty graph; otherwise the first level-0 match
   * is a key and every key is reachable from it.
   */
  method BuildDependencyGraphFromOutput(outputLines: seq<string>) returns (graph: Graph, ghost trace: seq<BuildState>)
    ensures IsRun(Entries(outputLines), trace) && graph == trace[|outputLines|].graph
    ensures NoDangling(graph)
    ensures FirstRoot(Entries(outputLines)).None? <==> graph == map[]
    ensures FirstRoot(Entries(outputLines)).Some? ==>
              FirstRoot(Entries(outputLines)).value in graph &&
              forall k :: k in graph ==> Reachable(graph, FirstRoot(Entries(outputLines)).value, k)
  {
    ghost var es := Entries(outputLines);
    var st := Initial();
    trace := [st];
    for i := 0 to |outputLines|
      invariant IsRun(es[..i], trace) && trace[i] == st && Inv(st)
    {
      var next := st;
      var e := ClassifyLine(outputLines[i]);
      if e.Some? {
        next := ApplyEntry(st, e.value);
      }
      assert OptStep(st, es[i], next);
      ExtendRun(es[..i], trace, es[i], next);
      TakeSnoc(es, i);
      trace := trace + [next];
      st := next;
    }
    assert es[..|es|] == es;
    RunRoot(es, trace, |es|);
    graph := st.graph;
  }

  lemma TakeSnoc<T>(s: seq<T>, i: nat)
    requires i < |s|
    ensures s[..i + 1] == s[..i] + [s[i]]
  {
  }

  lemma ExtendRun(es: seq<Option<Entry>>, trace: seq<BuildState>, e: Option<Entry>, next: BuildState)
    requires IsRun(es, trace) && OptStep(trace[|es|], e, next)
    ensures IsRun(es + [e], trace + [next])
  {
    assert forall i :: 0 <= i < |es| ==> (es + [e])[i] == es[i];
  }

  /** Every state of a run satisfies the invariant. */
  lemma {:induction false} RunInv(es: seq<Option<Entry>>, trace: seq<BuildState>, i: nat)
    requires IsRun(es, trace) && i <= |es|
    ensures Inv(trace[i])
  {
    if i > 0 {
      RunInv(es, trace, i - 1);
      StepPreservesInv(trace[i - 1], es[i - 1], trace[i]);
    }
  }

  /** The graph only grows along a run. */
  lemma {:induction false} RunGrows(es: seq<Option<Entry>>, trace: seq<BuildState>, i: nat, j: nat)
    requires IsRun(es, trace) && i <= j <= |es|
    ensures SubGraph(trace[i].graph, trace[j].graph)
    decreases j - i
  {
    if i < j {
      RunInv(es, trace, i);
      StepChanges(trace[i], es[i], trace[i + 1]);
      RunGrows(es, trace, i + 1, j);
    }
  }

  /** The root of every run is the first level-0 entry, and a later level-0 entry never replaces it. */
  lemma {:induction false} RunRoot(es: seq<Option<Entry>>, trace: seq<BuildState>, i: nat)
    requires IsRun(es, trace) && i <= |es|
    ensures trace[i].root == FirstRoot(es[..i])
  {
    if i > 0 {
      RunRoot(es, trace, i - 1);
      FirstRootSnoc(es[..i - 1], es[i - 1]);
      assert es[..i] == es[..i - 1] + [es[i - 1]];
    }
  }

  /**
   * The first breadth-first match is a heuristic: when the root has two
   * children, an entry two levels deep may be attached under either of
   * them, whichever the set hands out first.
   */
  lemma EitherSiblingMayBeParent(s: BuildState, r: DependencyNode, a: DependencyNode, b: DependencyNode, e: Entry)
    requires r != a && r != b && WellFormed(e.node)
    requires s.root == Some(r) && s.graph == map[r := {a, b}, a := {}, b := {}] && e.level == 2
    ensures EntryStep(s, e, BuildState(Attach(s.graph, a, e.node), Intern(s.nodes, e.node), s.root))
    ensures EntryStep(s, e, BuildState(Attach(s.graph, b, e.node), Intern(s.nodes, e.node), s.root))
  {
    assert HasEdge(s.graph, r, a) && WalkTo(s.graph, a, a, 0);
    assert WalkTo(s.graph, r, a, 1);
    assert HasEdge(s.graph, r, b) && WalkTo(s.graph, b, b, 0);
    assert WalkTo(s.graph, r, b, 1);
  }
}
