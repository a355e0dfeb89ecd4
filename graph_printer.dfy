/**
 * The root choice in `printDependencyGraph`: the first key, in the map's
 * iteration order, that no child set contains, or else the first key. The
 * iteration order is a parameter; the printing itself is not modelled.
 */
module GraphPrinter {
  import opened Wrappers
  import opened DependencyNodes
  import opened Walks
  import opened GraphBuilder

  /** `graph.values().stream().anyMatch(deps -> deps.contains(n))`. */
  predicate HasIncoming(g: Graph, n: DependencyNode) {
    exists p :: p in g && n in g[p]
  }

  /** `filter(no incoming edge).findFirst()` over `order`: the index of the first such key. */
  function FirstSource(g: Graph, order: seq<DependencyNode>): (r: Option<nat>)
    ensures r.Some? ==> r.value < |order| && !HasIncoming(g, order[r.value])
    ensures r.Some? ==> forall i :: 0 <= i < r.value ==> HasIncoming(g, order[i])
    ensures r.None? ==> forall i :: 0 <= i < |order| ==> HasIncoming(g, order[i])
  {
    if order == [] then None
    else if !HasIncoming(g, order[0]) then Some(0)
    else match FirstSource(g, order[1..])
      case None => None
      case Some(i) => Some(i + 1)
  }

  /**
   * Lines 126-135, with `keyOrder` the iteration order of `graph.keySet()`:
   * nothing for an empty graph; otherwise the first key without an incoming
   * edge when there is one, and the first key when every key has one.
   */
  function SelectRoot(graph: Graph, keyOrder: seq<DependencyNode>): (r: Option<DependencyNode>)
    requires forall k :: k in graph <==> k in keyOrder
    ensures r.None? <==> graph == map[]
    ensures r.Some? ==> r.value in graph
    ensures (exists k :: k in graph && !HasIncoming(graph, k)) ==>
              r.Some? && !HasIncoming(graph, r.value) &&
              exists i :: 0 <= i < |keyOrder| && keyOrder[i] == r.value &&
                forall j :: 0 <= j < i ==> HasIncoming(graph, keyOrder[j])
    ensures graph != map[] && (forall k :: k in graph ==> HasIncoming(graph, k)) ==> r == Some(keyOrder[0])
  {
    if keyOrder == [] then
      assert graph.Keys == {};
      None
    else
      assert keyOrder[0] in graph;
      match FirstSource(graph, keyOrder)
      case Some(i) => Some(keyOrder[i])
      case None =>
        assert forall k :: k in graph ==> HasIncoming(graph, k) by {
          forall k | k in graph ensures HasIncoming(graph, k) {
            var i :| 0 <= i < |keyOrder| && keyOrder[i] == k;
          }
        }
        Some(keyOrder[0])
  }

  /** In a graph the builder has made, only the root can lack an incoming edge. */
  lemma OnlyRootIsSource(s: BuildState, k: DependencyNode)
    requires Inv(s) && s.root.Some? && k in s.graph && k != s.root.value
    ensures HasIncoming(s.graph, k)
  {
    var n: nat :| WalkTo(s.graph, s.root.value, k, n);
    var p := WalkLastEdge(s.graph, s.root.value, k, n - 1);
    WalkStaysInGraph(s.graph, s.root.value, p, n - 1);
  }

  /** When nothing points back at the builder's root, the printer starts from that root. */
  lemma PrinterFindsBuilderRoot(s: BuildState, keyOrder: seq<DependencyNode>)
    requires Inv(s) && s.root.Some? && !HasIncoming(s.graph, s.root.value)
    requires forall k :: k in s.graph <==> k in keyOrder
    ensures SelectRoot(s.graph, keyOrder) == s.root
  {
    var r := SelectRoot(s.graph, keyOrder).value;
    if r != s.root.value {
      OnlyRootIsSource(s, r);
    }
  }

  /**
   * When some edge points back at the builder's root, every key has an
   * incoming edge and the printer falls back to whatever key comes first.
   */
  lemma PrinterFallsBack(s: BuildState, keyOrder: seq<DependencyNode>)
    requires Inv(s) && s.root.Some? && HasIncoming(s.graph, s.root.value)
    requires forall k :: k in s.graph <==> k in keyOrder
    ensures SelectRoot(s.graph, keyOrder) == Some(keyOrder[0])
  {
    forall k | k in s.graph ensures HasIncoming(s.graph, k) {
      if k != s.root.value {
        OnlyRootIsSource(s, k);
      }
    }
  }
}
