/**
 * The dependency graph `Map<DependencyNode, Set<DependencyNode>>` as a map
 * value, and walks through it: the notion `findParentAtLevel` searches by.
 */
module Walks {
  import opened DependencyNodes

  type Graph = map<DependencyNode, set<DependencyNode>>

  /** `g` records the edge `p -> c`. */
  predicate HasEdge(g: Graph, p: DependencyNode, c: DependencyNode) {
    p in g && c in g[p]
  }

  /** Every node in a child set also has an entry of its own. */
  predicate NoDangling(g: Graph) {
    forall p, c :: p in g && c in g[p] ==> c in g
  }

  /** `h` has every key and every edge of `g`. */
  predicate SubGraph(g: Graph, h: Graph) {
    forall p :: p in g ==> p in h && g[p] <= h[p]
  }

  /** There is a walk of exactly `k` edges from `s` to `t` (nodes may repeat). */
  ghost predicate WalkTo(g: Graph, s: DependencyNode, t: DependencyNode, k: nat)
    decreases k
  {
    if k == 0 then s == t else exists c :: HasEdge(g, s, c) && WalkTo(g, c, t, k - 1)
  }

  /** Some walk of exactly `k` edges starts at `s`. */
  ghost predicate CanReach(g: Graph, s: DependencyNode, k: nat) {
    exists t :: WalkTo(g, s, t, k)
  }

  /** `t` is reachable from `s` by some walk. */
  ghost predicate Reachable(g: Graph, s: DependencyNode, t: DependencyNode) {
    exists k: nat :: WalkTo(g, s, t, k)
  }

  /** An independent reading: a sequence of nodes each joined to the next by an edge. */
  ghost predicate IsPath(g: Graph, w: seq<DependencyNode>) {
    |w| > 0 && forall i :: 0 <= i < |w| - 1 ==> HasEdge(g, w[i], w[i + 1])
  }

  lemma {:induction false} WalkHasPath(g: Graph, s: DependencyNode, t: DependencyNode, k: nat)
      returns (w: seq<DependencyNode>)
    requires WalkTo(g, s, t, k)
    ensures IsPath(g, w) && |w| == k + 1 && w[0] == s && w[k] == t
    decreases k
  {
    if k == 0 {
      w := [s];
    } else {
      var c :| HasEdge(g, s, c) && WalkTo(g, c, t, k - 1);
      var w' := WalkHasPath(g, c, t, k - 1);
      w := [s] + w';
      assert forall i :: 1 <= i < |w| - 1 ==> w[i] == w'[i - 1] && w[i + 1] == w'[i];
    }
  }

  lemma {:induction false} PathIsWalk(g: Graph, w: seq<DependencyNode>)
    requires IsPath(g, w)
    ensures WalkTo(g, w[0], w[|w| - 1], |w| - 1)
    decreases |w|
  {
    if |w| > 1 {
      var w' := w[1..];
      assert IsPath(g, w') by {
        forall i | 0 <= i < |w'| - 1 ensures HasEdge(g, w'[i], w'[i + 1]) {
          assert w'[i] == w[i + 1] && w'[i + 1] == w[i + 2];
        }
      }
      PathIsWalk(g, w');
      assert HasEdge(g, w[0], w'[0]);
    }
  }

  /** Walks are exactly the paths with `k + 1` nodes. */
  lemma WalkIffPath(g: Graph, s: DependencyNode, t: DependencyNode, k: nat)
    ensures WalkTo(g, s, t, k) <==> exists w :: IsPath(g, w) && |w| == k + 1 && w[0] == s && w[k] == t
  {
    if WalkTo(g, s, t, k) {
      var w := WalkHasPath(g, s, t, k);
    }
    if w :| IsPath(g, w) && |w| == k + 1 && w[0] == s && w[k] == t {
      PathIsWalk(g, w);
    }
  }

  /** A walk followed by one more edge is a walk. */
  lemma {:induction false} WalkExtend(g: Graph, s: DependencyNode, v: DependencyNode, k: nat, c: DependencyNode)
    requires WalkTo(g, s, v, k) && HasEdge(g, v, c)
    ensures WalkTo(g, s, c, k + 1)
    decreases k
  {
    if k > 0 {
      var m :| HasEdge(g, s, m) && WalkTo(g, m, v, k - 1);
      WalkExtend(g, m, v, k - 1, c);
    }
  }

  /** The last edge of a walk of `k + 1` edges. */
  lemma {:induction false} WalkLastEdge(g: Graph, s: DependencyNode, t: DependencyNode, k: nat)
      returns (p: DependencyNode)
    requires WalkTo(g, s, t, k + 1)
    ensures WalkTo(g, s, p, k) && HasEdge(g, p, t)
    decreases k
  {
    var m :| HasEdge(g, s, m) && WalkTo(g, m, t, k);
    if k == 0 {
      p := s;
    } else {
      var p' := WalkLastEdge(g, m, t, k - 1);
      p := p';
      assert WalkTo(g, s, p, k) by {
        assert HasEdge(g, s, m) && WalkTo(g, m, p, k - 1);
      }
    }
  }

  /** Walks survive when the graph grows. */
  lemma {:induction false} WalkMono(g: Graph, h: Graph, s: DependencyNode, t: DependencyNode, k: nat)
    requires SubGraph(g, h) && WalkTo(g, s, t, k)
    ensures WalkTo(h, s, t, k)
    decreases k
  {
    if k > 0 {
      var c :| HasEdge(g, s, c) && WalkTo(g, c, t, k - 1);
      WalkMono(g, h, c, t, k - 1);
      assert HasEdge(h, s, c);
    }
  }

  /** Without dangling children, a walk from a key ends at a key. */
  lemma {:induction false} WalkStaysInGraph(g: Graph, s: DependencyNode, t: DependencyNode, k: nat)
    requires NoDangling(g) && s in g && WalkTo(g, s, t, k)
    ensures t in g
    decreases k
  {
    if k > 0 {
      var c :| HasEdge(g, s, c) && WalkTo(g, c, t, k - 1);
      WalkStaysInGraph(g, c, t, k - 1);
    }
  }
}
