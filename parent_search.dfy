/**
 * `findParentAtLevel`: a breadth-first walk from the root that carries the
 * walk length with every queued node and returns the first node dequeued at
 * the target length. There is no visited set; the walk still ends on a
 * cyclic graph because a node at the target length is never expanded.
 *
 * The order in which a `HashSet` hands out its elements is not visible in
 * the source, so the loop over a child set takes the children in an
 * arbitrary order, and the method is specified by what holds whatever that
 * order is.
 */
module ParentSearch {
  import opened Wrappers
  import opened DependencyNodes
  import opened Walks

  /** Every node that is some key's child. */
  function AllChildren(g: Graph): set<DependencyNode> {
    set p, c | p in g && c in g[p] :: c
  }

  lemma {:induction false} SubsetCard<T>(a: set<T>, b: set<T>)
    requires a <= b
    ensures |a| <= |b|
    decreases |a|
  {
    if a != {} {
      var x :| x in a;
      SubsetCard(a - {x}, b - {x});
    }
  }

  /** How many queue entries an entry `k` edges short of the target can lead to, itself included, when no node has more than `deg` children. */
  ghost function Budget(deg: nat, k: nat): (b: nat)
    ensures b >= 1
  {
    if k == 0 then 1 else 1 + deg * Budget(deg, k - 1)
  }

  /** The termination measure of the walk: the budgets of all queued entries. */
  ghost function Weight(q: seq<(DependencyNode, nat)>, deg: nat, target: nat): nat {
    if q == [] then 0
    else (if q[0].1 <= target then Budget(deg, target - q[0].1) else 0) + Weight(q[1..], deg, target)
  }

  lemma MulMono(a: nat, b: nat, c: nat)
    requires a <= b
    ensures a * c <= b * c
  {
  }

  /** Some queued entry can still be continued to a node at the target length. */
  ghost predicate Promising(g: Graph, q: seq<(DependencyNode, nat)>, target: nat) {
    exists i :: 0 <= i < |q| && q[i].1 <= target && CanReach(g, q[i].0, target - q[i].1)
  }

  lemma PromisingAfterPoll(g: Graph, q: seq<(DependencyNode, nat)>, target: nat)
    requires Promising(g, q, target) && q[0].1 < target
    ensures Promising(g, q[1..], target) ||
            (q[0].0 in g && exists c :: c in g[q[0].0] && CanReach(g, c, target - q[0].1 - 1))
  {
    var i :| 0 <= i < |q| && q[i].1 <= target && CanReach(g, q[i].0, target - q[i].1);
    if i == 0 {
      var t :| WalkTo(g, q[0].0, t, target - q[0].1);
      var c :| HasEdge(g, q[0].0, c) && WalkTo(g, c, t, target - q[0].1 - 1);
      assert c in g[q[0].0] && CanReach(g, c, target - q[0].1 - 1);
    } else {
      assert q[1..][i - 1] == q[i];
    }
  }

  lemma {:induction false} WeightConcat(q: seq<(DependencyNode, nat)>, r: seq<(DependencyNode, nat)>, deg: nat, target: nat)
    ensures Weight(q + r, deg, target) == Weight(q, deg, target) + Weight(r, deg, target)
    decreases |q|
  {
    if q == [] {
      assert q + r == r;
    } else {
      assert (q + r)[0] == q[0] && (q + r)[1..] == q[1..] + r;
      WeightConcat(q[1..], r, deg, target);
    }
  }

  /** The queue entries for `xs`, all at the same walk length. */
  function AtLevel(xs: seq<DependencyNode>, level: nat): (r: seq<(DependencyNode, nat)>)
    ensures |r| == |xs| && forall i :: 0 <= i < |xs| ==> r[i] == (xs[i], level)
  {
    seq(|xs|, i requires 0 <= i < |xs| => (xs[i], level))
  }

  lemma {:induction false} WeightAtLevel(xs: seq<DependencyNode>, level: nat, deg: nat, target: nat)
    requires level <= target
    ensures Weight(AtLevel(xs, level), deg, target) == |xs| * Budget(deg, target - level)
    decreases |xs|
  {
    if xs != [] {
      var b := Budget(deg, target - level);
      assert AtLevel(xs, level)[1..] == AtLevel(xs[1..], level);
      WeightAtLevel(xs[1..], level, deg, target);
      assert |xs| * b == b + |xs[1..]| * b;
    }
  }

  /**
   * The `for (DependencyNode dep : dependencies) queue.offer(...)` loop:
   * every child is appended once, one level further, in the set's order.
   */
  method OfferChildren(queue: seq<(DependencyNode, nat)>, dependencies: set<DependencyNode>, level: nat)
      returns (q: seq<(DependencyNode, nat)>, order: seq<DependencyNode>)
    ensures q == queue + AtLevel(order, level + 1)
    ensures |order| == |dependencies| && forall c :: c in dependencies <==> c in order
  {
    q, order := queue, [];
    var remaining := dependencies;
    while remaining != {}
      invariant remaining <= dependencies
      invariant q == queue + AtLevel(order, level + 1)
      invariant |order| == |dependencies - remaining|
      invariant forall c :: c in dependencies - remaining <==> c in order
      decreases remaining
    {
      var dep :| dep in remaining;
      q := q + [(dep, level + 1)];
      order := order + [dep];
      assert dependencies - (remaining - {dep}) == (dependencies - remaining) + {dep};
      remaining := remaining - {dep};
    }
    assert dependencies - remaining == dependencies;
  }

  /**
   * The parent lookup: `None` for a negative target; otherwise some node at
   * the end of a walk of exactly `targetLevel` edges from `startNode`, and
   * `None` exactly when no such walk exists.
   */
  method FindParentAtLevel(graph: Graph, startNode: DependencyNode, targetLevel: int)
      returns (found: Option<DependencyNode>)
    ensures found.Some? ==> 0 <= targetLevel && WalkTo(graph, startNode, found.value, targetLevel)
    ensures found.None? <==> targetLevel < 0 || !CanReach(graph, startNode, targetLevel)
  {
    if targetLevel < 0 {
      return None;
    }
    var target: nat := targetLevel;
    ghost var deg := |AllChildren(graph)|;
    var queue: seq<(DependencyNode, nat)> := [(startNode, 0)];
    found := None;
    assert WalkTo(graph, startNode, startNode, 0);
    assert CanReach(graph, startNode, target) ==> queue[0].1 <= target && CanReach(graph, queue[0].0, target - queue[0].1);
    while queue != []
      invariant found == None
      invariant forall i :: 0 <= i < |queue| ==> queue[i].1 <= target && WalkTo(graph, startNode, queue[i].0, queue[i].1)
      invariant CanReach(graph, startNode, target) ==> Promising(graph, queue, target)
      decreases Weight(queue, deg, target)
    {
      ghost var polled := queue;
      var node, level := queue[0].0, queue[0].1;
      queue := queue[1..];
      if level == target {
        found := Some(node);
        break;
      }
      if node in graph {
        var dependencies := graph[node];
        var order;
        queue, order := OfferChildren(queue, dependencies, level);
        ExpandStep(graph, startNode, polled, order, target, deg);
      } else {
        assert Weight(polled, deg, target) == Budget(deg, target - level) + Weight(queue, deg, target);
        if CanReach(graph, startNode, target) {
          PromisingAfterPoll(graph, polled, target);
        }
      }
    }
    if found.Some? {
      assert CanReach(graph, startNode, target);
    }
  }

  /** What one expansion of a dequeued entry keeps: the loop invariants, and a smaller measure. */
  lemma ExpandStep(graph: Graph, startNode: DependencyNode, polled: seq<(DependencyNode, nat)>,
                   order: seq<DependencyNode>, target: nat, deg: nat)
    requires polled != [] && polled[0].1 < target && polled[0].0 in graph
    requires deg == |AllChildren(graph)|
    requires forall i :: 0 <= i < |polled| ==> polled[i].1 <= target && WalkTo(graph, startNode, polled[i].0, polled[i].1)
    requires CanReach(graph, startNode, target) ==> Promising(graph, polled, target)
    requires |order| == |graph[polled[0].0]| && forall c :: c in graph[polled[0].0] <==> c in order
    ensures var queue := polled[1..] + AtLevel(order, polled[0].1 + 1);
      && (forall i :: 0 <= i < |queue| ==> queue[i].1 <= target && WalkTo(graph, startNode, queue[i].0, queue[i].1))
      && (CanReach(graph, startNode, target) ==> Promising(graph, queue, target))
      && Weight(queue, deg, target) < Weight(polled, deg, target)
  {
    var node, level := polled[0].0, polled[0].1;
    var rest, added := polled[1..], AtLevel(order, level + 1);
    ExpandSound(graph, startNode, node, level, rest, order, target);
    if CanReach(graph, startNode, target) {
      PromisingAfterPoll(graph, polled, target);
      ExpandPromising(graph, node, level, rest, order, target);
    }
    var k: nat := target - level - 1;
    WeightConcat(rest, added, deg, target);
    WeightAtLevel(order, level + 1, deg, target);
    SubsetCard(graph[node], AllChildren(graph));
    MulMono(|order|, deg, Budget(deg, k));
    assert Weight(polled, deg, target) == Budget(deg, k + 1) + Weight(rest, deg, target);
  }

  lemma ExpandSound(graph: Graph, startNode: DependencyNode, node: DependencyNode, level: nat,
                    rest: seq<(DependencyNode, nat)>, order: seq<DependencyNode>, target: nat)
    requires level < target && WalkTo(graph, startNode, node, level)
    requires forall i :: 0 <= i < |rest| ==> rest[i].1 <= target && WalkTo(graph, startNode, rest[i].0, rest[i].1)
    requires forall c :: c in order ==> HasEdge(graph, node, c)
    ensures var queue := rest + AtLevel(order, level + 1);
      forall i :: 0 <= i < |queue| ==> queue[i].1 <= target && WalkTo(graph, startNode, queue[i].0, queue[i].1)
  {
    var queue := rest + AtLevel(order, level + 1);
    forall i | 0 <= i < |queue|
      ensures queue[i].1 <= target && WalkTo(graph, startNode, queue[i].0, queue[i].1)
    {
      if i < |rest| {
        assert queue[i] == rest[i];
      } else {
        assert queue[i] == (order[i - |rest|], level + 1);
        WalkExtend(graph, startNode, node, level, order[i - |rest|]);
      }
    }
  }

  lemma ExpandPromising(graph: Graph, node: DependencyNode, level: nat,
                        rest: seq<(DependencyNode, nat)>, order: seq<DependencyNode>, target: nat)
    requires level < target
    requires Promising(graph, rest, target) ||
             (node in graph && exists c :: c in graph[node] && CanReach(graph, c, target - level - 1))
    requires node in graph ==> forall c :: c in graph[node] ==> c in order
    ensures Promising(graph, rest + AtLevel(order, level + 1), target)
  {
    var queue := rest + AtLevel(order, level + 1);
    if Promising(graph, rest, target) {
      var i :| 0 <= i < |rest| && rest[i].1 <= target && CanReach(graph, rest[i].0, target - rest[i].1);
      assert queue[i] == rest[i];
    } else {
      var c :| c in graph[node] && CanReach(graph, c, target - level - 1);
      var j :| 0 <= j < |order| && order[j] == c;
      assert queue[|rest| + j] == (c, level + 1);
    }
  }
}
