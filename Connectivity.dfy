/** Connectivity of an undirected graph given by its edge list: the
    reference notions against which Kruskal's output is judged. */
module Connectivity {
  import opened Nodes

  /** `x` and `y` lie in the same connected component of the undirected
      graph whose edges are `edges` (the orientation of an edge does not
      matter). Defined edge by edge: with no edges only `x` itself is
      reachable from `x`, and adding an edge between `e.from` and `e.to`
      merges the component of `e.from` with that of `e.to`. */
  predicate Reachable(edges: seq<Edge>, x: ClueNode, y: ClueNode)
    decreases |edges|
  {
    if edges == [] then x == y
    else
      var f, e := edges[..|edges| - 1], edges[|edges| - 1];
      || Reachable(f, x, y)
      || (Reachable(f, x, e.from) && Reachable(f, e.to, y))
      || (Reachable(f, x, e.to) && Reachable(f, e.from, y))
  }

  /** Unfolds `Reachable` for an edge list written as `f + [e]`. */
  lemma ReachableSnoc(f: seq<Edge>, e: Edge, x: ClueNode, y: ClueNode)
    ensures Reachable(f + [e], x, y) <==>
      || Reachable(f, x, y)
      || (Reachable(f, x, e.from) && Reachable(f, e.to, y))
      || (Reachable(f, x, e.to) && Reachable(f, e.from, y))
  {
    assert (f + [e])[..|f|] == f;
  }

  lemma {:induction false} ReachableRefl(edges: seq<Edge>, x: ClueNode)
    ensures Reachable(edges, x, x)
    decreases |edges|
  {
    if edges != [] {
      ReachableRefl(edges[..|edges| - 1], x);
    }
  }

  lemma {:induction false} ReachableSym(edges: seq<Edge>, x: ClueNode, y: ClueNode)
    requires Reachable(edges, x, y)
    ensures Reachable(edges, y, x)
    decreases |edges|
  {
    if edges != [] {
      var f, e := edges[..|edges| - 1], edges[|edges| - 1];
      if Reachable(f, x, y) {
        ReachableSym(f, x, y);
      } else if Reachable(f, x, e.from) && Reachable(f, e.to, y) {
        ReachableSym(f, x, e.from);
        ReachableSym(f, e.to, y);
      } else {
        ReachableSym(f, x, e.to);
        ReachableSym(f, e.from, y);
      }
    }
  }

  lemma {:induction false} ReachableTrans(edges: seq<Edge>, x: ClueNode, y: ClueNode, z: ClueNode)
    requires Reachable(edges, x, y) && Reachable(edges, y, z)
    ensures Reachable(edges, x, z)
    decreases |edges|
  {
    if edges != [] {
      var f, e := edges[..|edges| - 1], edges[|edges| - 1];
      var a, b := e.from, e.to;
      // Each hypothesis links its pair in `f` directly, through a-b or
      // through b-a: nine cases, each closed by transitivity in `f`.
      if Reachable(f, x, y) {
        if Reachable(f, y, z) {
          ReachableTrans(f, x, y, z);
        } else if Reachable(f, y, a) && Reachable(f, b, z) {
          ReachableTrans(f, x, y, a);
        } else {
          ReachableTrans(f, x, y, b);
        }
      } else if Reachable(f, x, a) && Reachable(f, b, y) {
        if Reachable(f, y, z) {
          ReachableTrans(f, b, y, z);
        } else if Reachable(f, y, a) && Reachable(f, b, z) {
          // x - a, b - y - a, so b reaches a in f; then x reaches z via a - b
          ReachableTrans(f, b, y, a);
          ReachableSym(f, b, a);
          ReachableTrans(f, a, b, z);
          ReachableTrans(f, x, a, z);
        } else {
          // x - a, b - y, y - b, a - z
          ReachableTrans(f, x, a, z);
        }
      } else {
        // x - b, a - y
        if Reachable(f, y, z) {
          ReachableTrans(f, a, y, z);
        } else if Reachable(f, y, a) && Reachable(f, b, z) {
          ReachableTrans(f, x, b, z);
        } else {
          // x - b, a - y, y - b, a - z: a reaches b in f, so x reaches z
          ReachableTrans(f, a, y, b);
          ReachableSym(f, a, b);
          ReachableTrans(f, b, a, z);
          ReachableTrans(f, x, b, z);
        }
      }
    }
  }

  /** Adding edges never disconnects anything. */
  lemma {:induction false} ReachablePrefix(edges: seq<Edge>, m: nat, x: ClueNode, y: ClueNode)
    requires m <= |edges|
    requires Reachable(edges[..m], x, y)
    ensures Reachable(edges, x, y)
    decreases |edges|
  {
    if m < |edges| {
      var f := edges[..|edges| - 1];
      assert f[..m] == edges[..m];
      ReachablePrefix(f, m, x, y);
    } else {
      assert edges[..m] == edges;
    }
  }

  /** The two endpoints of an edge of the graph are connected. */
  lemma ReachableEdge(edges: seq<Edge>, k: nat)
    requires k < |edges|
    ensures Reachable(edges, edges[k].from, edges[k].to)
    ensures Reachable(edges, edges[k].to, edges[k].from)
  {
    var e := edges[k];
    ReachableRefl(edges[..k], e.from);
    ReachableRefl(edges[..k], e.to);
    ReachableSnoc(edges[..k], e, e.from, e.to);
    assert edges[..k] + [e] == edges[..k + 1];
    ReachablePrefix(edges, k + 1, e.from, e.to);
    ReachableSym(edges, e.from, e.to);
  }

  /** If every edge of `edges` joins nodes that are connected in `other`,
      everything connected in `edges` is connected in `other`. */
  lemma {:induction false} ReachableSubsumed(edges: seq<Edge>, other: seq<Edge>, x: ClueNode, y: ClueNode)
    requires forall k :: 0 <= k < |edges| ==> Reachable(other, edges[k].from, edges[k].to)
    requires Reachable(edges, x, y)
    ensures Reachable(other, x, y)
    decreases |edges|
  {
    if edges == [] {
      ReachableRefl(other, x);
    } else {
      var f, e := edges[..|edges| - 1], edges[|edges| - 1];
      assert forall k :: 0 <= k < |f| ==> f[k] == edges[k];
      assert Reachable(other, e.from, e.to);
      if Reachable(f, x, y) {
        ReachableSubsumed(f, other, x, y);
      } else if Reachable(f, x, e.from) && Reachable(f, e.to, y) {
        ReachableSubsumed(f, other, x, e.from);
        ReachableSubsumed(f, other, e.to, y);
        ReachableTrans(other, x, e.from, e.to);
        ReachableTrans(other, x, e.to, y);
      } else {
        ReachableSubsumed(f, other, x, e.to);
        ReachableSubsumed(f, other, e.from, y);
        ReachableSym(other, e.from, e.to);
        ReachableTrans(other, x, e.to, e.from);
        ReachableTrans(other, x, e.from, y);
      }
    }
  }

  /** No edge closes a cycle: each edge joins two nodes that the edges
      before it leave in different components. */
  ghost predicate IsForest(edges: seq<Edge>)
  {
    forall k :: 0 <= k < |edges| ==> !Reachable(edges[..k], edges[k].from, edges[k].to)
  }

  /** Whatever the edges of a sub-list connect, the whole list connects. */
  lemma ReachableSubset(edges: seq<Edge>, other: seq<Edge>)
    requires forall k :: 0 <= k < |edges| ==> edges[k] in other
    ensures forall x, y :: Reachable(edges, x, y) ==> Reachable(other, x, y)
  {
    forall k | 0 <= k < |edges| ensures Reachable(other, edges[k].from, edges[k].to) {
      var j :| 0 <= j < |other| && other[j] == edges[k];
      ReachableEdge(other, j);
    }
    forall x, y | Reachable(edges, x, y) ensures Reachable(other, x, y) {
      ReachableSubsumed(edges, other, x, y);
    }
  }

  /** Dropping the last edge of a forest leaves a forest that does not
      connect the dropped edge's endpoints. */
  lemma ForestPrefix(f: seq<Edge>)
    requires IsForest(f) && f != []
    ensures IsForest(f[..|f| - 1])
    ensures !Reachable(f[..|f| - 1], f[|f| - 1].from, f[|f| - 1].to)
  {
    var p := f[..|f| - 1];
    forall k | 0 <= k < |p| ensures !Reachable(p[..k], p[k].from, p[k].to) {
      assert p[..k] == f[..k] && p[k] == f[k];
    }
  }

  /** An edge between two components extends a forest to a forest. */
  lemma ForestAppend(f: seq<Edge>, e: Edge)
    requires IsForest(f)
    requires !Reachable(f, e.from, e.to)
    ensures IsForest(f + [e])
  {
    var f' := f + [e];
    forall k | 0 <= k < |f'| ensures !Reachable(f'[..k], f'[k].from, f'[k].to) {
      if k < |f| {
        assert f'[..k] == f[..k];
      } else {
        assert f'[..k] == f;
      }
    }
  }

  /** A forest has no edge from a node to itself. */
  lemma ForestNoSelfLoops(edges: seq<Edge>)
    requires IsForest(edges)
    ensures NoSelfLoops(edges)
  {
    forall k | 0 <= k < |edges| ensures edges[k].from != edges[k].to {
      ReachableRefl(edges[..k], edges[k].from);
    }
  }

  /** Every pair of nodes of `nodes` is connected. */
  ghost predicate ConnectsAll(nodes: set<ClueNode>, edges: seq<Edge>)
  {
    forall x, y :: x in nodes && y in nodes ==> Reachable(edges, x, y)
  }

  /** The component of `x` among `nodes`. */
  ghost function Component(nodes: set<ClueNode>, edges: seq<Edge>, x: ClueNode): set<ClueNode>
  {
    set y | y in nodes && Reachable(edges, x, y)
  }

  /** The number of connected components of the graph on `nodes`. */
  ghost function ComponentCount(nodes: set<ClueNode>, edges: seq<Edge>): nat
  {
    |set x | x in nodes :: Component(nodes, edges, x)|
  }

  /** Within one component every node has the same component. */
  lemma SameComponent(nodes: set<ClueNode>, edges: seq<Edge>, x: ClueNode, y: ClueNode)
    requires Reachable(edges, x, y)
    ensures Component(nodes, edges, x) == Component(nodes, edges, y)
  {
    ReachableSym(edges, x, y);
    forall z | z in nodes ensures Reachable(edges, x, z) <==> Reachable(edges, y, z) {
      if Reachable(edges, x, z) {
        ReachableTrans(edges, y, x, z);
      }
      if Reachable(edges, y, z) {
        ReachableTrans(edges, x, y, z);
      }
    }
  }

  /** Graphs with the same connectivity have the same number of components. */
  lemma ComponentCountCongruent(nodes: set<ClueNode>, e1: seq<Edge>, e2: seq<Edge>)
    requires forall x, y :: x in nodes && y in nodes ==> (Reachable(e1, x, y) <==> Reachable(e2, x, y))
    ensures ComponentCount(nodes, e1) == ComponentCount(nodes, e2)
  {
    forall x | x in nodes ensures Component(nodes, e1, x) == Component(nodes, e2, x) {
    }
    assert (set x | x in nodes :: Component(nodes, e1, x)) == (set x | x in nodes :: Component(nodes, e2, x));
  }

  /** A set of pairwise unconnected nodes has one component per member. */
  lemma {:induction false} ComponentsOfReps(nodes: set<ClueNode>, edges: seq<Edge>, reps: set<ClueNode>)
    requires reps <= nodes
    requires forall r, s :: r in reps && s in reps && r != s ==> !Reachable(edges, r, s)
    ensures |set r | r in reps :: Component(nodes, edges, r)| == |reps|
    decreases reps
  {
    if reps != {} {
      var r :| r in reps;
      var rest := reps - {r};
      ComponentsOfReps(nodes, edges, rest);
      var img := set s | s in rest :: Component(nodes, edges, s);
      ReachableRefl(edges, r);
      assert Component(nodes, edges, r) !in img by {
        forall s | s in rest ensures Component(nodes, edges, s) != Component(nodes, edges, r) {
          assert r !in Component(nodes, edges, s);
        }
      }
      assert (set s | s in reps :: Component(nodes, edges, s)) == img + {Component(nodes, edges, r)};
    }
  }

  /** The number of components equals the size of any set of
      representatives: one node of each component. */
  lemma ComponentCountByReps(nodes: set<ClueNode>, edges: seq<Edge>, reps: set<ClueNode>)
    requires reps <= nodes
    requires forall r, s :: r in reps && s in reps && r != s ==> !Reachable(edges, r, s)
    requires forall x :: x in nodes ==> exists r :: r in reps && Reachable(edges, x, r)
    ensures ComponentCount(nodes, edges) == |reps|
  {
    ComponentsOfReps(nodes, edges, reps);
    var all := set x | x in nodes :: Component(nodes, edges, x);
    var img := set r | r in reps :: Component(nodes, edges, r);
    forall c | c in all ensures c in img {
      var x :| x in nodes && c == Component(nodes, edges, x);
      var r :| r in reps && Reachable(edges, x, r);
      SameComponent(nodes, edges, x, r);
    }
    assert all == img;
  }

  /** A graph that connects every pair of a nonempty node set has exactly
      one component. */
  lemma ConnectedHasOneComponent(nodes: set<ClueNode>, edges: seq<Edge>)
    requires nodes != {}
    requires ConnectsAll(nodes, edges)
    ensures ComponentCount(nodes, edges) == 1
  {
    var r :| r in nodes;
    ComponentCountByReps(nodes, edges, {r});
  }
}
