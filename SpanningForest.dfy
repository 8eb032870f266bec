/** The invariant between the disjoint-set structure and the edges Kruskal's
    algorithm has kept so far: two nodes share a root exactly when the kept
    edges connect them, and every kept edge has used up one root. */
module SpanningForest {
  import opened Nodes
  import opened Connectivity
  import opened DisjointSet
  import opened Sorting
  import opened Minimality

  /** `RootOf` under a name of its own, so that the quantifiers below are
      triggered by the roots the proofs ask about and not by each step of
      the walk to the root. */
  ghost function Rep(parent: map<ClueNode, ClueNode>, depth: map<ClueNode, nat>, x: ClueNode): ClueNode
    requires Acyclic(parent, depth) && x in parent
  {
    RootOf(parent, depth, x)
  }

  ghost predicate Tracks(parent: map<ClueNode, ClueNode>, depth: map<ClueNode, nat>,
                         nodes: set<ClueNode>, edges: seq<Edge>)
  {
    && Acyclic(parent, depth)
    && parent.Keys == nodes
    && (forall x, y {:trigger Reachable(edges, x, y)} :: x in nodes && y in nodes ==>
          (Rep(parent, depth, x) == Rep(parent, depth, y) <==> Reachable(edges, x, y)))
    && |Roots(parent)| + |edges| == |nodes|
  }

  /** The map every node of `nodes` is its own parent in. */
  ghost function Singletons(nodes: set<ClueNode>): map<ClueNode, ClueNode>
  {
    map x | x in nodes :: x
  }

  /** The singleton sets track the empty edge list. */
  lemma TracksInitially(nodes: set<ClueNode>, depth: map<ClueNode, nat>)
    requires Acyclic(Singletons(nodes), depth)
    ensures Tracks(Singletons(nodes), depth, nodes, [])
  {
    var p := Singletons(nodes);
    assert Roots(p) == nodes;
  }

  /** The root a node of the old forest with root `r` has after its sets
      with roots `rA` and `rB` are merged under `m`. */
  function Relabel(r: ClueNode, rA: ClueNode, rB: ClueNode, m: ClueNode): ClueNode
  {
    if r == rA || r == rB then m else r
  }

  /** Adding an edge from `e.from` (root `rB`) to `e.to` (root `rA`) connects
      `x` and `y` exactly when their roots agree once the two sets are merged. */
  lemma MergePair(edges: seq<Edge>, e: Edge, x: ClueNode, y: ClueNode,
                  rA: ClueNode, rB: ClueNode, rx: ClueNode, ry: ClueNode, m: ClueNode)
    requires rA != rB && (m == rA || m == rB)
    requires Reachable(edges, x, y) <==> rx == ry
    requires Reachable(edges, x, e.to) <==> rx == rA
    requires Reachable(edges, x, e.from) <==> rx == rB
    requires Reachable(edges, e.to, y) <==> rA == ry
    requires Reachable(edges, e.from, y) <==> rB == ry
    ensures Relabel(rx, rA, rB, m) == Relabel(ry, rA, rB, m) <==> Reachable(edges + [e], x, y)
  {
    ReachableSnoc(edges, e, x, y);
  }

  /** Merging the sets of `e.to` and `e.from` under one of their two roots
      gives roots that agree exactly where the edges with `e` added connect. */
  lemma MergeAgrees(parent: map<ClueNode, ClueNode>, depth: map<ClueNode, nat>,
                    nodes: set<ClueNode>, edges: seq<Edge>, e: Edge,
                    newRoot: map<ClueNode, ClueNode>, m: ClueNode)
    requires Tracks(parent, depth, nodes, edges)
    requires e.to in nodes && e.from in nodes
    requires Rep(parent, depth, e.to) != Rep(parent, depth, e.from)
    requires m == Rep(parent, depth, e.to) || m == Rep(parent, depth, e.from)
    requires forall x :: x in nodes ==> x in newRoot
    requires forall x :: x in nodes ==>
      newRoot[x] == Relabel(Rep(parent, depth, x), Rep(parent, depth, e.to), Rep(parent, depth, e.from), m)
    ensures forall x, y :: x in nodes && y in nodes ==>
      (newRoot[x] == newRoot[y] <==> Reachable(edges + [e], x, y))
  {
    var rA, rB := Rep(parent, depth, e.to), Rep(parent, depth, e.from);
    forall x, y | x in nodes && y in nodes
      ensures newRoot[x] == newRoot[y] <==> Reachable(edges + [e], x, y)
    {
      var rx, ry := Rep(parent, depth, x), Rep(parent, depth, y);
      assert Reachable(edges, x, y) <==> rx == ry;
      assert Reachable(edges, x, e.to) <==> rx == rA;
      assert Reachable(edges, x, e.from) <==> rx == rB;
      assert Reachable(edges, e.to, y) <==> rA == ry;
      assert Reachable(edges, e.from, y) <==> rB == ry;
      MergePair(edges, e, x, y, rA, rB, rx, ry, m);
    }
  }

  /** `union(a, b)` on roots that differ, with an edge between `b` and `a`
      kept, re-establishes the invariant. */
  lemma TracksUnion(parent: map<ClueNode, ClueNode>, depth: map<ClueNode, nat>,
                    nodes: set<ClueNode>, edges: seq<Edge>, a: ClueNode, b: ClueNode,
                    depth': map<ClueNode, nat>, w: real)
    requires Tracks(parent, depth, nodes, edges)
    requires UniqueIds(nodes)
    requires a in nodes && b in nodes
    requires Rep(parent, depth, a) != Rep(parent, depth, b)
    requires Acyclic(UnionResult(parent, depth, a, b), depth')
    ensures Tracks(UnionResult(parent, depth, a, b), depth', nodes, edges + [Edge(b, a, w)])
  {
    var p' := UnionResult(parent, depth, a, b);
    var rA, rB := Rep(parent, depth, a), Rep(parent, depth, b);
    var m := if rA.id <= rB.id then rA else rB;
    SameIdSameRoot(parent, depth, a, b);
    UnionResultRoots(parent, depth, a, b, depth');
    UnionResultRootSet(parent, depth, a, b);
    var big, q := UnionIsLink(parent, depth, a, b);
    assert big in Roots(parent);
    assert |Roots(p')| + 1 == |Roots(parent)|;
    var newRoot := map x | x in nodes :: Rep(p', depth', x);
    forall x | x in nodes ensures newRoot[x] == Relabel(Rep(parent, depth, x), rA, rB, m) {
      assert RootOf(p', depth', x) == MergedRoot(parent, depth, a, b, x);
    }
    MergeAgrees(parent, depth, nodes, edges, Edge(b, a, w), newRoot, m);
  }

  /** A root is its own root, and every node's root is one of the roots. */
  lemma RepOfRep(parent: map<ClueNode, ClueNode>, depth: map<ClueNode, nat>, x: ClueNode)
    requires Acyclic(parent, depth) && x in parent
    ensures Rep(parent, depth, x) in Roots(parent)
    ensures Rep(parent, depth, Rep(parent, depth, x)) == Rep(parent, depth, x)
  {
    RootOfIsRoot(parent, depth, x);
  }

  /** While the invariant holds, the roots are representatives of the
      components: one per component. */
  lemma TracksComponents(parent: map<ClueNode, ClueNode>, depth: map<ClueNode, nat>,
                         nodes: set<ClueNode>, edges: seq<Edge>)
    requires Tracks(parent, depth, nodes, edges)
    ensures ComponentCount(nodes, edges) == |Roots(parent)|
    ensures |edges| + ComponentCount(nodes, edges) == |nodes|
  {
    var reps := Roots(parent);
    forall r, s | r in reps && s in reps && r != s ensures !Reachable(edges, r, s) {
      assert Rep(parent, depth, r) == r && Rep(parent, depth, s) == s;
    }
    forall x | x in nodes ensures exists r :: r in reps && Reachable(edges, x, r) {
      RepOfRep(parent, depth, x);
      var r := Rep(parent, depth, x);
      assert Reachable(edges, x, r);
    }
    ComponentCountByReps(nodes, edges, reps);
  }

  /** Kruskal's choice, on values: takes the edges of `queue` front to back
      and keeps each one whose endpoints the edges kept so far leave
      unconnected, rebuilt as `addEdge(e.to, e.from)` builds it. */
  ghost function Greedy(kept: seq<Edge>, queue: seq<Edge>): seq<Edge>
    decreases |queue|
  {
    if queue == [] then kept
    else
      var e := queue[0];
      Greedy(if Reachable(kept, e.to, e.from) then kept else kept + [EdgeBetween(e.to, e.from)], queue[1..])
  }

  /** The facts Kruskal's loop keeps once it has looked at the first `i`
      edges of the sorted queue `sorted` and kept the edges `kept`. */
  ghost predicate KruskalInv(parent: map<ClueNode, ClueNode>, depth: map<ClueNode, nat>,
                             nodes: set<ClueNode>, kept: seq<Edge>, sorted: seq<Edge>, i: nat)
  {
    && i <= |sorted|
    && SortedByWeight(sorted)
    && WeightsConsistent(sorted)
    && (forall k :: 0 <= k < |sorted| ==> sorted[k].from in nodes && sorted[k].to in nodes)
    && Tracks(parent, depth, nodes, kept)
    && (forall k :: 0 <= k < |kept| ==> kept[k] in sorted[..i])
    && IsForest(kept)
    && SortedByWeight(kept)
    && (forall k, j :: 0 <= k < |kept| && i <= j < |sorted| ==> kept[k].weight <= sorted[j].weight)
    && (forall k :: 0 <= k < i ==> Reachable(kept, sorted[k].from, sorted[k].to))
    && (forall k :: 0 <= k < i ==> JoinedBelow(kept, sorted[k]))
  }

  /** Before the loop: every node is alone in its set, nothing is kept and
      the queue is the input sorted. */
  lemma KruskalStart(parent: map<ClueNode, ClueNode>, depth: map<ClueNode, nat>,
                     nodes: seq<ClueNode>, edges: seq<Edge>, sorted: seq<Edge>)
    requires parent == (map x | x in nodes :: x) && Acyclic(parent, depth)
    requires WeightsConsistent(edges) && EndpointsIn(nodes, edges)
    requires SortedByWeight(sorted) && multiset(sorted) == multiset(edges)
    ensures KruskalInv(parent, depth, NodeSet(nodes), [], sorted, 0)
  {
    assert parent == Singletons(NodeSet(nodes));
    TracksInitially(NodeSet(nodes), depth);
    forall k | 0 <= k < |sorted| ensures sorted[k] in edges {
      assert sorted[k] in multiset(edges);
    }
  }

  /** The queue's edge `i` joins nodes already connected: it is dropped. */
  lemma KruskalSkip(parent: map<ClueNode, ClueNode>, depth: map<ClueNode, nat>,
                    nodes: set<ClueNode>, kept: seq<Edge>, sorted: seq<Edge>, i: nat)
    requires KruskalInv(parent, depth, nodes, kept, sorted, i)
    requires i < |sorted|
    requires Rep(parent, depth, sorted[i].to) == Rep(parent, depth, sorted[i].from)
    ensures KruskalInv(parent, depth, nodes, kept, sorted, i + 1)
  {
    assert Reachable(kept, sorted[i].to, sorted[i].from);
    ReachableSym(kept, sorted[i].to, sorted[i].from);
    AtMostAll(kept, sorted[i].weight);
    forall k | 0 <= k < |kept| ensures kept[k] in sorted[..i + 1] {
      assert kept[k] in sorted[..i];
    }
  }

  /** Appending an edge `e` whose endpoints the forest leaves unconnected,
      and which weighs at least as much as every kept edge, keeps a sorted
      forest. */
  lemma ForestSnoc(kept: seq<Edge>, e: Edge)
    requires IsForest(kept) && SortedByWeight(kept)
    requires !Reachable(kept, e.from, e.to)
    requires forall k :: 0 <= k < |kept| ==> kept[k].weight <= e.weight
    ensures IsForest(kept + [e]) && SortedByWeight(kept + [e])
  {
    ForestAppend(kept, e);
  }

  /** The queue's edge `i` joins two components: it is kept and its
      endpoints' sets are merged. `parent'` and `kept'` are the state after
      `union` and `addEdge`. */
  lemma KruskalKeep(parent: map<ClueNode, ClueNode>, depth: map<ClueNode, nat>,
                    nodes: set<ClueNode>, kept: seq<Edge>, sorted: seq<Edge>, i: nat,
                    parent': map<ClueNode, ClueNode>, depth': map<ClueNode, nat>, kept': seq<Edge>)
    requires KruskalInv(parent, depth, nodes, kept, sorted, i)
    requires UniqueIds(nodes)
    requires i < |sorted|
    requires Rep(parent, depth, sorted[i].to) != Rep(parent, depth, sorted[i].from)
    requires parent' == UnionResult(parent, depth, sorted[i].to, sorted[i].from)
    requires Acyclic(parent', depth')
    requires kept' == kept + [EdgeBetween(sorted[i].to, sorted[i].from)]
    ensures KruskalInv(parent', depth', nodes, kept', sorted, i + 1)
  {
    var e := sorted[i];
    assert e.weight == SquaredDistance(e.to, e.from);
    ReAddedEdge(e);
    TracksUnion(parent, depth, nodes, kept, e.to, e.from, depth', e.weight);
    assert Edge(e.from, e.to, e.weight) == e;
    assert !Reachable(kept, e.to, e.from);
    if Reachable(kept, e.from, e.to) {
      ReachableSym(kept, e.from, e.to);
    }
    ForestSnoc(kept, e);
    forall k | 0 <= k < |kept'| ensures kept'[k] in sorted[..i + 1] {
      if k < |kept| {
        assert kept[k] in sorted[..i];
      } else {
        assert sorted[..i + 1][i] == e;
      }
    }
    assert kept'[..|kept|] == kept;
    forall k | 0 <= k < i + 1 ensures Reachable(kept', sorted[k].from, sorted[k].to) {
      if k < i {
        ReachablePrefix(kept', |kept|, sorted[k].from, sorted[k].to);
      } else {
        ReachableEdge(kept', |kept|);
      }
    }
    HeaviestKept(kept, e);
    KeepLight(kept, sorted, i);
  }

  /** Keeping the queue's edge `i` keeps every looked-at edge's endpoints
      joined by kept edges no heavier than it: the earlier edges' joins
      survive the append, and edge `i` is the heaviest kept so far. */
  lemma KeepLight(kept: seq<Edge>, sorted: seq<Edge>, i: nat)
    requires i < |sorted|
    requires forall k :: 0 <= k < i ==> JoinedBelow(kept, sorted[k])
    requires JoinedBelow(kept + [sorted[i]], sorted[i])
    ensures forall k :: 0 <= k < i + 1 ==> JoinedBelow(kept + [sorted[i]], sorted[k])
  {
    var e := sorted[i];
    forall k | 0 <= k < i + 1 ensures JoinedBelow(kept + [e], sorted[k]) {
      if k < i {
        assert JoinedBelow(kept, sorted[k]);
        AtMostGrows(kept, e, sorted[k].weight, sorted[k].from, sorted[k].to);
      }
    }
  }

  /** An edge appended after lighter ones is joined by the edges no heavier
      than it, once it is joined by the whole list. */
  lemma HeaviestKept(kept: seq<Edge>, e: Edge)
    requires forall k :: 0 <= k < |kept| ==> kept[k].weight <= e.weight
    requires Reachable(kept + [e], e.from, e.to)
    ensures Reachable(AtMost(kept + [e], e.weight), e.from, e.to)
  {
    var kept' := kept + [e];
    forall k | 0 <= k < |kept'| ensures kept'[k].weight <= e.weight {
      if k < |kept| { assert kept'[k] == kept[k]; }
    }
    AtMostAll(kept', e.weight);
  }

  /** Once every queued edge has been looked at, the kept edges are a
      spanning forest of the input graph, in ascending weight order. */
  lemma KruskalDone(parent: map<ClueNode, ClueNode>, depth: map<ClueNode, nat>,
                    nodes: set<ClueNode>, kept: seq<Edge>, sorted: seq<Edge>, edges: seq<Edge>)
    requires KruskalInv(parent, depth, nodes, kept, sorted, |sorted|)
    requires multiset(sorted) == multiset(edges)
    requires Within(nodes, edges)
    ensures |kept| + ComponentCount(nodes, edges) == |nodes|
    ensures CycleOptimal(kept, edges)
    ensures MinimumSpanningForest(kept, nodes, edges)
  {
    assert sorted[..|sorted|] == sorted;
    forall k | 0 <= k < |kept| ensures kept[k] in edges {
      assert kept[k] in multiset(sorted);
    }
    forall k | 0 <= k < |kept| ensures Reachable(edges, kept[k].from, kept[k].to) {
      var j :| 0 <= j < |edges| && edges[j] == kept[k];
      ReachableEdge(edges, j);
    }
    forall k | 0 <= k < |edges| ensures Reachable(kept, edges[k].from, edges[k].to) {
      assert edges[k] in multiset(sorted);
      var j :| 0 <= j < |sorted| && sorted[j] == edges[k];
    }
    forall k | 0 <= k < |edges| ensures JoinedBelow(kept, edges[k]) {
      assert edges[k] in multiset(sorted);
      var j :| 0 <= j < |sorted| && sorted[j] == edges[k];
    }
    forall x, y | x in nodes && y in nodes ensures Reachable(kept, x, y) <==> Reachable(edges, x, y) {
      if Reachable(kept, x, y) {
        ReachableSubsumed(kept, edges, x, y);
      }
      if Reachable(edges, x, y) {
        ReachableSubsumed(edges, kept, x, y);
      }
    }
    TracksComponents(parent, depth, nodes, kept);
    ComponentCountCongruent(nodes, kept, edges);
    CycleOptimalIsMinimum(nodes, edges, kept);
  }
}
