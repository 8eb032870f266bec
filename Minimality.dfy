/** Why the forest Kruskal's algorithm keeps is a minimum one. The algorithm
    leaves a certificate: every input edge has its endpoints joined by kept
    edges no heavier than it (the cycle optimality condition). From it
    follows, by counting components, that at every weight threshold the
    kept forest has at least as many edges as any other forest of the
    graph, and hence that no spanning forest costs less, whatever
    increasing function of the weights is added up. */
module Minimality {
  import opened Nodes
  import opened Connectivity

  /** The edges of `edges` that weigh at most `w`, in order. */
  ghost function AtMost(edges: seq<Edge>, w: real): (r: seq<Edge>)
    ensures |r| <= |edges|
  {
    if edges == [] then []
    else
      var f, e := edges[..|edges| - 1], edges[|edges| - 1];
      AtMost(f, w) + (if e.weight <= w then [e] else [])
  }

  lemma AtMostSnoc(f: seq<Edge>, e: Edge, w: real)
    ensures AtMost(f + [e], w) == AtMost(f, w) + (if e.weight <= w then [e] else [])
  {
    assert (f + [e])[..|f|] == f;
  }

  /** Appending an edge keeps connected what the light edges connected. */
  lemma AtMostGrows(f: seq<Edge>, e: Edge, w: real, x: ClueNode, y: ClueNode)
    requires Reachable(AtMost(f, w), x, y)
    ensures Reachable(AtMost(f + [e], w), x, y)
  {
    AtMostSnoc(f, e, w);
    assert AtMost(f + [e], w)[..|AtMost(f, w)|] == AtMost(f, w);
    ReachablePrefix(AtMost(f + [e], w), |AtMost(f, w)|, x, y);
  }

  /** An edge is kept exactly when it is listed and weighs at most `w`. */
  lemma {:induction false} AtMostMembers(edges: seq<Edge>, w: real)
    ensures forall e :: e in AtMost(edges, w) <==> e in edges && e.weight <= w
  {
    if edges != [] {
      var f, e := edges[..|edges| - 1], edges[|edges| - 1];
      AtMostMembers(f, w);
      assert edges == f + [e];
    }
  }

  /** When nothing weighs more than `w`, everything is kept. */
  lemma {:induction false} AtMostAll(edges: seq<Edge>, w: real)
    requires forall k :: 0 <= k < |edges| ==> edges[k].weight <= w
    ensures AtMost(edges, w) == edges
  {
    if edges != [] {
      var f := edges[..|edges| - 1];
      AtMostAll(f, w);
    }
  }

  /** All edges are counted only when none weighs more than `w`. */
  lemma {:induction false} AtMostFull(edges: seq<Edge>, w: real)
    ensures |AtMost(edges, w)| == |edges| ==> forall k :: 0 <= k < |edges| ==> edges[k].weight <= w
  {
    if edges != [] {
      var f := edges[..|edges| - 1];
      AtMostFull(f, w);
      assert forall k :: 0 <= k < |f| ==> f[k] == edges[k];
    }
  }

  lemma {:induction false} AtMostAppend(a: seq<Edge>, b: seq<Edge>, w: real)
    ensures AtMost(a + b, w) == AtMost(a, w) + AtMost(b, w)
    decreases |b|
  {
    if b == [] {
      assert a + b == a;
    } else {
      var b', e := b[..|b| - 1], b[|b| - 1];
      assert a + b == (a + b') + [e];
      assert b == b' + [e];
      AtMostAppend(a, b', w);
      AtMostSnoc(a + b', e, w);
      AtMostSnoc(b', e, w);
    }
  }

  /** `s` with its element at position `i` taken out. */
  function Remove(s: seq<Edge>, i: nat): (r: seq<Edge>)
    requires i < |s|
    ensures |r| == |s| - 1
  {
    s[..i] + s[i + 1..]
  }

  lemma RemoveSplit(s: seq<Edge>, i: nat)
    requires i < |s|
    ensures s == s[..i] + [s[i]] + s[i + 1..]
  {
  }

  /** Taking out an edge lowers the count at `w` by one exactly when the
      edge weighs at most `w`. */
  lemma RemoveCount(s: seq<Edge>, i: nat, w: real)
    requires i < |s|
    ensures |AtMost(s, w)| == |AtMost(Remove(s, i), w)| + (if s[i].weight <= w then 1 else 0)
  {
    RemoveSplit(s, i);
    AtMostAppend(s[..i] + [s[i]], s[i + 1..], w);
    AtMostSnoc(s[..i], s[i], w);
    AtMostAppend(s[..i], s[i + 1..], w);
  }

  /** The cost of `edges` when an edge of weight `x` costs `g(x)`. */
  ghost function Cost(edges: seq<Edge>, g: real -> real): real
  {
    if edges == [] then 0.0
    else Cost(edges[..|edges| - 1], g) + g(edges[|edges| - 1].weight)
  }

  lemma {:induction false} CostAppend(a: seq<Edge>, b: seq<Edge>, g: real -> real)
    ensures Cost(a + b, g) == Cost(a, g) + Cost(b, g)
    decreases |b|
  {
    if b == [] {
      assert a + b == a;
    } else {
      var b', e := b[..|b| - 1], b[|b| - 1];
      assert (a + b)[..|a + b| - 1] == a + b';
      assert (a + b)[|a + b| - 1] == e;
      CostAppend(a, b', g);
    }
  }

  /** Taking out an edge lowers the cost by that edge's cost. */
  lemma RemoveCost(s: seq<Edge>, i: nat, g: real -> real)
    requires i < |s|
    ensures Cost(s, g) == Cost(Remove(s, i), g) + g(s[i].weight)
  {
    RemoveSplit(s, i);
    CostAppend(s[..i] + [s[i]], s[i + 1..], g);
    CostAppend(s[..i], [s[i]], g);
    CostAppend(s[..i], s[i + 1..], g);
    assert [s[i]][..0] == [];
  }

  function Identity(x: real): real
  {
    x
  }

  /** The sum of the edge weights. */
  ghost function TotalWeight(edges: seq<Edge>): real
  {
    Cost(edges, Identity)
  }

  ghost predicate Increasing(g: real -> real)
  {
    forall x, y :: x <= y ==> g(x) <= g(y)
  }

  /** A position of a heaviest edge. */
  lemma {:induction false} Heaviest(s: seq<Edge>) returns (i: nat)
    requires s != []
    ensures i < |s| && forall j :: 0 <= j < |s| ==> s[j].weight <= s[i].weight
  {
    if |s| == 1 {
      i := 0;
    } else {
      var f := s[..|s| - 1];
      var m := Heaviest(f);
      assert s[m] == f[m];
      i := if s[|s| - 1].weight <= s[m].weight then m else |s| - 1;
    }
  }

  /** Two edge lists of the same length where, at every threshold, `b` has
      no more edges at most that heavy than `a`: then `a`'s weights, sorted,
      lie pointwise below `b`'s, so `a` costs no more under any increasing
      cost. Proved by taking out a heaviest edge of each. */
  lemma {:induction false} CostDominated(a: seq<Edge>, b: seq<Edge>, g: real -> real)
    requires Increasing(g)
    requires |a| == |b|
    requires forall w :: |AtMost(b, w)| <= |AtMost(a, w)|
    ensures Cost(a, g) <= Cost(b, g)
    decreases |a|
  {
    if a != [] {
      var ia := Heaviest(a);
      var ib := Heaviest(b);
      var wa, wb := a[ia].weight, b[ib].weight;
      AtMostAll(b, wb);
      assert |AtMost(a, wb)| >= |a|;
      AtMostFull(a, wb);
      assert wa <= wb;
      var a', b' := Remove(a, ia), Remove(b, ib);
      forall w ensures |AtMost(b', w)| <= |AtMost(a', w)| {
        RemoveCount(a, ia, w);
        RemoveCount(b, ib, w);
        if wa <= w {
          AtMostAll(a, w);
        }
      }
      CostDominated(a', b', g);
      RemoveCost(a, ia, g);
      RemoveCost(b, ib, g);
    }
  }

  /** Every edge of `edges` joins two nodes of `nodes`. */
  ghost predicate Within(nodes: set<ClueNode>, edges: seq<Edge>)
  {
    forall k :: 0 <= k < |edges| ==> edges[k].from in nodes && edges[k].to in nodes
  }

  /** Among pairwise unconnected nodes, a node is connected to at most one. */
  lemma RepUnique(edges: seq<Edge>, reps: set<ClueNode>, x: ClueNode, r: ClueNode)
    requires forall r, s :: r in reps && s in reps && r != s ==> !Reachable(edges, r, s)
    requires r in reps && Reachable(edges, x, r)
    ensures forall s :: s in reps && (Reachable(edges, x, s) || Reachable(edges, s, x)) ==> s == r
  {
    forall s | s in reps && (Reachable(edges, x, s) || Reachable(edges, s, x)) ensures s == r {
      if Reachable(edges, x, s) {
        ReachableSym(edges, x, s);
      }
      ReachableTrans(edges, s, x, r);
    }
  }

  /** Two nodes connected to a third are connected to each other. */
  lemma SharedRep(edges: seq<Edge>, x: ClueNode, y: ClueNode, r: ClueNode)
    ensures Reachable(edges, x, r) && Reachable(edges, y, r) ==> Reachable(edges, x, y)
  {
    if Reachable(edges, x, r) && Reachable(edges, y, r) {
      ReachableSym(edges, y, r);
      ReachableTrans(edges, x, r, y);
    }
  }

  /** `reps` holds one node of each component of the graph on `nodes`. */
  ghost predicate RepsOf(nodes: set<ClueNode>, edges: seq<Edge>, reps: set<ClueNode>)
  {
    && reps <= nodes
    && (forall r, s :: r in reps && s in reps && r != s ==> !Reachable(edges, r, s))
    && (forall x :: x in nodes ==> exists r :: r in reps && Reachable(edges, x, r))
  }

  /** An edge between the components of `r1` and `r2` merges them: the
      representatives but `r2` represent the graph with the edge added. */
  lemma RepsSnoc(nodes: set<ClueNode>, p: seq<Edge>, e: Edge, reps: set<ClueNode>, r1: ClueNode, r2: ClueNode)
    requires RepsOf(nodes, p, reps)
    requires r1 in reps && Reachable(p, e.from, r1)
    requires r2 in reps && Reachable(p, e.to, r2)
    requires r1 != r2
    ensures RepsOf(nodes, p + [e], reps - {r2})
  {
    var f, reps' := p + [e], reps - {r2};
    RepUnique(p, reps, e.to, r2);
    ReachableSym(p, e.to, r2);
    forall r, s | r in reps' && s in reps' && r != s ensures !Reachable(f, r, s) {
      ReachableSnoc(p, e, r, s);
    }
    forall x | x in nodes ensures exists r :: r in reps' && Reachable(f, x, r) {
      var r :| r in reps && Reachable(p, x, r);
      if r == r2 {
        ReachableTrans(p, x, r2, e.to);
        ReachableSnoc(p, e, x, r1);
        assert r1 in reps' && Reachable(f, x, r1);
      } else {
        ReachableSnoc(p, e, x, r);
      }
    }
  }

  /** A forest on `nodes` has one node per component left over as a
      representative: as many as there are nodes, less one per edge. */
  lemma {:induction false} ForestReps(nodes: set<ClueNode>, f: seq<Edge>) returns (reps: set<ClueNode>)
    requires IsForest(f) && Within(nodes, f)
    ensures RepsOf(nodes, f, reps)
    ensures |reps| + |f| == |nodes|
    decreases |f|
  {
    if f == [] {
      reps := nodes;
      forall x | x in nodes ensures exists r :: r in reps && Reachable(f, x, r) {
        assert Reachable(f, x, x);
      }
    } else {
      var p, e := f[..|f| - 1], f[|f| - 1];
      assert f == p + [e];
      ForestPrefix(f);
      assert Within(nodes, p) by {
        forall k | 0 <= k < |p| ensures p[k] == f[k] {
        }
      }
      var R := ForestReps(nodes, p);
      var r1 :| r1 in R && Reachable(p, e.from, r1);
      var r2 :| r2 in R && Reachable(p, e.to, r2);
      ReachableSym(p, e.to, r2);
      SharedRep(p, e.from, e.to, r1);
      RepsSnoc(nodes, p, e, R, r1, r2);
      reps := R - {r2};
      RemoveOne(R, r2);
    }
  }

  /** A forest on `nodes` has as many edges as nodes, less one per
      component. */
  lemma ForestComponents(nodes: set<ClueNode>, f: seq<Edge>)
    requires IsForest(f) && Within(nodes, f)
    ensures |f| + ComponentCount(nodes, f) == |nodes|
  {
    var reps := ForestReps(nodes, f);
    ComponentCountByReps(nodes, f, reps);
  }

  /** A forest whose every edge joins nodes that another forest connects
      has no more edges than that forest: its components are no fewer. */
  lemma ForestEdgesBound(nodes: set<ClueNode>, t: seq<Edge>, f: seq<Edge>)
    requires IsForest(t) && Within(nodes, t)
    requires IsForest(f) && Within(nodes, f)
    requires forall k :: 0 <= k < |t| ==> Reachable(f, t[k].from, t[k].to)
    ensures |t| <= |f|
  {
    var repsF := ForestReps(nodes, f);
    ForestComponents(nodes, t);
    forall x, y | Reachable(t, x, y) ensures Reachable(f, x, y) {
      ReachableSubsumed(t, f, x, y);
    }
    ComponentsOfReps(nodes, t, repsF);
    var img := set r | r in repsF :: Component(nodes, t, r);
    var all := set x | x in nodes :: Component(nodes, t, x);
    assert img <= all;
    SubsetCard(img, all);
  }

  /** Taking a member out of a set lowers its size by one. */
  lemma RemoveOne(s: set<ClueNode>, x: ClueNode)
    requires x in s
    ensures |s - {x}| == |s| - 1
  {
  }

  lemma {:induction false} SubsetCard<T>(a: set<T>, b: set<T>)
    requires a <= b
    ensures |a| <= |b|
    decreases b
  {
    if a != {} {
      var x :| x in a;
      SubsetCard(a - {x}, b - {x});
    }
  }

  /** Filtering a forest by weight leaves a forest. */
  lemma {:induction false} AtMostForest(f: seq<Edge>, w: real)
    requires IsForest(f)
    ensures IsForest(AtMost(f, w))
  {
    if f != [] {
      var p, e := f[..|f| - 1], f[|f| - 1];
      ForestPrefix(f);
      AtMostForest(p, w);
      assert AtMost(f, w) == AtMost(p, w) + (if e.weight <= w then [e] else []);
      if e.weight <= w {
        AtMostMembers(p, w);
        ReachableSubset(AtMost(p, w), p);
        ForestAppend(AtMost(p, w), e);
      } else {
        assert AtMost(f, w) == AtMost(p, w);
      }
    }
  }

  /** The endpoints of `e` are joined by edges of `forest` that are no
      heavier than `e`. */
  ghost predicate JoinedBelow(forest: seq<Edge>, e: Edge)
  {
    Reachable(AtMost(forest, e.weight), e.from, e.to)
  }

  /** Every edge of `edges` has its endpoints joined by edges of `forest`
      that are no heavier than it. */
  ghost predicate CycleOptimal(forest: seq<Edge>, edges: seq<Edge>)
  {
    forall k :: 0 <= k < |edges| ==> JoinedBelow(forest, edges[k])
  }

  /** A cycle-optimal forest joins the endpoints of each edge of the graph
      that weighs at most `w` by its own edges that weigh at most `w`. */
  lemma LightEdgeJoined(edges: seq<Edge>, f: seq<Edge>, e: Edge, w: real)
    requires CycleOptimal(f, edges)
    requires e in edges && e.weight <= w
    ensures Reachable(AtMost(f, w), e.from, e.to)
  {
    var j :| 0 <= j < |edges| && edges[j] == e;
    assert JoinedBelow(f, edges[j]);
    AtMostMembers(f, e.weight);
    AtMostMembers(f, w);
    ReachableSubset(AtMost(f, e.weight), AtMost(f, w));
  }

  /** The edges of a sub-list of the graph that weigh at most `w` join
      nodes of the graph. */
  lemma AtMostWithin(nodes: set<ClueNode>, edges: seq<Edge>, s: seq<Edge>, w: real)
    requires Within(nodes, edges)
    requires forall k :: 0 <= k < |s| ==> s[k] in edges
    ensures Within(nodes, AtMost(s, w))
    ensures forall k :: 0 <= k < |AtMost(s, w)| ==> AtMost(s, w)[k] in edges && AtMost(s, w)[k].weight <= w
  {
    AtMostMembers(s, w);
  }

  /** A cycle-optimal forest of the graph has, at every threshold `w`, at
      least as many edges of weight at most `w` as any forest of the graph. */
  lemma CycleOptimalDominates(nodes: set<ClueNode>, edges: seq<Edge>, f: seq<Edge>, t: seq<Edge>, w: real)
    requires Within(nodes, edges)
    requires IsForest(f) && (forall k :: 0 <= k < |f| ==> f[k] in edges) && CycleOptimal(f, edges)
    requires IsForest(t) && (forall k :: 0 <= k < |t| ==> t[k] in edges)
    ensures |AtMost(t, w)| <= |AtMost(f, w)|
  {
    var tw, fw := AtMost(t, w), AtMost(f, w);
    AtMostForest(t, w);
    AtMostForest(f, w);
    AtMostWithin(nodes, edges, t, w);
    AtMostWithin(nodes, edges, f, w);
    forall k | 0 <= k < |tw| ensures Reachable(fw, tw[k].from, tw[k].to) {
      LightEdgeJoined(edges, f, tw[k], w);
    }
    ForestEdgesBound(nodes, tw, fw);
  }

  /** `t` is a spanning forest of the graph: a forest of its edges that
      connects exactly the pairs of `nodes` the graph connects. */
  ghost predicate SpanningForestOf(t: seq<Edge>, nodes: set<ClueNode>, edges: seq<Edge>)
  {
    && IsForest(t)
    && (forall k :: 0 <= k < |t| ==> t[k] in edges)
    && (forall x, y :: x in nodes && y in nodes ==> (Reachable(t, x, y) <==> Reachable(edges, x, y)))
  }

  /** Every spanning forest of a graph has as many edges as nodes, less one
      per component of the graph. */
  lemma SpanningForestSize(nodes: set<ClueNode>, edges: seq<Edge>, t: seq<Edge>)
    requires Within(nodes, edges)
    requires SpanningForestOf(t, nodes, edges)
    ensures |t| + ComponentCount(nodes, edges) == |nodes|
  {
    ForestComponents(nodes, t);
    ComponentCountCongruent(nodes, t, edges);
  }

  /** A cycle-optimal spanning forest costs no more than any other spanning
      forest, for every increasing cost of the weights. */
  lemma CycleOptimalMinimal(nodes: set<ClueNode>, edges: seq<Edge>, f: seq<Edge>, t: seq<Edge>, g: real -> real)
    requires Within(nodes, edges)
    requires SpanningForestOf(f, nodes, edges) && CycleOptimal(f, edges)
    requires SpanningForestOf(t, nodes, edges)
    requires Increasing(g)
    ensures Cost(f, g) <= Cost(t, g)
  {
    SpanningForestSize(nodes, edges, f);
    SpanningForestSize(nodes, edges, t);
    forall w ensures |AtMost(t, w)| <= |AtMost(f, w)| {
      CycleOptimalDominates(nodes, edges, f, t, w);
    }
    CostDominated(f, t, g);
  }

  /** A spanning forest of least total weight. */
  ghost predicate MinimumSpanningForest(f: seq<Edge>, nodes: set<ClueNode>, edges: seq<Edge>)
  {
    && SpanningForestOf(f, nodes, edges)
    && forall t :: SpanningForestOf(t, nodes, edges) ==> TotalWeight(f) <= TotalWeight(t)
  }

  /** Edges listed with their endpoints join nodes of the list's set. */
  lemma EndpointsWithin(nodes: seq<ClueNode>, edges: seq<Edge>)
    requires EndpointsIn(nodes, edges)
    ensures Within(NodeSet(nodes), edges)
  {
  }

  /** With no nodes the empty forest is the minimum one. */
  lemma NoNodesMinimum(edges: seq<Edge>)
    requires Within({}, edges)
    ensures CycleOptimal([], edges)
    ensures MinimumSpanningForest([], {}, edges)
  {
    CycleOptimalIsMinimum({}, edges, []);
  }

  lemma CycleOptimalIsMinimum(nodes: set<ClueNode>, edges: seq<Edge>, f: seq<Edge>)
    requires Within(nodes, edges)
    requires SpanningForestOf(f, nodes, edges) && CycleOptimal(f, edges)
    ensures MinimumSpanningForest(f, nodes, edges)
  {
    forall t | SpanningForestOf(t, nodes, edges) ensures TotalWeight(f) <= TotalWeight(t) {
      CycleOptimalMinimal(nodes, edges, f, t, Identity);
    }
  }
}
