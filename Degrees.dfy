/** Node degrees of a graph and the nodes of odd degree, with the handshake
    lemma: the degrees add up to twice the number of edges, so the odd-degree
    nodes come in an even number. */
module Degrees {
  import opened Nodes
  import opened Sequences
  import opened Graphs

  /** `edge.to === node || edge.from === node`. */
  predicate Touches(e: Edge, v: ClueNode)
  {
    e.to == v || e.from == v
  }

  /** The number of edges of `edges` that touch `v`; an edge from `v` to
      itself counts once. */
  function Degree(edges: seq<Edge>, v: ClueNode): (d: nat)
    ensures d <= |edges|
    ensures d == 0 <==> forall k :: 0 <= k < |edges| ==> !Touches(edges[k], v)
  {
    if edges == [] then 0
    else Degree(edges[..|edges| - 1], v) + (if Touches(edges[|edges| - 1], v) then 1 else 0)
  }

  /** The degrees of the nodes of `nodes`, added up. */
  ghost function DegreeSum(nodes: seq<ClueNode>, edges: seq<Edge>): nat
  {
    if nodes == [] then 0
    else DegreeSum(nodes[..|nodes| - 1], edges) + Degree(edges, nodes[|nodes| - 1])
  }

  /** The nodes of `nodes` whose degree is odd, in list order. */
  function OddNodes(nodes: seq<ClueNode>, edges: seq<Edge>): (odd: seq<ClueNode>)
    ensures |odd| <= |nodes|
  {
    if nodes == [] then []
    else
      var p, v := nodes[..|nodes| - 1], nodes[|nodes| - 1];
      OddNodes(p, edges) + (if Degree(edges, v) % 2 == 1 then [v] else [])
  }

  /** A node is collected exactly when it is listed and its degree is odd. */
  lemma {:induction false} OddNodesMembers(nodes: seq<ClueNode>, edges: seq<Edge>)
    ensures forall v :: v in OddNodes(nodes, edges) <==> v in nodes && Degree(edges, v) % 2 == 1
  {
    if nodes != [] {
      var p := nodes[..|nodes| - 1];
      OddNodesMembers(p, edges);
      LastSplit(nodes);
    }
  }

  /** How many nodes of `nodes` the edge `e` touches. */
  ghost function Hits(nodes: seq<ClueNode>, e: Edge): nat
  {
    if nodes == [] then 0
    else Hits(nodes[..|nodes| - 1], e) + (if Touches(e, nodes[|nodes| - 1]) then 1 else 0)
  }

  /** An edge that is not a self-loop touches each of its endpoints once in a
      list without repeats. */
  lemma {:induction false} HitsEndpoints(nodes: seq<ClueNode>, e: Edge)
    requires Distinct(nodes) && e.from != e.to
    ensures Hits(nodes, e) == (if e.from in nodes then 1 else 0) + (if e.to in nodes then 1 else 0)
  {
    if nodes != [] {
      var p, v := nodes[..|nodes| - 1], nodes[|nodes| - 1];
      DistinctPrefix(nodes);
      HitsEndpoints(p, e);
      LastSplit(nodes);
      assert v !in p by {
        forall k | 0 <= k < |p| ensures p[k] != v {
          assert p[k] == nodes[k];
        }
      }
    }
  }

  /** Adding an edge raises the degree sum by the number of listed nodes it
      touches. */
  lemma {:induction false} DegreeSumSnoc(nodes: seq<ClueNode>, f: seq<Edge>, e: Edge)
    ensures DegreeSum(nodes, f + [e]) == DegreeSum(nodes, f) + Hits(nodes, e)
  {
    assert (f + [e])[..|f|] == f;
    if nodes != [] {
      DegreeSumSnoc(nodes[..|nodes| - 1], f, e);
    }
  }

  /** The handshake lemma: when every edge joins two different listed nodes
      and no node is listed twice, the degrees add up to twice the number of
      edges. */
  lemma {:induction false} Handshake(nodes: seq<ClueNode>, edges: seq<Edge>)
    requires Distinct(nodes)
    requires EndpointsIn(nodes, edges)
    requires NoSelfLoops(edges)
    ensures DegreeSum(nodes, edges) == 2 * |edges|
    decreases |edges|
  {
    if edges == [] {
      DegreeSumEmpty(nodes);
    } else {
      var f, e := edges[..|edges| - 1], edges[|edges| - 1];
      assert edges == f + [e];
      assert EndpointsIn(nodes, f) && NoSelfLoops(f) by {
        forall k | 0 <= k < |f| ensures f[k] == edges[k] {
        }
      }
      Handshake(nodes, f);
      DegreeSumSnoc(nodes, f, e);
      HitsEndpoints(nodes, e);
    }
  }

  lemma {:induction false} DegreeSumEmpty(nodes: seq<ClueNode>)
    ensures DegreeSum(nodes, []) == 0
  {
    if nodes != [] {
      DegreeSumEmpty(nodes[..|nodes| - 1]);
    }
  }

  /** The number of odd-degree nodes has the parity of the degree sum. */
  lemma {:induction false} OddNodesParity(nodes: seq<ClueNode>, edges: seq<Edge>)
    ensures |OddNodes(nodes, edges)| % 2 == DegreeSum(nodes, edges) % 2
  {
    if nodes != [] {
      var p, v := nodes[..|nodes| - 1], nodes[|nodes| - 1];
      OddNodesParity(p, edges);
      LastNode(nodes, edges);
      ParityStep(|OddNodes(p, edges)|, DegreeSum(p, edges), Degree(edges, v));
    }
  }

  /** The last listed node adds one odd-degree node when its degree is odd,
      and its degree to the sum. */
  lemma LastNode(nodes: seq<ClueNode>, edges: seq<Edge>)
    requires nodes != []
    ensures var p, v := nodes[..|nodes| - 1], nodes[|nodes| - 1];
      && |OddNodes(nodes, edges)| == |OddNodes(p, edges)| + Degree(edges, v) % 2
      && DegreeSum(nodes, edges) == DegreeSum(p, edges) + Degree(edges, v)
  {
  }

  /** Adding `d` and adding its last binary digit change parity alike. */
  lemma ParityStep(a: nat, s: nat, d: nat)
    requires a % 2 == s % 2
    ensures (a + d % 2) % 2 == (s + d) % 2
  {
    var qa, qs, qd := a / 2, s / 2, d / 2;
    assert a == 2 * qa + a % 2;
    assert s == 2 * qs + s % 2;
    assert d == 2 * qd + d % 2;
    assert s + d == 2 * (qs + qd) + (s % 2 + d % 2);
    assert a + d % 2 == 2 * qa + (a % 2 + d % 2);
  }

  /** In a graph whose edges join two different listed nodes, the odd-degree
      nodes come in an even number. */
  lemma OddNodesEven(nodes: seq<ClueNode>, edges: seq<Edge>)
    requires Distinct(nodes)
    requires EndpointsIn(nodes, edges)
    requires NoSelfLoops(edges)
    ensures |OddNodes(nodes, edges)| % 2 == 0
  {
    Handshake(nodes, edges);
    OddNodesParity(nodes, edges);
    DoubleEven(|edges|);
  }

  lemma DoubleEven(m: nat)
    ensures (2 * m) % 2 == 0
  {
  }

  /** `getDegree`: counts, edge by edge, the edges of `g` touching `node`. */
  method GetDegree(g: Graph, node: ClueNode) returns (degree: nat)
    ensures degree == Degree(g.edges, node)
  {
    degree := 0;
    for k := 0 to |g.edges|
      invariant degree == Degree(g.edges[..k], node)
    {
      assert g.edges[..k + 1][..k] == g.edges[..k];
      if Touches(g.edges[k], node) {
        degree := degree + 1;
      }
    }
    assert g.edges[..|g.edges|] == g.edges;
  }

  /** `getDegrees`: maps every node of `g` to its degree. */
  method GetDegrees(g: Graph) returns (degreeMap: map<ClueNode, nat>)
    ensures degreeMap.Keys == NodeSet(g.nodes)
    ensures forall v :: v in degreeMap ==> degreeMap[v] == Degree(g.edges, v)
  {
    degreeMap := map[];
    for k := 0 to |g.nodes|
      invariant degreeMap.Keys == NodeSet(g.nodes[..k])
      invariant forall v :: v in degreeMap ==> degreeMap[v] == Degree(g.edges, v)
    {
      var d := GetDegree(g, g.nodes[k]);
      degreeMap := degreeMap[g.nodes[k] := d];
      assert g.nodes[..k + 1] == g.nodes[..k] + [g.nodes[k]];
    }
    assert g.nodes[..|g.nodes|] == g.nodes;
  }
}
