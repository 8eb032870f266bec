/** The graph: a list of edges and a list of nodes, both grown by pushing,
    and Kruskal's algorithm over it. */
module Graphs {
  import opened Nodes
  import opened Connectivity
  import opened DisjointSet
  import opened Sorting
  import opened SpanningForest
  import opened Minimality

  class Graph {
    var edges: seq<Edge>
    var nodes: seq<ClueNode>

    /** Every edge carries the weight `addEdge` gives it. The constructor
        establishes this and `addNode`/`addEdge` keep it. */
    ghost predicate Valid()
      reads this
    {
      WeightsConsistent(edges)
    }

    constructor ()
      ensures Valid()
      ensures edges == [] && nodes == []
    {
      edges := [];
      nodes := [];
    }

    /** Pushes `node` onto the node list. */
    method AddNode(node: ClueNode)
      modifies this`nodes
      ensures nodes == old(nodes) + [node]
    {
      nodes := nodes + [node];
    }

    /** Pushes the edge between `node1` and `node2` onto the edge list. The
        new edge carries its `addEdge` weight, so `Valid()` is kept. */
    method AddEdge(node1: ClueNode, node2: ClueNode)
      modifies this`edges
      ensures Valid() == old(Valid())
      ensures edges == old(edges) + [EdgeBetween(node1, node2)]
    {
      ghost var before := edges;
      edges := edges + [EdgeBetween(node1, node2)];
      assert forall k :: 0 <= k < |before| ==> edges[k] == before[k];
    }

    /** Kruskal's algorithm: the edges, cheapest first, each kept exactly
        when its endpoints are not yet connected by the edges kept before.
        The result is a spanning forest of this graph on the same node list:
        it connects exactly the pairs this graph connects, has no cycle, and
        has one edge fewer than nodes per component. */
    method KruskalsMST() returns (mst: Graph)
      requires Valid()
      requires EndpointsIn(nodes, edges)
      requires UniqueIds(NodeSet(nodes))
      ensures fresh(mst) && mst.Valid()
      ensures mst.nodes == nodes
      ensures nodes == [] ==> mst.edges == []
      ensures SortedByWeight(mst.edges)
      ensures mst.edges == Greedy([], SortByWeight(edges))
      ensures |mst.edges| + ComponentCount(NodeSet(nodes), edges) == |NodeSet(nodes)|
      ensures CycleOptimal(mst.edges, edges)
      ensures MinimumSpanningForest(mst.edges, NodeSet(nodes), edges)
    {
      mst := new Graph();
      for k := 0 to |nodes|
        invariant fresh(mst) && mst.Valid()
        invariant mst.nodes == nodes[..k] && mst.edges == []
      {
        mst.AddNode(nodes[k]);
      }
      assert nodes[..|nodes|] == nodes;
      EndpointsWithin(nodes, edges);
      if |nodes| == 0 {
        assert NodeSet(nodes) == {};
        assert edges == [];
        NoNodesMinimum(edges);
        return;
      }

      var edgeQueue := SortByWeight(edges);
      ghost var sorted := edgeQueue;
      ghost var all := NodeSet(nodes);
      var uf := new UnionFind(nodes);
      KruskalStart(uf.parent, uf.depth, nodes, edges, sorted);
      mst.DrainQueue(uf, edgeQueue, all);
      KruskalDone(uf.parent, uf.depth, all, mst.edges, sorted, edges);
    }

    /** Kruskal's loop: takes the edges off the front of the sorted queue
        one at a time and considers each. */
    method DrainQueue(uf: UnionFind, edgeQueue: seq<Edge>, ghost all: set<ClueNode>)
      requires uf.Valid() && Valid()
      requires UniqueIds(all)
      requires KruskalInv(uf.parent, uf.depth, all, edges, edgeQueue, 0)
      modifies this`edges, uf`parent, uf`depth
      ensures uf.Valid() && Valid() && nodes == old(nodes)
      ensures KruskalInv(uf.parent, uf.depth, all, edges, edgeQueue, |edgeQueue|)
      ensures edges == Greedy(old(edges), edgeQueue)
    {
      ghost var sorted := edgeQueue;
      ghost var i := 0;
      var queue := edgeQueue;
      while |queue| > 0
        invariant i <= |sorted| && queue == sorted[i..]
        invariant uf.Valid() && Valid() && nodes == old(nodes)
        invariant KruskalInv(uf.parent, uf.depth, all, edges, sorted, i)
        invariant Greedy(edges, queue) == Greedy(old(edges), sorted)
        decreases |queue|
      {
        var nextEdge := queue[0];
        queue := queue[1..];
        Consider(uf, nextEdge, all, sorted, i);
        i := i + 1;
      }
    }

    /** One turn of Kruskal's loop, on the graph being built: the edge is
        kept, and its endpoints' sets merged, exactly when they are not yet
        connected. */
    method Consider(uf: UnionFind, nextEdge: Edge, ghost all: set<ClueNode>, ghost sorted: seq<Edge>, ghost i: nat)
      requires uf.Valid() && Valid()
      requires UniqueIds(all)
      requires i < |sorted| && nextEdge == sorted[i]
      requires KruskalInv(uf.parent, uf.depth, all, edges, sorted, i)
      modifies this`edges, uf`parent, uf`depth
      ensures uf.Valid() && Valid() && nodes == old(nodes)
      ensures KruskalInv(uf.parent, uf.depth, all, edges, sorted, i + 1)
      ensures Reachable(old(edges), nextEdge.to, nextEdge.from) <==>
        old(uf.Root(nextEdge.to)) == old(uf.Root(nextEdge.from))
      ensures old(uf.Root(nextEdge.to)) != old(uf.Root(nextEdge.from)) ==>
        && edges == old(edges) + [EdgeBetween(nextEdge.to, nextEdge.from)]
        && uf.parent == UnionResult(old(uf.parent), old(uf.depth), nextEdge.to, nextEdge.from)
      ensures old(uf.Root(nextEdge.to)) == old(uf.Root(nextEdge.from)) ==>
        edges == old(edges) && uf.parent == old(uf.parent)
    {
      var n0, n1 := nextEdge.to, nextEdge.from;
      var c := uf.Connected(n0, n1);
      if !c {
        ghost var p, d, kept := uf.parent, uf.depth, edges;
        AddEdge(n0, n1);
        uf.Union(n0, n1);
        KruskalKeep(p, d, all, kept, sorted, i, uf.parent, uf.depth, edges);
      } else {
        KruskalSkip(uf.parent, uf.depth, all, edges, sorted, i);
      }
    }
  }
}
