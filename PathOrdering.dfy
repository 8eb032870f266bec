/** The entry points of path ordering: the minimum spanning tree of the
    complete graph on the clue locations, and the first stage of ordering a
    path, which collects the tree's odd-degree nodes. */
module PathOrdering {
  import opened Nodes
  import opened Sequences
  import opened Connectivity
  import opened Sorting
  import opened Graphs
  import opened FullGraph
  import opened Degrees
  import opened Minimality
  import opened SpanningForest

  /** The node list of the complete graph on `locations`. */
  ghost function GraphNodes(locations: seq<ClueNode>): seq<ClueNode>
  {
    if |locations| < 2 then [] else Dedup(locations)
  }

  /** `makeMST`: Kruskal's algorithm on the complete graph. For two or more
      locations the result is a spanning tree of them: no cycle, every two
      locations connected, one edge fewer than there are distinct
      locations, each edge one of the complete graph's; and no spanning
      forest of the complete graph weighs less. */
  method MakeMST(locations: seq<ClueNode>) returns (mst: Graph)
    requires UniqueIds(NodeSet(locations))
    ensures fresh(mst) && mst.Valid()
    ensures mst.nodes == GraphNodes(locations)
    ensures IsForest(mst.edges) && SortedByWeight(mst.edges)
    ensures forall k :: 0 <= k < |mst.edges| ==> mst.edges[k] in AllPairs(locations)
    ensures |locations| >= 2 ==> ConnectsAll(NodeSet(locations), mst.edges)
    ensures |mst.edges| == if |locations| < 2 then 0 else |NodeSet(locations)| - 1
    ensures MinimumSpanningForest(mst.edges, NodeSet(GraphNodes(locations)), AllPairs(locations))
    ensures mst.edges == Greedy([], SortByWeight(AllPairs(locations)))
  {
    var connectedGraph := MakeFullyConnectedGraph(locations);
    ghost var l := locations;
    AllPairsWellFormed(l);
    AllPairsLength(l);
    if |l| >= 2 {
      DedupMembers(l);
      assert NodeSet(Dedup(l)) == NodeSet(l);
    }
    mst := connectedGraph.KruskalsMST();
    if |l| >= 2 {
      AllPairsConnects(l);
      assert l[0] in NodeSet(l);
      ConnectedHasOneComponent(NodeSet(l), AllPairs(l));
      forall x, y | x in NodeSet(l) && y in NodeSet(l) ensures Reachable(mst.edges, x, y) {
        assert x in Dedup(l) && y in Dedup(l);
      }
    }
  }

  /** `orderPath`, as far as it goes: builds the minimum spanning tree,
      takes its degrees and collects, in node order, the nodes of odd
      degree, which it logs; the route it returns is empty. The logged
      list is returned here as `oddDegreeNodes`, and `mstEdges` names the
      tree's edges. The odd-degree nodes come in an even number, as the
      matching stage that would follow needs. */
  method OrderPath(locations: seq<ClueNode>) returns (route: seq<int>, oddDegreeNodes: seq<ClueNode>, ghost mstEdges: seq<Edge>)
    requires UniqueIds(NodeSet(locations))
    ensures route == []
    ensures oddDegreeNodes == OddNodes(GraphNodes(locations), mstEdges)
    ensures |oddDegreeNodes| % 2 == 0
    ensures forall v :: v in oddDegreeNodes <==> v in GraphNodes(locations) && Degree(mstEdges, v) % 2 == 1
    ensures IsForest(mstEdges)
    ensures forall k :: 0 <= k < |mstEdges| ==> mstEdges[k] in AllPairs(locations)
    ensures |locations| >= 2 ==> ConnectsAll(NodeSet(locations), mstEdges)
  {
    var mst := MakeMST(locations);
    var degreeMap := GetDegrees(mst);
    oddDegreeNodes := CollectOddDegreeNodes(mst.nodes, degreeMap, mst.edges);
    mstEdges := mst.edges;
    route := [];

    OddNodesMembers(mst.nodes, mstEdges);
    TreeOddNodesEven(locations, mstEdges);
  }

  /** The `forEach` of `orderPath`: pushes, in node order, each node whose
      degree in `degreeMap` is odd. */
  method CollectOddDegreeNodes(nodes: seq<ClueNode>, degreeMap: map<ClueNode, nat>, ghost edges: seq<Edge>)
    returns (oddDegreeNodes: seq<ClueNode>)
    requires degreeMap.Keys == NodeSet(nodes)
    requires forall v :: v in degreeMap ==> degreeMap[v] == Degree(edges, v)
    ensures oddDegreeNodes == OddNodes(nodes, edges)
  {
    oddDegreeNodes := [];
    for k := 0 to |nodes|
      invariant oddDegreeNodes == OddNodes(nodes[..k], edges)
    {
      var node := nodes[k];
      assert nodes[..k + 1][..k] == nodes[..k];
      if degreeMap[node] % 2 == 1 {
        oddDegreeNodes := oddDegreeNodes + [node];
      }
    }
    assert nodes[..|nodes|] == nodes;
  }

  /** The spanning forest of the complete graph has an even number of
      odd-degree nodes: its nodes are listed once each, and its edges join
      two different listed nodes. */
  lemma TreeOddNodesEven(locations: seq<ClueNode>, edges: seq<Edge>)
    requires IsForest(edges)
    requires forall k :: 0 <= k < |edges| ==> edges[k] in AllPairs(locations)
    ensures |OddNodes(GraphNodes(locations), edges)| % 2 == 0
  {
    var nodes := GraphNodes(locations);
    if |locations| >= 2 {
      DedupDistinct(locations);
      DedupMembers(locations);
    }
    forall k | 0 <= k < |edges| ensures edges[k].from in nodes && edges[k].to in nodes {
      AllPairsMembers(locations, edges[k]);
      AllPairsLength(locations);
    }
    ForestNoSelfLoops(edges);
    OddNodesEven(nodes, edges);
  }
}
