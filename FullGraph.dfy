/** The complete graph on a list of locations: an edge for every ordered pair
    of different positions, and each location added once as a node. */
module FullGraph {
  import opened Nodes
  import opened Sequences
  import opened Connectivity
  import opened Graphs

  /** The edges row `i` of the double loop adds while its inner index runs
      below `cols`: `addEdge(l[i], l[j])` for every such `j` other than `i`. */
  ghost function RowEdges(l: seq<ClueNode>, i: nat, cols: nat): seq<Edge>
    requires i < |l| && cols <= |l|
  {
    if cols == 0 then []
    else RowEdges(l, i, cols - 1) + (if i == cols - 1 then [] else [EdgeBetween(l[i], l[cols - 1])])
  }

  /** The edges the first `rows` rows of the double loop add, in order. */
  ghost function PairEdges(l: seq<ClueNode>, rows: nat): seq<Edge>
    requires rows <= |l|
  {
    if rows == 0 then [] else PairEdges(l, rows - 1) + RowEdges(l, rows - 1, |l|)
  }

  /** Every edge of the complete graph on `l`, in the order the double loop
      adds them. */
  ghost function AllPairs(l: seq<ClueNode>): seq<Edge>
  {
    PairEdges(l, |l|)
  }

  lemma {:induction false} RowLength(l: seq<ClueNode>, i: nat, cols: nat)
    requires i < |l| && cols <= |l|
    ensures |RowEdges(l, i, cols)| == if i < cols then cols - 1 else cols
  {
    if cols > 0 {
      RowLength(l, i, cols - 1);
    }
  }

  lemma {:induction false} PairLength(l: seq<ClueNode>, rows: nat)
    requires rows <= |l|
    ensures |PairEdges(l, rows)| == rows * (|l| - 1)
  {
    if rows > 0 {
      PairLength(l, rows - 1);
      PairStep(l, rows);
      MulStep(rows - 1, |l| - 1);
    }
  }

  /** Each row adds `|l| - 1` edges. */
  lemma PairStep(l: seq<ClueNode>, rows: nat)
    requires 0 < rows <= |l|
    ensures |PairEdges(l, rows)| == |PairEdges(l, rows - 1)| + |l| - 1
  {
    RowLength(l, rows - 1, |l|);
  }

  lemma MulStep(r: nat, m: int)
    ensures r * m + m == (r + 1) * m
  {
  }

  /** The complete graph on `n` locations has `n * (n - 1)` edges: one per
      ordered pair of different positions. */
  lemma AllPairsLength(l: seq<ClueNode>)
    ensures |AllPairs(l)| == |l| * (|l| - 1)
  {
    PairLength(l, |l|);
  }

  lemma {:induction false} RowMembers(l: seq<ClueNode>, i: nat, cols: nat, e: Edge)
    requires i < |l| && cols <= |l|
    ensures e in RowEdges(l, i, cols) <==> exists j :: 0 <= j < cols && j != i && e == EdgeBetween(l[i], l[j])
  {
    if cols > 0 {
      RowMembers(l, i, cols - 1, e);
    }
  }

  lemma {:induction false} PairMembers(l: seq<ClueNode>, rows: nat, e: Edge)
    requires rows <= |l|
    ensures e in PairEdges(l, rows) <==>
      exists i, j :: 0 <= i < rows && 0 <= j < |l| && i != j && e == EdgeBetween(l[i], l[j])
  {
    if rows > 0 {
      var r := rows - 1;
      PairMembers(l, r, e);
      RowMembers(l, r, |l|, e);
      if e in RowEdges(l, r, |l|) {
        var j :| 0 <= j < |l| && j != r && e == EdgeBetween(l[r], l[j]);
        assert 0 <= r < rows;
      }
      if exists i, j :: 0 <= i < rows && 0 <= j < |l| && i != j && e == EdgeBetween(l[i], l[j]) {
        var i, j :| 0 <= i < rows && 0 <= j < |l| && i != j && e == EdgeBetween(l[i], l[j]);
        if i < r {
          assert e in PairEdges(l, r);
        } else {
          assert e in RowEdges(l, r, |l|);
        }
      }
    }
  }

  /** An edge belongs to the complete graph exactly when it is what
      `addEdge(l[i], l[j])` makes for two different positions `i` and `j`. */
  lemma AllPairsMembers(l: seq<ClueNode>, e: Edge)
    ensures e in AllPairs(l) <==>
      exists i, j :: 0 <= i < |l| && 0 <= j < |l| && i != j && e == EdgeBetween(l[i], l[j])
  {
    PairMembers(l, |l|, e);
  }

  /** Every edge of the complete graph carries its `addEdge` weight and joins
      two listed locations. */
  lemma AllPairsWellFormed(l: seq<ClueNode>)
    ensures WeightsConsistent(AllPairs(l))
    ensures EndpointsIn(l, AllPairs(l))
  {
    var E := AllPairs(l);
    forall k | 0 <= k < |E|
      ensures E[k].weight == SquaredDistance(E[k].to, E[k].from)
      ensures E[k].from in l && E[k].to in l
    {
      AllPairsMembers(l, E[k]);
    }
  }

  /** On locations without repeats the complete graph has no self-loop. */
  lemma AllPairsNoSelfLoops(l: seq<ClueNode>)
    requires Distinct(l)
    ensures NoSelfLoops(AllPairs(l))
  {
    var E := AllPairs(l);
    forall k | 0 <= k < |E| ensures E[k].from != E[k].to {
      AllPairsMembers(l, E[k]);
    }
  }

  /** The complete graph connects every two listed locations. */
  lemma AllPairsConnects(l: seq<ClueNode>)
    ensures ConnectsAll(NodeSet(l), AllPairs(l))
  {
    var E := AllPairs(l);
    forall x, y | x in NodeSet(l) && y in NodeSet(l) ensures Reachable(E, x, y) {
      if x == y {
        ReachableRefl(E, x);
      } else {
        var i :| 0 <= i < |l| && l[i] == x;
        var j :| 0 <= j < |l| && l[j] == y;
        AllPairsMembers(l, EdgeBetween(x, y));
        var k :| 0 <= k < |E| && E[k] == EdgeBetween(x, y);
        ReachableEdge(E, k);
      }
    }
  }

  /** The node list the double loop has built after the pairs of row `i`
      whose inner index is below `j`: row 0 adds the locations in order of
      first occurrence, and the later rows find them all present. */
  ghost function NodesSoFar(l: seq<ClueNode>, i: nat, j: nat): seq<ClueNode>
    requires j <= |l|
  {
    if i > 0 then Dedup(l)
    else if j <= 1 then []
    else Dedup(l[..j])
  }

  /** `makeFullyConnectedGraph`: for every ordered pair of different
      positions, adds each endpoint unless already present and then adds
      the edge. Its node list is the locations without repeats, or empty
      when fewer than two are given. */
  method MakeFullyConnectedGraph(locations: seq<ClueNode>) returns (g: Graph)
    ensures fresh(g) && g.Valid()
    ensures g.edges == AllPairs(locations)
    ensures g.nodes == if |locations| < 2 then [] else Dedup(locations)
    ensures Distinct(g.nodes)
    ensures |locations| >= 2 ==> forall x :: x in g.nodes <==> x in locations
  {
    g := new Graph();
    var n := |locations|;
    for i := 0 to n
      invariant g.Valid()
      invariant g.edges == PairEdges(locations, i)
      invariant g.nodes == if i == 0 || n < 2 then [] else Dedup(locations)
    {
      for j := 0 to n
        invariant g.Valid()
        invariant g.edges == PairEdges(locations, i) + RowEdges(locations, i, j)
        invariant g.nodes == NodesSoFar(locations, i, j)
      {
        if i != j {
          var node1 := locations[i];
          var node2 := locations[j];
          AddPair(g, node1, node2);
          NodesSoFarStep(locations, i, j);
        }
        RowStep(locations, i, j);
      }
      assert locations[..n] == locations;
    }
    DedupDistinct(locations);
    DedupMembers(locations);
  }

  /** The body of the double loop for one pair of different positions:
      each endpoint is pushed unless the node list already includes it,
      then the edge between them is added. */
  method AddPair(g: Graph, node1: ClueNode, node2: ClueNode)
    requires g.Valid()
    modifies g
    ensures g.Valid()
    ensures g.nodes == AddIfAbsent(AddIfAbsent(old(g.nodes), node1), node2)
    ensures g.edges == old(g.edges) + [EdgeBetween(node1, node2)]
  {
    if node1 !in g.nodes {
      g.AddNode(node1);
    }
    if node2 !in g.nodes {
      g.AddNode(node2);
    }
    g.AddEdge(node1, node2);
  }

  /** Column `j` of row `i` appends the edge for `(i, j)`, or nothing when
      `i == j`. */
  lemma RowStep(l: seq<ClueNode>, i: nat, j: nat)
    requires i < |l| && j < |l|
    ensures PairEdges(l, i) + RowEdges(l, i, j + 1) ==
      PairEdges(l, i) + RowEdges(l, i, j) + (if i == j then [] else [EdgeBetween(l[i], l[j])])
  {
  }

  /** One pair `(i, j)` with `i != j`: the two guarded pushes take the node
      list from `NodesSoFar(l, i, j)` to `NodesSoFar(l, i, j + 1)`. */
  lemma NodesSoFarStep(l: seq<ClueNode>, i: nat, j: nat)
    requires i < |l| && j < |l| && i != j
    ensures AddIfAbsent(AddIfAbsent(NodesSoFar(l, i, j), l[i]), l[j]) == NodesSoFar(l, i, j + 1)
  {
    assert l[..j + 1][..j] == l[..j];
    if i > 0 {
      DedupMembers(l);
    } else if j >= 2 {
      DedupMembers(l[..j]);
      assert l[0] in l[..j];
    } else {
      assert l[..2][..1] == l[..1];
      assert l[..1][..0] == [];
      assert Dedup(l[..1]) == [l[0]];
      assert Dedup(l[..2]) == AddIfAbsent([l[0]], l[1]);
    }
  }

  /** The code as written reads its locations from the module-level list
      `locs` and takes only the length of its argument. Out-of-range reads
      of `locs` give `undefined`, and the distance computation of the first
      edge that uses one throws; that case is `None`. */
  ghost function AsWrittenEdges(locations: seq<ClueNode>, locs: seq<ClueNode>): (r: Option<seq<Edge>>)
    ensures |locations| <= |locs| ==> r == Some(AllPairs(locs[..|locations|]))
    ensures r == None <==> 2 <= |locations| && |locs| < |locations|
  {
    if |locations| >= 2 && |locations| > |locs| then None
    else if |locations| <= |locs| then Some(AllPairs(locs[..|locations|]))
    else Some([])
  }

  /** The complete graph on two locations, spelled out. */
  lemma TwoPairs(a: ClueNode, b: ClueNode)
    ensures AllPairs([a, b]) == [EdgeBetween(a, b), EdgeBetween(b, a)]
  {
    var l := [a, b];
    assert RowEdges(l, 0, 1) == [];
    assert RowEdges(l, 0, 2) == [EdgeBetween(a, b)];
    assert RowEdges(l, 1, 1) == [EdgeBetween(b, a)];
    assert RowEdges(l, 1, 2) == [EdgeBetween(b, a)];
    assert PairEdges(l, 1) == [EdgeBetween(a, b)];
  }

  datatype Option<T> = None | Some(value: T)

  /** When the argument is a prefix of `locs`, as it is at the original's
      one call site (`makeMST(locs)`), the code as written builds the
      complete graph on its argument. */
  lemma AsWrittenOnPrefix(locations: seq<ClueNode>, locs: seq<ClueNode>)
    requires |locations| <= |locs| && locs[..|locations|] == locations
    ensures AsWrittenEdges(locations, locs) == Some(AllPairs(locations))
  {
  }

  /** Given locations that share no node with `locs`, the code as written
      builds every edge between nodes the caller never passed. */
  lemma AsWrittenForeignNodes(a: ClueNode, b: ClueNode, c: ClueNode, d: ClueNode)
    requires a != b
    requires c != a && c != b && d != a && d != b
    ensures AsWrittenEdges([c, d], [a, b]).Some?
    ensures var E := AsWrittenEdges([c, d], [a, b]).value;
      |E| == 2 && forall k :: 0 <= k < |E| ==> E[k].from !in [c, d] && E[k].to !in [c, d]
    ensures AllPairs([c, d]) != AsWrittenEdges([c, d], [a, b]).value
  {
    TwoPairs(a, b);
    TwoPairs(c, d);
    assert [a, b][..2] == [a, b];
    assert AllPairs([c, d])[0].to == c;
  }

  /** The code as written disagrees with the complete graph on its own
      argument: given the two locations of `locs` in the other order it
      builds the edges in a different order and orientation, and given more
      locations than `locs` holds it fails. */
  lemma AsWrittenIgnoresLocations(a: ClueNode, b: ClueNode, c: ClueNode)
    requires a != b
    ensures AsWrittenEdges([b, a], [a, b]) != Some(AllPairs([b, a]))
    ensures AsWrittenEdges([a, b, c], [a, b]) == None
  {
    var l := [b, a];
    TwoPairs(a, b);
    TwoPairs(b, a);
    assert [a, b][..2] == [a, b];
  }
}
