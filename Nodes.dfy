/** The values the path-ordering engine works on: clue locations and the
    weighted edges between them. */
module Nodes {

  /** A clue location. Ids are assigned by the caller and are expected to be
      unique; two `ClueNode` values are the same node exactly when they are
      equal, which stands for object identity in the original. */
  datatype ClueNode = ClueNode(id: int, lat: real, long: real)

  /** An edge as stored: `from`, `to` and a weight. */
  datatype Edge = Edge(from: ClueNode, to: ClueNode, weight: real)

  /** The `Edge` constructor. It stores its arguments the other way round:
      the node passed as `from` ends up in the `to` field and vice versa. */
  function NewEdge(from: ClueNode, to: ClueNode, weight: real): (e: Edge)
    ensures e.from == to && e.to == from && e.weight == weight
  {
    Edge(to, from, weight)
  }

  /** Edge weight. The original takes the square root of this sum; the
      square root is monotone, so ordering edges by this value orders them
      exactly as the original does. */
  function SquaredDistance(a: ClueNode, b: ClueNode): real
  {
    (b.lat - a.lat) * (b.lat - a.lat) + (b.long - a.long) * (b.long - a.long)
  }

  /** The edge that `addEdge(node1, node2)` appends to a graph. */
  function EdgeBetween(node1: ClueNode, node2: ClueNode): (e: Edge)
    ensures e.from == node2 && e.to == node1
    ensures e.weight == SquaredDistance(e.to, e.from)
  {
    NewEdge(node1, node2, SquaredDistance(node1, node2))
  }

  /** The weight does not depend on the order of the endpoints. */
  lemma SquaredDistanceSymmetric(a: ClueNode, b: ClueNode)
    ensures SquaredDistance(a, b) == SquaredDistance(b, a)
  {
  }

  /** The two swaps cancel: re-adding a stored edge by its `to` and `from`,
      in that order, rebuilds the very same edge, provided it carries the
      weight `addEdge` gives it. This is why Kruskal's
      `addEdge(nextEdge.to, nextEdge.from)` keeps input edges unchanged. */
  lemma ReAddedEdge(e: Edge)
    requires e.weight == SquaredDistance(e.to, e.from)
    ensures EdgeBetween(e.to, e.from) == e
  {
  }

  /** `addEdge(a, b)` and `addEdge(b, a)` store the same endpoints the other
      way round, with the same weight. */
  lemma EdgeBetweenReversed(a: ClueNode, b: ClueNode)
    ensures EdgeBetween(b, a).from == EdgeBetween(a, b).to
    ensures EdgeBetween(b, a).to == EdgeBetween(a, b).from
    ensures EdgeBetween(b, a).weight == EdgeBetween(a, b).weight
  {
    SquaredDistanceSymmetric(a, b);
  }

  predicate SameId(x: ClueNode, y: ClueNode)
  {
    x.id == y.id
  }

  /** The nodes listed in `nodes`. */
  ghost function NodeSet(nodes: seq<ClueNode>): set<ClueNode>
  {
    set x | x in nodes
  }

  /** No two different nodes of `s` share an id. */
  ghost predicate UniqueIds(s: set<ClueNode>)
  {
    forall x, y {:trigger SameId(x, y)} :: x in s && y in s && SameId(x, y) ==> x == y
  }

  /** Every edge of `edges` has both endpoints in `nodes`. */
  ghost predicate EndpointsIn(nodes: seq<ClueNode>, edges: seq<Edge>)
  {
    forall k :: 0 <= k < |edges| ==> edges[k].from in nodes && edges[k].to in nodes
  }

  /** No edge of `edges` joins a node to itself. */
  ghost predicate NoSelfLoops(edges: seq<Edge>)
  {
    forall k :: 0 <= k < |edges| ==> edges[k].from != edges[k].to
  }

  /** Every edge weighs what `addEdge` gives an edge between its endpoints. */
  ghost predicate WeightsConsistent(edges: seq<Edge>)
  {
    forall k :: 0 <= k < |edges| ==> edges[k].weight == SquaredDistance(edges[k].to, edges[k].from)
  }
}
