# Path ordering: union-find, Kruskal's algorithm and odd-degree nodes

This project is a Dafny model of the path-ordering engine of a scavenger-hunt
application (`backend/src/pathordering/pathOrdering.ts`). The engine takes a
list of clue locations and does the following:

- It builds the complete graph on them, with an edge for every ordered pair
  of different positions (`makeFullyConnectedGraph`).
- It runs Kruskal's algorithm over that graph, with a disjoint-set structure
  whose `union` makes the old root with the smaller id the root of the merged
  set (`makeMST`, `Graph.kruskalsMST`, `UnionFind`). It does so by linking
  the larger-id root below the parent of the other argument, a node of the
  smaller root's tree that need not be the root itself.
- It counts the degree of every node of the resulting tree (`getDegrees`,
  `getDegree`).
- It collects the nodes of odd degree (`orderPath`). The original logs this
  list and returns an empty route.

The model keeps the original's imperative form:

- `UnionFind` and `Graph` are classes whose methods update their fields.
- `find`, `kruskalsMST`, `getDegree`, `getDegrees`, the double loop of
  `makeFullyConnectedGraph` and the collection loop of `orderPath` are
  `while`/`for` loops, each with its invariants.
- Each method is proved against specification functions, and lemmas prove what
  those functions mean.

Modules, in dependency order:

- `Nodes`: clue nodes, edges, and the edge that `addEdge` builds. The `Edge`
  constructor stores its arguments the other way round, and the model keeps
  that swap.
- `Sequences`: `Dedup`, the node list that `includes`-guarded pushes build.
- `Connectivity`: the meaning of "connected by these edges" (`Reachable`),
  forests, and connected components.
- `DisjointSet`: the `UnionFind` class and the parent-map functions that
  specify it. A ghost `depth` map witnesses that the parent links have no
  cycle.
- `Sorting`: the ascending sort by weight, written as a stable insertion sort.
- `Minimality`: why the forest Kruskal's algorithm keeps weighs least. Every
  input edge has its endpoints joined by kept edges no heavier than it. From
  this, by counting components at every weight threshold, no other spanning
  forest of the graph weighs less.
- `SpanningForest`: the invariant that ties the union-find state to the edges
  Kruskal has kept, and the lemmas that carry it through one iteration.
- `Graphs`: the `Graph` class with `addNode`, `addEdge` and `kruskalsMST`.
- `FullGraph`: `makeFullyConnectedGraph` and the complete graph it builds.
- `Degrees`: degrees, the odd-degree filter and the handshake lemma.
- `PathOrdering`: `makeMST` and `orderPath`.

Nodes are compared by value. This stands for the original's object identity.
Where the original compares ids (`union` compares root ids), the model
requires the ids of the nodes involved to be unique. With unique ids, the two
comparisons agree.

The model follows these behaviours of the code, which a reader might not expect:

- The complete graph has `n·(n−1)` edges, one for each orientation of every
  pair, not `n·(n−1)/2`.
- A single location gives a graph with no nodes. The nodes are only added
  inside the `i !== j` branch.
- `orderPath` stops after collecting the odd-degree nodes and returns `[]`.
  The tour stages of a Christofides-style ordering (matching, Eulerian
  circuit, shortcutting) are not in the code.

## Model

| member | source | states |
|---|---|---|
| Nodes.SquaredDistanceSymmetric | backend/src/pathordering/pathOrdering.ts:204-208 | the weight of an edge does not depend on the order of its endpoints |
| Nodes.ReAddedEdge | backend/src/pathordering/pathOrdering.ts:71-75 | the constructor's swap and the swapped arguments of `addEdge(nextEdge.to, nextEdge.from)` cancel: re-adding a stored edge that carries its `addEdge` weight rebuilds exactly that edge |
| Nodes.EdgeBetweenReversed | backend/src/pathordering/pathOrdering.ts:120-123 | `addEdge(a, b)` and `addEdge(b, a)` store the same two endpoints in opposite orientations, with equal weights |
| Sequences.DedupMembers | backend/src/pathordering/pathOrdering.ts:218-221 | the `includes`-guarded pushes collect exactly the elements pushed |
| Sequences.DedupDistinct | backend/src/pathordering/pathOrdering.ts:218-221 | the `includes`-guarded pushes never collect an element twice |
| Sequences.DedupOfDistinct | backend/src/pathordering/pathOrdering.ts:218-221 | a list without repeats is collected unchanged, in its own order |
| DisjointSet.UnionFind.constructor | backend/src/pathordering/pathOrdering.ts:5-15 | every element is its own parent, so its own root; two elements share a root only when they are equal; `count` is the number of elements |
| DisjointSet.UnionFind.Find | backend/src/pathordering/pathOrdering.ts:41-48 | the loop terminates (the parent links are acyclic) and returns the self-parented root reached from `a` |
| DisjointSet.UnionFind.Connected | backend/src/pathordering/pathOrdering.ts:51-53 | true exactly when the two nodes have the same root |
| DisjointSet.UnionFind.Union | backend/src/pathordering/pathOrdering.ts:17-38 | the recursion terminates, the parent links stay acyclic, and the new parent map is `UnionResult` of the old one; `count` is not touched |
| DisjointSet.UnionFind.SetParent | backend/src/pathordering/pathOrdering.ts:29 | `parent.set(big, q)` on a root `big` outside `q`'s tree keeps the parent links acyclic |
| DisjointSet.RootOfIsRoot | backend/src/pathordering/pathOrdering.ts:43-47 | following parent links from any node ends at a node that is its own parent |
| DisjointSet.UnionIsLink | backend/src/pathordering/pathOrdering.ts:24-37 | when the root ids differ, `union` changes one parent entry only: that of the old root with the larger id, which is linked below a node whose root is the smaller-id old root |
| DisjointSet.UnionClimb | backend/src/pathordering/pathOrdering.ts:26-27 | a recursive call `union(parent(b), a)` (or `union(parent(a), b)`) has the same result as the call it replaces |
| DisjointSet.UnionJoins | backend/src/pathordering/pathOrdering.ts:17-37 | after `union(a, b)`, `find(a) == find(b)`, and the common root is the old root with the smaller id; when the old roots have the same id the parent map is unchanged |
| DisjointSet.UnionResultRoots | backend/src/pathordering/pathOrdering.ts:17-37 | every node of the two merged sets gets the smaller-id old root as its root; every other node keeps its root |
| DisjointSet.UnionResultRootSet | backend/src/pathordering/pathOrdering.ts:24-37 | with different roots, exactly the larger-id old root stops being a root; otherwise the roots are unchanged |
| DisjointSet.LinkedAcyclic | backend/src/pathordering/pathOrdering.ts:29 | linking a root below a node of another tree leaves the parent links acyclic |
| DisjointSet.LinkedRoots | backend/src/pathordering/pathOrdering.ts:29 | linking a root below another node removes exactly that root from the set of roots |
| Sorting.Insert | backend/src/pathordering/pathOrdering.ts:96 | inserting an edge into a weight-sorted list keeps it sorted and adds exactly that edge |
| Sorting.SortByWeight | backend/src/pathordering/pathOrdering.ts:95-96 | the sorted copy is ascending by weight and a permutation of the edge list |
| SpanningForest.TracksInitially | backend/src/pathordering/pathOrdering.ts:98 | a fresh union-find over the nodes agrees with the empty edge set: two nodes share a root exactly when they are equal |
| SpanningForest.TracksUnion | backend/src/pathordering/pathOrdering.ts:110-111 | after adding an edge between two unconnected nodes and calling `union` on them, two nodes share a root exactly when the kept edges connect them, and roots plus kept edges still number the nodes |
| SpanningForest.TracksComponents | backend/src/pathordering/pathOrdering.ts:86-115 | the number of roots is the number of connected components of the kept edges, and kept edges plus components number the nodes |
| SpanningForest.ForestSnoc | backend/src/pathordering/pathOrdering.ts:108-110 | an edge whose endpoints are not yet connected, and which weighs at least as much as each kept edge, keeps the kept list acyclic and ascending |
| SpanningForest.KeepLight | backend/src/pathordering/pathOrdering.ts:108-111 | after keeping the queue's next edge, every edge looked at so far still has its endpoints joined by kept edges no heavier than it |
| SpanningForest.HeaviestKept | backend/src/pathordering/pathOrdering.ts:95-110 | an edge kept after lighter ones, whose endpoints the kept edges join, has them joined by kept edges no heavier than itself |
| SpanningForest.KruskalSkip | backend/src/pathordering/pathOrdering.ts:108 | discarding an edge whose endpoints are connected keeps Kruskal's loop invariant |
| SpanningForest.KruskalKeep | backend/src/pathordering/pathOrdering.ts:108-111 | keeping an edge whose endpoints are unconnected, then uniting them, keeps Kruskal's loop invariant |
| SpanningForest.KruskalDone | backend/src/pathordering/pathOrdering.ts:101-114 | once the queue is empty, every kept edge is an input edge, the kept edges connect exactly the pairs the input connects, kept edges plus components of the input number the nodes, and the kept edges form a minimum spanning forest |
| Minimality.ForestComponents | backend/src/pathordering/pathOrdering.ts:101-113 | any forest on a node set has as many edges as nodes, less one per component |
| Minimality.ForestEdgesBound | backend/src/pathordering/pathOrdering.ts:108-111 | a forest whose edges join nodes that a second forest connects has no more edges than the second forest |
| Minimality.CycleOptimalDominates | backend/src/pathordering/pathOrdering.ts:95-113 | a forest in which every input edge has its endpoints joined by no heavier forest edges has, at every weight threshold, at least as many edges that light as any other forest of the input |
| Minimality.CostDominated | backend/src/pathordering/pathOrdering.ts:95-96 | of two equally long edge lists, the one with at least as many edges under every threshold costs no more, for every increasing cost of the weights |
| Minimality.SpanningForestSize | backend/src/pathordering/pathOrdering.ts:86-115 | every spanning forest of a graph has as many edges as nodes, less one per component of the graph |
| Minimality.CycleOptimalMinimal | backend/src/pathordering/pathOrdering.ts:86-115 | a spanning forest in which every edge of the graph has its endpoints joined by forest edges no heavier than it costs no more than any other spanning forest, for every increasing cost of the weights |
| Minimality.CycleOptimalIsMinimum | backend/src/pathordering/pathOrdering.ts:86-115 | a spanning forest in which every edge of the graph has its endpoints joined by forest edges no heavier than it has the least total weight among the graph's spanning forests |
| Graphs.Graph.constructor | backend/src/pathordering/pathOrdering.ts:81-84 | a new graph has no edges and no nodes |
| Graphs.Graph.AddNode | backend/src/pathordering/pathOrdering.ts:117-119 | the node is appended to the node list |
| Graphs.Graph.AddEdge | backend/src/pathordering/pathOrdering.ts:120-123 | the edge `addEdge` builds is appended to the edge list, and its weight is consistent with its endpoints |
| Graphs.Graph.Consider | backend/src/pathordering/pathOrdering.ts:103-112 | one turn of Kruskal's loop: the endpoints have the same root exactly when the kept edges connect them; if the roots differ, the edge `addEdge(nextEdge.to, nextEdge.from)` is appended and the parent map becomes `UnionResult` of the old one; if they agree, neither the edges nor the parent map change; the loop invariant is kept and the node list left alone |
| Graphs.Graph.DrainQueue | backend/src/pathordering/pathOrdering.ts:101-113 | the `while` loop over the sorted queue appends to the kept edges exactly what `Greedy` keeps (each queued edge whose endpoints the edges kept before it leave unconnected), and ends with the loop invariant over the whole queue |
| Graphs.Graph.KruskalsMST | backend/src/pathordering/pathOrdering.ts:86-115 | the result is a new graph with the same node list in the same order, and no edges when there are no nodes; its edges are `Greedy` run over the input sorted by weight; they are input edges, ascend in weight and form a forest; they connect exactly the pairs the input connects, so their number is the number of distinct nodes minus the number of components; no spanning forest of the input weighs less |
| FullGraph.AllPairsLength | backend/src/pathordering/pathOrdering.ts:213-225 | the double loop adds `n·(n−1)` edges for `n` locations |
| FullGraph.AllPairsMembers | backend/src/pathordering/pathOrdering.ts:213-225 | an edge is in the complete graph exactly when it is `addEdge(l[i], l[j])` for two different positions `i` and `j` |
| FullGraph.AllPairsWellFormed | backend/src/pathordering/pathOrdering.ts:222 | every edge of the complete graph joins two of the locations and has the weight `addEdge` gives it |
| FullGraph.AllPairsNoSelfLoops | backend/src/pathordering/pathOrdering.ts:215 | on locations without repeats the complete graph has no self-loop |
| FullGraph.AllPairsConnects | backend/src/pathordering/pathOrdering.ts:211-227 | the complete graph connects every two locations |
| FullGraph.NodesSoFarStep | backend/src/pathordering/pathOrdering.ts:218-221 | row 0 appends the locations to the node list in order of first occurrence; the later rows find them all present |
| FullGraph.AddPair | backend/src/pathordering/pathOrdering.ts:218-222 | each endpoint is pushed unless the node list already holds it, and then the edge is pushed |
| FullGraph.MakeFullyConnectedGraph | backend/src/pathordering/pathOrdering.ts:211-227 | the edges are those of the complete graph, in loop order. The node list is empty for fewer than two locations; otherwise it holds each location exactly once, in order of first occurrence |
| FullGraph.AsWrittenOnPrefix | backend/src/pathordering/pathOrdering.ts:216-217 | when the argument is a prefix of `locs`, as at the one call `makeMST(locs)` (line 231), the code as written builds the complete graph on its argument |
| FullGraph.AsWrittenForeignNodes | backend/src/pathordering/pathOrdering.ts:216-217 | given two locations that share no node with a two-entry `locs`, the code as written builds two edges, none of whose endpoints the caller passed |
| FullGraph.AsWrittenIgnoresLocations | backend/src/pathordering/pathOrdering.ts:216-217 | as written, the result differs from the complete graph on the argument, and fails when `locs` has fewer entries than the argument |
| Degrees.Degree | backend/src/pathordering/pathOrdering.ts:193-203 | the degree is at most the number of edges, and it is zero exactly when no edge touches the node |
| Degrees.GetDegree | backend/src/pathordering/pathOrdering.ts:193-203 | the loop counts the edges whose `to` or `from` is the node |
| Degrees.GetDegrees | backend/src/pathordering/pathOrdering.ts:184-191 | the map's keys are exactly the graph's nodes, and each maps to its degree |
| Degrees.OddNodesMembers | backend/src/pathordering/pathOrdering.ts:166-171 | a node is collected exactly when it is listed and its degree is odd |
| Degrees.Handshake | backend/src/pathordering/pathOrdering.ts:184-203 | in a graph without repeated nodes or self-loops, whose edges join listed nodes, the degrees add up to twice the number of edges |
| Degrees.OddNodesParity | backend/src/pathordering/pathOrdering.ts:166-171 | the number of odd-degree nodes has the parity of the degree sum |
| Degrees.OddNodesEven | backend/src/pathordering/pathOrdering.ts:166-171 | such a graph has an even number of odd-degree nodes |
| PathOrdering.MakeMST | backend/src/pathordering/pathOrdering.ts:177-182 | for two or more locations the result is a spanning tree of them: a forest of complete-graph edges that connects every two locations and has one edge fewer than there are distinct locations; for fewer than two locations it has no nodes and no edges; no spanning forest of the complete graph weighs less; its edges are `Greedy` run over the complete graph sorted by weight |
| PathOrdering.TreeOddNodesEven | backend/src/pathordering/pathOrdering.ts:164-171 | a spanning forest of complete-graph edges, over the complete graph's node list, has an even number of odd-degree nodes |
| PathOrdering.CollectOddDegreeNodes | backend/src/pathordering/pathOrdering.ts:166-171 | the `forEach` over the tree's nodes pushes, in node order, exactly the nodes whose mapped degree is odd: the result is `OddNodes` of the node list |
| PathOrdering.OrderPath | backend/src/pathordering/pathOrdering.ts:163-174 | the route is empty; the collected nodes are the odd-degree nodes of the spanning tree, in the tree's node order, and there is an even number of them |

## Left out

- `pythDistance` (`Math.sqrt`, `Math.pow`) is not modelled. The weight is the squared distance, a real number. The square root is monotone, so the sort orders edges the same way. No floating-point rounding is modelled.
- `Graph.display` and the `console.log` calls are not modelled. The one log that `orderPath` makes, of the odd-degree nodes, is returned as the out-parameter `oddDegreeNodes`.
- The module-level `locs` fixture is not modelled as data. `FullGraph.AsWrittenEdges` takes it as a parameter to model the code as written.
- The tour stages (odd-vertex matching, Eulerian circuit, shortcutting) are not modelled. The code has none of them.
- The HTTP routes, database wrapper, Express wiring, React front end and mobile client are not part of this model.
- Sorting.SortByWeight: `Array.prototype.sort` is modelled as a functional insertion sort on a sequence, not an in-place sort of an array. It is written to be stable, as the JavaScript sort is, but stability is not stated as a lemma.
- Graphs.Graph.KruskalsMST: minimality is proved for the squared-distance weights the model carries. Because the square root is increasing, it also holds for the original's weights (`Minimality.CycleOptimalMinimal` allows any increasing cost), but the floating-point sum itself is not modelled.
- Graphs.Graph.KruskalsMST: requires every edge endpoint to be a node of the graph. In the original, `find` returns `undefined` for a node that is not a key. If both endpoints are missing, `connected` is true and the edge is dropped. If only one is missing, `connected` is false, the edge is pushed, and `union` then throws when it reads the `id` of `undefined`. `makeFullyConnectedGraph` always meets this requirement.
- Graphs.Graph.KruskalsMST: requires `Valid()`, meaning every edge carries the weight `addEdge` gives it. This holds for every graph built through the constructor and `addEdge`, which are the only writers of `edges` in the code.
- DisjointSet.UnionFind.Union: requires the ids of the elements to be unique. With duplicate ids, `union` can return without merging two different sets. This case is not modelled.
- PathOrdering.MakeMST and PathOrdering.OrderPath: require unique ids, for the same reason.
- Ids are modelled as `int` and coordinates as `real`. Values that are not numbers and other JavaScript corner cases are not modelled.
- `Graphs.Graph.Consider` and `FullGraph.AddPair` are the bodies of the two loops, split into methods of their own to keep each proof small. The order of state changes inside them is the original's.

## Findings

| source | as written | input that shows it | evidently intended | confidence | as-written member | corrected member |
|---|---|---|---|---|---|---|
| backend/src/pathordering/pathOrdering.ts:216-217 | the double loop reads `locs[i]` and `locs[j]` from the module-level fixture and uses `locations` only for its length | `locations = [b, a]` with `locs = [a, b]` gives the edges in a different order and orientation; `locations = [c, d]` with `locs = [a, b]` builds edges only between `a` and `b`; three locations with a two-entry `locs` make the distance of the edge for the pair (0, 2) read a field of `undefined` | `locations[i]` and `locations[j]` | high; not executed | FullGraph.AsWrittenIgnoresLocations | FullGraph.MakeFullyConnectedGraph |
