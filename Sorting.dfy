/** The ascending sort by weight that Kruskal's algorithm applies to its copy
    of the edge list (`sort((a, b) => a.weight - b.weight)`). Written as a
    stable insertion sort on values. */
module Sorting {
  import opened Nodes

  /** Weights never decrease along `s`. */
  ghost predicate SortedByWeight(s: seq<Edge>)
  {
    forall i, j :: 0 <= i < j < |s| ==> s[i].weight <= s[j].weight
  }

  /** `e` placed in front of the first element of `t` that weighs at least as
      much, so that equal weights keep their relative order. */
  function Insert(e: Edge, t: seq<Edge>): (r: seq<Edge>)
    requires SortedByWeight(t)
    ensures SortedByWeight(r)
    ensures multiset(r) == multiset(t) + multiset{e}
    ensures |r| == |t| + 1
    ensures r[0] == e || (t != [] && r[0] == t[0])
    decreases |t|
  {
    if t == [] || e.weight <= t[0].weight then
      [e] + t
    else
      assert t == [t[0]] + t[1..];
      [t[0]] + Insert(e, t[1..])
  }

  /** The edges of `s`, reordered so that weights ascend. */
  function SortByWeight(s: seq<Edge>): (r: seq<Edge>)
    ensures SortedByWeight(r)
    ensures multiset(r) == multiset(s)
    decreases |s|
  {
    if s == [] then []
    else
      assert s == [s[0]] + s[1..];
      Insert(s[0], SortByWeight(s[1..]))
  }
}
