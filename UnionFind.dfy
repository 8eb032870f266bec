/** The disjoint-set structure Kruskal's algorithm uses for cycle detection:
    a parent map whose roots are self-parented, no path compression, and a
    union that links by comparing the ids of the two roots. */
module DisjointSet {
  import opened Nodes

  /** The parent map is closed (every parent is itself a key) and acyclic:
      `depth` strictly decreases along every parent link that is not a
      self-loop, so walking parent links always reaches a root. `depth` is
      only a witness for this; its values carry no meaning of their own. */
  ghost predicate Acyclic(parent: map<ClueNode, ClueNode>, depth: map<ClueNode, nat>)
  {
    && depth.Keys == parent.Keys
    && parent.Values <= parent.Keys
    && forall x {:trigger parent[x]} :: x in parent ==>
         parent[x] != x ==> depth[parent[x]] < depth[x]
  }

  /** The node reached from `x` by following parent links until a node is its
      own parent. */
  ghost function RootOf(parent: map<ClueNode, ClueNode>, depth: map<ClueNode, nat>, x: ClueNode): ClueNode
    requires Acyclic(parent, depth) && x in parent
    decreases depth[x]
  {
    if parent[x] == x then x else RootOf(parent, depth, parent[x])
  }

  /** The self-parented nodes. */
  ghost function Roots(parent: map<ClueNode, ClueNode>): set<ClueNode>
  {
    set x | x in parent && parent[x] == x
  }

  /** The root of a node is a key and is its own parent. */
  lemma {:induction false} RootOfIsRoot(parent: map<ClueNode, ClueNode>, depth: map<ClueNode, nat>, x: ClueNode)
    requires Acyclic(parent, depth) && x in parent
    ensures RootOf(parent, depth, x) in parent
    ensures parent[RootOf(parent, depth, x)] == RootOf(parent, depth, x)
    decreases depth[x]
  {
    if parent[x] != x {
      RootOfIsRoot(parent, depth, parent[x]);
    }
  }

  /** The root does not depend on which acyclicity witness is used. */
  lemma {:induction false} RootOfWitness(parent: map<ClueNode, ClueNode>, d1: map<ClueNode, nat>, d2: map<ClueNode, nat>, x: ClueNode)
    requires Acyclic(parent, d1) && Acyclic(parent, d2) && x in parent
    ensures RootOf(parent, d1, x) == RootOf(parent, d2, x)
    decreases d1[x]
  {
    if parent[x] != x {
      RootOfWitness(parent, d1, d2, parent[x]);
    }
  }

  /** The witness after the link of root `big` below node `q`: every node of
      the tree of `big` moves down by `depth[q] + 1`. */
  ghost function LinkedDepth(parent: map<ClueNode, ClueNode>, depth: map<ClueNode, nat>, big: ClueNode, q: ClueNode): map<ClueNode, nat>
    requires Acyclic(parent, depth) && q in parent
  {
    map x | x in parent :: if RootOf(parent, depth, x) == big then depth[x] + depth[q] + 1 else depth[x]
  }

  /** Linking a root `big` below a node `q` of another tree keeps the parent
      map acyclic. */
  lemma LinkedAcyclic(parent: map<ClueNode, ClueNode>, depth: map<ClueNode, nat>, big: ClueNode, q: ClueNode)
    requires Acyclic(parent, depth)
    requires big in parent && parent[big] == big
    requires q in parent && RootOf(parent, depth, q) != big
    ensures Acyclic(parent[big := q], LinkedDepth(parent, depth, big, q))
  {
    var p', d' := parent[big := q], LinkedDepth(parent, depth, big, q);
    forall x | x in p' ensures p'[x] in p' && (p'[x] != x ==> d'[p'[x]] < d'[x]) {
      if x != big && parent[x] != x {
        assert RootOf(parent, depth, parent[x]) == RootOf(parent, depth, x);
      }
    }
  }

  /** After that link, the nodes of the tree of `big` take the root of `q`,
      and every other node keeps its root. */
  lemma {:induction false} LinkedRoot(parent: map<ClueNode, ClueNode>, depth: map<ClueNode, nat>,
                                      big: ClueNode, q: ClueNode, depth': map<ClueNode, nat>, x: ClueNode)
    requires Acyclic(parent, depth)
    requires big in parent && parent[big] == big
    requires q in parent && RootOf(parent, depth, q) != big
    requires Acyclic(parent[big := q], depth')
    requires x in parent
    ensures RootOf(parent[big := q], depth', x) ==
      if RootOf(parent, depth, x) == big then RootOf(parent, depth, q) else RootOf(parent, depth, x)
    decreases depth'[x]
  {
    if x == big {
      LinkedRoot(parent, depth, big, q, depth', q);
    } else if parent[x] != x {
      LinkedRoot(parent, depth, big, q, depth', parent[x]);
    }
  }

  /** A witness of acyclicity after linking root `big` below `q`. */
  lemma LinkWitness(parent: map<ClueNode, ClueNode>, depth: map<ClueNode, nat>, big: ClueNode, q: ClueNode)
    returns (depth': map<ClueNode, nat>)
    requires Acyclic(parent, depth)
    requires big in parent && parent[big] == big
    requires q in parent && RootOf(parent, depth, q) != big
    ensures Acyclic(parent[big := q], depth')
  {
    depth' := LinkedDepth(parent, depth, big, q);
    LinkedAcyclic(parent, depth, big, q);
  }

  /** The link removes exactly `big` from the roots. */
  lemma LinkedRoots(parent: map<ClueNode, ClueNode>, big: ClueNode, q: ClueNode)
    requires big in parent && q != big
    ensures Roots(parent[big := q]) == Roots(parent) - {big}
  {
  }

  /** The parent map `union(a, b)` leaves: unchanged when the roots have the
      same id; otherwise the root with the larger id now has as its parent the
      parent of the argument in the other set. */
  ghost function UnionResult(parent: map<ClueNode, ClueNode>, depth: map<ClueNode, nat>, a: ClueNode, b: ClueNode): map<ClueNode, ClueNode>
    requires Acyclic(parent, depth) && a in parent && b in parent
  {
    var rootA, rootB := RootOf(parent, depth, a), RootOf(parent, depth, b);
    if rootA.id == rootB.id then parent
    else if rootA.id < rootB.id then parent[rootB := parent[a]]
    else parent[rootA := parent[b]]
  }

  /** The root every node has after `union(a, b)`: the nodes of the sets of
      `a` and `b` share the root with the smaller id, the rest keep theirs. */
  ghost function MergedRoot(parent: map<ClueNode, ClueNode>, depth: map<ClueNode, nat>, a: ClueNode, b: ClueNode, x: ClueNode): ClueNode
    requires Acyclic(parent, depth) && a in parent && b in parent && x in parent
  {
    var rootA, rootB := RootOf(parent, depth, a), RootOf(parent, depth, b);
    var r := RootOf(parent, depth, x);
    if r == rootA || r == rootB then (if rootA.id <= rootB.id then rootA else rootB) else r
  }

  /** With different root ids, `union(a, b)` is one link of the larger-id
      root below a node of the other set. */
  lemma UnionIsLink(parent: map<ClueNode, ClueNode>, depth: map<ClueNode, nat>, a: ClueNode, b: ClueNode)
    returns (big: ClueNode, q: ClueNode)
    requires Acyclic(parent, depth) && a in parent && b in parent
    requires RootOf(parent, depth, a).id != RootOf(parent, depth, b).id
    ensures big in parent && parent[big] == big && q in parent
    ensures var rootA, rootB := RootOf(parent, depth, a), RootOf(parent, depth, b);
      big == (if rootA.id < rootB.id then rootB else rootA) &&
      RootOf(parent, depth, q) == (if rootA.id < rootB.id then rootA else rootB)
    ensures UnionResult(parent, depth, a, b) == parent[big := q]
  {
    var rootA, rootB := RootOf(parent, depth, a), RootOf(parent, depth, b);
    RootOfIsRoot(parent, depth, a);
    RootOfIsRoot(parent, depth, b);
    big, q := if rootA.id < rootB.id then rootB else rootA, if rootA.id < rootB.id then parent[a] else parent[b];
    if parent[a] != a { assert RootOf(parent, depth, parent[a]) == rootA; }
    if parent[b] != b { assert RootOf(parent, depth, parent[b]) == rootB; }
  }

  /** With unique ids, two roots with the same id are the same root. */
  lemma SameIdSameRoot(parent: map<ClueNode, ClueNode>, depth: map<ClueNode, nat>, a: ClueNode, b: ClueNode)
    requires Acyclic(parent, depth) && a in parent && b in parent
    requires UniqueIds(parent.Keys)
    ensures RootOf(parent, depth, a).id == RootOf(parent, depth, b).id ==>
      RootOf(parent, depth, a) == RootOf(parent, depth, b)
  {
    RootOfIsRoot(parent, depth, a);
    RootOfIsRoot(parent, depth, b);
    assert SameId(RootOf(parent, depth, a), RootOf(parent, depth, b)) ==>
      RootOf(parent, depth, a) == RootOf(parent, depth, b);
  }

  /** What `union(a, b)` does to the sets: the two sets are merged under the
      smaller-id root and every other node keeps its root. */
  lemma UnionResultRoots(parent: map<ClueNode, ClueNode>, depth: map<ClueNode, nat>, a: ClueNode, b: ClueNode, depth': map<ClueNode, nat>)
    requires Acyclic(parent, depth) && a in parent && b in parent
    requires RootOf(parent, depth, a).id == RootOf(parent, depth, b).id ==>
      RootOf(parent, depth, a) == RootOf(parent, depth, b)
    requires Acyclic(UnionResult(parent, depth, a, b), depth')
    ensures forall x :: x in parent ==>
      RootOf(UnionResult(parent, depth, a, b), depth', x) == MergedRoot(parent, depth, a, b, x)
  {
    var rootA, rootB := RootOf(parent, depth, a), RootOf(parent, depth, b);
    var p' := UnionResult(parent, depth, a, b);
    if rootA.id != rootB.id {
      var big, q := UnionIsLink(parent, depth, a, b);
      forall x | x in parent ensures RootOf(p', depth', x) == MergedRoot(parent, depth, a, b, x) {
        LinkedRoot(parent, depth, big, q, depth', x);
      }
    } else {
      forall x | x in parent ensures RootOf(p', depth', x) == MergedRoot(parent, depth, a, b, x) {
        RootOfWitness(parent, depth', depth, x);
      }
    }
  }

  /** After `union(a, b)` the two arguments have the same root, the old
      root with the smaller id; when the old roots already had the same id
      the parent map is unchanged. */
  lemma UnionJoins(parent: map<ClueNode, ClueNode>, depth: map<ClueNode, nat>, a: ClueNode, b: ClueNode, depth': map<ClueNode, nat>)
    requires Acyclic(parent, depth) && a in parent && b in parent
    requires UniqueIds(parent.Keys)
    requires Acyclic(UnionResult(parent, depth, a, b), depth')
    ensures var rootA, rootB := RootOf(parent, depth, a), RootOf(parent, depth, b);
      var p' := UnionResult(parent, depth, a, b);
      && RootOf(p', depth', a) == RootOf(p', depth', b) == (if rootA.id <= rootB.id then rootA else rootB)
      && (rootA.id == rootB.id ==> p' == parent)
  {
    SameIdSameRoot(parent, depth, a, b);
    UnionResultRoots(parent, depth, a, b, depth');
  }

  /** The roots after `union(a, b)`: with different roots, all but the
      larger-id one; otherwise all of them. */
  ghost function RootsAfterUnion(parent: map<ClueNode, ClueNode>, depth: map<ClueNode, nat>, a: ClueNode, b: ClueNode): set<ClueNode>
    requires Acyclic(parent, depth) && a in parent && b in parent
  {
    var rootA, rootB := RootOf(parent, depth, a), RootOf(parent, depth, b);
    if rootA == rootB then Roots(parent)
    else Roots(parent) - {if rootA.id < rootB.id then rootB else rootA}
  }

  /** With different roots, exactly the larger-id root stops being a root. */
  lemma UnionResultRootSet(parent: map<ClueNode, ClueNode>, depth: map<ClueNode, nat>, a: ClueNode, b: ClueNode)
    requires Acyclic(parent, depth) && a in parent && b in parent
    requires RootOf(parent, depth, a).id == RootOf(parent, depth, b).id ==>
      RootOf(parent, depth, a) == RootOf(parent, depth, b)
    ensures Roots(UnionResult(parent, depth, a, b)) == RootsAfterUnion(parent, depth, a, b)
  {
    var rootA, rootB := RootOf(parent, depth, a), RootOf(parent, depth, b);
    if rootA.id != rootB.id {
      var big, q := UnionIsLink(parent, depth, a, b);
      LinkedRoots(parent, big, q);
    }
  }

  /** What one recursive step of `union` amounts to: climbing one parent link
      on the side of the larger-id root leaves the result unchanged. */
  lemma UnionClimb(parent: map<ClueNode, ClueNode>, depth: map<ClueNode, nat>, a: ClueNode, b: ClueNode)
    requires Acyclic(parent, depth) && a in parent && b in parent
    requires RootOf(parent, depth, a).id != RootOf(parent, depth, b).id
    ensures RootOf(parent, depth, a).id < RootOf(parent, depth, b).id && parent[b] != b ==>
      UnionResult(parent, depth, parent[b], a) == UnionResult(parent, depth, a, b)
    ensures RootOf(parent, depth, a).id > RootOf(parent, depth, b).id && parent[a] != a ==>
      UnionResult(parent, depth, parent[a], b) == UnionResult(parent, depth, a, b)
  {
    if parent[a] != a { assert RootOf(parent, depth, parent[a]) == RootOf(parent, depth, a); }
    if parent[b] != b { assert RootOf(parent, depth, parent[b]) == RootOf(parent, depth, b); }
  }

  class UnionFind {
    /** Set to the number of elements by the constructor and never updated
        afterwards, although the original's comment calls it the number of
        disconnected components. */
    var count: int
    var parent: map<ClueNode, ClueNode>
    ghost var depth: map<ClueNode, nat>

    ghost predicate Valid()
      reads this
    {
      Acyclic(parent, depth)
    }

    /** The root `find(x)` returns. */
    ghost function Root(x: ClueNode): ClueNode
      reads this
      requires Valid() && x in parent
    {
      RootOf(parent, depth, x)
    }

    /** Each element starts as its own parent, so as a singleton set. */
    constructor (elements: seq<ClueNode>)
      ensures Valid()
      ensures count == |elements|
      ensures parent == map e | e in elements :: e
      ensures forall x :: x in elements ==> Root(x) == x
      ensures forall x, y :: x in elements && y in elements ==> (Root(x) == Root(y) <==> x == y)
    {
      count := |elements|;
      parent := map[];
      depth := map[];
      new;
      for k := 0 to |elements|
        invariant count == |elements|
        invariant parent == map e | e in elements[..k] :: e
        invariant depth == map e | e in elements[..k] :: 0
      {
        assert elements[..k + 1] == elements[..k] + [elements[k]];
        parent := parent[elements[k] := elements[k]];
        depth := depth[elements[k] := 0];
      }
      assert elements[..|elements|] == elements;
    }

    /** Walks parent links from `a` up to the self-parented root. */
    method Find(a: ClueNode) returns (r: ClueNode)
      requires Valid() && a in parent
      ensures r in parent && parent[r] == r
      ensures r == Root(a)
    {
      r := a;
      while parent[r] != r
        invariant r in parent && Root(r) == Root(a)
        decreases depth[r]
      {
        r := parent[r];
      }
    }

    /** Whether `a` and `b` are in the same set. */
    method Connected(a: ClueNode, b: ClueNode) returns (c: bool)
      requires Valid() && a in parent && b in parent
      ensures c <==> Root(a) == Root(b)
    {
      var rootA := Find(a);
      var rootB := Find(b);
      c := rootA == rootB;
    }

    /** Merges the sets of `a` and `b`. The recursion climbs the parent chain
        of the argument whose root has the larger id up to that root, then
        links it below the parent of the other argument. */
    method Union(a: ClueNode, b: ClueNode)
      requires Valid() && a in parent && b in parent
      requires UniqueIds(parent.Keys)
      modifies this`parent, this`depth
      ensures Valid()
      ensures parent == UnionResult(old(parent), old(depth), a, b)
      decreases if Root(a).id < Root(b).id then depth[b] else depth[a]
    {
      var rootA := Find(a);
      var rootB := Find(b);
      if rootA.id != rootB.id {
        UnionClimb(parent, depth, a, b);
        if rootA.id < rootB.id {
          if parent[b] != b {
            assert Root(parent[b]) == rootB;
            Union(parent[b], a);
          } else {
            RootOfIsRoot(parent, depth, a);
            assert Root(parent[a]) == rootA;
            SetParent(b, parent[a]);
          }
        } else {
          if parent[a] != a {
            assert Root(parent[a]) == rootA;
            Union(parent[a], b);
          } else {
            RootOfIsRoot(parent, depth, b);
            assert Root(parent[b]) == rootB;
            SetParent(a, parent[b]);
          }
        }
      }
    }

    /** `parent.set(big, q)` for a root `big` and a node `q` outside its tree. */
    method SetParent(big: ClueNode, q: ClueNode)
      requires Valid() && big in parent && parent[big] == big
      requires q in parent && Root(q) != big
      modifies this`parent, this`depth
      ensures Valid() && parent == old(parent)[big := q]
    {
      depth := LinkWitness(parent, depth, big, q);
      parent := parent[big := q];
    }
  }
}
