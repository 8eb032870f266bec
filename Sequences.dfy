/** Sequence helpers: duplicate-free sequences and the `includes`-guarded
    push that the graph builder uses to collect its nodes. */
module Sequences {

  /** No element occurs twice in `s`. */
  ghost predicate Distinct<T>(s: seq<T>)
  {
    forall i, j :: 0 <= i < j < |s| ==> s[i] != s[j]
  }

  /** `if (!s.includes(x)) s.push(x)`, on values. */
  function AddIfAbsent<T(==)>(s: seq<T>, x: T): (r: seq<T>)
  {
    if x in s then s else s + [x]
  }

  /** The elements of `s` in order of first occurrence, each once: what a
      sequence of `includes`-guarded pushes of `s[0], s[1], ...` builds. */
  function Dedup<T(==)>(s: seq<T>): seq<T>
  {
    if s == [] then [] else AddIfAbsent(Dedup(s[..|s| - 1]), s[|s| - 1])
  }

  lemma {:induction false} DedupMembers<T>(s: seq<T>)
    ensures forall x :: x in Dedup(s) <==> x in s
  {
    if s != [] {
      var p := s[..|s| - 1];
      DedupMembers(p);
      assert s == p + [s[|s| - 1]];
    }
  }

  lemma {:induction false} DedupDistinct<T>(s: seq<T>)
    ensures Distinct(Dedup(s))
  {
    if s != [] {
      DedupDistinct(s[..|s| - 1]);
    }
  }

  lemma LastSplit<T>(s: seq<T>)
    requires s != []
    ensures s[..|s| - 1] + [s[|s| - 1]] == s
  {
  }

  lemma DistinctPrefix<T>(s: seq<T>)
    requires Distinct(s) && s != []
    ensures Distinct(s[..|s| - 1])
  {
    var p := s[..|s| - 1];
    forall i, j | 0 <= i < j < |p| ensures p[i] != p[j] {
      assert p[i] == s[i] && p[j] == s[j];
    }
  }

  /** A sequence without duplicates is its own `Dedup`. */
  lemma {:induction false} DedupOfDistinct<T>(s: seq<T>)
    requires Distinct(s)
    ensures Dedup(s) == s
  {
    if s != [] {
      var p, x := s[..|s| - 1], s[|s| - 1];
      DistinctPrefix(s);
      DedupOfDistinct(p);
      assert x !in p by {
        forall k | 0 <= k < |p| ensures p[k] != x {
          assert p[k] == s[k];
        }
      }
      calc {
        Dedup(s);
        AddIfAbsent(Dedup(p), x);
        AddIfAbsent(p, x);
        p + [x];
        { LastSplit(s); }
        s;
      }
    }
  }

  /** A duplicate-free sequence has as many distinct elements as it is long. */
  lemma {:induction false} DistinctCard<T>(s: seq<T>)
    requires Distinct(s)
    ensures |set x | x in s| == |s|
  {
    if s != [] {
      var p := s[..|s| - 1];
      var x := s[|s| - 1];
      DistinctPrefix(s);
      DistinctCard(p);
      assert x !in p by {
        forall k | 0 <= k < |p| ensures p[k] != x {
          assert p[k] == s[k];
        }
      }
      assert (set y | y in s) == (set y | y in p) + {x} by {
        LastSplit(s);
      }
    }
  }
}
