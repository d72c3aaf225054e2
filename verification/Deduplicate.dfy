/** Removing repeated edges in place, keeping the first of each (core/router_dedup.go). An edge is its bit
    patterns, so equal keys are equal edges. */
module Deduplicate {
  import opened Pigeonhole

  /** The elements in order, each only where it occurs first. */
  function FirstOccurrences<E(==)>(es: seq<E>): seq<E> {
    if es == [] then [] else
      var kept := FirstOccurrences(es[..|es| - 1]);
      if es[|es| - 1] in kept then kept else kept + [es[|es| - 1]]
  }

  lemma {:induction false} NothingLost<E(!new)>(es: seq<E>, e: E)
    ensures e in FirstOccurrences(es) <==> e in es
  {
    if es != [] {
      NothingLost(es[..|es| - 1], e);
      assert es == es[..|es| - 1] + [es[|es| - 1]];
    }
  }

  lemma {:induction false} NoneTwice<E(!new)>(es: seq<E>)
    ensures Distinct(FirstOccurrences(es))
  {
    if es != [] {
      NoneTwice(es[..|es| - 1]);
    }
  }

  ghost predicate FirstAt<E(!new)>(es: seq<E>, e: E, i: nat) {
    i < |es| && es[i] == e && e !in es[..i]
  }

  /** The places where the kept elements occur first, in increasing order. */
  ghost predicate AreFirst<E(!new)>(es: seq<E>, kept: seq<E>, places: seq<nat>) {
    && |places| == |kept|
    && (forall k :: 0 <= k < |kept| ==> FirstAt(es, kept[k], places[k]))
    && forall k, j :: 0 <= k < j < |kept| ==> places[k] < places[j]
  }

  lemma {:induction false} OrderKept<E(!new)>(es: seq<E>) returns (places: seq<nat>)
    ensures AreFirst(es, FirstOccurrences(es), places)
  {
    if es == [] {
      places := [];
    } else {
      var n := |es| - 1;
      var init := es[..n];
      var before := OrderKept(init);
      var kept := FirstOccurrences(init);
      NothingLost(init, es[n]);
      forall k | 0 <= k < |kept|
        ensures FirstAt(es, kept[k], before[k])
      {
        assert FirstAt(init, kept[k], before[k]);
        assert es[..before[k]] == init[..before[k]];
      }
      places := if es[n] in kept then before else before + [n];
    }
  }

  /** Doing it again changes nothing. */
  lemma {:induction false} DistinctUnchanged<E(!new)>(es: seq<E>)
    requires Distinct(es)
    ensures FirstOccurrences(es) == es
  {
    if es != [] {
      var init := es[..|es| - 1];
      DistinctUnchanged(init);
      assert es == init + [es[|es| - 1]];
    }
  }

  lemma KeptStep<E(!new)>(es: seq<E>, i: nat)
    requires i < |es|
    ensures FirstOccurrences(es[..i + 1]) ==
      var kept := FirstOccurrences(es[..i]); if es[i] in kept then kept else kept + [es[i]]
  {
    assert es[..i + 1][..i] == es[..i];
  }

  lemma {:induction false} KeptAtMost<E(!new)>(es: seq<E>)
    ensures |FirstOccurrences(es)| <= |es|
    ensures |FirstOccurrences(es)| == |es| ==> FirstOccurrences(es) == es
  {
    if es != [] {
      KeptAtMost(es[..|es| - 1]);
      assert es == es[..|es| - 1] + [es[|es| - 1]];
    }
  }

  /** Compares with the edges kept so far. */
  method SeenBefore<E(==)>(edges: array<E>, kept: nat, e: E) returns (duplicate: bool)
    requires kept <= edges.Length
    ensures duplicate <==> e in edges[..kept]
  {
    for j := 0 to kept
      invariant e !in edges[..j]
    {
      if edges[j] == e {
        return true;
      }
    }
    duplicate := false;
  }

  /** Compacts one node's edges in place; up to eight edges by comparing, more with a set. */
  method DeduplicateEdges<E(==, !new)>(edges: array<E>, zero: E) returns (kept: nat)
    modifies edges
    ensures kept <= edges.Length && edges[..kept] == FirstOccurrences(old(edges[..]))
    ensures kept < edges.Length ==> forall i :: kept <= i < edges.Length ==> edges[i] == zero
  {
    ghost var es := edges[..];
    var large := edges.Length > 8;
    var seen: set<E> := {};
    kept := 0;
    for i := 0 to edges.Length
      invariant kept <= i && edges[..kept] == FirstOccurrences(es[..i])
      invariant forall k :: i <= k < edges.Length ==> edges[k] == es[k]
      invariant large ==> forall e :: e in seen <==> e in edges[..kept]
    {
      KeptStep(es, i);
      var edge := edges[i];
      var duplicate;
      if large {
        duplicate := edge in seen;
        seen := seen + {edge};
      } else {
        duplicate := SeenBefore(edges, kept, edge);
      }
      if !duplicate {
        ghost var was := edges[..kept];
        edges[kept] := edge;
        kept := kept + 1;
        assert edges[..kept] == was + [edge];
      }
    }
    assert es[..edges.Length] == es;
    ghost var result := edges[..kept];
    for i := kept to edges.Length
      invariant edges[..kept] == result
      invariant forall k :: kept <= k < i ==> edges[k] == zero
    {
      edges[i] := zero;
    }
  }
}
