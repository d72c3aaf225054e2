/** Which nodes chain packing may take in, and how runs of them look (core/router_store_chains.go).
    Nodes are their ranks in the sorted id table; attributes their index in the attribute table. */
module ChainRuns {
  import opened GraphStore
  import opened Pigeonhole

  /** The outgoing edges of every node, in their original order. */
  type Adjacency = seq<seq<EdgeRec>>

  ghost predicate TargetsExist(adj: Adjacency) {
    forall x, e :: 0 <= x < |adj| && e in adj[x] ==> e.target < |adj|
  }

  function CountTo(es: seq<EdgeRec>, x: nat): nat {
    if es == [] then 0 else CountTo(es[..|es| - 1], x) + if es[|es| - 1].target == x then 1 else 0
  }

  /** The number of edges into `x` that leave the first `n` nodes. */
  function Incoming(adj: Adjacency, x: nat, n: nat): nat
    requires n <= |adj|
  {
    if n == 0 then 0 else Incoming(adj, x, n - 1) + CountTo(adj[n - 1], x)
  }

  /** The far node is not a huge junction and has exactly one edge back, equal in distance and attribute. */
  ghost predicate Reciprocated(adj: Adjacency, x: nat, e: EdgeRec)
    requires e.target < |adj|
  {
    && |adj[e.target]| <= 64
    && CountTo(adj[e.target], x) == 1
    && forall r :: r in adj[e.target] && r.target == x ==> r.distance == e.distance && r.attribute == e.attribute
  }

  /** The local shape of a chain interior: two reciprocated edges to two other nodes. */
  ghost predicate IsCandidate(adj: Adjacency, x: nat)
    requires TargetsExist(adj)
  {
    && x < |adj| && |adj[x]| == 2
    && adj[x][0].target != x && adj[x][1].target != x
    && adj[x][0].target != adj[x][1].target
    && adj[x][0].attribute == adj[x][1].attribute
    && adj[x][0].target < |adj| && adj[x][1].target < |adj|
    && Reciprocated(adj, x, adj[x][0]) && Reciprocated(adj, x, adj[x][1])
  }

  /** What the candidate scan tests: the shape, and no third edge leading in. */
  ghost predicate PassesScan(adj: Adjacency, x: nat)
    requires TargetsExist(adj)
  {
    IsCandidate(adj, x) && Incoming(adj, x, |adj|) == 2
  }

  ghost predicate Points(adj: Adjacency, x: nat, y: nat) {
    x < |adj| && exists e :: e in adj[x] && e.target == y
  }

  /** The edge of a two-edge node that does not lead to `previous`. */
  function Other(adj: Adjacency, x: nat, previous: nat): EdgeRec
    requires x < |adj| && |adj[x]| == 2
  {
    if adj[x][0].target == previous then adj[x][1] else adj[x][0]
  }

  lemma {:induction false} CountFinds(es: seq<EdgeRec>, x: nat)
    ensures CountTo(es, x) > 0 <==> exists e :: e in es && e.target == x
  {
    if es != [] {
      var init, last := es[..|es| - 1], es[|es| - 1];
      CountFinds(init, x);
      assert es == init + [last];
      if exists e :: e in init && e.target == x {
        var e :| e in init && e.target == x;
        assert e in es;
      }
      assert last in es;
    }
  }

  /** A candidate's neighbour has an edge back of the same distance and attribute. */
  lemma PointsBack(adj: Adjacency, x: nat, e: EdgeRec) returns (r: EdgeRec)
    requires TargetsExist(adj) && IsCandidate(adj, x) && e in adj[x]
    ensures e.target < |adj| && r in adj[e.target]
    ensures r == EdgeRec(x, e.attribute, e.distance)
    ensures Points(adj, e.target, x)
  {
    assert Reciprocated(adj, x, e);
    CountFinds(adj[e.target], x);
    r :| r in adj[e.target] && r.target == x;
  }

  lemma TwoTargets(adj: Adjacency, x: nat, y: nat, z: nat, w: nat)
    requires TargetsExist(adj) && IsCandidate(adj, x)
    requires Points(adj, x, y) && Points(adj, x, z) && Points(adj, x, w) && y != z
    ensures w == y || w == z
  {}

  /** Neighbouring nodes without repetition; all but the first are flagged candidates. */
  ghost predicate Run(adj: Adjacency, flagged: seq<bool>, run: seq<nat>) {
    && |run| > 0 && run[0] < |adj| == |flagged|
    && Distinct(run)
    && (forall k :: 1 <= k < |run| ==> run[k] < |adj| && flagged[run[k]] && Points(adj, run[k], run[k - 1]))
    && (forall k :: 1 <= k < |run| - 1 ==> Points(adj, run[k], run[k + 1]))
  }

  ghost predicate FlagsAreCandidates(adj: Adjacency, flagged: seq<bool>)
    requires TargetsExist(adj)
  {
    |flagged| == |adj| && forall x :: 0 <= x < |adj| && flagged[x] ==> IsCandidate(adj, x)
  }

  /** Were the next node inside the run, it would have a third neighbour. */
  lemma NextIsNot(adj: Adjacency, flagged: seq<bool>, run: seq<nat>, next: nat, k: nat)
    requires TargetsExist(adj) && FlagsAreCandidates(adj, flagged) && Run(adj, flagged, run)
    requires |run| >= 2 && Points(adj, run[|run| - 1], next) && next != run[|run| - 2]
    requires 1 <= k < |run|
    ensures run[k] != next
  {
    var last := |run| - 1;
    assert IsCandidate(adj, run[last]) && IsCandidate(adj, run[k]);
    if k < last - 1 && run[k] == next {
      var e :| e in adj[run[last]] && e.target == next;
      var r := PointsBack(adj, run[last], e);
      assert run[k - 1] != run[last] && run[k + 1] != run[last] && run[k - 1] != run[k + 1];
      TwoTargets(adj, run[k], run[k - 1], run[k + 1], run[last]);
    }
  }

  /** Walking on from the end of a run never meets the run again, except for its first node. */
  lemma NextIsNew(adj: Adjacency, flagged: seq<bool>, run: seq<nat>, next: nat)
    requires TargetsExist(adj) && FlagsAreCandidates(adj, flagged) && Run(adj, flagged, run)
    requires |run| >= 2 && Points(adj, run[|run| - 1], next) && next != run[|run| - 2]
    ensures next !in run[1..]
  {
    forall k | 1 <= k < |run|
      ensures run[k] != next
    {
      NextIsNot(adj, flagged, run, next, k);
    }
  }

  lemma OtherLeadsOn(adj: Adjacency, x: nat, previous: nat)
    requires TargetsExist(adj) && IsCandidate(adj, x)
    ensures var e := Other(adj, x, previous);
      e in adj[x] && Points(adj, x, e.target) && e.target != previous && e.target < |adj| && e.target != x
  {
    assert adj[x][0] in adj[x] && adj[x][1] in adj[x];
  }

  lemma RunGrows(adj: Adjacency, flagged: seq<bool>, run: seq<nat>, next: nat)
    requires Run(adj, flagged, run) && next < |adj| && flagged[next]
    requires next !in run && Points(adj, next, run[|run| - 1])
    requires |run| >= 2 ==> Points(adj, run[|run| - 1], next)
    ensures Run(adj, flagged, run + [next])
  {}

  lemma RunFits(adj: Adjacency, flagged: seq<bool>, run: seq<nat>)
    requires Run(adj, flagged, run)
    ensures |run| <= |adj|
  {
    DistinctWithin(run, Below(|adj|));
  }
}
