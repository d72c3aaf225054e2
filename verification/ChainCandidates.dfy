/** Which nodes the candidate scan lets pass, told without counting (core/router_store_chains.go). */
module ChainCandidates {
  import opened GraphStore
  import opened ChainRuns

  /** Edge `i` leads to `x`, and no other edge does. */
  ghost predicate OnlyTo(es: seq<EdgeRec>, i: nat, x: nat) {
    i < |es| && es[i].target == x && forall j :: 0 <= j < |es| && j != i ==> es[j].target != x
  }

  ghost predicate NoneTo(es: seq<EdgeRec>, x: nat) {
    forall e :: e in es ==> e.target != x
  }

  /** The neighbour at the far end has at most 64 edges, and exactly one of them leads back, with the same distance
      and attribute. */
  ghost predicate AnswersOnce(adj: Adjacency, x: nat, e: EdgeRec)
    requires e.target < |adj|
  {
    && |adj[e.target]| <= 64
    && exists i: nat :: OnlyTo(adj[e.target], i, x) && adj[e.target][i] == EdgeRec(x, e.attribute, e.distance)
  }

  /** A plain two-way road runs through the node: two edges of one kind, to two other nodes, each answered once, and
      nobody else has an edge to it. */
  ghost predicate OnPlainRoad(adj: Adjacency, x: nat)
    requires TargetsExist(adj)
  {
    && x < |adj| && |adj[x]| == 2
    && var (e, f) := (adj[x][0], adj[x][1]);
       && e.target < |adj| && f.target < |adj|
       && e.target != x && f.target != x && e.target != f.target && e.attribute == f.attribute
       && AnswersOnce(adj, x, e) && AnswersOnce(adj, x, f)
       && forall y :: 0 <= y < |adj| && y != e.target && y != f.target ==> NoneTo(adj[y], x)
  }

  lemma {:induction false} CountNone(es: seq<EdgeRec>, x: nat)
    ensures CountTo(es, x) == 0 <==> NoneTo(es, x)
  {
    if es != [] {
      var n := |es| - 1;
      CountNone(es[..n], x);
      assert es == es[..n] + [es[n]];
    }
  }

  lemma {:induction false} OneMeansOnly(es: seq<EdgeRec>, x: nat) returns (i: nat)
    requires CountTo(es, x) == 1
    ensures OnlyTo(es, i, x)
  {
    i := |es| - 1;
    if es[i].target == x {
      CountNone(es[..i], x);
      assert forall j :: 0 <= j < i ==> es[j] in es[..i];
    } else {
      i := OneMeansOnly(es[..i], x);
    }
  }

  lemma {:induction false} OnlyCountsOne(es: seq<EdgeRec>, i: nat, x: nat)
    requires OnlyTo(es, i, x)
    ensures CountTo(es, x) == 1
  {
    var n := |es| - 1;
    if i == n {
      CountNone(es[..n], x);
    } else {
      OnlyCountsOne(es[..n], i, x);
    }
  }

  /** Besides the two edges counted at `a` and `b`, none leads in exactly if the count is two. */
  lemma {:induction false} CountOthers(adj: Adjacency, x: nat, a: nat, b: nat, n: nat)
    requires a < |adj| && b < |adj| && a != b && n <= |adj|
    requires CountTo(adj[a], x) == 1 && CountTo(adj[b], x) == 1
    ensures var own := (if a < n then 1 else 0) + if b < n then 1 else 0;
      && Incoming(adj, x, n) >= own
      && (Incoming(adj, x, n) == own <==> forall y :: 0 <= y < n && y != a && y != b ==> NoneTo(adj[y], x))
  {
    if n > 0 {
      CountOthers(adj, x, a, b, n - 1);
      CountNone(adj[n - 1], x);
    }
  }

  lemma AnsweredIsReciprocated(adj: Adjacency, x: nat, e: EdgeRec)
    requires e.target < |adj|
    ensures Reciprocated(adj, x, e) <==> AnswersOnce(adj, x, e)
  {
    var es := adj[e.target];
    if Reciprocated(adj, x, e) {
      var i := OneMeansOnly(es, x);
      assert es[i] in es;
    }
    if i: nat :| OnlyTo(es, i, x) && es[i] == EdgeRec(x, e.attribute, e.distance) {
      OnlyCountsOne(es, i, x);
    }
  }

  /** The scan lets exactly the nodes on plain two-way roads pass. */
  lemma PassesOnPlainRoad(adj: Adjacency, x: nat)
    requires TargetsExist(adj)
    ensures PassesScan(adj, x) <==> OnPlainRoad(adj, x)
  {
    if x < |adj| && |adj[x]| == 2 {
      var (e, f) := (adj[x][0], adj[x][1]);
      assert e in adj[x] && f in adj[x];
      AnsweredIsReciprocated(adj, x, e);
      AnsweredIsReciprocated(adj, x, f);
      if e.target != f.target && Reciprocated(adj, x, e) && Reciprocated(adj, x, f) {
        CountOthers(adj, x, e.target, f.target, |adj|);
      }
    }
  }
}
