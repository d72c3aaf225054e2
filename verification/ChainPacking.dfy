/** Packing long two-way degree-two runs into chains (`packGraphChains` in core/router_store_chains.go). */
module ChainPacking {
  import opened GraphStore
  import opened ChainRuns
  import opened Pigeonhole

  // ---- One chain ----

  /** Each vertex but the last has the stored edge to the next one. */
  ghost predicate Segments(adj: Adjacency, path: seq<VertexRec>, attribute: nat) {
    forall k :: 0 <= k < |path| - 1 ==>
      path[k].node < |adj| && EdgeRec(path[k + 1].node, attribute, path[k].distance) in adj[path[k].node]
  }

  /** The two edges of an interior vertex as a reader rebuilds them from the chain. */
  function RebuiltEdges(path: seq<VertexRec>, attribute: nat, p: nat, reversed: bool): seq<EdgeRec>
    requires 1 <= p < |path| - 1
  {
    var back := EdgeRec(path[p - 1].node, attribute, path[p - 1].distance);
    var on := EdgeRec(path[p + 1].node, attribute, path[p].distance);
    if reversed then [on, back] else [back, on]
  }

  /** Whether the first edge of the vertex is not the one to the vertex before it. */
  predicate IsReversed(adj: Adjacency, path: seq<VertexRec>, p: nat)
    requires 1 <= p < |path| - 1 && path[p].node < |adj| && |adj[path[p].node]| > 0
  {
    adj[path[p].node][0].target != path[p - 1].node
  }

  ghost predicate InteriorOk(adj: Adjacency, flagged: seq<bool>, path: seq<VertexRec>, attribute: nat, p: nat)
    requires 1 <= p < |path| - 1
  {
    var x := path[p].node;
    && x < |adj| == |flagged| && flagged[x] && |adj[x]| == 2
    && adj[x] == RebuiltEdges(path, attribute, p, IsReversed(adj, path, p))
  }

  ghost function Nodes(path: seq<VertexRec>): (r: seq<nat>)
    ensures |r| == |path| && forall i :: 0 <= i < |r| ==> r[i] == path[i].node
  {
    seq(|path|, i requires 0 <= i < |path| => path[i].node)
  }

  /** A chain between ordinary end points from which every interior's edges can be rebuilt. */
  ghost predicate PathOk(adj: Adjacency, flagged: seq<bool>, path: seq<VertexRec>, attribute: nat) {
    && |path| >= 3 && |flagged| == |adj|
    && (forall k :: 0 <= k < |path| ==> path[k].node < |adj|)
    && !flagged[path[0].node] && !flagged[path[|path| - 1].node]
    && path[|path| - 1].distance == 0
    && Distinct(Nodes(path)[1..|path| - 1])
    && (forall p :: 1 <= p < |path| - 1 ==> InteriorOk(adj, flagged, path, attribute, p))
    && EdgeRec(path[1].node, attribute, path[0].distance) in adj[path[0].node]
    && EdgeRec(path[|path| - 2].node, attribute, path[|path| - 2].distance) in adj[path[|path| - 1].node]
  }

  /** A candidate's edge to a neighbour matches every edge that neighbour has back. */
  lemma EdgeMatches(adj: Adjacency, x: nat, y: nat, r: EdgeRec)
    requires TargetsExist(adj) && IsCandidate(adj, x) && Points(adj, x, y)
    requires y < |adj| && r in adj[y] && r.target == x
    ensures EdgeRec(y, r.attribute, r.distance) in adj[x]
  {
    var e :| e in adj[x] && e.target == y;
    assert Reciprocated(adj, x, e);
    assert e == EdgeRec(y, r.attribute, r.distance);
  }

  lemma TwoEdges(es: seq<EdgeRec>, a: EdgeRec, b: EdgeRec)
    requires |es| == 2 && a in es && b in es && a.target != b.target
    ensures es == if es[0].target != a.target then [b, a] else [a, b]
  {}

  /** What the segments of a run say about one of its candidates. */
  lemma InteriorRebuilt(adj: Adjacency, flagged: seq<bool>, path: seq<VertexRec>, attribute: nat, p: nat)
    requires TargetsExist(adj) && FlagsAreCandidates(adj, flagged) && Segments(adj, path, attribute)
    requires 1 <= p < |path| - 1 && path[p].node < |adj| && flagged[path[p].node]
    requires Points(adj, path[p].node, path[p - 1].node) && path[p - 1].node != path[p + 1].node
    ensures InteriorOk(adj, flagged, path, attribute, p)
  {
    var x := path[p].node;
    EdgeMatches(adj, x, path[p - 1].node, EdgeRec(x, attribute, path[p - 1].distance));
    TwoEdges(adj[x], EdgeRec(path[p - 1].node, attribute, path[p - 1].distance),
             EdgeRec(path[p + 1].node, attribute, path[p].distance));
  }

  // ---- Walking ----

  /** Walks from a candidate through candidates until an ordinary node, or once around a ring. */
  method WalkBack(adj: Adjacency, flagged: seq<bool>, id: nat)
    returns (previous: nat, current: nat, ghost run: seq<nat>)
    requires TargetsExist(adj) && FlagsAreCandidates(adj, flagged) && id < |adj| && flagged[id]
    ensures Run(adj, flagged, run) && run[0] == id && run[|run| - 1] == previous
    ensures previous < |adj| && flagged[previous] && Points(adj, previous, current) && current < |adj|
    ensures current == id || !flagged[current]
    ensures current == id ==> previous != id
    ensures |run| >= 2 ==> current != run[|run| - 2]
  {
    previous := id;
    OtherLeadsOn(adj, id, id);
    current := Other(adj, id, id).target;
    run := [id];
    while flagged[current] && current != id
      invariant Run(adj, flagged, run) && run[0] == id && run[|run| - 1] == previous
      invariant previous < |adj| && flagged[previous] && Points(adj, previous, current) && current < |adj|
      invariant |run| >= 2 ==> current != run[|run| - 2]
      invariant |run| == 1 ==> current != id
      decreases |adj| - |run|
    {
      assert IsCandidate(adj, previous) && IsCandidate(adj, current);
      if |run| >= 2 {
        NextIsNew(adj, flagged, run, current);
      }
      ghost var e :| e in adj[previous] && e.target == current;
      ghost var r := PointsBack(adj, previous, e);
      RunGrows(adj, flagged, run, current);
      RunFits(adj, flagged, run + [current]);
      OtherLeadsOn(adj, current, previous);
      run := run + [current];
      previous, current := current, Other(adj, current, previous).target;
    }
  }

  method FirstEdgeTo(es: seq<EdgeRec>, x: nat) returns (e: EdgeRec)
    requires exists e :: e in es && e.target == x
    ensures e in es && e.target == x
  {
    var i := 0;
    while es[i].target != x
      invariant 0 <= i < |es|
      invariant forall j :: 0 <= j < i ==> es[j].target != x
      invariant exists e :: e in es[i..] && e.target == x
      decreases |es| - i
    {
      i := i + 1;
    }
    return es[i];
  }

  /** A path under construction: its nodes form a run, its segments are stored, and the next
      node follows by the last vertex's edge. */
  ghost predicate Growing(adj: Adjacency, flagged: seq<bool>, path: seq<VertexRec>, attribute: nat, current: nat) {
    && |path| > 0 && Run(adj, flagged, Nodes(path))
    && Segments(adj, path, attribute)
    && var last := path[|path| - 1];
       && current < |adj| && EdgeRec(current, attribute, last.distance) in adj[last.node]
       && (|path| >= 2 ==> current != path[|path| - 2].node)
  }

  lemma SegmentsExtend(adj: Adjacency, path: seq<VertexRec>, attribute: nat, next: VertexRec)
    requires Segments(adj, path, attribute) && |path| > 0 && path[|path| - 1].node < |adj|
    requires EdgeRec(next.node, attribute, path[|path| - 1].distance) in adj[path[|path| - 1].node]
    ensures Segments(adj, path + [next], attribute)
  {
    var path' := path + [next];
    forall k | 0 <= k < |path'| - 1
      ensures path'[k].node < |adj| && EdgeRec(path'[k + 1].node, attribute, path'[k].distance) in adj[path'[k].node]
    {
      if k < |path| - 1 {
        assert EdgeRec(path[k + 1].node, attribute, path[k].distance) in adj[path[k].node];
      }
    }
  }

  lemma GrowsBy(adj: Adjacency, flagged: seq<bool>, path: seq<VertexRec>, attribute: nat, current: nat, e: EdgeRec)
    requires TargetsExist(adj) && FlagsAreCandidates(adj, flagged)
    requires Growing(adj, flagged, path, attribute, current)
    requires flagged[current] && current !in Nodes(path)
    requires Points(adj, current, path[|path| - 1].node)
    requires e == Other(adj, current, path[|path| - 1].node)
    ensures Growing(adj, flagged, path + [VertexRec(current, e.distance)], attribute, e.target)
    ensures e.attribute == attribute
  {
    var last := path[|path| - 1];
    var path' := path + [VertexRec(current, e.distance)];
    assert Nodes(path') == Nodes(path) + [current];
    assert last.node == Nodes(path)[|path| - 1] && last.node < |adj|;
    assert IsCandidate(adj, current);
    OtherLeadsOn(adj, current, last.node);
    EdgeMatches(adj, current, last.node, EdgeRec(current, attribute, last.distance));
    RunGrows(adj, flagged, Nodes(path), current);
    SegmentsExtend(adj, path, attribute, VertexRec(current, e.distance));
  }

  /** All interiors of a completed path can be rebuilt. */
  lemma InteriorsRebuilt(adj: Adjacency, flagged: seq<bool>, path: seq<VertexRec>, attribute: nat, current: nat)
    requires TargetsExist(adj) && FlagsAreCandidates(adj, flagged)
    requires Growing(adj, flagged, path, attribute, current)
    requires Segments(adj, path + [VertexRec(current, 0)], attribute)
    ensures var full := path + [VertexRec(current, 0)];
      forall p :: 1 <= p < |full| - 1 ==> InteriorOk(adj, flagged, full, attribute, p)
  {
    var full := path + [VertexRec(current, 0)];
    forall p | 1 <= p < |full| - 1
      ensures InteriorOk(adj, flagged, full, attribute, p)
    {
      var run := Nodes(path);
      assert run[p] == full[p].node && run[p - 1] == full[p - 1].node;
      assert Points(adj, run[p], run[p - 1]);
      if p + 1 < |path| {
        assert run[p + 1] == full[p + 1].node;
      }
      InteriorRebuilt(adj, flagged, full, attribute, p);
    }
  }

  /** The walk is complete: the next node is ordinary. */
  lemma PathCompletes(adj: Adjacency, flagged: seq<bool>, path: seq<VertexRec>, attribute: nat, current: nat)
    requires TargetsExist(adj) && FlagsAreCandidates(adj, flagged)
    requires Growing(adj, flagged, path, attribute, current) && |path| >= 2
    requires !flagged[path[0].node] && !flagged[current]
    ensures PathOk(adj, flagged, path + [VertexRec(current, 0)], attribute)
  {
    var full := path + [VertexRec(current, 0)];
    var n := |full| - 1;
    var x := full[n - 1].node;
    assert Nodes(path)[n - 1] == x && IsCandidate(adj, x);
    SegmentsExtend(adj, path, attribute, VertexRec(current, 0));
    InteriorsRebuilt(adj, flagged, path, attribute, current);
    var r := PointsBack(adj, x, EdgeRec(current, attribute, full[n - 1].distance));
    hide Segments;
    hide InteriorOk;
    assert Nodes(full)[1..n] == Nodes(path)[1..];
    assert forall k :: 0 <= k < |path| ==> full[k].node == Nodes(path)[k];
    FirstSegment(adj, full, attribute);
  }

  lemma FirstSegment(adj: Adjacency, path: seq<VertexRec>, attribute: nat)
    requires Segments(adj, path, attribute) && |path| >= 2
    ensures path[0].node < |adj| && EdgeRec(path[1].node, attribute, path[0].distance) in adj[path[0].node]
  {}

  /** Walks from an ordinary node over its adjacent candidate to the other end of the run. */
  method CollectPath(adj: Adjacency, flagged: seq<bool>, start: nat, first: nat)
    returns (path: seq<VertexRec>, attribute: nat)
    requires TargetsExist(adj) && FlagsAreCandidates(adj, flagged)
    requires start < |adj| && first < |adj| && !flagged[start] && flagged[first] && Points(adj, first, start)
    ensures PathOk(adj, flagged, path, attribute)
    ensures path[0].node == start && path[1].node == first && |path| <= |adj| + 1
  {
    assert IsCandidate(adj, first);
    ghost var e :| e in adj[first] && e.target == start;
    ghost var r := PointsBack(adj, first, e);
    var entry := FirstEdgeTo(adj[start], first);
    attribute := entry.attribute;
    path := [VertexRec(start, entry.distance)];
    var previous, current := start, entry.target;
    while flagged[current] && current != start
      invariant Growing(adj, flagged, path, attribute, current)
      invariant path[0].node == start && path[|path| - 1].node == previous
      invariant if |path| == 1 then current == first else path[1].node == first
      invariant flagged[current] ==> Points(adj, current, previous)
      decreases |adj| - |path|
    {
      assert IsCandidate(adj, current);
      NotInPath(adj, flagged, path, attribute, current);
      var edge := Other(adj, current, previous);
      GrowsBy(adj, flagged, path, attribute, current, edge);
      OtherLeadsOn(adj, current, previous);
      ghost var back := PointsBack(adj, current, edge);
      path := path + [VertexRec(current, edge.distance)];
      RunFits(adj, flagged, Nodes(path));
      previous, current := current, edge.target;
    }
    PathCompletes(adj, flagged, path, attribute, current);
    RunFits(adj, flagged, Nodes(path));
    path := path + [VertexRec(current, 0)];
  }

  lemma NotInPath(adj: Adjacency, flagged: seq<bool>, path: seq<VertexRec>, attribute: nat, current: nat)
    requires TargetsExist(adj) && FlagsAreCandidates(adj, flagged)
    requires Growing(adj, flagged, path, attribute, current)
    requires flagged[current] && current != path[0].node
    ensures current !in Nodes(path)
  {
    var run := Nodes(path);
    if |run| >= 2 {
      var last := path[|path| - 1];
      assert Points(adj, run[|run| - 1], current);
      NextIsNew(adj, flagged, run, current);
    }
  }

  // ---- The candidate scan ----

  lemma {:induction false} CountStep(es: seq<EdgeRec>, i: nat, x: nat)
    requires i < |es|
    ensures CountTo(es[..i + 1], x) == CountTo(es[..i], x) + if es[i].target == x then 1 else 0
  {
    assert es[..i + 1][..i] == es[..i];
  }

  /** Counts the edges into every node. */
  method CountIncoming(adj: Adjacency) returns (incoming: seq<nat>)
    requires TargetsExist(adj)
    ensures |incoming| == |adj| && forall x :: 0 <= x < |adj| ==> incoming[x] == Incoming(adj, x, |adj|)
  {
    incoming := seq(|adj|, _ => 0);
    for n := 0 to |adj|
      invariant |incoming| == |adj|
      invariant forall x :: 0 <= x < |adj| ==> incoming[x] == Incoming(adj, x, n)
    {
      for i := 0 to |adj[n]|
        invariant |incoming| == |adj|
        invariant forall x :: 0 <= x < |adj| ==> incoming[x] == Incoming(adj, x, n) + CountTo(adj[n][..i], x)
      {
        var target := adj[n][i].target;
        assert adj[n][i] in adj[n];
        forall x | 0 <= x < |adj|
          ensures CountTo(adj[n][..i + 1], x) == CountTo(adj[n][..i], x) + if target == x then 1 else 0
        {
          CountStep(adj[n], i, x);
        }
        incoming := incoming[target := incoming[target] + 1];
      }
      assert adj[n][..|adj[n]|] == adj[n];
    }
  }

  /** Scans the far node of `e` for edges back to `x`. */
  method CheckReciprocal(adj: Adjacency, x: nat, e: EdgeRec, attribute: nat) returns (valid: bool)
    requires TargetsExist(adj) && e.target < |adj| && e.attribute == attribute
    ensures valid <==> Reciprocated(adj, x, e)
  {
    if |adj[e.target]| > 64 {
      return false;
    }
    var back := adj[e.target];
    var matches := 0;
    valid := true;
    for i := 0 to |back|
      invariant matches == CountTo(back[..i], x)
      invariant valid <==>
        forall j :: 0 <= j < i && back[j].target == x ==>
        back[j].distance == e.distance && back[j].attribute == e.attribute
    {
      CountStep(back, i, x);
      if back[i].target == x {
        matches := matches + 1;
        if back[i].distance != e.distance || back[i].attribute != attribute {
          valid := false;
        }
      }
    }
    assert back[..|back|] == back;
    assert valid <==>
      forall r :: r in back && r.target == x ==> r.distance == e.distance && r.attribute == e.attribute by {
      if forall r :: r in back && r.target == x ==> r.distance == e.distance && r.attribute == e.attribute {
        assert forall j :: 0 <= j < |back| && back[j].target == x ==> back[j] in back;
      }
    }
    if matches != 1 {
      valid := false;
    }
  }

  method FindCandidates(adj: Adjacency) returns (flagged: seq<bool>)
    requires TargetsExist(adj)
    ensures |flagged| == |adj| && forall x :: 0 <= x < |adj| ==> (flagged[x] <==> PassesScan(adj, x))
  {
    var incoming := CountIncoming(adj);
    flagged := [];
    for n := 0 to |adj|
      invariant |flagged| == n
      invariant forall x :: 0 <= x < n ==> (flagged[x] <==> PassesScan(adj, x))
    {
      var valid := false;
      if incoming[n] == 2 && |adj[n]| == 2 {
        var a, b := adj[n][0], adj[n][1];
        assert a in adj[n] && b in adj[n];
        if !(a.target == n || b.target == n || a.target == b.target) && a.attribute == b.attribute {
          valid := CheckReciprocal(adj, n, a, a.attribute);
          if valid {
            valid := CheckReciprocal(adj, n, b, a.attribute);
          }
        }
      }
      flagged := flagged + [valid];
    }
  }
}
