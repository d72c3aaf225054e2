/** The packing loop of `packGraphChains` (core/router_store_chains.go): what it packs and what it leaves out. */
module PackingLoop {
  import opened Common
  import opened GraphStore
  import opened ChainRuns
  import opened ChainPacking
  import opened GraphPacking
  import opened Pigeonhole

  // ---- Nothing is left out without a reason ----

  /** The nodes the candidate scan flags. */
  ghost function ScanFlags(adj: Adjacency): (r: seq<bool>)
    requires TargetsExist(adj)
    ensures |r| == |adj| && forall x: nat :: x < |adj| ==> (r[x] <==> PassesScan(adj, x))
  {
    seq(|adj|, x requires 0 <= x < |adj| => PassesScan(adj, x))
  }

  /** The candidates a path is collected among: all of them, or all but the anchor of a ring. */
  ghost function Among(adj: Adjacency, path: seq<VertexRec>): (r: seq<bool>)
    requires TargetsExist(adj) && |path| > 0
    ensures |r| == |adj|
  {
    if path[0].node < |adj| && IsRing(path) then ScanFlags(adj)[path[0].node := false] else ScanFlags(adj)
  }

  /** Whether a path ends at the node it starts from. */
  predicate IsRing(path: seq<VertexRec>)
    requires |path| > 0
  {
    path[0].node == path[|path| - 1].node
  }

  /** A whole run of candidates: it ends at nodes that fail the scan, or goes once around a ring. */
  ghost predicate WholeRun(adj: Adjacency, path: seq<VertexRec>, attribute: nat)
    requires TargetsExist(adj)
  {
    |path| >= 3 && PathOk(adj, Among(adj, path), path, attribute)
  }

  /** A candidate stays ordinary only inside a run too short to save space, or as the anchor of a ring. */
  ghost predicate LeftOut(adj: Adjacency, x: nat)
    requires TargetsExist(adj)
  {
    exists path: seq<VertexRec>, attribute: nat :: WholeRun(adj, path, attribute) && Excuses(path, x)
  }

  ghost predicate Excuses(path: seq<VertexRec>, x: nat) {
    && |path| >= 3
    && ((|path| < 5 && x in Interior(path)) || (IsRing(path) && path[0].node == x))
  }

  lemma IsLeftOut(adj: Adjacency, path: seq<VertexRec>, attribute: nat, x: nat)
    requires TargetsExist(adj) && WholeRun(adj, path, attribute) && Excuses(path, x)
    ensures LeftOut(adj, x)
  {
    hide WholeRun;
    hide Excuses;
  }

  /** Every node that passed the scan is still a candidate or left out for a reason. */
  ghost predicate Accounted(adj: Adjacency, flagged: seq<bool>)
    requires TargetsExist(adj)
  {
    |flagged| == |adj| && forall x: nat :: x < |adj| && PassesScan(adj, x) ==> flagged[x] || LeftOut(adj, x)
  }

  /** The runs still to be packed are whole: no neighbour that passed the scan has been unflagged. */
  ghost predicate RunsIntact(adj: Adjacency, flagged: seq<bool>, nodePosition: seq<Word>)
    requires TargetsExist(adj)
  {
    && |flagged| == |nodePosition| == |adj|
    && forall x: nat, y: nat ::
      x < |adj| && y < |adj| && flagged[x] && nodePosition[x] == 0 && Points(adj, x, y) && PassesScan(adj, y) ==>
         flagged[y]
  }

  /** The candidates before `n` are packed. */
  ghost predicate PackedTo(flagged: seq<bool>, nodePosition: seq<Word>, n: nat) {
    |flagged| == |nodePosition| && forall x: nat :: x < n && x < |flagged| && flagged[x] ==> nodePosition[x] != 0
  }

  lemma NeighbourOfInterior(adj: Adjacency, flagged: seq<bool>, path: seq<VertexRec>, attribute: nat, p: nat, y: nat)
    requires PathOk(adj, flagged, path, attribute) && 1 <= p < |path| - 1
    requires Points(adj, path[p].node, y) && y != path[p - 1].node
    ensures y == path[p + 1].node
  {
    assert InteriorOk(adj, flagged, path, attribute, p);
    var e :| e in adj[path[p].node] && e.target == y;
  }

  /** The path walks the run back, node by node. */
  lemma {:induction false} FollowsRun(adj: Adjacency, flagged: seq<bool>, flagged': seq<bool>, run: seq<nat>,
      current: nat, path: seq<VertexRec>, attribute: nat, j: nat)
    requires Run(adj, flagged, run) && (|run| >= 2 ==> current != run[|run| - 2])
    requires PathOk(adj, flagged', path, attribute) && path[0].node == current && path[1].node == run[|run| - 1]
    requires 1 <= j <= |run| && j < |path|
    ensures path[j].node == run[|run| - j]
    decreases j
  {
    if j > 1 {
      FollowsRun(adj, flagged, flagged', run, current, path, attribute, j - 1);
      var k := |run| - j;
      assert Points(adj, run[k + 1], run[k]);
      if j > 2 {
        FollowsRun(adj, flagged, flagged', run, current, path, attribute, j - 2);
      }
      hide PathOk;
      NeighbourOfInterior(adj, flagged', path, attribute, j - 1, run[k]);
    }
  }

  lemma PathEnd(adj: Adjacency, flagged: seq<bool>, path: seq<VertexRec>, attribute: nat)
    requires PathOk(adj, flagged, path, attribute)
    ensures |path| >= 3 && path[|path| - 1].node < |flagged| && !flagged[path[|path| - 1].node]
    ensures forall p :: 1 <= p < |path| - 1 ==> path[p].node < |flagged| && flagged[path[p].node]
  {
    hide Nodes;
    forall p | 1 <= p < |path| - 1
      ensures path[p].node < |flagged| && flagged[path[p].node]
    {
      assert InteriorOk(adj, flagged, path, attribute, p);
    }
  }

  /** The path collected after walking back takes in the node the walk began at, or closes a ring there. */
  lemma PathMeetsStart(adj: Adjacency, flagged: seq<bool>, flagged': seq<bool>, run: seq<nat>, current: nat,
                       path: seq<VertexRec>, attribute: nat)
    requires Run(adj, flagged, run) && flagged[run[0]] && (|run| >= 2 ==> current != run[|run| - 2])
    requires current == run[0] ==> |run| >= 2
    requires flagged' == (if current == run[0] then flagged[run[0] := false] else flagged)
    requires PathOk(adj, flagged', path, attribute) && path[0].node == current && path[1].node == run[|run| - 1]
    ensures if current == run[0] then path[|path| - 1].node == run[0] && |path| >= 4 else run[0] in Interior(path)
  {
    var m, last := |run|, |path| - 1;
    PathEnd(adj, flagged', path, attribute);
    if last <= m {
      FollowsRun(adj, flagged, flagged', run, current, path, attribute, last);
    } else {
      FollowsRun(adj, flagged, flagged', run, current, path, attribute, m);
    }
    hide PathOk;
    hide Points;
    if current != run[0] {
      assert m < last;
      InteriorNode(path, m);
    }
  }

  /** Other flags under which the interiors are candidates and the ends are not serve the same path. */
  lemma OtherFlags(adj: Adjacency, flagged: seq<bool>, flags: seq<bool>, path: seq<VertexRec>, attribute: nat)
    requires PathOk(adj, flagged, path, attribute) && |flags| == |adj|
    requires !flags[path[0].node] && !flags[path[|path| - 1].node]
    requires forall p :: 1 <= p < |path| - 1 ==> flags[path[p].node]
    ensures PathOk(adj, flags, path, attribute)
  {
    hide Nodes;
    forall p | 1 <= p < |path| - 1
      ensures InteriorOk(adj, flags, path, attribute, p)
    {
      assert InteriorOk(adj, flagged, path, attribute, p);
    }
  }

  lemma InteriorPoints(adj: Adjacency, flagged: seq<bool>, path: seq<VertexRec>, attribute: nat, p: nat)
    requires PathOk(adj, flagged, path, attribute) && 1 <= p < |path| - 1
    ensures path[p].node < |adj| == |flagged| && flagged[path[p].node]
    ensures Points(adj, path[p].node, path[p - 1].node) && Points(adj, path[p].node, path[p + 1].node)
  {
    assert InteriorOk(adj, flagged, path, attribute, p);
    assert EdgeRec(path[p - 1].node, attribute, path[p - 1].distance) in adj[path[p].node];
    assert EdgeRec(path[p + 1].node, attribute, path[p].distance) in adj[path[p].node];
  }

  lemma EndFailsScan(adj: Adjacency, flagged: seq<bool>, nodePosition: seq<Word>, x: nat, y: nat)
    requires TargetsExist(adj) && RunsIntact(adj, flagged, nodePosition)
    requires x < |adj| && y < |adj| && flagged[x] && nodePosition[x] == 0 && Points(adj, x, y) && !flagged[y]
    ensures !PassesScan(adj, y)
  {}

  lemma InteriorIsAmong(adj: Adjacency, flagged: seq<bool>, flagged': seq<bool>, path: seq<VertexRec>, attribute: nat,
      p: nat)
    requires TargetsExist(adj) && FlagsPass(adj, flagged) && |flagged'| == |flagged|
    requires forall y: nat :: y < |flagged| && flagged'[y] ==> flagged[y]
    requires PathOk(adj, flagged', path, attribute) && 1 <= p < |path| - 1
    ensures path[p].node < |adj| && Among(adj, path)[path[p].node]
  {
    hide PassesScan;
    InteriorPoints(adj, flagged', path, attribute, p);
    assert !flagged'[path[0].node];
    hide PathOk;
    assert PassesScan(adj, path[p].node);
  }

  /** The path collected is a whole run. */
  lemma PathIsWhole(adj: Adjacency, flagged: seq<bool>, flagged': seq<bool>, nodePosition: seq<Word>, n: nat,
                    path: seq<VertexRec>, attribute: nat)
    requires TargetsExist(adj) && FlagsPass(adj, flagged) && RunsIntact(adj, flagged, nodePosition)
    requires n < |adj| && PathOk(adj, flagged', path, attribute)
    requires flagged' == (if path[0].node == n then flagged[n := false] else flagged)
    requires path[0].node == n ==> IsRing(path)
    requires path[1].node < |adj| && nodePosition[path[1].node] == 0
    requires path[|path| - 2].node < |adj| && nodePosition[path[|path| - 2].node] == 0
    ensures WholeRun(adj, path, attribute)
  {
    hide PassesScan;
    hide Points;
    hide FlagsPass;
    var flags, last := Among(adj, path), |path| - 1;
    forall p | 1 <= p < last
      ensures flags[path[p].node]
    {
      InteriorIsAmong(adj, flagged, flagged', path, attribute, p);
    }
    if !IsRing(path) {
      InteriorPoints(adj, flagged', path, attribute, 1);
      InteriorPoints(adj, flagged', path, attribute, last - 1);
      hide InteriorOk;
      EndFailsScan(adj, flagged, nodePosition, path[1].node, path[0].node);
      EndFailsScan(adj, flagged, nodePosition, path[last - 1].node, path[last].node);
    }
    OtherFlags(adj, flagged', flags, path, attribute);
  }

  /** A candidate next to the anchor of a ring lies on that ring. */
  lemma NextToAnchor(adj: Adjacency, flagged: seq<bool>, path: seq<VertexRec>, attribute: nat, x: nat)
    requires TargetsExist(adj) && PathOk(adj, flagged, path, attribute) && |path| >= 4 && IsRing(path)
    requires IsCandidate(adj, path[0].node) && IsCandidate(adj, x) && Points(adj, x, path[0].node)
    ensures x in Interior(path)
  {
    var n, last := path[0].node, |path| - 1;
    var e :| e in adj[x] && e.target == n;
    var r := PointsBack(adj, x, e);
    assert Distinct(Interior(path));
    DistinctInterior(path, 1, last - 1);
    assert EdgeRec(path[1].node, attribute, path[0].distance) in adj[n];
    assert EdgeRec(path[last - 1].node, attribute, path[last - 1].distance) in adj[n];
    hide PathOk;
    TwoTargets(adj, n, path[1].node, path[last - 1].node, x);
    InteriorNode(path, 1);
    InteriorNode(path, last - 1);
  }

  /** A candidate still unpacked after a round borders nothing that the round unflagged. */
  lemma WholeNeighbour(adj: Adjacency, flagged: seq<bool>, flagged': seq<bool>, n: nat, path: seq<VertexRec>,
      attribute: nat, x: nat, y: nat)
    requires TargetsExist(adj) && FlagsAreCandidates(adj, flagged) && n < |adj| && flagged[n]
    requires PathOk(adj, flagged', path, attribute)
    requires flagged' == (if path[0].node == n then flagged[n := false] else flagged)
    requires path[0].node == n ==> IsRing(path) && |path| >= 4
    requires x < |adj| && y < |adj| && flagged'[x] && flagged[y] && Points(adj, x, y)
    requires !flagged'[y] || y in Interior(path)
    ensures x in Interior(path)
  {
    hide PathOk;
    assert IsCandidate(adj, x) && IsCandidate(adj, y);
    if !flagged'[y] {
      NextToAnchor(adj, flagged', path, attribute, x);
    } else {
      var e :| e in adj[x] && e.target == y;
      var r := PointsBack(adj, x, e);
      FlaggedNeighbourInside(adj, flagged', path, attribute, y, x);
    }
  }

  /** Clearing a short path leaves the other runs whole. */
  lemma WholePastShort(adj: Adjacency, flagged: seq<bool>, flagged': seq<bool>, flagged'': seq<bool>,
      nodePosition: seq<Word>, n: nat, path: seq<VertexRec>, attribute: nat)
    requires TargetsExist(adj) && FlagsAreCandidates(adj, flagged) && n < |adj| && flagged[n]
    requires PathOk(adj, flagged', path, attribute)
    requires flagged' == (if path[0].node == n then flagged[n := false] else flagged)
    requires path[0].node == n ==> IsRing(path) && |path| >= 4
    requires RunsIntact(adj, flagged, nodePosition) && Cleared(path, |path| - 1, flagged', flagged'')
    ensures RunsIntact(adj, flagged'', nodePosition)
  {
    hide PathOk;
    hide PassesScan;
    hide Points;
    hide Interior;
    hide FlagsAreCandidates;
    hide IsRing;
    forall x: nat, y: nat | x < |adj| && y < |adj| && flagged''[x] && nodePosition[x] == 0 && Points(adj, x, y)
      && PassesScan(adj, y)
      ensures flagged''[y]
    {
      if !flagged''[y] {
        WholeNeighbour(adj, flagged, flagged', n, path, attribute, x, y);
        InteriorCleared(path, flagged', flagged'', x);
      }
    }
  }

  /** Storing a chain leaves the other runs whole. */
  lemma WholePastChain(adj: Adjacency, flagged: seq<bool>, flagged': seq<bool>, pk: Packing, pk': Packing,
                       n: nat, path: seq<VertexRec>, attribute: nat)
    requires TargetsExist(adj) && FlagsAreCandidates(adj, flagged) && n < |adj| && flagged[n]
    requires PathOk(adj, flagged', path, attribute)
    requires flagged' == (if path[0].node == n then flagged[n := false] else flagged)
    requires path[0].node == n ==> IsRing(path) && |path| >= 4
    requires RunsIntact(adj, flagged, pk.nodePosition) && |path| >= 2 && Extends(adj, pk, path, attribute, pk')
    ensures RunsIntact(adj, flagged', pk'.nodePosition)
  {
    assert |pk'.nodePosition| == |adj|;
    hide Marked;
    hide PathOk;
    hide PassesScan;
    hide Points;
    hide Interior;
    hide FlagsAreCandidates;
    hide IsRing;
    forall x: nat, y: nat |
      x < |adj| && y < |adj| && flagged'[x] && pk'.nodePosition[x] == 0 && Points(adj, x, y) && PassesScan(adj, y)
      ensures flagged'[y]
    {
      if x in Interior(path) {
        InteriorAssigned(adj, pk, path, attribute, pk', x);
      } else {
        assert pk.nodePosition[x] == 0;
        if !flagged'[y] {
          WholeNeighbour(adj, flagged, flagged', n, path, attribute, x, y);
        }
      }
    }
  }

  lemma FlagsStillPass(adj: Adjacency, flagged: seq<bool>, pk: Packing)
    requires TargetsExist(adj) && PackInv(adj, flagged, pk)
    ensures FlagsPass(adj, flagged) && |flagged| == |pk.nodePosition|
  {}

  /** The interiors before position `n` of the path, and no other nodes, are no longer candidates. */
  ghost predicate Cleared(path: seq<VertexRec>, n: nat, flagged: seq<bool>, flagged': seq<bool>) {
    && 2 <= |path| && n < |path| && |flagged'| == |flagged|
    && (forall y: nat :: y < |flagged| && flagged'[y] ==> flagged[y])
    && (forall y: nat :: y < |flagged| && flagged[y] && !flagged'[y] ==> y in Interior(path))
    && (forall p :: 1 <= p < n ==> path[p].node < |flagged| && !flagged'[path[p].node])
  }

  lemma ClearOne(path: seq<VertexRec>, n: nat, flagged: seq<bool>, flagged': seq<bool>)
    requires Cleared(path, n, flagged, flagged') && 1 <= n < |path| - 1 && path[n].node < |flagged|
    ensures Cleared(path, n + 1, flagged, flagged'[path[n].node := false])
  {
    InteriorNode(path, n);
    hide Interior;
  }

  lemma InteriorCleared(path: seq<VertexRec>, flagged: seq<bool>, flagged': seq<bool>, x: nat)
    requires 2 <= |path| && Cleared(path, |path| - 1, flagged, flagged') && x in Interior(path)
    ensures x < |flagged'| && !flagged'[x]
  {
    var p := InteriorIndex(path, x);
  }

  lemma StartClearing(path: seq<VertexRec>, flagged: seq<bool>)
    requires 2 <= |path|
    ensures Cleared(path, 1, flagged, flagged)
  {}

  /** Takes the interiors of a short path out of the candidates. */
  method UnflagInterior(adj: Adjacency, flagged: seq<bool>, ghost pk: Packing, path: seq<VertexRec>,
      ghost attribute: nat)
    returns (flagged': seq<bool>)
    requires TargetsExist(adj) && PackInv(adj, flagged, pk)
    requires PathOk(adj, flagged, path, attribute) && pk.nodePosition[path[1].node] == 0
    ensures PackInv(adj, flagged', pk)
    ensures Cleared(path, |path| - 1, flagged, flagged')
  {
    hide Cleared;
    flagged' := flagged;
    StartClearing(path, flagged);
    for p := 1 to |path| - 1
      invariant PackInv(adj, flagged', pk)
      invariant Cleared(path, p, flagged, flagged')
    {
      InteriorUnassigned(adj, flagged, pk.nodePosition, path, attribute, p);
      Unflag(adj, flagged', pk, path[p].node);
      ClearOne(path, p, flagged, flagged');
      flagged' := flagged'[path[p].node := false];
    }
  }

  /** The interiors of a short path are left out with the path as the reason. */
  lemma ShortLeftOut(adj: Adjacency, flagged: seq<bool>, flagged': seq<bool>, path: seq<VertexRec>, attribute: nat)
    requires TargetsExist(adj) && WholeRun(adj, path, attribute) && |path| < 5
    requires Cleared(path, |path| - 1, flagged, flagged') && Accounted(adj, flagged)
    ensures Accounted(adj, flagged')
  {
    assert |path| >= 3;
    hide WholeRun;
    hide PassesScan;
    hide LeftOut;
    hide Interior;
    forall x: nat | x < |adj| && PassesScan(adj, x)
      ensures flagged'[x] || LeftOut(adj, x)
    {
      if x in Interior(path) {
        IsLeftOut(adj, path, attribute, x);
      }
    }
  }

  /** The unflagged anchor of a ring is left out with the ring as the reason. */
  lemma AnchorLeftOut(adj: Adjacency, flagged: seq<bool>, path: seq<VertexRec>, attribute: nat)
    requires TargetsExist(adj) && Accounted(adj, flagged) && WholeRun(adj, path, attribute) && IsRing(path)
    requires path[0].node < |flagged|
    ensures Accounted(adj, flagged[path[0].node := false])
  {
    assert |path| >= 3;
    hide WholeRun;
    hide PassesScan;
    hide LeftOut;
    IsLeftOut(adj, path, attribute, path[0].node);
  }

  lemma UnflagPacked(flagged: seq<bool>, nodePosition: seq<Word>, n: nat, x: nat)
    requires PackedTo(flagged, nodePosition, n) && x < |flagged|
    ensures PackedTo(flagged[x := false], nodePosition, n)
  {}

  /** After clearing a short path nothing up to `n` is still unpacked. */
  lemma PackedPastShort(flagged: seq<bool>, flagged': seq<bool>, nodePosition: seq<Word>, path: seq<VertexRec>, n: nat)
    requires 2 <= |path| && Cleared(path, |path| - 1, flagged, flagged') && PackedTo(flagged, nodePosition, n)
    requires n < |flagged| && (flagged[n] ==> n in Interior(path))
    ensures PackedTo(flagged', nodePosition, n + 1)
  {
    if flagged[n] {
      InteriorCleared(path, flagged, flagged', n);
    }
    hide Interior;
  }

  /** After storing a chain nothing up to `n` is still unpacked. */
  lemma PackedPastChain(adj: Adjacency, flagged: seq<bool>, pk: Packing, path: seq<VertexRec>, attribute: nat,
      pk': Packing, n: nat)
    requires TargetsExist(adj) && PackInv(adj, flagged, pk) && PathOk(adj, flagged, path, attribute)
    requires pk.nodePosition[path[1].node] == 0 && Extends(adj, pk, path, attribute, pk')
    requires PackedTo(flagged, pk.nodePosition, n) && n < |flagged| && (flagged[n] ==> n in Interior(path))
    ensures PackedTo(flagged, pk'.nodePosition, n + 1)
  {
    PackLengths(adj, flagged, pk);
    assert |pk'.nodePosition| == |adj|;
    hide PackInv;
    hide PathOk;
    hide Interior;
    hide Marked;
    forall x: nat | x < n + 1 && x < |flagged| && flagged[x]
      ensures pk'.nodePosition[x] != 0
    {
      if x in Interior(path) {
        InteriorAssigned(adj, pk, path, attribute, pk', x);
      } else {
        assert pk.nodePosition[x] != 0;
      }
    }
  }

  /** Packs every long run. Both walks end at an ordinary node or, once around a ring, at their start. */
  method PackGraphChains(adj: Adjacency) returns (r: Option<Packing>, tooLarge: bool, ghost flagged: seq<bool>)
    requires TargetsExist(adj)
    ensures !tooLarge && r.Some? ==> PackInv(adj, flagged, r.value) && |r.value.chains| > 0 && |r.value.vertices| < WORD
    ensures tooLarge ==> |adj| >= CHAIN_REVERSE - 1
    ensures !tooLarge ==> forall x: nat :: x < |adj| && PassesScan(adj, x) ==>
      LeftOut(adj, x) || (r.Some? && x < |r.value.nodePosition| && r.value.nodePosition[x] != 0)
  {
    hide PackInv;
    hide PassesScan;
    hide LeftOut;
    hide Accounted;
    hide PackedTo;
    hide RunsIntact;
    var candidates := FindCandidates(adj);
    flagged := candidates;
    tooLarge := false;
    var pk := Packing([], [], seq(|adj|, _ => 0), seq(|adj|, _ => 0), EdgeTotal(adj, |adj|));
    StartPacking(adj, candidates, pk);
    for n := 0 to |adj|
      invariant PackInv(adj, candidates, pk) && |pk.vertices| < WORD
      invariant Accounted(adj, candidates) && PackedTo(candidates, pk.nodePosition, n)
      invariant RunsIntact(adj, candidates, pk.nodePosition)
    {
      PackLengths(adj, candidates, pk);
      if candidates[n] && pk.nodePosition[n] == 0 {
        candidates, pk, tooLarge := PackFrom(adj, candidates, pk, n);
        if tooLarge {
          return None, true, candidates;
        }
      } else {
        PackedOne(candidates, pk.nodePosition, n);
      }
    }
    flagged := candidates;
    PackLengths(adj, candidates, pk);
    AllAccounted(adj, candidates, pk);
    r := if pk.chains == [] then None else Some(pk);
  }

  lemma StartPacking(adj: Adjacency, flagged: seq<bool>, pk: Packing)
    requires TargetsExist(adj) && |flagged| == |adj|
    requires forall x :: 0 <= x < |adj| ==> (flagged[x] <==> PassesScan(adj, x))
    requires pk == Packing([], [], seq(|adj|, _ => 0), seq(|adj|, _ => 0), EdgeTotal(adj, |adj|))
    ensures PackInv(adj, flagged, pk) && Accounted(adj, flagged) && PackedTo(flagged, pk.nodePosition, 0)
    ensures RunsIntact(adj, flagged, pk.nodePosition)
  {
    hide PassesScan;
    hide LeftOut;
    hide PackInv;
    EmptyPacking(adj, flagged, pk);
  }

  lemma PackLengths(adj: Adjacency, flagged: seq<bool>, pk: Packing)
    requires TargetsExist(adj) && PackInv(adj, flagged, pk)
    ensures |flagged| == |adj| == |pk.nodePosition| == |pk.nodeChain|
  {}

  lemma PackedOne(flagged: seq<bool>, nodePosition: seq<Word>, n: nat)
    requires PackedTo(flagged, nodePosition, n) && (n < |flagged| && flagged[n] ==> nodePosition[n] != 0)
    ensures PackedTo(flagged, nodePosition, n + 1)
  {}

  /** In the end every node that passed the scan is packed or left out; without chains none is packed. */
  lemma AllAccounted(adj: Adjacency, flagged: seq<bool>, pk: Packing)
    requires TargetsExist(adj) && PackInv(adj, flagged, pk) && Accounted(adj, flagged)
    requires PackedTo(flagged, pk.nodePosition, |adj|)
    ensures forall x: nat :: x < |adj| && PassesScan(adj, x) ==> LeftOut(adj, x) || pk.nodePosition[x] != 0
    ensures pk.chains == [] ==> forall x: nat :: x < |adj| ==> pk.nodePosition[x] == 0
  {
    hide PassesScan;
    hide LeftOut;
    if pk.chains == [] {
      forall x: nat | x < |adj|
        ensures pk.nodePosition[x] == 0
      {
        UnplacedWithoutChains(adj, flagged, pk, x);
      }
    }
  }

  lemma UnplacedWithoutChains(adj: Adjacency, flagged: seq<bool>, pk: Packing, x: nat)
    requires TargetsExist(adj) && PackInv(adj, flagged, pk) && x < |adj|
    ensures pk.nodePosition[x] != 0 ==> |pk.chains| > 0
  {
    if pk.nodePosition[x] != 0 {
      assert Placed(flagged, pk, x);
    }
  }

  lemma PassingAreCandidates(adj: Adjacency, flagged: seq<bool>)
    requires TargetsExist(adj) && FlagsPass(adj, flagged)
    ensures FlagsAreCandidates(adj, flagged)
  {}

  lemma ExtendsBy(adj: Adjacency, pk: Packing, path: seq<VertexRec>, attribute: nat, pk': Packing)
    requires |path| >= 2 && Extends(adj, pk, path, attribute, pk')
    ensures |pk'.vertices| == |pk.vertices| + |path|
  {}

  lemma RoundIsWhole(adj: Adjacency, flagged: seq<bool>, flagged': seq<bool>, pk: Packing, n: nat, path: seq<VertexRec>,
      attribute: nat)
    requires TargetsExist(adj) && FlagsPass(adj, flagged) && PackInv(adj, flagged', pk)
    requires RunsIntact(adj, flagged, pk.nodePosition)
    requires n < |adj| && PathOk(adj, flagged', path, attribute)
    requires flagged' == (if path[0].node == n then flagged[n := false] else flagged)
    requires path[0].node == n ==> IsRing(path)
    requires path[1].node < |pk.nodePosition| && pk.nodePosition[path[1].node] == 0
    ensures WholeRun(adj, path, attribute)
  {
    assert NeighboursAssigned(adj, flagged', pk.nodePosition) && |pk.nodePosition| == |adj|;
    assert path[|path| - 2].node < |adj|;
    hide PackInv;
    InteriorUnassigned(adj, flagged', pk.nodePosition, path, attribute, |path| - 2);
    hide PathOk;
    hide FlagsPass;
    PathIsWhole(adj, flagged, flagged', pk.nodePosition, n, path, attribute);
  }

  /** One round of the packing loop, from the unassigned candidate `n`. */
  method PackFrom(adj: Adjacency, candidates: seq<bool>, pk: Packing, n: nat)
    returns (candidates': seq<bool>, pk': Packing, tooLarge: bool)
    requires TargetsExist(adj) && PackInv(adj, candidates, pk) && |pk.vertices| < WORD
    requires n < |adj| && candidates[n] && pk.nodePosition[n] == 0
    requires Accounted(adj, candidates) && PackedTo(candidates, pk.nodePosition, n)
    requires RunsIntact(adj, candidates, pk.nodePosition)
    ensures !tooLarge ==> PackInv(adj, candidates', pk') && |pk'.vertices| < WORD
    ensures !tooLarge ==> Accounted(adj, candidates') && PackedTo(candidates', pk'.nodePosition, n + 1)
    ensures !tooLarge ==> RunsIntact(adj, candidates', pk'.nodePosition)
    ensures tooLarge ==> |adj| >= CHAIN_REVERSE - 1
  {
    hide Cleared;
    hide LeftOut;
    hide Interior;
    hide PassesScan;
    hide Extends;
    hide WholeRun;
    hide RunsIntact;
    hide Accounted;
    hide PackedTo;
    PassingAreCandidates(adj, candidates);
    FlagsStillPass(adj, candidates, pk);
    candidates', pk', tooLarge := candidates, pk, false;
    var previous, current, run := WalkBack(adj, candidates, n);
    RunUnassigned(adj, candidates, pk.nodePosition, run, |run| - 1);
    if current == n {
      Unflag(adj, candidates, pk, n);
      candidates' := candidates[n := false];
      PassingAreCandidates(adj, candidates');
      UnflagPacked(candidates, pk.nodePosition, n, n);
    }
    var path, attribute := CollectPath(adj, candidates', current, previous);
    PathMeetsStart(adj, candidates, candidates', run, current, path, attribute);
    RoundIsWhole(adj, candidates, candidates', pk, n, path, attribute);
    if current == n {
      AnchorLeftOut(adj, candidates, path, attribute);
    }
    PackingSize(adj, pk, candidates');
    if |path| < 5 {
      ghost var before := candidates';
      candidates' := UnflagInterior(adj, candidates', pk, path, attribute);
      ShortLeftOut(adj, before, candidates', path, attribute);
      PackedPastShort(before, candidates', pk.nodePosition, path, n);
      WholePastShort(adj, candidates, before, candidates', pk.nodePosition, n, path, attribute);
    } else if |path| > CHAIN_REVERSE - 1 || |pk.vertices| + |path| > WORD - 1 {
      tooLarge := true;
    } else {
      pk' := AddChain(adj, candidates', pk, path, attribute);
      ExtendsBy(adj, pk, path, attribute, pk');
      AddKeepsInv(adj, candidates', pk, path, attribute, pk');
      PackedPastChain(adj, candidates', pk, path, attribute, pk', n);
      WholePastChain(adj, candidates, candidates', pk, pk', n, path, attribute);
    }
  }
}
