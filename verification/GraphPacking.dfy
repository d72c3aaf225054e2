/** The state of the packing loop of `packGraphChains` (core/router_store_chains.go) and its invariant. */
module GraphPacking {
  import opened GraphStore
  import opened ChainRuns
  import opened ChainPacking
  import opened Pigeonhole

  datatype Packing = Packing(
    chains: seq<ChainRec>, vertices: seq<VertexRec>, nodeChain: seq<nat>, nodePosition: seq<Word>, storedEdges: int)

  function EdgeTotal(adj: Adjacency, n: nat): nat
    requires n <= |adj|
  {
    if n == 0 then 0 else EdgeTotal(adj, n - 1) + |adj[n - 1]|
  }

  ghost predicate FlagsPass(adj: Adjacency, flagged: seq<bool>)
    requires TargetsExist(adj)
  {
    |flagged| == |adj| && forall x :: 0 <= x < |adj| && flagged[x] ==> PassesScan(adj, x)
  }

  /** Where the vertices after those of chain `c` begin. */
  function NextStart(chains: seq<ChainRec>, vertices: nat, c: nat): nat {
    if c + 1 < |chains| then chains[c + 1].start else vertices
  }

  ghost predicate TileFits(chains: seq<ChainRec>, vertices: nat, c: nat)
    requires c < |chains|
  {
    && chains[c].count >= 5 && chains[c].reserved == 0
    && chains[c].start + chains[c].count == NextStart(chains, vertices, c)
  }

  /** The chain records cover the vertex table in order, five vertices at least each. */
  ghost predicate Tiled(chains: seq<ChainRec>, vertices: nat) {
    && (if chains == [] then vertices == 0 else chains[0].start == 0)
    && forall c :: 0 <= c < |chains| ==> TileFits(chains, vertices, c)
  }

  lemma {:induction false} TileBounds(chains: seq<ChainRec>, vertices: nat, c: nat)
    requires Tiled(chains, vertices) && c < |chains|
    ensures chains[c].start + chains[c].count <= vertices
    decreases |chains| - c
  {
    assert TileFits(chains, vertices, c);
    if c + 1 < |chains| {
      TileBounds(chains, vertices, c + 1);
    }
  }

  lemma {:induction false} TileDisjoint(chains: seq<ChainRec>, vertices: nat, c: nat, d: nat)
    requires Tiled(chains, vertices) && c < d < |chains|
    ensures chains[c].start + chains[c].count <= chains[d].start
    decreases d
  {
    assert TileFits(chains, vertices, d - 1);
    if c + 1 < d {
      TileDisjoint(chains, vertices, c, d - 1);
    }
  }

  ghost function PathOf(pk: Packing, c: nat): seq<VertexRec>
    requires Tiled(pk.chains, |pk.vertices|) && c < |pk.chains|
  {
    TileBounds(pk.chains, |pk.vertices|, c);
    pk.vertices[pk.chains[c].start..pk.chains[c].start + pk.chains[c].count]
  }

  /** Every interior of the path carries the chain's index and its flagged position. */
  ghost predicate Marked(adj: Adjacency, pk: Packing, path: seq<VertexRec>, c: nat) {
    && |path| < CHAIN_REVERSE
    && |pk.nodeChain| == |pk.nodePosition| == |adj|
    && forall p :: 1 <= p < |path| - 1 ==>
         && path[p].node < |adj| && |adj[path[p].node]| > 0
         && pk.nodeChain[path[p].node] == c
         && pk.nodePosition[path[p].node] == Flags(p, IsReversed(adj, path, p))
  }

  ghost predicate ChainFits(adj: Adjacency, flagged: seq<bool>, pk: Packing, c: nat)
    requires Tiled(pk.chains, |pk.vertices|) && c < |pk.chains|
  {
    PathOk(adj, flagged, PathOf(pk, c), pk.chains[c].attribute) && Marked(adj, pk, PathOf(pk, c), c)
  }

  /** An assigned node is the interior its words say it is. */
  ghost predicate Placed(flagged: seq<bool>, pk: Packing, x: nat)
    requires Tiled(pk.chains, |pk.vertices|)
  {
    && x < |flagged| == |pk.nodeChain| == |pk.nodePosition| && flagged[x]
    && Flagged(pk.nodePosition[x])
    && pk.nodeChain[x] < |pk.chains|
    && var path := PathOf(pk, pk.nodeChain[x]);
       var p := Position(pk.nodePosition[x]);
       1 <= p < |path| - 1 && path[p].node == x
  }

  /** No flagged neighbour of an assigned node is left unassigned. */
  ghost predicate NeighboursAssigned(adj: Adjacency, flagged: seq<bool>, nodePosition: seq<Word>) {
    && |flagged| == |nodePosition| == |adj|
    && forall x, y :: 0 <= x < |adj| && 0 <= y < |adj| && nodePosition[x] != 0 && flagged[y] && Points(adj, x, y) ==>
         nodePosition[y] != 0
  }

  ghost function Assigned(nodePosition: seq<Word>): set<nat> {
    set x: nat | x < |nodePosition| && nodePosition[x] != 0
  }

  /** The number of interiors of the first `n` chains. */
  ghost function InteriorTotal(chains: seq<ChainRec>, n: nat): int
    requires n <= |chains|
  {
    if n == 0 then 0 else InteriorTotal(chains, n - 1) + chains[n - 1].count - 2
  }

  lemma {:induction false} InteriorTotalOfPrefix(chains: seq<ChainRec>, more: seq<ChainRec>, n: nat)
    requires n <= |chains|
    ensures InteriorTotal(chains + more, n) == InteriorTotal(chains, n)
  {
    if n > 0 {
      InteriorTotalOfPrefix(chains, more, n - 1);
    }
  }

  ghost predicate NodesExist(vertices: seq<VertexRec>, n: nat) {
    forall v :: v in vertices ==> v.node < n
  }

  ghost predicate PackInv(adj: Adjacency, flagged: seq<bool>, pk: Packing)
    requires TargetsExist(adj)
  {
    && FlagsPass(adj, flagged)
    && |pk.nodeChain| == |pk.nodePosition| == |adj|
    && Tiled(pk.chains, |pk.vertices|)
    && (forall c :: 0 <= c < |pk.chains| ==> ChainFits(adj, flagged, pk, c))
    && (forall x :: 0 <= x < |adj| && pk.nodePosition[x] != 0 ==> Placed(flagged, pk, x))
    && NeighboursAssigned(adj, flagged, pk.nodePosition)
    && pk.storedEdges + 2 * |Assigned(pk.nodePosition)| == EdgeTotal(adj, |adj|)
    && InteriorTotal(pk.chains, |pk.chains|) == |Assigned(pk.nodePosition)|
    && NodesExist(pk.vertices, |adj|)
  }

  lemma EmptyPacking(adj: Adjacency, flagged: seq<bool>, pk: Packing)
    requires TargetsExist(adj) && FlagsPass(adj, flagged)
    requires pk == Packing([], [], seq(|adj|, _ => 0), seq(|adj|, _ => 0), EdgeTotal(adj, |adj|))
    ensures PackInv(adj, flagged, pk)
  {
    assert Assigned(pk.nodePosition) == {};
  }

  lemma MarkedNonZero(adj: Adjacency, pk: Packing, path: seq<VertexRec>, c: nat, p: nat)
    requires Marked(adj, pk, path, c) && 1 <= p < |path| - 1
    ensures path[p].node < |adj| && pk.nodePosition[path[p].node] != 0
  {
    assert pk.nodePosition[path[p].node] == Flags(p, IsReversed(adj, path, p));
  }

  lemma UnflagKeepsInterior(adj: Adjacency, flagged: seq<bool>, path: seq<VertexRec>, attribute: nat, p: nat, x: nat)
    requires 1 <= p < |path| - 1 && InteriorOk(adj, flagged, path, attribute, p)
    requires x < |flagged| && path[p].node != x
    ensures InteriorOk(adj, flagged[x := false], path, attribute, p)
  {}

  lemma UnflagKeepsPath(adj: Adjacency, flagged: seq<bool>, path: seq<VertexRec>, attribute: nat, x: nat)
    requires PathOk(adj, flagged, path, attribute) && x < |flagged|
    requires forall p :: 1 <= p < |path| - 1 ==> path[p].node != x
    ensures PathOk(adj, flagged[x := false], path, attribute)
  {
    hide InteriorOk;
    hide Nodes;
    var flagged' := flagged[x := false];
    forall p | 1 <= p < |path| - 1
      ensures InteriorOk(adj, flagged', path, attribute, p)
    {
      UnflagKeepsInterior(adj, flagged, path, attribute, p, x);
    }
  }

  lemma UnflagKeepsChain(adj: Adjacency, flagged: seq<bool>, pk: Packing, c: nat, x: nat)
    requires Tiled(pk.chains, |pk.vertices|) && c < |pk.chains| && ChainFits(adj, flagged, pk, c)
    requires |flagged| == |adj| == |pk.nodePosition| && x < |adj| && pk.nodePosition[x] == 0
    ensures ChainFits(adj, flagged[x := false], pk, c)
  {
    hide PathOk;
    hide Marked;
    var path, attribute := PathOf(pk, c), pk.chains[c].attribute;
    forall p | 1 <= p < |path| - 1
      ensures path[p].node != x
    {
      MarkedNonZero(adj, pk, path, c, p);
    }
    UnflagKeepsPath(adj, flagged, path, attribute, x);
  }

  /** Unflagging an unassigned node keeps everything packed so far. */
  lemma Unflag(adj: Adjacency, flagged: seq<bool>, pk: Packing, x: nat)
    requires TargetsExist(adj) && PackInv(adj, flagged, pk)
    requires x < |adj| && pk.nodePosition[x] == 0
    ensures PackInv(adj, flagged[x := false], pk)
  {
    hide ChainFits;
    hide PassesScan;
    var flagged' := flagged[x := false];
    forall c | 0 <= c < |pk.chains|
      ensures ChainFits(adj, flagged', pk, c)
    {
      UnflagKeepsChain(adj, flagged, pk, c, x);
    }
    forall y | 0 <= y < |adj| && pk.nodePosition[y] != 0
      ensures Placed(flagged', pk, y)
    {
      assert Placed(flagged, pk, y);
    }
  }

  // ---- The size of a packing ----

  lemma {:induction false} TilesAddUp(chains: seq<ChainRec>, vertices: nat, n: nat)
    requires Tiled(chains, vertices) && n <= |chains|
    ensures InteriorTotal(chains, n) >= 3 * n
    ensures (if n < |chains| then chains[n].start else vertices) == InteriorTotal(chains, n) + 2 * n
  {
    if n > 0 {
      TilesAddUp(chains, vertices, n - 1);
      assert TileFits(chains, vertices, n - 1);
    }
  }

  /** The chain tables are never larger than the node table allows. */
  lemma PackingSize(adj: Adjacency, pk: Packing, flagged: seq<bool>)
    requires TargetsExist(adj) && PackInv(adj, flagged, pk)
    ensures 3 * |pk.chains| <= |adj|
    ensures |pk.vertices| <= |adj| + 2 * |pk.chains|
  {
    TilesAddUp(pk.chains, |pk.vertices|, |pk.chains|);
    assert InteriorTotal(pk.chains, |pk.chains|) == |Assigned(pk.nodePosition)|;
    SubsetSize(Assigned(pk.nodePosition), Below(|adj|));
  }

  // ---- Adding a chain ----

  lemma {:induction false} InteriorUnassigned(adj: Adjacency, flagged: seq<bool>, nodePosition: seq<Word>,
                                              path: seq<VertexRec>, attribute: nat, p: nat)
    requires PathOk(adj, flagged, path, attribute) && NeighboursAssigned(adj, flagged, nodePosition)
    requires nodePosition[path[1].node] == 0
    requires 1 <= p < |path| - 1
    ensures nodePosition[path[p].node] == 0
    decreases p
  {
    if p > 1 {
      InteriorUnassigned(adj, flagged, nodePosition, path, attribute, p - 1);
      assert InteriorOk(adj, flagged, path, attribute, p) && InteriorOk(adj, flagged, path, attribute, p - 1);
      assert EdgeRec(path[p - 1].node, attribute, path[p - 1].distance) in adj[path[p].node];
      assert Points(adj, path[p].node, path[p - 1].node);
    }
  }

  lemma {:induction false} RunUnassigned(adj: Adjacency, flagged: seq<bool>, nodePosition: seq<Word>, run: seq<nat>,
      k: nat)
    requires Run(adj, flagged, run) && NeighboursAssigned(adj, flagged, nodePosition)
    requires flagged[run[0]] && nodePosition[run[0]] == 0 && k < |run|
    ensures nodePosition[run[k]] == 0
  {
    if k > 0 {
      RunUnassigned(adj, flagged, nodePosition, run, k - 1);
      assert Points(adj, run[k], run[k - 1]);
    }
  }

  ghost function Interior(path: seq<VertexRec>): seq<nat>
    requires |path| >= 2
  {
    Nodes(path)[1..|path| - 1]
  }

  /** The packing after one more chain. */
  ghost predicate Extends(adj: Adjacency, pk: Packing, path: seq<VertexRec>, attribute: nat, pk': Packing)
    requires |path| >= 2
  {
    && pk'.chains == pk.chains + [ChainRec(|pk.vertices|, |path|, attribute, 0)]
    && pk'.vertices == pk.vertices + path
    && Marked(adj, pk', path, |pk.chains|)
    && |pk.nodeChain| == |pk.nodePosition| == |adj|
    && (forall y :: 0 <= y < |adj| && y !in Interior(path) ==>
          pk'.nodeChain[y] == pk.nodeChain[y] && pk'.nodePosition[y] == pk.nodePosition[y])
    && pk'.storedEdges == pk.storedEdges - 2 * (|path| - 2)
  }

  lemma TiledExtends(adj: Adjacency, pk: Packing, path: seq<VertexRec>, attribute: nat, pk': Packing)
    requires Tiled(pk.chains, |pk.vertices|) && |path| >= 5 && Extends(adj, pk, path, attribute, pk')
    ensures Tiled(pk'.chains, |pk'.vertices|)
    ensures forall c :: 0 <= c < |pk.chains| ==> PathOf(pk', c) == PathOf(pk, c) && pk'.chains[c] == pk.chains[c]
    ensures PathOf(pk', |pk.chains|) == path
  {
    hide Marked;
    hide Interior;
    forall c | 0 <= c < |pk'.chains|
      ensures TileFits(pk'.chains, |pk'.vertices|, c)
    {
      if c < |pk.chains| {
        assert TileFits(pk.chains, |pk.vertices|, c);
      }
    }
    forall c | 0 <= c < |pk.chains|
      ensures pk.chains[c].start + pk.chains[c].count <= |pk.vertices|
    {
      TileBounds(pk.chains, |pk.vertices|, c);
    }
  }

  lemma InteriorNode(path: seq<VertexRec>, p: nat)
    requires 1 <= p < |path| - 1
    ensures path[p].node in Interior(path)
  {
    assert Interior(path)[p - 1] == path[p].node;
  }

  /** A node whose position is set is not among the unassigned interiors of the new path. */
  lemma OldUntouched(adj: Adjacency, flagged: seq<bool>, pk: Packing, path: seq<VertexRec>, attribute: nat, x: nat)
    requires TargetsExist(adj) && PackInv(adj, flagged, pk) && PathOk(adj, flagged, path, attribute)
    requires pk.nodePosition[path[1].node] == 0
    requires x < |adj| && pk.nodePosition[x] != 0
    ensures x !in Interior(path)
  {
    if x in Interior(path) {
      var p := InteriorIndex(path, x);
      InteriorUnassigned(adj, flagged, pk.nodePosition, path, attribute, p);
    }
  }

  lemma OldChainsFit(adj: Adjacency, flagged: seq<bool>, pk: Packing, path: seq<VertexRec>, attribute: nat,
      pk': Packing, c: nat)
    requires TargetsExist(adj) && PackInv(adj, flagged, pk) && PathOk(adj, flagged, path, attribute) && |path| >= 5
    requires pk.nodePosition[path[1].node] == 0
    requires Extends(adj, pk, path, attribute, pk') && Tiled(pk'.chains, |pk'.vertices|)
    requires c < |pk.chains| && PathOf(pk', c) == PathOf(pk, c) && pk'.chains[c] == pk.chains[c]
    ensures ChainFits(adj, flagged, pk', c)
  {
    assert ChainFits(adj, flagged, pk, c);
    var old' := PathOf(pk, c);
    hide PathOk;
    hide PackInv;
    forall p | 1 <= p < |old'| - 1
      ensures pk'.nodeChain[old'[p].node] == c
      ensures pk'.nodePosition[old'[p].node] == Flags(p, IsReversed(adj, old', p))
    {
      OldUntouched(adj, flagged, pk, path, attribute, old'[p].node);
    }
  }

  lemma AllPlaced(adj: Adjacency, flagged: seq<bool>, pk: Packing, path: seq<VertexRec>, attribute: nat, pk': Packing,
      x: nat)
    requires TargetsExist(adj) && PackInv(adj, flagged, pk) && PathOk(adj, flagged, path, attribute) && |path| >= 5
    requires Extends(adj, pk, path, attribute, pk') && Tiled(pk'.chains, |pk'.vertices|)
    requires forall c :: 0 <= c < |pk.chains| ==> PathOf(pk', c) == PathOf(pk, c) && pk'.chains[c] == pk.chains[c]
    requires PathOf(pk', |pk.chains|) == path
    requires x < |adj| && pk'.nodePosition[x] != 0
    ensures Placed(flagged, pk', x)
  {
    if x in Interior(path) {
      NewPlaced(adj, flagged, pk, path, attribute, pk', x);
    } else {
      assert |pk'.nodeChain| == |pk'.nodePosition| == |adj| && pk'.nodePosition[x] == pk.nodePosition[x];
      assert Placed(flagged, pk, x);
      hide PathOf;
      hide PackInv;
      hide PathOk;
      hide Tiled;
    }
  }

  lemma NewPlaced(adj: Adjacency, flagged: seq<bool>, pk: Packing, path: seq<VertexRec>, attribute: nat, pk': Packing,
      x: nat)
    requires PathOk(adj, flagged, path, attribute) && |path| >= 5 && x in Interior(path)
    requires Extends(adj, pk, path, attribute, pk') && Tiled(pk'.chains, |pk'.vertices|)
    requires PathOf(pk', |pk.chains|) == path
    ensures Placed(flagged, pk', x)
  {
    hide PathOf;
    hide Tiled;
    var p := InteriorIndex(path, x);
    assert InteriorOk(adj, flagged, path, attribute, p);
    assert pk'.nodePosition[path[p].node] == Flags(p, IsReversed(adj, path, p));
    hide Interior;
    hide PathOk;
  }

  lemma InteriorIndex(path: seq<VertexRec>, x: nat) returns (p: nat)
    requires |path| >= 2 && x in Interior(path)
    ensures 1 <= p < |path| - 1 && path[p].node == x
  {
    var i :| 0 <= i < |Interior(path)| && Interior(path)[i] == x;
    p := i + 1;
  }

  lemma InteriorAssigned(adj: Adjacency, pk: Packing, path: seq<VertexRec>, attribute: nat, pk': Packing, x: nat)
    requires |path| >= 2 && Extends(adj, pk, path, attribute, pk') && x in Interior(path)
    ensures x < |adj| && pk'.nodePosition[x] != 0 && Flagged(pk'.nodePosition[x])
  {
    var p := InteriorIndex(path, x);
    assert pk'.nodePosition[path[p].node] == Flags(p, IsReversed(adj, path, p));
  }

  /** A flagged neighbour of an interior is an interior itself: the end points are ordinary. */
  lemma FlaggedNeighbourInside(adj: Adjacency, flagged: seq<bool>, path: seq<VertexRec>, attribute: nat, x: nat, y: nat)
    requires PathOk(adj, flagged, path, attribute)
    requires x in Interior(path) && y < |adj| && flagged[y] && Points(adj, x, y)
    ensures y in Interior(path)
  {
    var p := InteriorIndex(path, x);
    assert InteriorOk(adj, flagged, path, attribute, p);
    if y == path[p - 1].node {
      InteriorNode(path, p - 1);
    } else {
      assert y == path[p + 1].node;
      InteriorNode(path, p + 1);
    }
  }

  lemma NeighboursStayAssigned(adj: Adjacency, flagged: seq<bool>, pk: Packing, path: seq<VertexRec>, attribute: nat,
      pk': Packing)
    requires NeighboursAssigned(adj, flagged, pk.nodePosition) && PathOk(adj, flagged, path, attribute)
    requires Extends(adj, pk, path, attribute, pk')
    ensures NeighboursAssigned(adj, flagged, pk'.nodePosition)
  {
    assert |path| >= 3 && |pk'.nodePosition| == |adj|;
    hide PathOk;
    hide Marked;
    hide Interior;
    forall x, y | 0 <= x < |adj| && 0 <= y < |adj| && pk'.nodePosition[x] != 0 && flagged[y] && Points(adj, x, y)
      ensures pk'.nodePosition[y] != 0
    {
      if x in Interior(path) {
        FlaggedNeighbourInside(adj, flagged, path, attribute, x, y);
      }
      if y in Interior(path) {
        InteriorAssigned(adj, pk, path, attribute, pk', y);
      }
    }
  }

  lemma AssignedCount(adj: Adjacency, flagged: seq<bool>, pk: Packing, path: seq<VertexRec>, attribute: nat,
      pk': Packing)
    requires NeighboursAssigned(adj, flagged, pk.nodePosition) && PathOk(adj, flagged, path, attribute)
    requires pk.nodePosition[path[1].node] == 0
    requires Extends(adj, pk, path, attribute, pk')
    ensures |Assigned(pk'.nodePosition)| == |Assigned(pk.nodePosition)| + (|path| - 2)
  {
    var added := Interior(path);
    DistinctSize(added);
    assert |pk'.nodePosition| == |adj|;
    forall x: nat
      ensures x in Assigned(pk'.nodePosition) <==> x in Assigned(pk.nodePosition) || x in added
      ensures x in added ==> x !in Assigned(pk.nodePosition)
    {
      if x in added {
        InteriorAssigned(adj, pk, path, attribute, pk', x);
        var p := InteriorIndex(path, x);
        InteriorUnassigned(adj, flagged, pk.nodePosition, path, attribute, p);
      }
    }
    assert Assigned(pk'.nodePosition) == Assigned(pk.nodePosition) + Elements(added);
    assert Assigned(pk.nodePosition) !! Elements(added);
  }

  lemma VerticesExist(adj: Adjacency, flagged: seq<bool>, vertices: seq<VertexRec>, path: seq<VertexRec>,
      attribute: nat)
    requires PathOk(adj, flagged, path, attribute) && NodesExist(vertices, |adj|)
    ensures NodesExist(vertices + path, |adj|)
  {}

  lemma InteriorTotalGrows(chains: seq<ChainRec>, chain: ChainRec)
    ensures InteriorTotal(chains + [chain], |chains| + 1) == InteriorTotal(chains, |chains|) + chain.count - 2
  {
    InteriorTotalOfPrefix(chains, [chain], |chains|);
  }

  lemma AllChainsFit(adj: Adjacency, flagged: seq<bool>, pk: Packing, path: seq<VertexRec>, attribute: nat,
      pk': Packing)
    requires TargetsExist(adj) && PackInv(adj, flagged, pk) && PathOk(adj, flagged, path, attribute) && |path| >= 5
    requires pk.nodePosition[path[1].node] == 0
    requires Extends(adj, pk, path, attribute, pk') && Tiled(pk'.chains, |pk'.vertices|)
    requires forall c :: 0 <= c < |pk.chains| ==> PathOf(pk', c) == PathOf(pk, c) && pk'.chains[c] == pk.chains[c]
    requires PathOf(pk', |pk.chains|) == path
    ensures forall c :: 0 <= c < |pk'.chains| ==> ChainFits(adj, flagged, pk', c)
  {
    hide ChainFits;
    hide PathOk;
    hide PackInv;
    hide PathOf;
    hide Tiled;
    assert Tiled(pk.chains, |pk.vertices|) by { PackTiled(adj, flagged, pk); }
    forall c | 0 <= c < |pk'.chains|
      ensures ChainFits(adj, flagged, pk', c)
    {
      if c < |pk.chains| {
        OldChainsFit(adj, flagged, pk, path, attribute, pk', c);
      } else {
        NewChainFits(adj, flagged, pk, path, attribute, pk');
      }
    }
  }

  lemma PackTiled(adj: Adjacency, flagged: seq<bool>, pk: Packing)
    requires TargetsExist(adj) && PackInv(adj, flagged, pk)
    ensures Tiled(pk.chains, |pk.vertices|)
  {}

  lemma AllNodesPlaced(adj: Adjacency, flagged: seq<bool>, pk: Packing, path: seq<VertexRec>, attribute: nat,
      pk': Packing)
    requires TargetsExist(adj) && PackInv(adj, flagged, pk) && PathOk(adj, flagged, path, attribute) && |path| >= 5
    requires Extends(adj, pk, path, attribute, pk') && Tiled(pk'.chains, |pk'.vertices|)
    requires forall c :: 0 <= c < |pk.chains| ==> PathOf(pk', c) == PathOf(pk, c) && pk'.chains[c] == pk.chains[c]
    requires PathOf(pk', |pk.chains|) == path
    ensures forall x :: 0 <= x < |adj| && pk'.nodePosition[x] != 0 ==> Placed(flagged, pk', x)
  {
    assert |pk'.nodePosition| == |adj|;
    hide PathOk;
    hide PackInv;
    hide PathOf;
    hide Tiled;
    hide Placed;
    hide Extends;
    forall x | 0 <= x < |adj| && pk'.nodePosition[x] != 0
      ensures Placed(flagged, pk', x)
    {
      AllPlaced(adj, flagged, pk, path, attribute, pk', x);
    }
  }

  /** One more chain keeps the invariant. */
  lemma AddKeepsInv(adj: Adjacency, flagged: seq<bool>, pk: Packing, path: seq<VertexRec>, attribute: nat, pk': Packing)
    requires TargetsExist(adj) && PackInv(adj, flagged, pk) && PathOk(adj, flagged, path, attribute) && |path| >= 5
    requires pk.nodePosition[path[1].node] == 0
    requires Extends(adj, pk, path, attribute, pk')
    ensures PackInv(adj, flagged, pk')
  {
    hide ChainFits;
    hide Placed;
    hide NeighboursAssigned;
    hide PathOk;
    hide FlagsPass;
    hide Assigned;
    hide InteriorTotal;
    hide PathOf;
    hide NodesExist;
    hide Tiled;
    TiledExtends(adj, pk, path, attribute, pk');
    VerticesExist(adj, flagged, pk.vertices, path, attribute);
    InteriorTotalGrows(pk.chains, ChainRec(|pk.vertices|, |path|, attribute, 0));
    AssignedCount(adj, flagged, pk, path, attribute, pk');
    NeighboursStayAssigned(adj, flagged, pk, path, attribute, pk');
    AllChainsFit(adj, flagged, pk, path, attribute, pk');
    AllNodesPlaced(adj, flagged, pk, path, attribute, pk');
  }

  lemma NewChainFits(adj: Adjacency, flagged: seq<bool>, pk: Packing, path: seq<VertexRec>, attribute: nat,
      pk': Packing)
    requires PathOk(adj, flagged, path, attribute) && Extends(adj, pk, path, attribute, pk')
    requires Tiled(pk'.chains, |pk'.vertices|) && PathOf(pk', |pk.chains|) == path
    ensures ChainFits(adj, flagged, pk', |pk.chains|)
  {}

  lemma DistinctInterior(path: seq<VertexRec>, p: nat, q: nat)
    requires |path| >= 2 && Distinct(Interior(path)) && 1 <= p < q < |path| - 1
    ensures path[p].node != path[q].node
  {
    assert Interior(path)[p - 1] == path[p].node && Interior(path)[q - 1] == path[q].node;
  }

  /** The words after marking the positions before `n`. */
  ghost predicate MarkedTo(adj: Adjacency, pk: Packing, path: seq<VertexRec>, n: nat, nodeChain: seq<nat>,
      nodePosition: seq<Word>) {
    && 2 <= |path| && n < |path| && |nodeChain| == |nodePosition| == |adj| == |pk.nodeChain| == |pk.nodePosition|
    && |path| < CHAIN_REVERSE
    && (forall p :: 1 <= p < n ==>
         && path[p].node < |adj| && |adj[path[p].node]| > 0
         && nodeChain[path[p].node] == |pk.chains|
         && nodePosition[path[p].node] == Flags(p, IsReversed(adj, path, p)))
    && (forall y :: 0 <= y < |adj| && y !in Interior(path) ==>
         nodeChain[y] == pk.nodeChain[y] && nodePosition[y] == pk.nodePosition[y])
  }

  lemma MarkOne(adj: Adjacency, pk: Packing, path: seq<VertexRec>, n: nat, nodeChain: seq<nat>, nodePosition: seq<Word>)
    requires MarkedTo(adj, pk, path, n, nodeChain, nodePosition) && 1 <= n < |path| - 1
    requires Distinct(Interior(path)) && path[n].node < |adj| && |adj[path[n].node]| > 0
    ensures MarkedTo(adj, pk, path, n + 1, nodeChain[path[n].node := |pk.chains|],
                     nodePosition[path[n].node := Flags(n, IsReversed(adj, path, n))])
  {
    hide Flags;
    hide Interior;
    hide IsReversed;
    var v, w := path[n].node, Flags(n, IsReversed(adj, path, n));
    InteriorNode(path, n);
    forall p | 1 <= p < n + 1
      ensures path[p].node < |adj| && |adj[path[p].node]| > 0
      ensures nodeChain[v := |pk.chains|][path[p].node] == |pk.chains|
      ensures nodePosition[v := w][path[p].node] == Flags(p, IsReversed(adj, path, p))
    {
      if p < n {
        DistinctInterior(path, p, n);
        assert nodePosition[path[p].node] == Flags(p, IsReversed(adj, path, p));
      }
    }
  }

  lemma StartMarking(adj: Adjacency, pk: Packing, path: seq<VertexRec>)
    requires |pk.nodeChain| == |pk.nodePosition| == |adj| && 2 <= |path| < CHAIN_REVERSE
    ensures MarkedTo(adj, pk, path, 1, pk.nodeChain, pk.nodePosition)
  {}

  lemma EndMarking(adj: Adjacency, pk: Packing, path: seq<VertexRec>, attribute: nat, pk': Packing)
    requires 2 <= |path| && MarkedTo(adj, pk, path, |path| - 1, pk'.nodeChain, pk'.nodePosition)
    requires pk'.chains == pk.chains + [ChainRec(|pk.vertices|, |path|, attribute, 0)]
    requires pk'.vertices == pk.vertices + path && pk'.storedEdges == pk.storedEdges - 2 * (|path| - 2)
    ensures Extends(adj, pk, path, attribute, pk')
  {}

  lemma InteriorFacts(adj: Adjacency, flagged: seq<bool>, path: seq<VertexRec>, attribute: nat, p: nat)
    requires PathOk(adj, flagged, path, attribute) && 1 <= p < |path| - 1
    ensures path[p].node < |adj| && |adj[path[p].node]| > 0 && Distinct(Interior(path))
  {
    assert InteriorOk(adj, flagged, path, attribute, p);
  }

  /** Stores a path as a chain and marks its interiors. */
  method AddChain(adj: Adjacency, ghost flagged: seq<bool>, pk: Packing, path: seq<VertexRec>, attribute: nat)
    returns (pk': Packing)
    requires |pk.nodeChain| == |pk.nodePosition| == |adj|
    requires PathOk(adj, flagged, path, attribute) && 5 <= |path| < CHAIN_REVERSE
    ensures Extends(adj, pk, path, attribute, pk')
  {
    hide MarkedTo;
    hide PathOk;
    hide Extends;
    hide Interior;
    hide Flags;
    var nodeChain: seq<nat>, nodePosition: seq<Word>, stored := pk.nodeChain, pk.nodePosition, pk.storedEdges;
    StartMarking(adj, pk, path);
    var position := 1;
    while position < |path| - 1
      invariant 1 <= position <= |path| - 1
      invariant MarkedTo(adj, pk, path, position, nodeChain, nodePosition)
      invariant stored == pk.storedEdges - 2 * (position - 1)
    {
      InteriorFacts(adj, flagged, path, attribute, position);
      MarkOne(adj, pk, path, position, nodeChain, nodePosition);
      MarkedLengths(adj, pk, path, position, nodeChain, nodePosition);
      var v := path[position].node;
      nodeChain := nodeChain[v := |pk.chains|];
      nodePosition := nodePosition[v := Flags(position, IsReversed(adj, path, position))];
      stored := stored - 2;
      position := position + 1;
    }
    pk' := Packing(pk.chains + [ChainRec(|pk.vertices|, |path|, attribute, 0)], pk.vertices + path,
                   nodeChain, nodePosition, stored);
    EndMarking(adj, pk, path, attribute, pk');
  }

  lemma MarkedLengths(adj: Adjacency, pk: Packing, path: seq<VertexRec>, n: nat, nodeChain: seq<nat>,
      nodePosition: seq<Word>)
    requires MarkedTo(adj, pk, path, n, nodeChain, nodePosition)
    ensures |nodeChain| == |nodePosition| == |adj|
  {}
}
