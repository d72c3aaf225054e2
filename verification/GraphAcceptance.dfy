/** Opening a graph file: the whole acceptance test (`OpenGraph` in core/router_store.go with
    `validateChains` in core/router_store_chains.go) and what it guarantees to every reader. */
module GraphAcceptance {
  import opened GraphStore
  import opened ChainPacking
  import opened GraphPacking
  import opened GraphReader
  import opened Pigeonhole

  ghost predicate SizesOk(d: Store) {
    && 0 < |d.nodes| < WORD && d.edgeCount < WORD && |d.attributes| < WORD
    && |d.edges| <= d.edgeCount && |d.chains| <= |d.nodes| && |d.vertices| < WORD
    && (d.chained ==> |d.chains| > 0 && d.edgeCount - |d.edges| <= 2 * |d.nodes|)
    && (!d.chained ==> d.chains == [] && d.vertices == [])
    && (d.edgeCount > 0 ==> |d.classes| > 0)
  }

  ghost predicate EdgesOk(d: Store) {
    forall e :: e in d.edges ==> e.target < |d.nodes| && e.attribute < |d.attributes|
  }

  ghost predicate AttributesOk(d: Store) {
    forall a :: a in d.attributes ==> a.class_ < |d.classes|
  }

  ghost predicate Accepts(d: Store) {
    && SizesOk(d) && NodeTableOk(d) && EdgesOk(d)
    && (d.chained ==> ChainTableOk(d, FlaggedCount(d, |d.nodes|)) && EntriesOk(d))
    && AttributesOk(d)
  }

  method CheckEdges(d: Store) returns (ok: bool)
    ensures ok <==> EdgesOk(d)
  {
    for i := 0 to |d.edges|
      invariant forall k :: 0 <= k < i ==> d.edges[k].target < |d.nodes| && d.edges[k].attribute < |d.attributes|
    {
      if d.edges[i].target >= |d.nodes| || d.edges[i].attribute >= |d.attributes| {
        assert d.edges[i] in d.edges;
        return false;
      }
    }
    ok := true;
  }

  method CheckAttributes(d: Store) returns (ok: bool)
    ensures ok <==> AttributesOk(d)
  {
    for i := 0 to |d.attributes|
      invariant forall k :: 0 <= k < i ==> d.attributes[k].class_ < |d.classes|
    {
      if d.attributes[i].class_ >= |d.classes| {
        assert d.attributes[i] in d.attributes;
        return false;
      }
    }
    ok := true;
  }

  /** The checks in the order they are made; each may assume the ones before it. */
  method OpenGraph(d: Store) returns (ok: bool)
    ensures ok <==> Accepts(d)
  {
    hide NodeTableOk;
    hide ChainTableOk;
    hide EntriesOk;
    if |d.nodes| == 0 || |d.edges| > d.edgeCount || |d.nodes| >= WORD || d.edgeCount >= WORD || |d.attributes| >= WORD
      || |d.chains| > |d.nodes| || |d.vertices| >= WORD
      || (d.chained && (|d.chains| == 0 || d.edgeCount - |d.edges| > 2 * |d.nodes|))
      || (!d.chained && (|d.chains| > 0 || |d.vertices| > 0))
      || (|d.classes| == 0 && d.edgeCount > 0)
    {
      return false;
    }
    var chainNodes;
    ok, chainNodes := CheckNodes(d);
    if !ok {
      return;
    }
    ok := CheckEdges(d);
    if !ok {
      return;
    }
    if d.chained {
      ok := CheckChains(d, chainNodes);
      if !ok {
        return;
      }
      ok := CheckEntries(d);
      if !ok {
        return;
      }
    }
    ok := CheckAttributes(d);
  }

  // ---- Every chain node sits at exactly one place ----

  ghost predicate SitsAt(d: Store, i: nat, c: nat, p: nat) {
    && c < |d.chains| && 1 <= p < d.chains[c].count - 1
    && d.chains[c].start + p < |d.vertices| && d.vertices[d.chains[c].start + p].node == i
  }

  ghost function InteriorOf(d: Store, c: nat): (r: seq<nat>)
    requires c < |d.chains| && d.chains[c].count >= 5 && d.chains[c].start + d.chains[c].count <= |d.vertices|
    ensures |r| == d.chains[c].count - 2
    ensures forall k :: 0 <= k < |r| ==> r[k] == d.vertices[d.chains[c].start + 1 + k].node
  {
    Nodes(d.vertices[d.chains[c].start + 1..d.chains[c].start + d.chains[c].count - 1])
  }

  /** The place a chain vertex claims is the one its node record names. */
  lemma SlotNamed(d: Store, chainNodes: nat, i: nat, c: nat, p: nat)
    requires ChainTableOk(d, chainNodes) && SitsAt(d, i, c, p)
    ensures i < |d.nodes| && Flagged(d.nodes[i].second) && d.nodes[i].first == c && Position(d.nodes[i].second) == p
  {
    assert ChainPlaced(d, c);
    assert VertexOk(d, c, p);
  }

  lemma ChainFacts(d: Store, chainNodes: nat, c: nat)
    requires ChainTableOk(d, chainNodes) && c < |d.chains|
    ensures d.chains[c].count >= 5 && d.chains[c].start + d.chains[c].count <= |d.vertices|
    ensures d.chains[c].attribute < |d.attributes|
  {
    assert ChainPlaced(d, c);
  }

  lemma InteriorSlots(d: Store, chainNodes: nat, c: nat, k: nat)
    requires ChainTableOk(d, chainNodes) && c < |d.chains|
    requires d.chains[c].count >= 5 && d.chains[c].start + d.chains[c].count <= |d.vertices|
    requires k < d.chains[c].count - 2
    ensures SitsAt(d, InteriorOf(d, c)[k], c, k + 1)
  {}

  lemma InteriorDistinct(d: Store, chainNodes: nat, c: nat)
    requires ChainTableOk(d, chainNodes) && c < |d.chains|
    requires d.chains[c].count >= 5 && d.chains[c].start + d.chains[c].count <= |d.vertices|
    ensures Distinct(InteriorOf(d, c))
  {
    hide ChainTableOk;
    var s := InteriorOf(d, c);
    forall a, b | 0 <= a < b < |s|
      ensures s[a] != s[b]
    {
      InteriorSlots(d, chainNodes, c, a);
      InteriorSlots(d, chainNodes, c, b);
      SlotNamed(d, chainNodes, s[a], c, a + 1);
      SlotNamed(d, chainNodes, s[b], c, b + 1);
    }
  }

  /** The interiors of the first `n` chains. */
  ghost predicate Interiors(d: Store, n: nat, inside: set<nat>) {
    forall i :: i in inside ==>
      && i < |d.nodes| && Flagged(d.nodes[i].second) && d.nodes[i].first < n
      && SitsAt(d, i, d.nodes[i].first, Position(d.nodes[i].second))
  }

  lemma InteriorsGrow(d: Store, chainNodes: nat, n: nat, inside: set<nat>)
    requires ChainTableOk(d, chainNodes) && n < |d.chains| && Interiors(d, n, inside)
    requires d.chains[n].count >= 5 && d.chains[n].start + d.chains[n].count <= |d.vertices|
    ensures inside !! Elements(InteriorOf(d, n))
    ensures Interiors(d, n + 1, inside + Elements(InteriorOf(d, n)))
  {
    hide ChainTableOk;
    var s := InteriorOf(d, n);
    forall i | i in Elements(s)
      ensures i !in inside
      ensures i < |d.nodes| && Flagged(d.nodes[i].second) && d.nodes[i].first == n
      ensures SitsAt(d, i, n, Position(d.nodes[i].second))
    {
      var k :| 0 <= k < |s| && s[k] == i;
      InteriorSlots(d, chainNodes, n, k);
      SlotNamed(d, chainNodes, i, n, k + 1);
    }
  }

  lemma {:induction false} CollectInteriors(d: Store, chainNodes: nat, n: nat) returns (inside: set<nat>)
    requires ChainTableOk(d, chainNodes) && n <= |d.chains|
    ensures Interiors(d, n, inside)
    ensures |inside| == InteriorTotal(d.chains, n)
  {
    hide ChainTableOk;
    hide SitsAt;
    hide InteriorOf;
    if n == 0 {
      inside := {};
    } else {
      var smaller := CollectInteriors(d, chainNodes, n - 1);
      ChainFacts(d, chainNodes, n - 1);
      InteriorsGrow(d, chainNodes, n - 1, smaller);
      InteriorDistinct(d, chainNodes, n - 1);
      DistinctSize(InteriorOf(d, n - 1));
      inside := smaller + Elements(InteriorOf(d, n - 1));
    }
  }

  ghost function FlaggedNodes(d: Store, n: nat): set<nat>
    requires n <= |d.nodes|
  {
    set i: nat | i < n && IsFlagged(d, i)
  }

  lemma {:induction false} FlaggedNodesCount(d: Store, n: nat)
    requires n <= |d.nodes|
    ensures |FlaggedNodes(d, n)| == FlaggedCount(d, n)
  {
    if n > 0 {
      FlaggedNodesCount(d, n - 1);
      if IsFlagged(d, n - 1) {
        assert FlaggedNodes(d, n) == FlaggedNodes(d, n - 1) + {n - 1};
      } else {
        assert FlaggedNodes(d, n) == FlaggedNodes(d, n - 1);
      }
    }
  }

  /** There are as many interiors as flagged nodes, so every flagged node is one of them. */
  lemma FlaggedNodesSit(d: Store, i: nat)
    requires d.chained && ChainTableOk(d, FlaggedCount(d, |d.nodes|))
    requires i < |d.nodes| && IsFlagged(d, i)
    ensures SitsAt(d, i, d.nodes[i].first, Position(d.nodes[i].second))
  {
    var n := |d.nodes|;
    var inside := CollectInteriors(d, FlaggedCount(d, n), |d.chains|);
    hide ChainOk;
    hide SitsAt;
    FlaggedNodesCount(d, n);
    assert inside <= FlaggedNodes(d, n);
    SubsetSize(inside, FlaggedNodes(d, n));
    assert i in FlaggedNodes(d, n);
  }

  /** An accepted store puts every chain node at exactly one position of exactly one chain. */
  lemma OnePlace(d: Store, i: nat, chain: nat, position: nat, reversed: bool)
    requires Accepts(d) && i < |d.nodes| && ChainNode(d, i) == OnChain(chain, position, reversed)
    ensures SitsAt(d, i, chain, position)
    ensures forall c, p :: SitsAt(d, i, c, p) ==> c == chain && p == position
  {
    hide NodeTableOk;
    hide ChainTableOk;
    hide EntriesOk;
    FlaggedNodesSit(d, i);
    forall c, p | SitsAt(d, i, c, p)
      ensures c == chain && p == position
    {
      SlotNamed(d, FlaggedCount(d, |d.nodes|), i, c, p);
    }
  }

  lemma VertexChecked(d: Store, c: nat, p: nat)
    requires c < |d.chains| && ChainOk(d, c) && p < d.chains[c].count
    ensures d.chains[c].start + p < |d.vertices| && VertexOk(d, c, p)
  {
    hide VertexOk;
  }

  /** The end points of a chain are ordinary nodes. */
  lemma EndPoints(d: Store, chainNodes: nat, c: nat, p: nat)
    requires ChainTableOk(d, chainNodes) && c < |d.chains| && p < d.chains[c].count
    requires p == 0 || p == d.chains[c].count - 1
    ensures d.chains[c].start + p < |d.vertices|
    ensures d.vertices[d.chains[c].start + p].node < |d.nodes|
    ensures !Flagged(d.nodes[d.vertices[d.chains[c].start + p].node].second)
  {
    assert ChainPlaced(d, c);
    hide ChainTableOk;
    hide ChainOk;
    hide Flagged;
    VertexChecked(d, c, p);
  }

  // ---- Readers stay in range ----

  lemma {:induction false} VerticesInRange(d: Store, chainNodes: nat, n: nat, k: nat)
    requires ChainTableOk(d, chainNodes) && n <= |d.chains| && k < ChainEnd(d, n) && k < |d.vertices|
    ensures d.vertices[k].node < |d.nodes|
  {
    if n > 0 {
      assert ChainPlaced(d, n - 1);
      hide ChainTableOk;
      hide ChainOk;
      if k < d.chains[n - 1].start {
        VerticesInRange(d, chainNodes, n - 1, k);
      } else {
        VertexChecked(d, n - 1, k - d.chains[n - 1].start);
      }
    }
  }

  lemma AllVerticesInRange(d: Store, chainNodes: nat)
    requires ChainTableOk(d, chainNodes)
    ensures forall v :: v in d.vertices ==> v.node < |d.nodes|
    ensures forall c :: c in d.chains ==> c.attribute < |d.attributes|
  {
    assert ChainEnd(d, |d.chains|) == |d.vertices|;
    hide ChainTableOk;
    forall v | v in d.vertices
      ensures v.node < |d.nodes|
    {
      var k :| 0 <= k < |d.vertices| && d.vertices[k] == v;
      VerticesInRange(d, chainNodes, |d.chains|, k);
    }
    forall c | c in d.chains
      ensures c.attribute < |d.attributes|
    {
      var k :| 0 <= k < |d.chains| && d.chains[k] == c;
      ChainFacts(d, chainNodes, k);
    }
  }

  lemma NodeInRange(d: Store, i: nat)
    requires Accepts(d) && i < |d.nodes|
    ensures match ChainNode(d, i)
      case Ordinary => d.nodes[i].first + d.nodes[i].second <= |d.edges|
      case OnChain(chain, position, _) => InChain(d, chain, position)
  {
    assert NodeOk(d, i);
    hide ChainTableOk;
    hide EntriesOk;
    match ChainNode(d, i) {
      case Ordinary =>
      case OnChain(chain, position, reversed) =>
        OnePlace(d, i, chain, position, reversed);
        ChainFacts(d, FlaggedCount(d, |d.nodes|), chain);
    }
  }

  lemma {:induction false} IdsIncrease(d: Store, i: nat, j: nat)
    requires NodeTableOk(d) && i < j < |d.nodes|
    ensures d.nodes[i].id < d.nodes[j].id
    decreases j
  {
    assert NodeOk(d, j);
    if i < j - 1 {
      IdsIncrease(d, i, j - 1);
    }
  }

  /** Nothing a reader follows in an accepted store leads out of its tables. */
  lemma AcceptedReadable(d: Store)
    requires Accepts(d)
    ensures Readable(d) && SortedIds(d)
  {
    forall i, j | 0 <= i < j < |d.nodes|
      ensures d.nodes[i].id < d.nodes[j].id
    {
      IdsIncrease(d, i, j);
    }
    forall i | 0 <= i < |d.nodes|
      ensures match ChainNode(d, i)
        case Ordinary => d.nodes[i].first + d.nodes[i].second <= |d.edges|
        case OnChain(chain, position, _) => InChain(d, chain, position)
    {
      NodeInRange(d, i);
    }
    hide NodeTableOk;
    hide ChainTableOk;
    hide EntriesOk;
    if d.chained {
      AllVerticesInRange(d, FlaggedCount(d, |d.nodes|));
    }
  }
}
