/** How a chain hangs together with the ordinary nodes at its ends, and that every edge of a chain
    node is answered by exactly one equal edge back (core/router_store_chains.go). */
module ChainEntries {
  import opened GraphStore
  import opened ChainRuns
  import opened GraphReader
  import opened GraphAcceptance

  function EntryPosition(r: ChainRec, side: nat): int {
    if side == 1 then r.count - 2 else 1
  }

  /** The interior next to an end of the chain. */
  ghost predicate IsEntryNode(d: Store, c: nat, side: nat, x: nat) {
    && side < 2 && c < |d.chains| && d.chains[c].count >= 5
    && EntryPosition(d.chains[c], side) >= 0
    && SitsAt(d, x, c, EntryPosition(d.chains[c], side))
  }

  /** The ordinary node at an end of the chain. */
  ghost predicate IsEndNode(d: Store, c: nat, side: nat, u: nat) {
    && side < 2 && c < |d.chains| && d.chains[c].count >= 5
    && 0 <= OuterVertex(d.chains[c], EntryPosition(d.chains[c], side)) < |d.vertices|
    && d.vertices[OuterVertex(d.chains[c], EntryPosition(d.chains[c], side))].node == u
  }

  ghost predicate EndsOrdinary(d: Store, c: nat)
    requires c < |d.chains|
  {
    var r := d.chains[c];
    && r.count >= 5 && r.start + r.count <= |d.vertices|
    && forall p :: (p == r.start || p == r.start + r.count - 1) ==>
         d.vertices[p].node < |d.nodes| && !Flagged(d.nodes[d.vertices[p].node].second)
  }

  /** What makes a chain's slots and its nodes' words agree. */
  ghost predicate Slotted(d: Store) {
    && d.chained
    && (forall i: nat, c: nat, p: nat :: SitsAt(d, i, c, p) ==>
          i < |d.nodes| && Flagged(d.nodes[i].second) && d.nodes[i].first == c && Position(d.nodes[i].second) == p)
    && (forall i :: 0 <= i < |d.nodes| && Flagged(d.nodes[i].second) ==>
          SitsAt(d, i, d.nodes[i].first, Position(d.nodes[i].second)))
    && (forall c :: 0 <= c < |d.chains| ==> EndsOrdinary(d, c))
  }

  lemma TablesSlotted(d: Store)
    requires d.chained && ChainTableOk(d, FlaggedCount(d, |d.nodes|))
    ensures Slotted(d)
  {
    var chainNodes := FlaggedCount(d, |d.nodes|);
    hide ChainTableOk;
    forall c | 0 <= c < |d.chains|
      ensures EndsOrdinary(d, c)
    {
      ChainFacts(d, chainNodes, c);
      EndPoints(d, chainNodes, c, 0);
      EndPoints(d, chainNodes, c, d.chains[c].count - 1);
    }
    forall i: nat, c: nat, p: nat | SitsAt(d, i, c, p)
      ensures i < |d.nodes| && Flagged(d.nodes[i].second) && d.nodes[i].first == c && Position(d.nodes[i].second) == p
    {
      SlotNamed(d, chainNodes, i, c, p);
    }
    forall i | 0 <= i < |d.nodes| && Flagged(d.nodes[i].second)
      ensures SitsAt(d, i, d.nodes[i].first, Position(d.nodes[i].second))
    {
      FlaggedNodesSit(d, i);
    }
  }

  /** A checked edge enters a chain on a side exactly when it leads to the interior there, and then
      it comes from the end point with the stored distance and attribute. */
  lemma EntersMeansTarget(d: Store, u: nat, e: EdgeRec, c: nat, side: nat, x: nat)
    requires Slotted(d) && EntryOk(d, u, e) && IsEntryNode(d, c, side, x)
    ensures Enters(d, e, c, side) <==> e.target == x
    ensures e.target == x ==>
      && IsEndNode(d, c, side, u) && e.attribute == d.chains[c].attribute
      && 0 <= EntrySegment(d.chains[c], EntryPosition(d.chains[c], side)) < |d.vertices|
      && e.distance == d.vertices[EntrySegment(d.chains[c], EntryPosition(d.chains[c], side))].distance
  {
    assert Flagged(d.nodes[x].second) && d.nodes[x].first == c;
    assert ChainNode(d, x) == OnChain(c, EntryPosition(d.chains[c], side), Reversed(d.nodes[x].second));
    if Enters(d, e, c, side) {
      var t := e.target;
      assert SitsAt(d, t, c, Position(d.nodes[t].second));
    }
  }

  lemma {:induction false} EntriesAreEdgesTo(d: Store, u: nat, es: seq<EdgeRec>, c: nat, side: nat, x: nat)
    requires Slotted(d) && IsEntryNode(d, c, side, x) && forall e :: e in es ==> EntryOk(d, u, e)
    ensures EntryCount(d, es, c, side) == CountTo(es, x)
    ensures EntryCount(d, es, c, side) > 0 ==> IsEndNode(d, c, side, u)
  {
    hide Slotted;
    hide EntryOk;
    hide IsEntryNode;
    hide IsEndNode;
    hide Enters;
    if es != [] {
      var init, last := es[..|es| - 1], es[|es| - 1];
      assert last in es && forall e :: e in init ==> e in es;
      EntriesAreEdgesTo(d, u, init, c, side, x);
      EntersMeansTarget(d, u, last, c, side, x);
    }
  }

  ghost predicate EntriesMatch(d: Store) {
    forall u, e :: 0 <= u < |d.nodes| && e in ExplicitEdges(d, u) ==> EntryOk(d, u, e)
  }

  /** All entries of a side are edges of the one end point there. */
  lemma {:induction false} EntriesFromEnd(d: Store, n: nat, c: nat, side: nat, x: nat, end: nat)
    requires Slotted(d) && EntriesMatch(d) && n <= |d.nodes|
    requires IsEntryNode(d, c, side, x) && IsEndNode(d, c, side, end) && end < |d.nodes|
    ensures EntryTotal(d, n, c, side) == if end < n then CountTo(ExplicitEdges(d, end), x) else 0
  {
    hide Slotted;
    hide IsEntryNode;
    hide EntryCount;
    hide EntryOk;
    hide ExplicitEdges;
    hide CountTo;
    if n > 0 {
      EntriesFromEnd(d, n - 1, c, side, x, end);
      EntriesAreEdgesTo(d, n - 1, ExplicitEdges(d, n - 1), c, side, x);
    }
  }

  // ---- Reciprocal edges ----

  /** Exactly one edge of the far node leads back, with the same distance and attribute. */
  ghost predicate Answered(d: Store, i: nat, e: EdgeRec)
    requires Readable(d) && e.target < |d.nodes|
  {
    && CountTo(CompactEdges(d, e.target), i) == 1
    && forall r :: r in CompactEdges(d, e.target) && r.target == i ==>
      r.distance == e.distance && r.attribute == e.attribute
  }

  lemma OrdinaryEdgesRead(d: Store, u: nat)
    requires Readable(d) && u < |d.nodes| && ChainNode(d, u) == Ordinary
    ensures CompactEdges(d, u) == ExplicitEdges(d, u)
  {}

  /** The end of a chain holds exactly one edge to the interior beside it. */
  lemma EndAnswers(d: Store, c: nat, side: nat, x: nat, end: nat)
    requires Slotted(d) && EntriesOk(d) && IsEntryNode(d, c, side, x) && IsEndNode(d, c, side, end) && end < |d.nodes|
    ensures CountTo(ExplicitEdges(d, end), x) == 1
    ensures 0 <= EntrySegment(d.chains[c], EntryPosition(d.chains[c], side)) < |d.vertices|
    ensures forall r :: r in ExplicitEdges(d, end) && r.target == x ==>
      && r.attribute == d.chains[c].attribute
      && r.distance == d.vertices[EntrySegment(d.chains[c], EntryPosition(d.chains[c], side))].distance
  {
    EndCount(d, c, side, x, end);
    SegmentExists(d, c, side, x);
    forall r | r in ExplicitEdges(d, end) && r.target == x
      ensures r.attribute == d.chains[c].attribute
      ensures r.distance == d.vertices[EntrySegment(d.chains[c], EntryPosition(d.chains[c], side))].distance
    {
      hide Slotted;
      assert EntryOk(d, end, r);
      EntersMeansTarget(d, end, r, c, side, x);
    }
  }

  lemma SegmentExists(d: Store, c: nat, side: nat, x: nat)
    requires IsEntryNode(d, c, side, x)
    ensures 0 <= EntrySegment(d.chains[c], EntryPosition(d.chains[c], side)) < |d.vertices|
  {}

  lemma EndCount(d: Store, c: nat, side: nat, x: nat, end: nat)
    requires Slotted(d) && EntriesOk(d) && IsEntryNode(d, c, side, x) && IsEndNode(d, c, side, end) && end < |d.nodes|
    ensures CountTo(ExplicitEdges(d, end), x) == 1
  {
    assert side < 2 && c < |d.chains|;
    hide Slotted;
    hide IsEntryNode;
    hide IsEndNode;
    hide EntryTotal;
    hide EntryOk;
    hide ExplicitEdges;
    EntriesFromEnd(d, |d.nodes|, c, side, x, end);
    assert side == 0 || side == 1;
  }

  /** The node stored at a vertex of a chain. */
  function At(d: Store, c: nat, p: nat): nat
    requires c < |d.chains| && d.chains[c].start + p < |d.vertices|
  {
    d.vertices[d.chains[c].start + p].node
  }

  /** The two edges of a chain node that is not next to an end are answered by its chain neighbours. */
  lemma InnerAnswered(d: Store, i: nat, c: nat, p: nat, j: nat, q: nat)
    requires Readable(d) && Slotted(d) && SitsAt(d, i, c, p) && SitsAt(d, j, c, q) && (q == p + 1 || p == q + 1)
    requires InChain(d, c, p)
    requires q == p + 1 ==> d.chains[c].start + q + 1 < |d.vertices| && At(d, c, q + 1) != i
    requires p == q + 1 ==> At(d, c, q - 1) != i
    ensures Answered(d, i, ChainEdge(d, c, p, q == p + 1))
  {
    var OnChain(chain, position, reversed) := ChainNode(d, j);
    ChainNodeEdges(d, j, c, q, reversed);
    ChainEdgesRead(d, c, q);
    ChainEdgesRead(d, c, p);
    hide Slotted;
    hide Readable;
    hide ChainEdge;
    hide CompactEdges;
    PairCounts(CompactEdges(d, j)[0], CompactEdges(d, j)[1], i);
  }

  lemma PairCounts(a: EdgeRec, b: EdgeRec, x: nat)
    ensures CountTo([a, b], x) == (if a.target == x then 1 else 0) + (if b.target == x then 1 else 0)
  {
    assert [a, b][..1] == [a] && [a][..0] == [];
    assert CountTo([a], x) == CountTo([a][..0], x) + if a.target == x then 1 else 0;
    assert CountTo([a, b], x) == CountTo([a, b][..1], x) + if b.target == x then 1 else 0;
  }

  /** A vertex beside an interior is another interior, or the end point the interior is next to. */
  lemma BesideInterior(d: Store, i: nat, c: nat, p: nat, q: nat)
    requires Slotted(d) && SitsAt(d, i, c, p) && (q == p + 1 || p == q + 1)
    ensures d.chains[c].start + q < |d.vertices| && At(d, c, q) < |d.nodes|
    ensures 1 <= q < d.chains[c].count - 1 ==> SitsAt(d, At(d, c, q), c, q)
    ensures !(1 <= q < d.chains[c].count - 1) ==>
      && !Flagged(d.nodes[At(d, c, q)].second)
      && IsEndNode(d, c, if q == 0 then 0 else 1, At(d, c, q)) && IsEntryNode(d, c, if q == 0 then 0 else 1, i)
      && EntryPosition(d.chains[c], if q == 0 then 0 else 1) == p
  {
    assert EndsOrdinary(d, c);
    assert SitsAt(d, i, c, p);
    if 1 <= q < d.chains[c].count - 1 {
      assert SitsAt(d, At(d, c, q), c, q);
    }
  }

  /** Two steps along the chain never lead back to the same node. */
  lemma TwoStepsApart(d: Store, i: nat, c: nat, p: nat, q: nat)
    requires Slotted(d) && SitsAt(d, i, c, p) && (q == p + 2 || p == q + 2) && d.chains[c].start + q < |d.vertices|
    requires q < d.chains[c].count
    ensures At(d, c, q) != i
  {
    assert EndsOrdinary(d, c);
    if 1 <= q < d.chains[c].count - 1 {
      assert SitsAt(d, At(d, c, q), c, q);
    }
  }

  lemma InnerCase(d: Store, i: nat, c: nat, p: nat, q: nat)
    requires Readable(d) && Slotted(d) && SitsAt(d, i, c, p) && (q == p + 1 || p == q + 1) && InChain(d, c, p)
    requires 1 <= q < d.chains[c].count - 1
    ensures Answered(d, i, ChainEdge(d, c, p, q == p + 1))
  {
    BesideInterior(d, i, c, p, q);
    assert EndsOrdinary(d, c);
    TwoStepsApart(d, i, c, p, if q == p + 1 then p + 2 else p - 2);
    InnerAnswered(d, i, c, p, At(d, c, q), q);
  }

  lemma EndCase(d: Store, i: nat, c: nat, p: nat, q: nat)
    requires Readable(d) && Slotted(d) && EntriesOk(d) && SitsAt(d, i, c, p)
    requires (q == p + 1 || p == q + 1) && InChain(d, c, p)
    requires !(1 <= q < d.chains[c].count - 1)
    ensures Answered(d, i, ChainEdge(d, c, p, q == p + 1))
  {
    hide EntriesOk;
    BesideInterior(d, i, c, p, q);
    var end := At(d, c, q);
    EndAnswers(d, c, if q == 0 then 0 else 1, i, end);
    OrdinaryEdgesRead(d, end);
    ChainEdgesRead(d, c, p);
    assert EndsOrdinary(d, c);
    hide Slotted;
    hide Readable;
    hide CompactEdges;
    hide ExplicitEdges;
    hide ChainEdge;
    hide IsEntryNode;
    hide IsEndNode;
  }

  /** In an accepted store every edge of a chain node is answered by exactly one edge back, of the same
      distance and attribute. */
  lemma ChainEdgesAnswered(d: Store, i: nat, e: EdgeRec)
    requires Accepts(d) && Readable(d) && i < |d.nodes| && ChainNode(d, i).OnChain? && e in CompactEdges(d, i)
    ensures e.target < |d.nodes| && Answered(d, i, e)
  {
    var OnChain(c, p, reversed) := ChainNode(d, i);
    assert ChainTableOk(d, FlaggedCount(d, |d.nodes|)) && EntriesOk(d);
    OnePlace(d, i, c, p, reversed);
    TablesSlotted(d);
    ChainNodeEdges(d, i, c, p, reversed);
    hide Accepts;
    hide Readable;
    hide Slotted;
    hide EntriesOk;
    hide CompactEdges;
    hide ChainEdge;
    forall next: bool
      ensures Answered(d, i, ChainEdge(d, c, p, next))
    {
      var q := if next then p + 1 else p - 1;
      if 1 <= q < d.chains[c].count - 1 {
        InnerCase(d, i, c, p, q);
      } else {
        EndCase(d, i, c, p, q);
      }
    }
  }

  /** Only its two neighbours have an edge to a chain node. */
  lemma OnlyNeighboursLeadIn(d: Store, i: nat, j: nat, e: EdgeRec)
    requires Accepts(d) && Readable(d) && i < |d.nodes| && ChainNode(d, i).OnChain?
    requires j < |d.nodes| && e in CompactEdges(d, j) && e.target == i
    ensures exists r :: r in CompactEdges(d, i) && r.target == j
  {
    var OnChain(c, p, reversed) := ChainNode(d, i);
    assert ChainTableOk(d, FlaggedCount(d, |d.nodes|)) && EntriesOk(d);
    OnePlace(d, i, c, p, reversed);
    TablesSlotted(d);
    hide Accepts;
    hide Readable;
    hide CompactEdges;
    hide EntriesOk;
    hide Slotted;
    hide ChainTableOk;
    SlotNeighbours(d, i, c, p);
    match ChainNode(d, j) {
      case Ordinary =>
        OrdinaryLeadsIn(d, i, c, p, j, e);
      case OnChain(c', p', reversed') =>
        ChainLeadsIn(d, i, c, p, j, e);
    }
    NeighboursAreTargets(d, i, c, p, reversed);
  }

  lemma SlotNeighbours(d: Store, i: nat, c: nat, p: nat)
    requires Slotted(d) && SitsAt(d, i, c, p)
    ensures d.chains[c].start + p + 1 < |d.vertices|
  {
    assert EndsOrdinary(d, c);
  }

  lemma NeighboursAreTargets(d: Store, i: nat, c: nat, p: nat, reversed: bool)
    requires Readable(d) && i < |d.nodes| && ChainNode(d, i) == OnChain(c, p, reversed)
    requires InChain(d, c, p)
    ensures exists r :: r in CompactEdges(d, i) && r.target == At(d, c, p - 1)
    ensures exists r :: r in CompactEdges(d, i) && r.target == At(d, c, p + 1)
  {
    ChainNodeEdges(d, i, c, p, reversed);
    ChainEdgesRead(d, c, p);
    hide Readable;
    hide ChainEdge;
    assert ChainEdge(d, c, p, true) in CompactEdges(d, i) && ChainEdge(d, c, p, false) in CompactEdges(d, i);
  }

  lemma OrdinaryLeadsIn(d: Store, i: nat, c: nat, p: nat, u: nat, e: EdgeRec)
    requires Readable(d) && EntriesOk(d) && Slotted(d) && SitsAt(d, i, c, p)
    requires i < |d.nodes| && ChainNode(d, i).OnChain? && ChainNode(d, i).chain == c && ChainNode(d, i).position == p
    requires u < |d.nodes| && ChainNode(d, u) == Ordinary && e in CompactEdges(d, u) && e.target == i
    ensures d.chains[c].start + p + 1 < |d.vertices| && (At(d, c, p - 1) == u || At(d, c, p + 1) == u)
  {
    OrdinaryEdgesRead(d, u);
    hide Readable;
    hide ExplicitEdges;
    SlotNeighbours(d, i, c, p);
    assert EntryOk(d, u, e);
    hide Slotted;
    hide EntriesOk;
  }

  lemma ChainLeadsIn(d: Store, i: nat, c: nat, p: nat, j: nat, e: EdgeRec)
    requires Readable(d) && Slotted(d) && SitsAt(d, i, c, p)
    requires j < |d.nodes| && ChainNode(d, j).OnChain? && e in CompactEdges(d, j) && e.target == i
    ensures d.chains[c].start + p + 1 < |d.vertices| && (At(d, c, p - 1) == j || At(d, c, p + 1) == j)
  {
    var OnChain(c', p', reversed') := ChainNode(d, j);
    ChainNodeEdges(d, j, c', p', reversed');
    ChainEdgesRead(d, c', p');
    assert SitsAt(d, j, c', p');
    SlotNeighbours(d, i, c, p);
    hide Slotted;
    hide Readable;
    hide CompactEdges;
    hide ChainEdge;
    InnerLeadsIn(d, i, c, p, j, c', p', if At(d, c', p' + 1) == i then p' + 1 else p' - 1);
  }

  lemma InnerLeadsIn(d: Store, i: nat, c: nat, p: nat, j: nat, c': nat, p': nat, q': nat)
    requires Slotted(d) && SitsAt(d, i, c, p) && SitsAt(d, j, c', p') && (q' == p' + 1 || p' == q' + 1)
    requires d.chains[c'].start + q' < |d.vertices| && At(d, c', q') == i
    ensures c == c' && p == q'
  {
    BesideInterior(d, j, c', p', q');
    assert Flagged(d.nodes[i].second);
  }
}
