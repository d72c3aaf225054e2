/** What opening a graph file checks (`OpenGraph` in core/router_store.go and `validateChains`
    in core/router_store_chains.go), and what an accepted store guarantees. */
module GraphReader {
  import opened GraphStore
  import opened GraphPacking

  predicate IsFlagged(d: Store, i: nat)
    requires i < |d.nodes|
  {
    d.chained && Flagged(d.nodes[i].second)
  }

  /** The explicit edges that the first `n` nodes claim. */
  function ExplicitBefore(d: Store, n: nat): nat
    requires n <= |d.nodes|
  {
    if n == 0 then 0 else ExplicitBefore(d, n - 1) + if IsFlagged(d, n - 1) then 0 else d.nodes[n - 1].second
  }

  function FlaggedCount(d: Store, n: nat): nat
    requires n <= |d.nodes|
  {
    if n == 0 then 0 else FlaggedCount(d, n - 1) + if IsFlagged(d, n - 1) then 1 else 0
  }

  ghost predicate NodeOk(d: Store, i: nat)
    requires i < |d.nodes|
  {
    && (i > 0 ==> d.nodes[i - 1].id < d.nodes[i].id)
    && if IsFlagged(d, i) then d.nodes[i].first < |d.chains|
       else d.nodes[i].first == ExplicitBefore(d, i) && d.nodes[i].first + d.nodes[i].second <= |d.edges|
  }

  ghost predicate NodeTableOk(d: Store) {
    && (forall i :: 0 <= i < |d.nodes| ==> NodeOk(d, i))
    && ExplicitBefore(d, |d.nodes|) == |d.edges|
    && |d.edges| + 2 * FlaggedCount(d, |d.nodes|) == d.edgeCount
  }

  /** The scan of the node table. */
  method CheckNodes(d: Store) returns (ok: bool, chainNodes: nat)
    ensures ok <==> NodeTableOk(d)
    ensures ok ==> chainNodes == FlaggedCount(d, |d.nodes|)
  {
    var nextEdge := 0;
    chainNodes := 0;
    for i := 0 to |d.nodes|
      invariant nextEdge == ExplicitBefore(d, i) && chainNodes == FlaggedCount(d, i)
      invariant forall k :: 0 <= k < i ==> NodeOk(d, k)
    {
      var n := d.nodes[i];
      if i > 0 && n.id <= d.nodes[i - 1].id {
        assert !NodeOk(d, i);
        return false, 0;
      }
      if d.chained && Flagged(n.second) {
        if n.first >= |d.chains| {
          assert !NodeOk(d, i);
          return false, 0;
        }
        chainNodes := chainNodes + 1;
      } else {
        if n.first > |d.edges| || n.second > |d.edges| - n.first || n.first != nextEdge {
          assert !NodeOk(d, i);
          return false, 0;
        }
        nextEdge := n.first + n.second;
      }
    }
    ok := nextEdge == |d.edges| && |d.edges| + 2 * chainNodes == d.edgeCount;
  }

  // ---- Chain records ----

  ghost predicate VertexOk(d: Store, c: nat, position: nat)
    requires c < |d.chains| && d.chains[c].start + position < |d.vertices|
  {
    var node := d.vertices[d.chains[c].start + position].node;
    && node < |d.nodes|
    && if 0 < position < d.chains[c].count - 1 then
         && Flagged(d.nodes[node].second) && Position(d.nodes[node].second) == position && d.nodes[node].first == c
       else !Flagged(d.nodes[node].second)
  }

  ghost predicate ChainOk(d: Store, c: nat)
    requires c < |d.chains|
  {
    var r := d.chains[c];
    && r.count >= 5 && r.reserved == 0 && r.attribute < |d.attributes|
    && r.start + r.count <= |d.vertices|
    && (forall position :: 0 <= position < r.count ==> VertexOk(d, c, position))
    && d.vertices[r.start + r.count - 1].distance == 0
  }

  /** Where the next chain has to begin after the first `n`. */
  function ChainEnd(d: Store, n: nat): int
    requires n <= |d.chains|
  {
    if n == 0 then 0 else d.chains[n - 1].start + d.chains[n - 1].count
  }

  /** A good record that begins where the one before it ends. */
  ghost predicate ChainPlaced(d: Store, c: nat)
    requires c < |d.chains|
  {
    ChainOk(d, c) && d.chains[c].start == ChainEnd(d, c)
  }

  ghost predicate ChainTableOk(d: Store, chainNodes: nat) {
    && (forall c :: 0 <= c < |d.chains| ==> ChainPlaced(d, c))
    && ChainEnd(d, |d.chains|) == |d.vertices|
    && InteriorTotal(d.chains, |d.chains|) == chainNodes
  }

  method CheckVertices(d: Store, c: nat) returns (ok: bool)
    requires c < |d.chains| && d.chains[c].start + d.chains[c].count <= |d.vertices|
    ensures ok <==> forall position :: 0 <= position < d.chains[c].count ==> VertexOk(d, c, position)
  {
    var r := d.chains[c];
    for position := 0 to r.count
      invariant forall k :: 0 <= k < position ==> VertexOk(d, c, k)
    {
      var node := d.vertices[r.start + position].node;
      if node >= |d.nodes| {
        assert !VertexOk(d, c, position);
        return false;
      }
      var n := d.nodes[node];
      if position > 0 && position < r.count - 1 {
        if !Flagged(n.second) || Position(n.second) != position || n.first != c {
          assert !VertexOk(d, c, position);
          return false;
        }
      } else if Flagged(n.second) {
        assert !VertexOk(d, c, position);
        return false;
      }
    }
    ok := true;
  }

  method CheckChains(d: Store, chainNodes: nat) returns (ok: bool)
    ensures ok <==> ChainTableOk(d, chainNodes)
  {
    var nextVertex, interior := 0, 0;
    for c := 0 to |d.chains|
      invariant nextVertex == ChainEnd(d, c) && interior == InteriorTotal(d.chains, c)
      invariant forall k :: 0 <= k < c ==> ChainPlaced(d, k)
    {
      var r := d.chains[c];
      if r.start != nextVertex || r.count < 5 || r.start > |d.vertices| || r.count > |d.vertices| - r.start
        || r.attribute >= |d.attributes| || r.reserved != 0
      {
        assert !ChainPlaced(d, c);
        return false;
      }
      var good := CheckVertices(d, c);
      if !good || d.vertices[r.start + r.count - 1].distance != 0 {
        assert !ChainPlaced(d, c);
        return false;
      }
      nextVertex, interior := nextVertex + r.count, interior + r.count - 2;
    }
    ok := nextVertex == |d.vertices| && interior == chainNodes;
  }

  // ---- Entry edges ----

  /** The side (0 start, 1 end) on which an edge to a chain node enters the chain. */
  function SideOf(d: Store, c: nat, position: nat): nat
    requires c < |d.chains|
  {
    if position == d.chains[c].count - 2 then 1 else 0
  }

  /** The vertex outside the chain, and the one holding the distance, for an edge entering at `position`. */
  function OuterVertex(r: ChainRec, position: nat): int {
    if position == r.count - 2 then r.start + r.count - 1 else r.start
  }

  function EntrySegment(r: ChainRec, position: nat): int {
    if position == r.count - 2 then r.start + r.count - 2 else r.start
  }

  /** An explicit edge of `u` may lead into a chain only from the adjacent end point, with the stored
      attribute and distance. */
  ghost predicate EntryOk(d: Store, u: nat, e: EdgeRec) {
    && e.target < |d.nodes|
    && (ChainNode(d, e.target).OnChain? ==>
      EntersFromEnd(d, u, e, ChainNode(d, e.target).chain, ChainNode(d, e.target).position))
  }

  ghost predicate EntersFromEnd(d: Store, u: nat, e: EdgeRec, c: nat, position: nat) {
    && c < |d.chains|
    && (position == d.chains[c].count - 2 || position == 1)
    && 0 <= OuterVertex(d.chains[c], position) < |d.vertices|
    && 0 <= EntrySegment(d.chains[c], position) < |d.vertices|
    && d.vertices[OuterVertex(d.chains[c], position)].node == u
    && e.attribute == d.chains[c].attribute
    && e.distance == d.vertices[EntrySegment(d.chains[c], position)].distance
  }

  predicate Enters(d: Store, e: EdgeRec, c: nat, side: nat) {
    && e.target < |d.nodes|
    && match ChainNode(d, e.target)
       case Ordinary => false
       case OnChain(chain, position, _) => chain == c && chain < |d.chains| && SideOf(d, chain, position) == side
  }

  function EntryCount(d: Store, es: seq<EdgeRec>, c: nat, side: nat): nat {
    if es == [] then 0 else
      EntryCount(d, es[..|es| - 1], c, side) + if Enters(d, es[|es| - 1], c, side) then 1 else 0
  }

  /** The explicit edges of an ordinary node. */
  function ExplicitEdges(d: Store, u: nat): seq<EdgeRec>
    requires u < |d.nodes|
  {
    if IsFlagged(d, u) || d.nodes[u].first + d.nodes[u].second > |d.edges| then []
    else d.edges[d.nodes[u].first..d.nodes[u].first + d.nodes[u].second]
  }

  function EntryTotal(d: Store, n: nat, c: nat, side: nat): nat
    requires n <= |d.nodes|
  {
    if n == 0 then 0 else EntryTotal(d, n - 1, c, side) + EntryCount(d, ExplicitEdges(d, n - 1), c, side)
  }

  ghost predicate EntriesOk(d: Store) {
    && (forall u, e :: 0 <= u < |d.nodes| && e in ExplicitEdges(d, u) ==> EntryOk(d, u, e))
    && (forall c :: 0 <= c < |d.chains| ==> EntryTotal(d, |d.nodes|, c, 0) == 1 && EntryTotal(d, |d.nodes|, c, 1) == 1)
  }

  lemma EntryStep(d: Store, es: seq<EdgeRec>, i: nat, c: nat, side: nat)
    requires i < |es|
    ensures EntryCount(d, es[..i + 1], c, side) == EntryCount(d, es[..i], c, side) + if Enters(d, es[i], c, side) then 1
      else 0
  {
    assert es[..i + 1][..i] == es[..i];
  }

  lemma {:induction false} EntryPrefix(d: Store, es: seq<EdgeRec>, i: nat, c: nat, side: nat)
    requires i <= |es|
    ensures EntryCount(d, es[..i], c, side) <= EntryCount(d, es, c, side)
    decreases |es|
  {
    if i < |es| {
      EntryPrefix(d, es[..|es| - 1], i, c, side);
      assert es[..|es| - 1][..i] == es[..i];
    } else {
      assert es[..i] == es;
    }
  }

  lemma {:induction false} EntryTotalGrows(d: Store, m: nat, n: nat, c: nat, side: nat)
    requires m <= n <= |d.nodes|
    ensures EntryTotal(d, m, c, side) <= EntryTotal(d, n, c, side)
    decreases n
  {
    hide EntryCount;
    hide ExplicitEdges;
    if m < n {
      EntryTotalGrows(d, m, n - 1, c, side);
    }
  }

  /** An entry found at `i` is in the node's count. */
  lemma EntryCounted(d: Store, es: seq<EdgeRec>, i: nat, c: nat, side: nat)
    requires i < |es| && Enters(d, es[i], c, side)
    ensures EntryCount(d, es, c, side) >= EntryCount(d, es[..i], c, side) + 1
  {
    EntryStep(d, es, i, c, side);
    EntryPrefix(d, es, i + 1, c, side);
  }

  lemma TwiceEntered(d: Store, u: nat, c: nat, side: nat)
    requires u < |d.nodes| && c < |d.chains| && side < 2
    requires EntryTotal(d, u, c, side) + EntryCount(d, ExplicitEdges(d, u), c, side) >= 2
    ensures !EntriesOk(d)
  {
    hide EntryCount;
    hide ExplicitEdges;
    hide EntryOk;
    EntryTotalGrows(d, u + 1, |d.nodes|, c, side);
    assert side == 0 || side == 1;
  }

  /** A second entry on the same side cannot be made up for later. */
  lemma DuplicateFails(d: Store, u: nat, i: nat, c: nat, side: nat)
    requires u < |d.nodes| && i < |ExplicitEdges(d, u)| && Enters(d, ExplicitEdges(d, u)[i], c, side)
    requires EntryTotal(d, u, c, side) + EntryCount(d, ExplicitEdges(d, u)[..i], c, side) >= 1
    requires c < |d.chains| && side < 2
    ensures !EntriesOk(d)
  {
    hide *;
    EntryCounted(d, ExplicitEdges(d, u), i, c, side);
    TwiceEntered(d, u, c, side);
  }

  /** The entries counted so far, at most one per chain end. */
  ghost predicate Counted(d: Store, entries: seq<(nat, nat)>, u: nat, es: seq<EdgeRec>)
    requires u <= |d.nodes|
  {
    && |entries| == |d.chains|
    && forall c :: 0 <= c < |d.chains| ==>
         && entries[c].0 == EntryTotal(d, u, c, 0) + EntryCount(d, es, c, 0)
         && entries[c].1 == EntryTotal(d, u, c, 1) + EntryCount(d, es, c, 1)
  }

  lemma CountUnentered(d: Store, entries: seq<(nat, nat)>, u: nat, es: seq<EdgeRec>, i: nat)
    requires u <= |d.nodes| && i < |es| && Counted(d, entries, u, es[..i])
    requires es[i].target < |d.nodes| && ChainNode(d, es[i].target) == Ordinary
    ensures Counted(d, entries, u, es[..i + 1])
  {
    forall c | 0 <= c < |d.chains|
      ensures EntryCount(d, es[..i + 1], c, 0) == EntryCount(d, es[..i], c, 0)
      ensures EntryCount(d, es[..i + 1], c, 1) == EntryCount(d, es[..i], c, 1)
    {
      EntryStep(d, es, i, c, 0);
      EntryStep(d, es, i, c, 1);
    }
  }

  lemma CountEntered(d: Store, entries: seq<(nat, nat)>, u: nat, es: seq<EdgeRec>, i: nat, c: nat, position: nat,
      reversed: bool)
    requires u <= |d.nodes| && i < |es| && Counted(d, entries, u, es[..i])
    requires es[i].target < |d.nodes| && ChainNode(d, es[i].target) == OnChain(c, position, reversed) && c < |d.chains|
    ensures c < |entries|
    ensures Counted(d,
      entries[c := if SideOf(d, c, position) == 0 then (entries[c].0 + 1, entries[c].1)
      else (entries[c].0, entries[c].1 + 1)],
                    u, es[..i + 1])
  {
    forall k | 0 <= k < |d.chains|
      ensures EntryCount(d, es[..i + 1], k, 0)
        == EntryCount(d, es[..i], k, 0) + if k == c && SideOf(d, c, position) == 0 then 1 else 0
      ensures EntryCount(d, es[..i + 1], k, 1)
        == EntryCount(d, es[..i], k, 1) + if k == c && SideOf(d, c, position) == 1 then 1 else 0
    {
      EntryStep(d, es, i, k, 0);
      EntryStep(d, es, i, k, 1);
    }
  }

  lemma CountMovesOn(d: Store, entries: seq<(nat, nat)>, u: nat)
    requires u < |d.nodes| && Counted(d, entries, u, ExplicitEdges(d, u))
    ensures Counted(d, entries, u + 1, [])
  {}

  lemma NothingCounted(d: Store, entries: seq<(nat, nat)>)
    requires |entries| == |d.chains| && forall c :: 0 <= c < |entries| ==> entries[c] == (0, 0)
    ensures Counted(d, entries, 0, [])
  {}

  lemma AllCounted(d: Store, entries: seq<(nat, nat)>)
    requires Counted(d, entries, |d.nodes|, [])
    ensures |entries| == |d.chains|
    ensures forall c :: 0 <= c < |entries| ==>
      (entries[c] == (1, 1) <==> EntryTotal(d, |d.nodes|, c, 0) == 1 && EntryTotal(d, |d.nodes|, c, 1) == 1)
  {
    hide EntryTotal;
  }

  method AllOnes(entries: seq<(nat, nat)>) returns (ok: bool)
    ensures ok <==> forall c :: 0 <= c < |entries| ==> entries[c] == (1, 1)
  {
    for c := 0 to |entries|
      invariant forall k :: 0 <= k < c ==> entries[k] == (1, 1)
    {
      if entries[c] != (1, 1) {
        return false;
      }
    }
    ok := true;
  }

  /** Checks every explicit edge once; accepts exactly when each chain end has one matching entry. */
  method CheckEntries(d: Store) returns (ok: bool)
    requires NodeTableOk(d) && ChainTableOk(d, FlaggedCount(d, |d.nodes|))
    requires forall e :: e in d.edges ==> e.target < |d.nodes|
    ensures ok <==> EntriesOk(d)
  {
    hide NodeTableOk;
    hide ChainTableOk;
    hide Counted;
    hide EntryOk;
    hide ExplicitEdges;
    hide EntryTotal;
    var entries: seq<(nat, nat)> := seq(|d.chains|, _ => (0, 0));
    NothingCounted(d, entries);
    for u := 0 to |d.nodes|
      invariant Counted(d, entries, u, [])
      invariant forall c :: 0 <= c < |entries| ==> entries[c].0 <= 1 && entries[c].1 <= 1
      invariant forall v, e :: 0 <= v < u && e in ExplicitEdges(d, v) ==> EntryOk(d, v, e)
    {
      var good;
      good, entries := CheckNodeEntries(d, u, entries);
      if !good {
        return false;
      }
      CountMovesOn(d, entries, u);
    }
    AllCounted(d, entries);
    ok := AllOnes(entries);
  }

  lemma ExplicitAreStored(d: Store, u: nat)
    requires u < |d.nodes|
    ensures forall e :: e in ExplicitEdges(d, u) ==> e in d.edges
  {}

  lemma NoneOfThese(d: Store, entries: seq<(nat, nat)>, u: nat, es: seq<EdgeRec>)
    requires u < |d.nodes| && Counted(d, entries, u, [])
    ensures Counted(d, entries, u, es[..0])
  {
    assert es[..0] == [];
  }

  lemma CountedLength(d: Store, entries: seq<(nat, nat)>, u: nat, es: seq<EdgeRec>)
    requires u <= |d.nodes| && Counted(d, entries, u, es)
    ensures |entries| == |d.chains|
    ensures forall c :: 0 <= c < |d.chains| ==>
      && entries[c].0 == EntryTotal(d, u, c, 0) + EntryCount(d, es, c, 0)
      && entries[c].1 == EntryTotal(d, u, c, 1) + EntryCount(d, es, c, 1)
  {}

  /** The test made for an edge into a chain decides EntryOk. */
  lemma EntryDecided(d: Store, u: nat, e: EdgeRec)
    requires e.target < |d.nodes|
    requires ChainNode(d, e.target).OnChain? ==>
      && ChainNode(d, e.target).chain < |d.chains|
      && var r := d.chains[ChainNode(d, e.target).chain];
         r.count >= 5 && r.start + r.count <= |d.vertices|
    ensures ChainNode(d, e.target) == Ordinary ==> EntryOk(d, u, e)
    ensures ChainNode(d, e.target).OnChain? ==>
      var (c, position) := (ChainNode(d, e.target).chain, ChainNode(d, e.target).position);
      var r := d.chains[c];
      && 0 <= OuterVertex(r, position) < |d.vertices| && 0 <= EntrySegment(r, position) < |d.vertices|
      && (EntryOk(d, u, e) <==>
            && (position == r.count - 2 || position == 1)
            && d.vertices[OuterVertex(r, position)].node == u && e.attribute == r.attribute
            && e.distance == d.vertices[EntrySegment(r, position)].distance)
  {}

  lemma BadEntry(d: Store, u: nat, e: EdgeRec)
    requires u < |d.nodes| && e in ExplicitEdges(d, u) && !EntryOk(d, u, e)
    ensures !EntriesOk(d)
  {}

  method CheckNodeEntries(d: Store, u: nat, entries: seq<(nat, nat)>) returns (ok: bool, entries': seq<(nat, nat)>)
    requires NodeTableOk(d) && ChainTableOk(d, FlaggedCount(d, |d.nodes|))
    requires forall e :: e in d.edges ==> e.target < |d.nodes|
    requires u < |d.nodes| && Counted(d, entries, u, [])
    requires forall c :: 0 <= c < |entries| ==> entries[c].0 <= 1 && entries[c].1 <= 1
    ensures ok ==> Counted(d, entries', u, ExplicitEdges(d, u))
    ensures ok ==> forall c :: 0 <= c < |entries'| ==> entries'[c].0 <= 1 && entries'[c].1 <= 1
    ensures ok ==> forall e :: e in ExplicitEdges(d, u) ==> EntryOk(d, u, e)
    ensures !ok ==> !EntriesOk(d)
  {
    hide NodeTableOk;
    hide ChainTableOk;
    hide Counted;
    hide EntryOk;
    hide ExplicitEdges;
    hide EntriesOk;
    entries' := entries;
    var es := ExplicitEdges(d, u);
    ExplicitAreStored(d, u);
    NoneOfThese(d, entries, u, es);
    for i := 0 to |es|
      invariant Counted(d, entries', u, es[..i])
      invariant forall c :: 0 <= c < |entries'| ==> entries'[c].0 <= 1 && entries'[c].1 <= 1
      invariant forall k :: 0 <= k < i ==> EntryOk(d, u, es[k])
    {
      var e := es[i];
      assert e in es;
      TargetOnChain(d, e);
      EntryDecided(d, u, e);
      CountedLength(d, entries', u, es[..i]);
      match ChainNode(d, e.target) {
        case Ordinary =>
          CountUnentered(d, entries', u, es, i);
        case OnChain(c, position, reversed) =>
          var r := d.chains[c];
          if position != r.count - 2 && position != 1 {
            BadEntry(d, u, e);
            return false, entries';
          }
          var end, segment := OuterVertex(r, position), EntrySegment(r, position);
          if d.vertices[end].node != u || e.attribute != r.attribute || e.distance != d.vertices[segment].distance {
            BadEntry(d, u, e);
            return false, entries';
          }
          var side := SideOf(d, c, position);
          if (if side == 0 then entries'[c].0 else entries'[c].1) != 0 {
            DuplicateFails(d, u, i, c, side);
            return false, entries';
          }
          CountEntered(d, entries', u, es, i, c, position, reversed);
          entries' :=
            entries'[c := if side == 0 then (entries'[c].0 + 1, entries'[c].1) else (entries'[c].0, entries'[c].1 + 1)];
      }
    }
    assert es[..|es|] == es;
    ok := true;
  }

  lemma TargetOnChain(d: Store, e: EdgeRec)
    requires NodeTableOk(d) && ChainTableOk(d, FlaggedCount(d, |d.nodes|)) && e.target < |d.nodes|
    ensures ChainNode(d, e.target).OnChain? ==>
      && ChainNode(d, e.target).chain < |d.chains|
      && var r := d.chains[ChainNode(d, e.target).chain];
         r.count >= 5 && r.start + r.count <= |d.vertices|
  {
    assert NodeOk(d, e.target);
    if ChainNode(d, e.target).OnChain? {
      assert ChainPlaced(d, ChainNode(d, e.target).chain);
    }
  }
}
