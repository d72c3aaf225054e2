/** What the imported adjacency says about the roads it was made from (core/router.go): which edges stand under
    which node, told by the roads alone. */
module ImportedRoads {
  import opened Common
  import opened Pigeonhole
  import opened Varints
  import opened WayRefs
  import opened Deduplicate
  import opened ImportEdges

  /** The road runs from `ids[k]` to `ids[k + 1]`, both of which have places with a distance between them, and may be
      travelled from `x` along this edge: forwards unless it is one-way backwards, and the other way round. */
  ghost predicate LeadsAt(p: Places, road: Road, k: nat, x: int, e: ImportedEdge)
    requires k + 1 < |road.ids|
  {
    var (a, b) := (road.ids[k], road.ids[k + 1]);
    && a in p.coords && b in p.coords && p.distance(p.coords[a], p.coords[b]) == Some(e.distance)
    && e.tags == road.tags
    && ((x == a && e.to == b && road.oneway != -1) || (x == b && e.to == a && road.oneway != 1))
  }

  ghost predicate Leads(p: Places, road: Road, x: int, e: ImportedEdge) {
    exists k: nat :: k + 1 < |road.ids| && LeadsAt(p, road, k, x, e)
  }

  ghost predicate SomeRoadLeads(p: Places, roads: seq<Road>, x: int, e: ImportedEdge) {
    exists r :: 0 <= r < |roads| && Leads(p, roads[r], x, e)
  }

  lemma SegmentLeads(p: Places, road: Road, k: nat, x: int, e: ImportedEdge)
    requires k + 1 < |road.ids|
    ensures Visit(x, e) in Segment(p, road.ids[k], road.ids[k + 1], road.tags, road.oneway)
      <==> LeadsAt(p, road, k, x, e)
  {}

  lemma LeadsLonger(p: Places, road: Road, n: nat, x: int, e: ImportedEdge)
    requires 1 <= n < |road.ids|
    ensures Leads(p, road.(ids := road.ids[..n + 1]), x, e)
      <==> Leads(p, road.(ids := road.ids[..n]), x, e) || LeadsAt(p, road, n - 1, x, e)
  {
    var (short, long) := (road.(ids := road.ids[..n]), road.(ids := road.ids[..n + 1]));
    forall k: nat | k + 1 < n + 1
      ensures LeadsAt(p, long, k, x, e) <==> LeadsAt(p, road, k, x, e)
      ensures k + 1 < n ==> (LeadsAt(p, short, k, x, e) <==> LeadsAt(p, road, k, x, e))
    {}
    hide LeadsAt;
    if LeadsAt(p, road, n - 1, x, e) {
      var k: nat := n - 1;
      assert LeadsAt(p, long, k, x, e);
    }
    if Leads(p, short, x, e) {
      var k: nat :| k + 1 < |short.ids| && LeadsAt(p, short, k, x, e);
      assert LeadsAt(p, long, k, x, e);
    }
    if Leads(p, long, x, e) {
      var k: nat :| k + 1 < |long.ids| && LeadsAt(p, long, k, x, e);
      assert k + 1 < n ==> LeadsAt(p, short, k, x, e);
    }
  }

  lemma {:induction false} WayLeads(p: Places, road: Road, n: nat, x: int, e: ImportedEdge)
    requires n <= |road.ids|
    ensures Visit(x, e) in WayEdges(p, road.ids[..n], road.tags, road.oneway)
      <==> Leads(p, road.(ids := road.ids[..n]), x, e)
  {
    hide Segment;
    hide LeadsAt;
    if n >= 2 {
      var m: nat := n - 1;
      WayLeads(p, road, m, x, e);
      LeadsLonger(p, road, m, x, e);
      SegmentLeads(p, road, m - 1, x, e);
      assert road.ids[..n][..m] == road.ids[..m];
    }
  }

  lemma {:induction false} VisitsLead(p: Places, roads: seq<Road>, x: int, e: ImportedEdge)
    ensures Visit(x, e) in NaiveVisits(p, roads) <==> SomeRoadLeads(p, roads, x, e)
  {
    hide Leads;
    hide WayEdges;
    if roads != [] {
      var n := |roads| - 1;
      VisitsLead(p, roads[..n], x, e);
      var last := roads[n];
      WayLeads(p, last, |last.ids|, x, e);
      assert last.ids[..|last.ids|] == last.ids && last.(ids := last.ids) == last;
      assert forall r :: 0 <= r < n ==> roads[..n][r] == roads[r];
    }
  }

  lemma {:induction false} OutgoingMembers(visits: seq<Visit>, x: int, e: ImportedEdge)
    ensures e in Outgoing(visits, x) <==> Visit(x, e) in visits
  {
    if visits != [] {
      var n := |visits| - 1;
      OutgoingMembers(visits[..n], x, e);
      assert visits == visits[..n] + [visits[n]];
    }
  }

  lemma AdjacencyMembers(visits: seq<Visit>, adj: map<int, seq<ImportedEdge>>, x: int, e: ImportedEdge)
    requires IsAdjacency(visits, adj)
    ensures x in adj && e in adj[x] <==> Visit(x, e) in visits
  {
    OutgoingMembers(visits, x, e);
    NothingLost(Outgoing(visits, x), e);
  }

  /** An edge stands under a node exactly if some road leads there, once each. */
  ghost predicate StandsFor(p: Places, roads: seq<Road>, adj: map<int, seq<ImportedEdge>>) {
    && (forall x, e :: x in adj && e in adj[x] <==> SomeRoadLeads(p, roads, x, e))
    && (forall x :: x in adj ==> adj[x] != [] && Distinct(adj[x]))
  }

  lemma AdjacencyMeans(p: Places, roads: seq<Road>, adj: map<int, seq<ImportedEdge>>)
    requires IsAdjacency(NaiveVisits(p, roads), adj)
    ensures StandsFor(p, roads, adj)
  {
    hide SomeRoadLeads;
    hide NaiveVisits;
    var visits := NaiveVisits(p, roads);
    forall x, e
      ensures x in adj && e in adj[x] <==> SomeRoadLeads(p, roads, x, e)
    {
      AdjacencyMembers(visits, adj, x, e);
      VisitsLead(p, roads, x, e);
    }
    forall x | x in adj
      ensures adj[x] != [] && Distinct(adj[x])
    {
      var es := Outgoing(visits, x);
      NoneTwice(es);
      NothingLost(es, es[0]);
    }
  }

  /** The edge `e` from `y` leaves or enters the node. */
  ghost predicate EndsAt(adj: map<int, seq<ImportedEdge>>, y: int, e: ImportedEdge, x: int) {
    y in adj && e in adj[y] && (y == x || e.to == x)
  }

  /** Importing the roads, their references packed: exactly the edges the roads allow, and each node at an end of
      such an edge is kept. */
  method ImportRoads(p: Places, roads: seq<Road>) returns (adj: map<int, seq<ImportedEdge>>, kept: set<int>)
    requires forall r :: 0 <= r < |roads| ==> roads[r].ids != [] && AllInt64(roads[r].ids)
    ensures StandsFor(p, roads, adj)
    ensures forall x :: x in kept <==> exists y, e :: EndsAt(adj, y, e, x)
  {
    hide *;
    var ways: seq<Way> := [];
    for r := 0 to |roads|
      invariant |ways| == r && forall i :: 0 <= i < r ==> PackedAs(roads[i], ways[i])
    {
      var refs := PackHighwayRefs(roads[r].ids);
      var way := Way(refs, roads[r].tags, roads[r].oneway);
      IsPacked(roads[r], way);
      ways := ways + [way];
    }
    PackedVisits(p, roads, ways);
    var imported;
    imported, kept := ImportAdjacency(p, ways);
    adj := imported.value;
    AdjacencyMeans(p, roads, adj);
    forall x
      ensures x in kept <==> exists y, e :: EndsAt(adj, y, e, x)
    {
      KeptIsTouched(NaiveVisits(p, roads), adj, x);
    }
  }

  lemma IsPacked(road: Road, way: Way)
    requires road.ids != [] && AllInt64(road.ids)
    requires way == Way(EncodeAll(Deltas(road.ids, 0)), road.tags, road.oneway)
    ensures PackedAs(road, way)
  {}

  lemma KeptIsTouched(visits: seq<Visit>, adj: map<int, seq<ImportedEdge>>, x: int)
    requires IsAdjacency(visits, adj)
    ensures Touched(visits, |visits|, x) <==> exists y, e :: EndsAt(adj, y, e, x)
  {
    hide IsAdjacency;
    if Touched(visits, |visits|, x) {
      var k :| 0 <= k < |visits| && (visits[k].from == x || visits[k].edge.to == x);
      AdjacencyMembers(visits, adj, visits[k].from, visits[k].edge);
      assert visits[k] in visits && visits[k] == Visit(visits[k].from, visits[k].edge);
      assert EndsAt(adj, visits[k].from, visits[k].edge, x);
    }
    if y, e :| EndsAt(adj, y, e, x) {
      AdjacencyMembers(visits, adj, y, e);
      var k :| 0 <= k < |visits| && visits[k] == Visit(y, e);
    }
  }
}
