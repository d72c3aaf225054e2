# Verified core of the routing engine

This project models, in Dafny, the algorithms of the offline map engine that are hard to get right, and
proves what their comments promise. Distances, costs and coordinates are exact reals; float64 values that are
only stored are bit patterns (`Float64` maps a pattern to its value).

What is proved, by theme:

- **Chain-packed graph store.** Packing long two-way degree-two runs into chains is lossless; every node that
  passed the scan ends up on exactly one chain or is left out for one of two reasons; whatever is written passes
  every check made on opening, and whatever passes those checks is safe to read and has one answering edge for
  every chain edge. Exporting a written file gives back the original graph, and a route query on the file has
  the same minimum as on the original. Coordinates, bounds and the spatial index made from them survive the round
  trip too, and the index lists exactly the nodes of a cell (`ChainRuns`, `ChainPacking`, `ChainCandidates`,
  `GraphPacking`, `PackingLoop`, `GraphStore`, `GraphWriter`, `GraphReader`, `GraphAcceptance`, `ChainEntries`, `GraphRoundTrip`,
  `GraphExport`, `StoredRoutes`, `CellTable`, `IndexedGraph`, `GraphFile`).
- **Searches.** One theory of label-correcting best-first search (`SearchTheory`) for estimates that are only
  admissible, with termination, optimality and acyclic predecessor links; on top of it the search over ids
  (`BestFirst`, `NodeSearch`), the search on the packed store that walks chains without queueing their interiors
  (`IndexSearch`), and the turn-aware searches over ids and over packed states (`TurnSearch`, `TurnCharging`,
  `PackedTurns`, `IndexTurnSearch`). What their answers mean on the road is said without the functions that compute
  costs: every edge may be used, each is charged for the nearest speed within the limits, turns count by their
  kind, and no other route is charged less (`RoadCharges`, `RoadAnswers`, `TurnCounts`). The heap (`RouteHeap`), the label table (`LabelTable`) and the attribute cost cache
  (`AttributeCosts`) underneath are proved against a multiset, a finite map and the uncached cost (`RouteCosts`).
- **Landmarks.** Quantised intervals give admissible bounds for every profile and option, with and without turn
  penalties; the transposed graph, the seed, the distances and the choice of the landmarks they rest on are exact
  (`Landmarks`, `LandmarkEstimates`, `EstimateStrength`, `TurnEstimates`, `LandmarkReverse`, `LandmarkSeed`, `LandmarkDistances`,
  `LandmarkSpread`, `LandmarkBuild`).
- **Trips.** Held-Karp with prerequisites on a compressed table is exact, recovery by cost equality finds an
  optimal order, the greedy and 2-opt solvers keep feasibility and never get dearer, pricing in parallel gives
  every leg its price under any interleaving and always ends, and neither the cache nor prefetching changes what
  2-opt does (`Bitmask`, `TripOrders`, `HeldKarp`, `TripPool`, `TripCosts`, `TripLegs`, `Reversal`, `TripTours`,
  `TwoOpt`, `GreedyTrip`).
- **Import.** Varints, packed fields, dense nodes, way references, two-pass adjacency and deduplication
  (`Varints`, `PackedFields`, `DenseNodes`, `DenseTags`, `WayRefs`, `Spans`, `ImportEdges`, `Deduplicate`), and
  what they leave standing under a node, told by the roads alone (`ImportedRoads`).
- **Protocols.** Single-flight tile downloads over every interleaving (`SingleFlight`) and the compressing
  response writer over every sequence of calls (`JsonCompression`).
- **Clipping.** Segments and polylines against a window (`WaterwayClipping`).

`Common` and `Pigeonhole` hold shared definitions. Check everything with `dafny verify dfyconfig.toml`.

One promise does not hold of the code as it is. The turn-aware searches use the node id 0 for "no previous node",
so the turn after an edge that leaves a real node 0 is never charged (`core/router.go:1888-1892`). `FullPenalty`
and `FullCost` charge every turn. `TurnCharging.UnchargedTurn` is a graph where both searches answer 2 although
the only route costs 7; `TurnCharging.EveryTurnCharged` says exactly when all walks are charged in full: when
each turn after an allowed edge out of node 0 is free, which `ZeroTurnsFree` decides before the query. Then, and
so on every graph without a node 0, the searches answer the minimum of the full costs
(`TurnCharging.CheapestInFull`, `TurnCharging.AnswerInFull`).

## Model

| member | source | states |
|---|---|---|
| `ChainRuns.NextIsNew` | core/router_store_chains.go:126-135 | walking on from the end of a run of candidates never meets the run again except at its first node, which is why both walks end |
| `ChainRuns.PointsBack` | core/router_store_chains.go:83-104 | a candidate's neighbour has an edge back with the same distance and attribute |
| `ChainPacking.CountIncoming` | core/router_store_chains.go:49-59 | the counts are the true numbers of edges into every node |
| `ChainPacking.CheckReciprocal` | core/router_store_chains.go:83-104 | accepts exactly when the far node has one edge back, equal in distance and attribute, and is no huge junction |
| `ChainPacking.FindCandidates` | core/router_store_chains.go:60-106 | the flags are exactly the nodes with two reciprocated edges to two other nodes and no third edge leading in |
| `ChainCandidates.PassesOnPlainRoad` | core/router_store_chains.go:60-106 | without counting: exactly the nodes pass that have two edges of one kind to two other nodes, each of at most 64 edges and with a single edge back of equal distance and kind, while nobody else has an edge to them |
| `ChainPacking.WalkBack` | core/router_store_chains.go:111-138 | terminates at an ordinary node, or once around a ring at its start; the nodes walked form a run without repetition that never turns back |
| `ChainPacking.CollectPath` | core/router_store_chains.go:139-167 | terminates with a path between ordinary ends whose every interior's two edges, in their order, can be rebuilt from its vertices; the shared distances and the chain attribute are those of both directions |
| `GraphPacking.AddChain` | core/router_store_chains.go:179-192 | appends one chain record and its vertices and marks exactly the interiors with chain, position and reverse flag; every other node keeps its words |
| `GraphPacking.AddKeepsInv` | core/router_store_chains.go:168-193 | storing a path keeps the packing invariant: chains tile the vertex table, every assigned node is the interior its words say, chains share no interior, and stored edges plus two per interior stay the edge total |
| `GraphPacking.PackingSize` | core/router_store_chains.go:176-178 | the chain tables are never larger than the node table allows |
| `PackingLoop.UnflagInterior` | core/router_store_chains.go:168-175 | takes the interiors of a short path, and no other node, out of the candidates and keeps the packing invariant |
| `PackingLoop.PathMeetsStart` | core/router_store_chains.go:126-167 | the path collected after walking back contains the node the walk began at, or closes a ring of at least three edges there |
| `PackingLoop.PathIsWhole` | core/router_store_chains.go:109-167 | each path is a whole run: between nodes that fail the scan, or once around a ring |
| `PackingLoop.PackFrom` | core/router_store_chains.go:122-193 | one round keeps the packing invariant, accounts for every candidate it drops, and leaves the other runs whole |
| `PackingLoop.PackGraphChains` | core/router_store_chains.go:47-198 | terminates with a consistent packing; every node that passed the scan is on a chain, or inside a whole run of fewer than three interiors, or the anchor of a ring; the size error needs at least 2^30 - 1 nodes |
| `GraphStore.Flags` | core/router_store_chains.go:182-190 | position and reverse bit are read back from the flagged word |
| `GraphStore.ContinuationIsTheOnlyWayOn` | core/router_node_index.go:108-128 | every edge of a chain node entered from a neighbour is the continuation or leads back to that neighbour |
| `GraphStore.ContinuationExists` | core/router_node_index.go:108-128 | a chain node has a continuation exactly when it was entered from one of its two neighbours |
| `GraphWriter.InternClass` | core/router_store.go:349-354 | an interned class keeps its index and every earlier index keeps its class |
| `GraphWriter.InternAttributes` | core/router_store.go:355-359 | an interned attribute tuple keeps its index and every earlier index keeps its tuple |
| `GraphWriter.SameIndexSameAttributes` | core/router_store_chains.go:78-99 | two edges share an attribute index exactly when their speed, limits and class agree |
| `GraphWriter.Encode` | core/router_store.go:328-362 | all edges are encoded to records that mean them, or some edge has no target node |
| `GraphWriter.WriteNodes` | core/router_store.go:410-438 | every node record holds its id and its edge range or chain words; fails only on a degree that does not fit beside the flag |
| `GraphWriter.PackedDecodes` | core/router_store.go:122-152 | a packed node's edges are rebuilt exactly as they were, in their order |
| `GraphWriter.OrdinaryDecodes` | core/router_store.go:122-152 | an ordinary node's edges are read back exactly as they were |
| `GraphWriter.WrittenIsLossless` | core/router_store.go:294-455 | every original node and its whole ordered edge list is read back |
| `GraphReader.CheckNodes` | core/router_store.go:663-696 | accepts exactly the node tables with increasing ids, contiguous edge ranges that use up the stored edges, valid chain indices and a matching logical edge count |
| `GraphReader.CheckVertices` | core/router_store_chains.go:238-253 | accepts exactly the chains whose interiors name them and their position and whose ends are ordinary nodes |
| `GraphReader.CheckChains` | core/router_store_chains.go:229-263 | accepts exactly the chain tables that tile the vertices with valid records and as many interiors as flagged nodes |
| `GraphReader.CheckNodeEntries` | core/router_store_chains.go:271-296 | checks each explicit edge of a node into a chain and counts it; refuses only what breaks the rule of one entry per chain end |
| `GraphReader.CheckEntries` | core/router_store_chains.go:264-304 | accepts exactly when every explicit edge into a chain comes from its end with equal distance and attribute and every chain end has exactly one |
| `GraphAcceptance.OpenGraph` | core/router_store.go:610-717 | accepts exactly the stores that satisfy all structural rules |
| `GraphAcceptance.OnePlace` | core/router_store_chains.go:229-263 | in an accepted store every chain node sits at exactly one position of exactly one chain |
| `GraphAcceptance.AcceptedReadable` | core/router_store.go:79-170 | no reader of an accepted store ever follows an index out of its table, and ids are sorted |
| `ChainEntries.ChainEdgesAnswered` | core/router_store_chains.go:264-304 | in an accepted store every edge of a chain node has exactly one edge back, of equal distance and attribute |
| `ChainEntries.OnlyNeighboursLeadIn` | core/router_store_chains.go:264-304 | in an accepted store only its two neighbours have an edge to a chain node |
| `GraphRoundTrip.WrittenIsAccepted` | core/router_store.go:580-717 | whatever the writer puts down passes every check of the reader |
| `GraphRoundTrip.WriteGraph` | core/router_store.go:294-465 | what is written is accepted and lossless and had no dangling edge; a graph within the limits and without dangling edges is written |
| `GraphExport.ExportFits` | core/router_store.go:262-290 | node ranges follow one another and all degrees add up to the logical edge count |
| `GraphExport.Export` | core/router_store.go:262-290 | every node gets exactly its edges, in order, from one shared array; no node's part is overwritten by another's |
| `StoredRoutes.ExportedIsOriginal` | core/router_store.go:262-290 | exporting a written file gives back the original graph |
| `StoredRoutes.DecodedFields` | core/router_store.go:141-152 | each stored number becomes the field it is named after |
| `StoredRoutes.SameMinimum` | core/router_store.go:79-170 | walks over record indices and walks over ids have the same minimum cost |
| `StoredRoutes.RoutesSurvive` | core/router_store_chains.go:3-14 | for every query a written file has the same minimum as the original graph, and a route exactly when the original has one |
| `CellTable.CheckCells` | core/router_store.go:718-732 | accepts exactly the tables strictly ordered by key and node with every key that of its node |
| `CellTable.EveryNodeListed` | core/router_store.go:718-732 | an accepted table lists every node exactly once |
| `CellTable.CellNodesIter` | core/router_store.go:225-230 | finds the first record of the cell |
| `CellTable.CellNodeIterator.Next` | core/router_store.go:232-245 | delivers the next node of the cell, or ends where the cell ends |
| `CellTable.NodesInCell` | core/router_store.go:225-245 | draining the iterator yields exactly the nodes of the cell, once each, in increasing order |
| `IndexedGraph.SortedPasses` | core/router_store.go:462-478 | a table of all nodes sorted by key and node passes the reader's check, however it was sorted |
| `IndexedGraph.OpenIndexedGraph` | core/router_store.go:610-732 | accepts exactly the stores that satisfy all structural rules together with a cell table that fits them |
| `IndexedGraph.WriteIndexedGraph` | core/router_store.go:294-482 | the written store and its sorted cell table are accepted together and read back as the same graph |
| `GraphFile.KeySeparatesCells` | core/router.go:2175-2183 | inside valid bounds two places share a key exactly when they share a cell of the grid |
| `GraphFile.CellIsSquare` | core/router.go:2175-2179 | a place lies in a cell exactly if its coordinates lie in that square of a hundredth of a degree |
| `GraphFile.NearMeansNeighbour` | core/router.go:2226-2246 | places in one cell are less than a hundredth of a degree apart, and places that near lie in the same or in neighbouring cells |
| `GraphFile.SquareIsWindow` | core/router.go:2241-2256 | the cells up to some steps around one are exactly a window of coordinates |
| `GraphFile.BoundsOf` | core/router_store.go:311-327 | the known bounds, or the least box around all nodes, also for a single node or a straight line |
| `GraphFile.TightIsValid` | core/router_store.go:325-327 | the least box is valid exactly when every node lies on the globe |
| `GraphFile.WriteGraphFile` | core/router_store.go:294-482 | the written file opens, with the same graph and the same coordinates; within the limits it is written if and only if no edge dangles and the places fit the bounds |
| `GraphFile.OpenGraphFile` | core/router_store.go:657-732 | accepts exactly the files with valid bounds that contain every node, a sound store and cells made from the coordinates |
| `GraphFile.CoordOf` | core/router_store.go:56-66 | the coordinate stored for an id, none exactly for an id without a record |
| `GraphFile.NodesNear` | core/router_store.go:225-245 | reading the cell of a place yields exactly the nodes that lie in the same cell, all less than a hundredth of a degree away |
| `GraphFile.ScanCell` | core/router_store.go:225-245 | the nodes of one cell, by its position in the grid |
| `GraphFile.ScanRing` | core/router.go:2226-2240 | one ring of the nearest-node scan: exactly the nodes in cells that many steps away |
| `GraphFile.NodesAround` | core/router.go:2226-2256 | the rings up to a radius find every node inside the searched window and no other, which is what the scan's stopping rule relies on |
| `RouteHeap.RootIsLeast` | core/router_node.go:140-164 | the root of an ordered heap has the least priority |
| `RouteHeap.SiftUpStep` | core/router_node.go:126-138 | moving the hole up keeps the heap ordered except at the hole |
| `RouteHeap.HoleSiftsDown` | core/router_node.go:140-164 | moving the smaller child into the hole keeps order below and the multiset |
| `RouteHeap.ValueHeap.Push` | core/router_node.go:126-138 | adds exactly the candidate and keeps the heap ordered |
| `RouteHeap.ValueHeap.Pop` | core/router_heap.go:20-45 | removes exactly one candidate of least priority and keeps the heap ordered |
| `Probing.ProbeReaches` | core/router_index_labels.go:36-48 | triangular probing of a power-of-two table visits every slot |
| `LabelTable.EmptySlotExists` | core/router_index_labels.go:36-48 | while fewer labels than slots are stored some slot is empty, so probing ends |
| `LabelTable.StoreUpdates` | core/router_index_labels.go:61-86 | writing the slot found for an id updates the represented map at that id only |
| `LabelTable.Slot` | core/router_index_labels.go:36-48 | ends at the entry of the id if it has one, otherwise at the empty slot where it belongs |
| `LabelTable.Grown` | core/router_index_labels.go:50-58 | rehashing into the doubled table represents the same map |
| `LabelTable.IndexedRouteLabels.Grow` | core/router_index_labels.go:50-58 | keeps all labels and makes room below the load limit of seven eighths |
| `LabelTable.IndexedRouteLabels.Relax` | core/router_index_labels.go:61-86 | updates the map exactly when the id is absent or the distance strictly better |
| `LabelTable.IndexedRouteLabels.Distance` | core/router_index_labels.go:29-34 | reads the label of an id |
| `SearchTheory.Relax` | core/router_node.go:66-77 | relaxing an arc keeps the search invariant: labels are costs of real walks, predecessors come strictly earlier, every label is queued or fully relaxed |
| `SearchTheory.RelaxArc` | core/router_node.go:66-77 | an improving relaxation uses up one of finitely many (state, cost) pairs, so reopening ends |
| `SearchTheory.PoppedGoalIsMinimum` | core/router_node.go:48-65 | a goal popped with its label is cheapest, for any admissible estimate |
| `SearchTheory.ExhaustedMeansNoPath` | core/router_node.go:42-79 | an empty queue means no walk reaches a goal |
| `SearchTheory.WalkRelaxes` | core/router_node_index.go:86-95 | labelling a walked interior without queueing it keeps the invariant while its one open arc is pending |
| `SearchTheory.LinkExtendsTail` | core/router_node.go:56-62 | following a predecessor link moves strictly earlier, also along zero-cost edges |
| `SearchTheory.TailIsPath` | core/router_node.go:52-65 | the rebuilt path is a solving walk of exactly the returned cost |
| `BestFirst.Expand` | core/router_node.go:66-77 | expanding a popped state keeps the invariant and leaves nothing pending |
| `BestFirst.PathBack` | core/router.go:1725-1738 | following predecessors yields a path of exactly the minimum cost |
| `BestFirst.Search` | core/router.go:1642-1723 | returns the minimum and a path of that cost, or exhausts exactly when there is none; always terminates |
| `NodeSearch.NodeSearch` | core/router_node.go:16-80 | answers the error the source reports first, else the minimum over all allowed walks |
| `RouteCosts.EffectiveSpeed` | core/router.go:2040-2055 | never slower than 3, and never faster than free flow or the cap; that it is the nearest such speed to the wanted one is `RoadCharges.EffectiveSpeedIsDriven` |
| `RouteCosts.WithDefaults` | core/router.go:223-259 | the speed cap is at least 5 and objective and engine are set; a valid cap given by the caller is kept |
| `RouteCosts.BaseCostNonNegative` | core/router.go:1840-1864 | no option makes an edge of non-negative length cost less than nothing |
| `RoadCharges.EffectiveSpeedIsDriven` | core/router.go:2040-2055 | the speed is the one nearest to the posted speed (50 where none is posted), scaled by the profile, among those not below 3 and not above the cap |
| `RoadCharges.OneSpeed` | core/router.go:2040-2055 | and no other speed is |
| `RoadCharges.CostIsCharge` | core/router.go:1840-1864 | an edge costs exactly: its length over the driven speed for duration, over 1.3 times the posted speed in an emergency, its kilometres weighted by the squared speed for economy, else its length |
| `RoadCharges.PostedSpeedCounts` | core/router.go:2057-2059 | cost times posted speed is the length, within the limits; above the cap the cap counts, and a slowing profile by its factor |
| `RoadCharges.MayUseIsAllowed` | core/router.go:2061-2070 | an edge may be used exactly if neither of its limits is below the vehicle and its class is one of the profile's |
| `RoadCharges.ProfileCounts` | core/router.go:223-243 | objective, speed cap and turn weights left open are those of the profile |
| `RoadCharges.ExplicitCounts` | core/router.go:223-259 | explicit settings stay, and so does everything a profile does not set |
| `RoadCharges.NothingGiven` | core/router.go:245-259 | without a profile: distance, A* and a cap of 130 |
| `AttributeCosts.CompactRouteCosts.EdgeCost` | core/router_attribute_cost.go:30-69 | whatever the cache holds, cost and permission are those of the uncached evaluation |
| `IndexSearch.ContinuationHalfDone` | core/router_node_index.go:86-95 | entered from a neighbour, a chain node has nothing left to relax but its continuation |
| `IndexSearch.RelaxEdge` | core/router_node_index.go:70-102 | relaxing an edge and walking the chain it enters, at most 32 steps, leaves nothing pending but the expanded node |
| `IndexSearch.NodeIndex` | core/router_store.go:79-87 | finds the record of an id or shows there is none |
| `IndexSearch.IndexNodeSearch` | core/router_node_index.go:14-106 | with or without eager chain walking, for every admissible estimate, answers the minimum over all allowed walks of the stored graph, or the right error |
| `RoadAnswers.NodeAnswerMeans` | core/router_node.go:16-80 | the answer is a route of usable edges, charged least of all such routes; none if there is none |
| `RoadAnswers.IndexAnswerMeans` | core/router_node_index.go:14-106 | the same for the search on the store, on the road graph the store stands for |
| `RoadAnswers.FasterRoad` | core/router.go:2040-2059 | of two equally long roads with different posted speeds below the cap the faster one is answered, at its length over its speed |
| `TurnSearch.WalkGivesTrail` | core/router.go:1884-1975 | every walk is a trail of turn states at edge costs plus the penalty of each passed node |
| `TurnSearch.TrailGivesWalk` | core/router.go:1884-1975 | every trail of turn states is a walk of that cost |
| `TurnSearch.Astar` | core/router.go:1642-1738 | returns the minimum over all walks of edge costs plus the turn penalties the code charges, and a walk of that cost |
| `TurnCounts.CostByTurns` | core/router.go:1888-1966 | a walk costs its edges, plus each turn weight times the number of its turns of that kind, plus the crossing charge times the junctions it passes; a forbidden left turn counts a million; steps from a node 0 count nothing |
| `TurnCounts.TurnAnswerMeans` | core/router.go:1642-1738 | the answer of either turn-aware search is the least such sum over all usable routes, and a route of that sum |
| `TurnCounts.LeftTurnIsDear` | core/router.go:1956-1960 | where left turns are forbidden a walk with one costs at least a million |
| `TurnCounts.NoLeftTurnTaken` | core/router.go:1956-1982 | where left turns are forbidden and some route without them costs less than a million, the answered route makes none |
| `TurnCounts.NothingAsked` | core/router_node.go:11-14 | without turn weights and crossing charges the least cost with turns is the least cost without |
| `TurnSearch.LowerBoundServesNodeSearch` | core/router_node.go:36-41 | a lower bound on turn-free walks is admissible for the node search too |
| `TurnSearch.NodeSearchAgrees` | core/router_node.go:11-14 | when no turn option is set both searches look for the same minimum |
| `TurnCharging.EveryTurnCharged` | core/router.go:1888-1892 | every walk is charged for all of its turns if and only if each turn after an allowed edge out of node 0 is free |
| `TurnCharging.NoNodeZero` | core/router.go:1888-1892 | a graph without a node 0 satisfies the condition |
| `TurnCharging.ChargedInFull` | core/router.go:1888-1975 | under the condition each walk, at every length, costs what charging all turns would cost |
| `TurnCharging.CheapestInFull` | core/router.go:1888-1975 | under the condition a cheapest walk as charged is a cheapest walk with every turn charged |
| `TurnCharging.AnswerInFull` | core/router.go:1642-1738 | under the condition an answer of either turn-aware search is the least full cost of all walks |
| `TurnCharging.UnchargedTurn` | core/router.go:1888-1892 | without it: on a road that starts at node 0 the answer is 2 and the least full cost is 7 |
| `PackedTurns.Pack` | core/router_turn_index.go:20-24 | previous and current index are read back from the packed state |
| `PackedTurns.PenaltyAgrees` | core/router_turn_index.go:80-111 | the penalty computed from indices is the one computed from ids, the sentinel included |
| `PackedTurns.MinimumUnpacks` | core/router_turn_index.go:43-120 | walks over packed states and walks over (previous, current) ids have the same minimum |
| `PackedTurns.NoSolutionUnpacks` | core/router_turn_index.go:43-120 | no walk over packed states means no walk over ids |
| `IndexTurnSearch.Expand` | core/router_turn_index.go:92-118 | relaxes every allowed edge of the popped state and leaves nothing pending |
| `IndexTurnSearch.Search` | core/router_turn_index.go:43-120 | terminates with the minimum of the packed problem and a path of that cost, or shows there is none |
| `IndexTurnSearch.IndexTurnSearch` | core/router_turn_index.go:25-121 | meets the contract of the search over ids on the graph the store stands for |
| `Landmarks.CodeBrackets` | core/router_landmarks.go:164-178 | a finite distance never gets the infinity code and lies within one step above its code |
| `Landmarks.ChooseStep` | core/router_landmarks.go:160-166 | terminates with the least doubling that keeps every finite code below infinity |
| `Landmarks.Quantise` | core/router_landmarks.go:154-179 | codes are infinite exactly for infinite distances and otherwise bracket the distance |
| `Landmarks.FromBoundHolds` | core/router_landmarks.go:476-487 | the bound from interval codes of distances from a landmark never exceeds a walk |
| `Landmarks.ToBoundHolds` | core/router_landmarks.go:476-487 | the bound from interval codes of distances to a landmark never exceeds a walk |
| `LandmarkEstimates.EstimateUndercutsWalk` | core/router_landmarks.go:440-508 | the estimate never exceeds what any trail to the target is charged, as long as no step is charged less than its edge, for every profile, speed cap and vehicle limit |
| `LandmarkEstimates.EstimateIsAdmissible` | core/router_landmarks.go:440-508 | the landmark estimate is admissible for the search on the store |
| `LandmarkEstimates.EstimateIndex` | core/router_landmarks.go:463-508 | skipping the coordinate estimate when it cannot win does not change the result |
| `EstimateStrength.MetricMeans` | core/router_landmarks.go:324-373 | the metric graph has exactly the edges of the store, whatever a vehicle may use, at their lengths or times |
| `EstimateStrength.TimedMetricMeans` | core/router_landmarks.go:324-373 | the time of an edge is its length over its posted speed, at least 3, or 50 |
| `EstimateStrength.FromBoundIsClose` | core/router_landmarks.go:476-487 | the bound from a landmark loses at most two quantisation steps against exact distances |
| `EstimateStrength.ToBoundIsClose` | core/router_landmarks.go:476-487 | so does the bound to a landmark |
| `EstimateStrength.LandmarksReachEstimate` | core/router_landmarks.go:440-508 | what any landmark shows about the target, less two steps, reaches the estimate of every query that may use landmarks |
| `EstimateStrength.CoordinateReachesEstimate` | core/router_landmarks.go:488-508 | so does the great circle, with and without landmarks |
| `TurnEstimates.TurnTrailIsCharged` | core/router_turn_index.go:80-118 | every trail of packed turn states, penalties included, is charged at least its edges for every non-negative turn weight |
| `TurnEstimates.EstimateUndercutsTurns` | core/router_landmarks.go:440-508 | the landmark estimate never exceeds the cost of a turn-aware walk to the target |
| `TurnEstimates.EstimateServesTurns` | core/router_landmarks.go:440-508 | looked up by node id, the estimate is a lower bound on the exported graph: the hypothesis of both turn-aware searches |
| `TurnEstimates.RouteTurnsWithLandmarks` | core/router_turn_index.go:25-121 | a turn-aware query on the store answers the minimum over all walks with or without landmarks |
| `LandmarkReverse.CountRows` | core/router_landmarks.go:261-272 | counts the edges into every node |
| `LandmarkReverse.PrefixSums` | core/router_landmarks.go:300-302 | turns counts into the starts of disjoint rows |
| `LandmarkReverse.BuildReverse` | core/router_landmarks.go:300-321 | row v of the transposed graph is exactly the edges into v, turned round, in order |
| `LandmarkSeed.Root` | core/router_landmarks.go:255-260 | terminates at the root of the node's component |
| `LandmarkSeed.MergeEdge` | core/router_landmarks.go:273-280 | union by size joins exactly the components of the two ends |
| `LandmarkSeed.FindSeed` | core/router_landmarks.go:250-299 | the seed lies in a largest weakly connected component and has the highest degree there |
| `LandmarkDistances.LabelIsDistance` | core/router_landmarks.go:324-373 | when the queue is empty labels are exact distances and unlabelled nodes are unreachable |
| `LandmarkDistances.Distances` | core/router_landmarks.go:324-373 | exact distances from the seed, infinite exactly where no walk leads |
| `LandmarkBuild.OneLandmark` | core/router_landmarks.go:135-180 | both tables of a landmark hold coded exact distances from it and to it |
| `LandmarkSpread.NextSeed` | core/router_landmarks.go:181-193 | the next seed is a farthest one from all landmarks so far among the eligible nodes not yet taken; the old one if none is left |
| `LandmarkSpread.Component` | core/router_landmarks.go:147-152 | the marks single out the nodes that the first landmark reaches and that reach it |
| `LandmarkSpread.FarthestChosen` | core/router_landmarks.go:181-193 | the second landmark of a metric is, in exact distances, a farthest one of the first landmark's component |
| `LandmarkBuild.CheckLengths` | core/router_landmarks.go:267-271 | fails exactly when some stored length is negative |
| `LandmarkBuild.WriteLandmarks` | core/router_landmarks.go:96-194 | four landmarks with sound tables, both metrics from the same seed and the second of each as far from it as any node of its component, exactly when the graph is nonempty, within the limits of the index and without negative lengths |
| `LandmarkBuild.RouteWithLandmarks` | core/router_node_index.go:14-106 | a query answers the minimum over all allowed walks with or without landmarks and chain walking |
| `TripOrders.FeasibleMeansKept` | cmd/tsp.go:90-113 | the mask test along an order means exactly that every stop comes after its prerequisites, without repetition |
| `TripOrders.StuckMeansNoOrder` | cmd/tsp.go:97-111 | when no stop is eligible no order exists at all, whatever was chosen before |
| `TripOrders.ValidateTsp` | cmd/tsp.go:90-113 | accepts exactly the requests of admissible size for which an order exists |
| `HeldKarp.StateIndexInjective` | cmd/tsp.go:186-197 | no two (mask, last) states share an entry |
| `HeldKarp.StateIndexOnto` | cmd/tsp.go:186-197 | every entry belongs to a state |
| `HeldKarp.Offsets` | cmd/tsp.go:188-193 | offsets are the numbers of states of all smaller masks |
| `HeldKarp.Eligible` | cmd/tsp.go:228-241 | eligibility depends on the mask only and gives the right target entries |
| `HeldKarp.RelaxFrom` | cmd/tsp.go:249-256 | relaxes every eligible step out of one entry |
| `HeldKarp.ExpandMask` | cmd/tsp.go:217-257 | when smaller masks are final, expanding a mask makes the next one final too |
| `HeldKarp.FillTable` | cmd/tsp.go:198-258 | terminates with every mask final |
| `HeldKarp.EntryExact` | cmd/tsp.go:198-258 | a final entry is the least cost of the feasible orders of its mask and last stop, or the sentinel if there is none |
| `HeldKarp.BestLast` | cmd/tsp.go:260-271 | finds the least total over all last stops |
| `HeldKarp.PredecessorExists` | cmd/tsp.go:285-296 | some predecessor's entry and leg add up to the entry exactly |
| `HeldKarp.Recover` | cmd/tsp.go:276-302 | recovery by equality of costs yields a feasible permutation of the optimal total |
| `HeldKarp.TspExact` | cmd/tsp.go:115-303 | returns a cheapest feasible order; fails exactly when refused or when every order contains a missing leg |
| `TripPool.StepKeepsInv` | cmd/tsp.go:18-88 | every atomic step keeps: jobs are handed out once, answers and cache entries are right unless the request was cancelled |
| `TripPool.AllPriced` | cmd/tsp.go:50-88 | when all workers stopped and nothing was cancelled every job has its own price at its own place |
| `TripPool.ResultsAreFinal` | cmd/tsp.go:69-87 | a delivered result never changes |
| `TripPool.WorkEnds` | cmd/tsp.go:69-87 | every step of a worker uses up part of a finite measure, so the pool always comes to rest |
| `TripPool.ParallelMap` | cmd/tsp.go:50-88 | under every schedule and whatever right answers are cached: the prices in job order, or nothing exactly after a cancellation, and the cache left behind is right |
| `TripCosts.Request.Cost` | cmd/tsp.go:18-43 | from the cache or by a search, the price of the leg; an excuse only for a cancelled request |
| `TripCosts.Request.All` | cmd/tsp.go:50-88 | the prices of all legs in order, nothing exactly for a cancelled request |
| `TripLegs.AddLeg` | cmd/tsp.go:139-148 | a leg asked for again gets the place of its first request |
| `TripLegs.LegsDiffer` | cmd/tsp.go:135-157 | no leg is priced twice |
| `TripLegs.DeliveredPrices` | cmd/tsp.go:158-167 | what the workers deliver are the prices of the different legs, a sentinel for those without a route |
| `TripLegs.SpreadPrices` | cmd/tsp.go:168-182 | reading the prices back in the order of the requests fills the table of direct prices, whose totals are tours (`TripLegs.TotalIsTour`) |
| `TripLegs.PriceLegs` | cmd/tsp.go:127-182 | whatever the cache holds and however the workers take turns, the table that pricing every request directly would give; nothing exactly for a cancelled request |
| `TripLegs.TspExact` | cmd/tsp.go:115-303 | answers an order whose tour nobody undercuts among all orders that keep to the prerequisites; without a cancellation it fails exactly when refused or when every tour misses a leg or reaches the sentinel |
| `TripLegs.TotalIsTour` | cmd/tsp.go:168-182 | the total of an order by the leg table is the cost of its tour leg by leg, and reaches the sentinel if a leg is missing |
| `TripLegs.OptimumIsBest` | cmd/tsp.go:260-302 | an optimum of the table has the cheapest tour, and it can be travelled |
| `TripLegs.UnreachableMeansNoTour` | cmd/tsp.go:260-275 | no order stays below the sentinel by the table exactly if no tour does |
| `Reversal.ReverseBetween` | cmd/tsp.go:299-301 | swapping from both ends inwards reverses the stretch |
| `TripTours.ReversedTour` | cmd/tsp.go:509-521 | a reversal changes the tour cost by exactly the two segments, also with asymmetric and missing legs |
| `TripTours.SegmentDecides` | cmd/tsp.go:509-520 | a move whose segment does not get cheaper cannot make the tour cheaper |
| `TripTours.ReversalFeasible` | cmd/tsp.go:503-508 | reversing a stretch without internal prerequisites keeps all prerequisites |
| `TripTours.FreeExactly` | cmd/tsp.go:503-508 | a stretch of a feasible order may be reversed exactly if no stop in it needs another one of it |
| `TwoOpt.StretchDecided` | cmd/tsp.go:498-508 | the mask test decides whether a longer stretch may be reversed, and once it fails all longer ones fail |
| `TwoOpt.TourSearch.Reverse` | cmd/tsp.go:428-435 | order and nodes are reversed together, in place |
| `TwoOpt.TourSearch.TryMove` | cmd/tsp.go:509-531 | a move is kept exactly if the tour gets strictly cheaper, otherwise undone completely; a cancelled request keeps none |
| `TwoOpt.TourSearch.ImproveRow` | cmd/tsp.go:498-532 | makes of the tour what the row does by definition; without improvement it leaves the tour alone, and no permitted reversal from its start would help |
| `TwoOpt.TourSearch.ImprovePass` | cmd/tsp.go:495-537 | makes of the tour what the rows do by definition; without improvement the tour is locally optimal |
| `TwoOpt.Tsp2opt` | cmd/tsp.go:394-539 | in place: feasible permutation with matching nodes, never dearer even if cancelled; otherwise a function of the tour and the prices alone, whatever is cached, prefetched or scheduled, and locally optimal unless the passes run out |
| `TwoOpt.NoReversalHelps` | cmd/tsp.go:493-537 | a locally optimal tour gets cheaper by no reversal that leaves a permitted order |
| `TwoOpt.GainMove` | cmd/tsp.go:509-531 | the segment test and the whole tour decide a move as the definition does: it is taken if the reversed tour is strictly cheaper |
| `TwoOpt.NoGainMove` | cmd/tsp.go:509-531 | a move that cannot improve leaves the tour as it is |
| `TwoOpt.TourSearch.LastFree` | cmd/tsp.go:451-463 | the longest stretch from a stop that may be reversed |
| `TwoOpt.TourSearch.WarmRow` | cmd/tsp.go:438-491 | asks ahead for every leg that the moves of the row will look at; tour and costs stay as they are |
| `TwoOpt.OneSearch` | cmd/tsp.go:411-427 | the tour and the cost of an order are unique |
| `TwoOpt.PrefetchedAlike` | cmd/tsp.go:387-393 | with and without prefetching, each with its own cache and workers, the same order comes out |
| `GreedyTrip.FindEligible` | cmd/tsp.go:324-335 | the eligible stops, of those at one node only the first |
| `GreedyTrip.Nearest` | cmd/tsp.go:324-356 | the cheapest eligible stop by the prices of the pool, first among equals, or none is reachable |
| `GreedyTrip.TspGreedy` | cmd/tsp.go:305-371 | the 2-opt improvement of the nearest-stop order: feasible, no dearer, and either locally optimal or strictly cheaper; fails exactly when cancelled, refused or when the nearest-stop traveller gets stuck |
| `SingleFlight.TileCache.Enter` | cmd/tile_proxy.go:53-71 | a memory hit answers at once, otherwise the request joins the registered flight or starts one |
| `SingleFlight.TileCache.LeaveTileFlight` | cmd/tile_proxy.go:85-97 | the last waiter cancels the flight and deregisters it only if it is still the registered one |
| `SingleFlight.TileCache.FinishFill` | cmd/tile_proxy.go:99-109 | publishes the result and deregisters the flight only if it is still the registered one |
| `SingleFlight.StepKeepsInv` | cmd/tile_proxy.go:53-109 | every step of every interleaving keeps: a registered flight is unfinished, uncancelled, keyed right and counts exactly its waiters |
| `SingleFlight.OneDownload` | cmd/tile_proxy.go:53-83 | at most one uncancelled unfinished download per key in every reachable state |
| `SingleFlight.CancelledWhenAlone` | cmd/tile_proxy.go:85-97 | a running download is cancelled exactly when nobody waits for it |
| `SingleFlight.NobodyForgotten` | cmd/tile_proxy.go:53-109 | a waiting request waits for the registered flight of its key or for a finished one |
| `SingleFlight.AnswersAreRight` | cmd/tile_proxy.go:53-83 | a request answered by a flight gets the published result of a flight of its key, one answered from memory gets what a flight of its key fetched; a failed one was cancelled itself |
| `SingleFlight.StepKeepsMemory` | cmd/tile_proxy.go:99-170 | every step keeps: each remembered tile was fetched by a flight of its key, and a finished flight publishes what it fetched |
| `SingleFlight.OldWaitersLeaveNewer` | cmd/tile_proxy.go:85-97 | leaving an older flight never touches a newer one of the key |
| `SingleFlight.AbandonedMeansFresh` | cmd/tile_proxy.go:53-97 | after the last waiter has gone the next request starts a fresh download |
| `SingleFlight.PublishedIsFinal` | cmd/tile_proxy.go:99-109 | published results and given answers never change |
| `Varints.ReadFits` | core/extract.go:1443-1464 | a value read fits 64 bits and lies within the buffer |
| `Varints.RoundTrip` | core/extract.go:1443-1464 | a written 64-bit number is read back anywhere in a buffer (Protocol Buffers Encoding, "Base 128 Varints") |
| `Varints.EncodedGroups` | core/router.go:2291-2304 | a number is written in groups of seven bits, the lowest first, all but the last byte marked (Protocol Buffers Encoding, "Base 128 Varints") |
| `Varints.ZigzagRoundTrip` | core/extract.go:1466-1468 | zigzag is a bijection between signed and unsigned 64-bit numbers (Protocol Buffers Encoding, "Signed Integers") |
| `Varints.ZigzagMeans` | core/extract.go:1466-1468 | 0, -1, 1, -2, 2 and so on are numbered 0, 1, 2, 3, 4 |
| `Varints.WrapMeans` | core/extract.go:1372-1387 | 64-bit arithmetic keeps a number up to multiples of 2^64 |
| `Varints.DeltaRestores` | core/router.go:2291-2304 | a wrapped difference added with wrap-around leads back to the number, for all 64-bit numbers |
| `PackedFields.PackedValueCount` | core/extract.go:1347-1370 | succeeds with n exactly when a reader meets n values and no error, and fails with the reader's error |
| `PackedFields.PackedCursor.Read` | core/extract.go:1329-1345 | yields the next value of the segments, the end, or the error |
| `DenseNodes.DecodeWayRefs` | core/extract.go:1372-1387 | the running totals of the zigzag deltas; refuses exactly the fields that do not decode |
| `DenseNodes.ReadCounted` | core/extract.go:780-818 | reading a field that was counted before never fails |
| `DenseNodes.ReplayTags` | core/extract.go:867-883 | a cursor copied before the scan replays the scanned pairs |
| `DenseNodes.ReadTags` | core/extract.go:829-883 | scans one node's list once and replays it if a key is asked for |
| `DenseNodes.DenseTotals` | core/extract.go:804-819 | the ids and coordinates handed out are the running totals of the three fields |
| `DenseNodes.ProcessDenseNodes` | core/extract.go:740-897 | nothing is handed out unless all four fields decode and lengths agree; then one node per triple up to the first bad tag list |
| `DenseTags.ListRead` | core/extract.go:829-866 | a list of tags with its closing zero is read back, and what follows is left |
| `DenseTags.MapHasLast` | core/extract.go:867-883 | the tags handed out are every kept key with the value given last, and nothing else |
| `DenseTags.DenseArrives` | core/extract.go:740-897 | every node put into the message is handed out in order with its id and coordinates, and with tags exactly if they are asked for |
| `DenseTags.DecodeMessage` | core/extract.go:740-897 | the same for the whole message, however its fields are cut into segments |
| `DenseTags.Int32Means` | core/extract.go:836-845 | table indices are the low 32 bits in two's complement |
| `WayRefs.PackHighwayRefs` | core/router.go:2291-2304 | writes the deltas of the ids |
| `WayRefs.PackedRefsRoundTrip` | core/router.go:2291-2304 | packed references round-trip for every list of 64-bit ids |
| `WayRefs.VisitWay` | core/router.go:590-635 | visits exactly the edges of the decoded way, segment by segment; a broken or empty list is an error |
| `ImportEdges.PackedVisits` | core/router.go:590-635 | visiting packed ways visits exactly the edges of the original id lists |
| `ImportEdges.CountDegrees` | core/router.go:494-506 | counts the outgoing edges of every node and keeps one-way sinks |
| `ImportEdges.SizesAddUp` | core/router.go:507-517 | the degrees of the nodes add up to the number of edges |
| `ImportEdges.Allocate` | core/router.go:507-517 | spans are disjoint and consecutive in whatever order the map yields the nodes |
| `ImportEdges.FillEdges` | core/router.go:518-531 | appending never leaves a node's span, and all spans end exactly full |
| `ImportEdges.DeduplicateImportedEdges` | core/router_dedup.go:25-91 | each node keeps the first appearance of every distinct edge |
| `ImportEdges.ImportAdjacency` | core/router.go:492-533 | the adjacency equals the one got by listing every node's edges in order and dropping repetitions |
| `ImportedRoads.WayLeads` | core/router.go:590-635 | the edges of a way are those between consecutive placed nodes, forwards unless it is one-way backwards and backwards unless it is one-way forwards |
| `ImportedRoads.AdjacencyMeans` | core/router.go:492-533 | an edge stands under a node exactly if some road leads along it, once |
| `ImportedRoads.ImportRoads` | core/router.go:492-533 | importing packed roads: exactly the edges the roads allow, and exactly the nodes at an end of one are kept |
| `Deduplicate.NothingLost` | core/router_dedup.go:25-91 | an edge is kept exactly if it occurs |
| `Deduplicate.NoneTwice` | core/router_dedup.go:25-91 | no edge is kept twice |
| `Deduplicate.OrderKept` | core/router_dedup.go:25-91 | what is kept stands in the order of first occurrence |
| `Deduplicate.DeduplicateEdges` | core/router_dedup.go:41-83 | both strategies compact in place to the first occurrences and clear the rest |
| `JsonCompression.ParseResponseEncodings` | cmd/http_compression.go:50-91 | qualities by coding with `*` as fallback; identity is forbidden exactly as section 12.5.3 of RFC 9110 says |
| `JsonCompression.JsonCompressionWriter.constructor` | cmd/http_compression.go:22-39 | starts with nothing written, disabled for HEAD, range and clients that do not prefer gzip |
| `JsonCompression.JsonCompressionWriter.Commit` | cmd/http_compression.go:177-213 | sends one header and the held-back bytes in the chosen coding |
| `JsonCompression.JsonCompressionWriter.WriteHeader` | cmd/http_compression.go:120-150 | only the first final status decides |
| `JsonCompression.JsonCompressionWriter.Write` | cmd/http_compression.go:222-243 | adds the data to the payload and decides status 200 if none was given |
| `JsonCompression.JsonCompressionWriter.ReadFrom` | cmd/http_compression.go:247-261 | adds all chunks of the reader in order |
| `JsonCompression.JsonCompressionWriter.FlushError` | cmd/http_compression.go:266-281 | commits; payload and decision stay |
| `JsonCompression.JsonCompressionWriter.Finish` | cmd/http_compression.go:285-295 | commits; without an early flush a compressible body is coded exactly from the minimum size on |
| `JsonCompression.JsonCompressionWriter.Outcome` | cmd/http_compression.go:177-213 | a committed response is refused, coded or plain as a whole and its body is exactly what was written |
| `JsonCompression.Respond` | cmd/http_compression.go:22-39 | for every call sequence: the informational responses in order, then one header, settled by the first final status or write; coded exactly when client, method, status and header fields allow it and the size or the client asks for it; the body is the concatenation of all writes or empty if refused |
| `WaterwayClipping.ClipSegment` | cmd/tinytiles_waterways.go:660-686 | returns precisely the shares of the segment that lie in the window |
| `WaterwayClipping.ShareMeans` | cmd/tinytiles_waterways.go:660-686 | in coordinates: exactly the shares returned lie within the four sides of the window |
| `WaterwayClipping.OneShare` | cmd/tinytiles_waterways.go:660-686 | that part is unique |
| `WaterwayClipping.PartsMeet` | cmd/tinytiles_waterways.go:637-652 | where the line does not leave the window between two consecutive visible parts they share their end point, also across repeated vertices |
| `WaterwayClipping.StandsStill` | cmd/tinytiles_waterways.go:630-652 | between two consecutive parts that are not cut apart the line stands still |
| `WaterwayClipping.StepsAreParts` | cmd/tinytiles_waterways.go:625-655 | every step of a fragment is one visible part and every visible part is one step |
| `WaterwayClipping.ClipWaterway` | cmd/tinytiles_waterways.go:625-655 | the fragments are exactly the visible parts of positive length, joined unless the line leaves the window in between; their consecutive points are exactly the ends of the visible parts, in order; all points lie within the four sides of the window |
| `GraphStore.CompactEdges` | core/router_store.go:122-170 | as many edges as the degree says, every target and attribute in range |
| `GraphStore.ContinuationIsAnEdge` | core/router_node_index.go:108-128 | the continuation of a chain node is one of its edges |
| `GraphWriter.WriteEdges` | core/router_store.go:439-455 | the edge table is the concatenation of the ordinary nodes' edges |
| `GraphAcceptance.CheckEdges` | core/router_store.go:697-706 | accepts exactly the edge tables whose targets and attributes exist |
| `GraphAcceptance.CheckAttributes` | core/router_store.go:712-717 | accepts exactly the attribute tables whose classes exist |
| `ChainPacking.FirstEdgeTo` | core/router_store_chains.go:150-157 | finds an edge to the candidate next to the end point |
| `IndexSearch.Expand` | core/router_node_index.go:69-103 | expanding a popped node, each edge with the chain behind it, keeps the invariant and leaves nothing pending |
| `IndexSearch.PathBack` | core/router_node_index.go:55-68 | the ids of a path of exactly the minimum cost, walked interiors included |
| `IndexSearch.Search` | core/router_node_index.go:41-105 | terminates with the minimum and a path of that cost, or shows there is none |
| `IndexTurnSearch.PathBack` | core/router_turn_index.go:66-79 | the ids of a path of exactly the minimum cost |
| `IndexTurnSearch.ZeroNode` | core/router_turn_index.go:43-45 | the record of id 0, or a word no record has |
| `LandmarkSeed.LargestRoot` | core/router_landmarks.go:283-288 | the first root of a largest component |
| `LandmarkSeed.HighestDegree` | core/router_landmarks.go:289-299 | a node of highest degree in that component |
| `HeldKarp.FindPredecessor` | cmd/tsp.go:285-296 | the lowest stop whose entry and leg add up to the entry |
| `TripLegs.CollectLegs` | cmd/tsp.go:134-157 | every request keeps the place of its leg |
| `TripLegs.FillRow` | cmd/tsp.go:174-181 | one row of the table between stops, read back in the order of the requests |
| `TwoOpt.TourNodes` | cmd/tsp.go:411-416 | the nodes of the order between the two ends |
| `TwoOpt.TourCost` | cmd/tsp.go:418-427 | the cost of the whole tour, also when it stops at a missing leg |
| `DenseNodes.ScanTags` | core/extract.go:829-866 | consumes one node's list, counts its pairs and notices whether they are asked for; fails exactly on a list cut short |
| `DenseNodes.EmitNodes` | core/extract.go:804-895 | replays the validated fields in step |
| `ImportEdges.VisitHighwayEdges` | core/router.go:590-635 | visits the edges of all ways in order, or fails when a way does not decode |
| `Varints.ReadUvarint` | core/extract.go:1443-1464 | reads the varint at a position: value and next position, or the error |
| `Varints.AppendUvarint` | core/router.go:2291-2304 | appends the groups of seven bits, lowest first |
| `GreedyTrip.SameTraveller` | cmd/tsp.go:320-360 | the nearest-stop order is unique, ties included |
| `GreedyTrip.NotStuck` | cmd/tsp.go:346-356 | a traveller who visits every stop was never stuck |

## Left out

- Floating-point rounding, NaN, infinities and the 1e-12 safety margins of the estimates: all arithmetic is exact, a missing leg or an unreachable node is a separate value.
- Trigonometry: the great-circle distance is a parameter assumed to be a lower bound on the road distance, the classification of a turn is an uninterpreted function of three nodes, and the bearing cache and the fast classifier are part of it.
- Files, memory mapping, byte offsets, JSON metadata, checksums, context cancellation checks inside loops and the legacy V1 graph format: a store is sequences of records; OR of disjoint bits is addition.
- Street names, and of nearest-node queries the great-circle distances and the stopping rule computed from them; the scan itself is `GraphFile.NodesAround`. In memory a graph keeps of a coordinate only that it is there; the coordinates themselves are kept by `GraphFile`, whose bounds and grid use exact reals. That a grid index fits 32 bits follows from `GraphFile.CellInGrid`.
- Territory costs, the experimental contraction hierarchy, the route cache, the operations log, address search, and all HTTP handlers and settings.
- Whether a path is built by appending and reversing (as in the searches) or by prepending (as here).
- The first half of `needsTurnState`'s caller that picks a search; each search is proved on its own and the two are shown to agree.
- IndexedGraph.SortCells: stands for the library sort of the cell table; nothing but its result is used.
- Loading a landmark file and its checksum; the tables are handed over in memory.
- TwoOpt.TourSearch.WarmRow: says which legs are asked for ahead, not that the moves then find all of them in the cache, which is a matter of speed. Which requests are cancelled and when is an arbitrary function of the actions made; the cancellation tests inside the loops of the exact solver are left out.
- TurnSearch.Astar: charges turns as the code does; that this is less than every turn after a real node 0, and exactly when, is `TurnCharging.EveryTurnCharged`.
- Publishing of tiles to disk, HTTP fetching and `Close` of the tile cache: a download is a step with an arbitrary result.
- Errors of the underlying HTTP connection while a response is written, and the syntax of the Accept-Encoding header: the list of codings with qualities is given.
- Splitting a dense-nodes message into its fields and the callbacks that receive nodes.
- PackingLoop.PackGraphChains: the tables it fills are values in a `Packing`, not arrays updated in place; and the size error is shown impossible below 2^30 - 1 nodes, not characterised exactly above.
- GraphReader.CheckEntries: its table of entry counts is a value passed from node to node, not a buffer updated in place.
- GraphWriter.SameIndexSameAttributes: attribute tuples are compared by the bit patterns of their numbers, as in the source, so two NaN patterns may differ.
- LabelTable.IndexedRouteLabels.Relax: keys are unbounded and the hash function is arbitrary, because nothing proved depends on how well it mixes; the stored key is the id plus one in unbounded arithmetic.
- GraphRoundTrip.WriteGraph: a graph with at least 2^30 - 1 nodes or 2^31 edges may or may not be written; the exact limit depends on its runs.
- HeldKarp.TspExact: assumes leg costs that are not negative, and `inf` stands for every missing leg; totals at or above it count as missing.
- Turn weights are assumed not to be negative; with negative weights a cheapest walk need not exist.
- SingleFlight.StepKeepsInv: covers the time before the cache is closed.
- ImportEdges.Allocate: the order in which a map yields its keys is arbitrary, so nothing depends on it.
