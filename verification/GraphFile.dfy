/** A whole graph file: the graph, its bounds, the coordinates of its nodes and the spatial index made from
    them (`WriteGraph` and `OpenGraph` in core/router_store.go, `cell` and `cellKey` in core/router.go). */
module GraphFile {
  import opened Common
  import opened GraphStore
  import opened GraphWriter
  import opened GraphAcceptance
  import opened GraphRoundTrip
  import opened CellTable
  import opened IndexedGraph
  import IndexSearch

  datatype Bounds = Bounds(minLat: real, maxLat: real, minLon: real, maxLon: real)

  predicate ValidBounds(b: Bounds) {
    && b.minLat >= -90.0 && b.maxLat <= 90.0 && b.minLon >= -180.0 && b.maxLon <= 180.0
    && b.minLat <= b.maxLat && b.minLon <= b.maxLon
  }

  predicate Contains(b: Bounds, c: Coord) {
    c.lat >= b.minLat && c.lat <= b.maxLat && c.lon >= b.minLon && c.lon <= b.maxLon
  }

  ghost predicate ContainsAll(b: Bounds, places: seq<Coord>) {
    forall i :: 0 <= i < |places| ==> Contains(b, places[i])
  }

  predicate OnGlobe(c: Coord) {
    -90.0 <= c.lat <= 90.0 && -180.0 <= c.lon <= 180.0
  }

  // ---- The grid ----

  /** The cell of a place: steps of a hundredth of a degree from the lower left corner. */
  function Cell(b: Bounds, c: Coord): (int, int) {
    (((c.lat - b.minLat) / 0.01).Floor, ((c.lon - b.minLon) / 0.01).Floor)
  }

  /** `int64(x) << 32 | int64(uint32(y))` for 32-bit `x` and `y`. */
  function CellKey(x: int, y: int): int {
    x * WORD + y % WORD
  }

  function KeyOf(b: Bounds, c: Coord): int {
    CellKey(Cell(b, c).0, Cell(b, c).1)
  }

  lemma CellInGrid(b: Bounds, c: Coord)
    requires ValidBounds(b) && Contains(b, c)
    ensures 0 <= Cell(b, c).0 <= 18000 && 0 <= Cell(b, c).1 <= 36000
  {}

  lemma FloorBrackets(v: real, low: real, n: int)
    ensures ((v - low) / 0.01).Floor == n <==> low + 0.01 * n as real <= v < low + 0.01 * (n + 1) as real
  {
    var q := (v - low) / 0.01;
    assert v == low + 0.01 * q;
    assert q.Floor == n <==> n as real <= q < (n + 1) as real;
  }

  /** A cell is a square with sides of a hundredth of a degree, its lower and left sides included: a place lies in
      the cell exactly if its coordinates do. */
  lemma CellIsSquare(b: Bounds, c: Coord, x: int, y: int)
    ensures Cell(b, c) == (x, y) <==>
      && b.minLat + 0.01 * x as real <= c.lat < b.minLat + 0.01 * (x + 1) as real
      && b.minLon + 0.01 * y as real <= c.lon < b.minLon + 0.01 * (y + 1) as real
  {
    FloorBrackets(c.lat, b.minLat, x);
    FloorBrackets(c.lon, b.minLon, y);
  }

  function Apart(a: real, b: real): real {
    if a < b then b - a else a - b
  }

  /** Places in one cell are less than a hundredth of a degree apart, and places that near lie in the same or in
      neighbouring cells. */
  lemma NearMeansNeighbour(b: Bounds, c: Coord, d: Coord)
    ensures Cell(b, c) == Cell(b, d) ==> Apart(c.lat, d.lat) < 0.01 && Apart(c.lon, d.lon) < 0.01
    ensures Apart(c.lat, d.lat) < 0.01 && Apart(c.lon, d.lon) < 0.01 ==>
      -1 <= Cell(b, c).0 - Cell(b, d).0 <= 1 && -1 <= Cell(b, c).1 - Cell(b, d).1 <= 1
  {
    CellIsSquare(b, c, Cell(b, c).0, Cell(b, c).1);
    CellIsSquare(b, d, Cell(b, d).0, Cell(b, d).1);
  }

  /** Grid steps between two cells, the longer way. */
  function Steps(x: int, y: int, u: int, v: int): nat {
    var (dx, dy) := (if x < u then u - x else x - u, if y < v then v - y else y - v);
    if dx < dy then dy else dx
  }

  /** The square of cells up to `radius` steps around one: a place lies there exactly if it lies in this window. */
  predicate InSquare(b: Bounds, x: int, y: int, radius: nat, c: Coord) {
    && b.minLat + 0.01 * (x - radius) as real <= c.lat < b.minLat + 0.01 * (x + radius + 1) as real
    && b.minLon + 0.01 * (y - radius) as real <= c.lon < b.minLon + 0.01 * (y + radius + 1) as real
  }

  lemma FloorBetween(v: real, low: real, m: int, n: int)
    ensures m <= ((v - low) / 0.01).Floor <= n <==> low + 0.01 * m as real <= v < low + 0.01 * (n + 1) as real
  {
    var q := (v - low) / 0.01;
    assert v == low + 0.01 * q;
    assert m <= q.Floor <==> m as real <= q;
    assert q.Floor <= n <==> q < (n + 1) as real;
  }

  lemma SquareIsWindow(b: Bounds, x: int, y: int, radius: nat, c: Coord)
    ensures Steps(x, y, Cell(b, c).0, Cell(b, c).1) <= radius <==> InSquare(b, x, y, radius, c)
  {
    FloorBetween(c.lat, b.minLat, x - radius, x + radius);
    FloorBetween(c.lon, b.minLon, y - radius, y + radius);
  }

  /** Keys of different cells differ as long as the second coordinate fits 32 bits. */
  lemma KeysDiffer(x: int, y: int, u: int, v: int)
    requires -0x8000_0000 <= y < 0x8000_0000 && -0x8000_0000 <= v < 0x8000_0000
    ensures CellKey(x, y) == CellKey(u, v) <==> x == u && y == v
  {}

  /** Within valid bounds two places have the same key exactly if they lie in the same cell. */
  lemma KeySeparatesCells(b: Bounds, c: Coord, c': Coord)
    requires ValidBounds(b) && Contains(b, c) && Contains(b, c')
    ensures KeyOf(b, c) == KeyOf(b, c') <==> Cell(b, c) == Cell(b, c')
  {
    CellInGrid(b, c);
    CellInGrid(b, c');
    hide Cell;
    KeysDiffer(Cell(b, c).0, Cell(b, c).1, Cell(b, c').0, Cell(b, c').1);
  }

  // ---- Bounds ----

  /** Each side of the bounds is met by some place. */
  ghost predicate Tight(b: Bounds, places: seq<Coord>) {
    && (exists i :: 0 <= i < |places| && places[i].lat == b.minLat)
    && (exists i :: 0 <= i < |places| && places[i].lat == b.maxLat)
    && (exists i :: 0 <= i < |places| && places[i].lon == b.minLon)
    && (exists i :: 0 <= i < |places| && places[i].lon == b.maxLon)
  }

  lemma TightGrows(b: Bounds, places: seq<Coord>, i: nat)
    requires i < |places| && Tight(b, places[..i])
    ensures Tight(Widened(b, places[i]), places[..i + 1])
  {
    var (front, more) := (places[..i], places[..i + 1]);
    assert more[i] == places[i];
    var a :| 0 <= a < i && front[a].lat == b.minLat;
    var e :| 0 <= e < i && front[e].lat == b.maxLat;
    var u :| 0 <= u < i && front[u].lon == b.minLon;
    var v :| 0 <= v < i && front[v].lon == b.maxLon;
    assert more[a].lat == b.minLat && more[e].lat == b.maxLat && more[u].lon == b.minLon && more[v].lon == b.maxLon;
  }

  function Widened(b: Bounds, c: Coord): Bounds {
    Bounds(Min(b.minLat, c.lat), Max(b.maxLat, c.lat), Min(b.minLon, c.lon), Max(b.maxLon, c.lon))
  }

  /** The bounds known from the import, or else the least that contain every node. */
  method BoundsOf(known: Option<Bounds>, places: seq<Coord>) returns (b: Bounds)
    requires |places| > 0
    ensures known.Some? ==> b == known.value
    ensures known.None? ==> ContainsAll(b, places) && Tight(b, places)
  {
    if known.Some? {
      return known.value;
    }
    var c := places[0];
    b := Bounds(c.lat, c.lat, c.lon, c.lon);
    assert places[..1][0] == c;
    for i := 1 to |places|
      invariant ContainsAll(b, places[..i]) && Tight(b, places[..i])
    {
      TightGrows(b, places, i);
      b := Widened(b, places[i]);
    }
    assert places[..|places|] == places;
  }

  // ---- Files ----

  datatype File = File(store: Store, bounds: Bounds, places: seq<Coord>, cells: seq<CellRec>)

  function CellsBy(b: Bounds, places: seq<Coord>): nat -> int {
    (i: nat) => if i < |places| then KeyOf(b, places[i]) else 0
  }

  /** What a reader accepts as a whole. */
  ghost predicate AcceptsFile(f: File) {
    && |f.places| == |f.store.nodes|
    && ValidBounds(f.bounds) && ContainsAll(f.bounds, f.places)
    && AcceptsIndexed(f.store, f.cells, CellsBy(f.bounds, f.places))
  }

  method CheckPlaces(b: Bounds, places: seq<Coord>) returns (ok: bool)
    ensures ok <==> ContainsAll(b, places)
  {
    for i := 0 to |places|
      invariant ContainsAll(b, places[..i])
    {
      if !Contains(b, places[i]) {
        return false;
      }
    }
    return true;
  }

  method OpenGraphFile(f: File) returns (ok: bool)
    requires |f.places| == |f.store.nodes|
    ensures ok <==> AcceptsFile(f)
  {
    hide AcceptsIndexed;
    hide ContainsAll;
    if !ValidBounds(f.bounds) {
      return false;
    }
    ok := CheckPlaces(f.bounds, f.places);
    if ok {
      ok := OpenIndexedGraph(f.store, f.cells, CellsBy(f.bounds, f.places));
    }
  }

  /** Why a graph with these coordinates cannot be written, leaving the size limits aside: the bounds known before do
      not lie on the globe or do not contain every place, or, if none are known, a place is off the globe. */
  ghost predicate BadPlaces(known: Option<Bounds>, places: seq<Coord>) {
    match known
    case Some(b) =>
      || b.minLat < -90.0 || b.maxLat > 90.0 || b.minLon < -180.0 || b.maxLon > 180.0
      || b.minLat > b.maxLat || b.minLon > b.maxLon
      || exists i :: 0 <= i < |places| && Outside(b, places[i])
    case None => exists i :: 0 <= i < |places| && Outside(Bounds(-90.0, 90.0, -180.0, 180.0), places[i])
  }

  ghost predicate Outside(b: Bounds, c: Coord) {
    c.lat < b.minLat || c.lat > b.maxLat || c.lon < b.minLon || c.lon > b.maxLon
  }

  lemma TightIsValid(b: Bounds, places: seq<Coord>)
    requires |places| > 0 && ContainsAll(b, places) && Tight(b, places)
    ensures ValidBounds(b) <==> forall i :: 0 <= i < |places| ==> OnGlobe(places[i])
  {
    assert Contains(b, places[0]);
    if ValidBounds(b) {
      forall i | 0 <= i < |places|
        ensures OnGlobe(places[i])
      {
        assert Contains(b, places[i]);
      }
    }
  }

  /** Writes the whole file. It opens again, with the same graph, the same coordinates and an index that
      lists each node in the cell of its place. Within the limits of the format it is written unless an edge
      dangles or a place is off the globe or outside the bounds known before. */
  method WriteGraphFile(g: Graph, places: seq<Coord>, known: Option<Bounds>) returns (r: Option<File>)
    requires WellFormed(g) && |places| == |g.ids|
    ensures r.Some? ==> AcceptsFile(r.value) && Lossless(g, r.value.store) && r.value.places == places
    ensures r.Some? ==> NoDanglingEdge(g) && !BadPlaces(known, places)
    ensures r.Some? ==> if known.Some? then r.value.bounds == known.value else Tight(r.value.bounds, places)
    ensures 0 < |g.ids| < CHAIN_REVERSE - 1 && LogicalEdges(g.adj, |g.adj|) < CHAIN_FLAG ==>
      (r.Some? <==> NoDanglingEdge(g) && !BadPlaces(known, places))
  {
    hide *;
    if |g.ids| == 0 {
      return None;
    }
    var b := BoundsOf(known, places);
    PlacesAreGood(known, places, b);
    if !ValidBounds(b) {
      return None;
    }
    var ok := CheckPlaces(b, places);
    if !ok {
      return None;
    }
    var d := WriteIndexedGraph(g, CellsBy(b, places));
    if d.None? {
      return None;
    }
    var f := File(d.value.0, b, places, d.value.1);
    FileIsAccepted(g, f);
    return Some(f);
  }

  lemma PlacesAreGood(known: Option<Bounds>, places: seq<Coord>, b: Bounds)
    requires |places| > 0 && (known.Some? ==> b == known.value)
    requires known.None? ==> ContainsAll(b, places) && Tight(b, places)
    ensures BadPlaces(known, places) <==> !ValidBounds(b) || !ContainsAll(b, places)
  {
    if known.None? {
      TightIsValid(b, places);
    }
    forall i | 0 <= i < |places|
      ensures Contains(b, places[i]) <==> !Outside(b, places[i])
      ensures OnGlobe(places[i]) <==> !Outside(Bounds(-90.0, 90.0, -180.0, 180.0), places[i])
    {}
  }

  lemma FileIsAccepted(g: Graph, f: File)
    requires AcceptsIndexed(f.store, f.cells, CellsBy(f.bounds, f.places)) && Lossless(g, f.store)
    requires ValidBounds(f.bounds) && ContainsAll(f.bounds, f.places) && |f.places| == |g.ids|
    ensures AcceptsFile(f)
  {
    hide AcceptsIndexed;
  }

  // ---- Reading ----

  /** The coordinate of a node looked up by its id. */
  method CoordOf(f: File, id: int) returns (r: Option<Coord>)
    requires AcceptsFile(f)
    ensures r.Some? ==> exists i :: 0 <= i < |f.store.nodes| && f.store.nodes[i].id == id && r.value == f.places[i]
    ensures r.None? ==> forall i :: 0 <= i < |f.store.nodes| ==> f.store.nodes[i].id != id
  {
    hide Accepts;
    AcceptedReadable(f.store);
    var i := IndexSearch.NodeIndex(f.store, id);
    return if i.Some? then Some(f.places[i.value]) else None;
  }

  /** The nodes of one cell, by its position in the grid. */
  method ScanCell(f: File, x: int, y: int) returns (nodes: seq<nat>)
    requires AcceptsFile(f) && -0x8000_0000 <= y < 0x8000_0000
    ensures forall n: nat :: n in nodes <==> n < |f.places| && Cell(f.bounds, f.places[n]) == (x, y)
    ensures Increasing(nodes)
  {
    hide Cell;
    hide CellKey;
    hide Accepts;
    nodes := NodesInCell(f.cells, CellsBy(f.bounds, f.places), CellKey(x, y));
    forall n: nat | n < |f.places|
      ensures KeyOf(f.bounds, f.places[n]) == CellKey(x, y) <==> Cell(f.bounds, f.places[n]) == (x, y)
    {
      CellInGrid(f.bounds, f.places[n]);
      KeysDiffer(Cell(f.bounds, f.places[n]).0, Cell(f.bounds, f.places[n]).1, x, y);
    }
  }

  /** The nodes of the cell of a place: exactly those whose own place lies in that cell, all of them less than a
      hundredth of a degree away in either direction. */
  method NodesNear(f: File, c: Coord) returns (nodes: seq<nat>)
    requires AcceptsFile(f) && Contains(f.bounds, c)
    ensures forall n: nat :: n in nodes <==> n < |f.places| && Cell(f.bounds, f.places[n]) == Cell(f.bounds, c)
    ensures forall n :: n in nodes ==>
      && n < |f.places| && Apart(f.places[n].lat, c.lat) < 0.01 && Apart(f.places[n].lon, c.lon) < 0.01
    ensures Increasing(nodes)
  {
    CellInGrid(f.bounds, c);
    nodes := ScanCell(f, Cell(f.bounds, c).0, Cell(f.bounds, c).1);
    hide Cell;
    hide AcceptsFile;
    forall n | n in nodes
      ensures n < |f.places| && Apart(f.places[n].lat, c.lat) < 0.01 && Apart(f.places[n].lon, c.lon) < 0.01
    {
      NearMeansNeighbour(f.bounds, f.places[n], c);
    }
  }

  /** A list of exactly the nodes whose cells satisfy something. */
  ghost predicate Lists(f: File, nodes: seq<nat>, wanted: (int, int) -> bool) {
    forall n: nat :: n in nodes <==>
      n < |f.places| && wanted(Cell(f.bounds, f.places[n]).0, Cell(f.bounds, f.places[n]).1)
  }

  /** One ring of the nearest-node scan: the cells exactly `radius` steps away, each once. */
  method ScanRing(f: File, x: int, y: int, radius: nat) returns (nodes: seq<nat>)
    requires AcceptsFile(f) && -0x4000_0000 <= y < 0x4000_0000 && radius < 0x4000_0000
    ensures Lists(f, nodes, (u, v) => Steps(x, y, u, v) == radius)
  {
    hide Cell;
    hide AcceptsFile;
    if radius == 0 {
      nodes := ScanCell(f, x, y);
      return;
    }
    var (minX, maxX, minY, maxY) := (x - radius, x + radius, y - radius, y + radius);
    nodes := [];
    for u := minX to maxX + 1
      invariant Lists(f, nodes, (a, b) => minX <= a < u && (b == minY || b == maxY))
    {
      var low := ScanCell(f, u, minY);
      var high := ScanCell(f, u, maxY);
      nodes := nodes + low + high;
    }
    for v := minY + 1 to maxY
      invariant Lists(f, nodes, (a, b) =>
        (minX <= a <= maxX && (b == minY || b == maxY)) || ((a == minX || a == maxX) && minY < b < v))
    {
      var left := ScanCell(f, minX, v);
      var right := ScanCell(f, maxX, v);
      nodes := nodes + left + right;
    }
  }

  /** The rings up to `radius` around a cell: every node in the searched window and no other, so that a node not
      seen yet lies outside of it. */
  method NodesAround(f: File, x: int, y: int, radius: nat) returns (nodes: seq<nat>)
    requires AcceptsFile(f) && -0x4000_0000 <= y < 0x4000_0000 && radius < 0x4000_0000
    ensures forall n: nat :: n in nodes <==> n < |f.places| && InSquare(f.bounds, x, y, radius, f.places[n])
  {
    hide Cell;
    hide AcceptsFile;
    hide InSquare;
    nodes := [];
    for r := 0 to radius + 1
      invariant Lists(f, nodes, (u, v) => Steps(x, y, u, v) < r)
    {
      var ring := ScanRing(f, x, y, r);
      nodes := nodes + ring;
    }
    forall n: nat | n < |f.places|
      ensures Steps(x, y, Cell(f.bounds, f.places[n]).0, Cell(f.bounds, f.places[n]).1) <= radius
        <==> InSquare(f.bounds, x, y, radius, f.places[n])
    {
      SquareIsWindow(f.bounds, x, y, radius, f.places[n]);
    }
  }
}
