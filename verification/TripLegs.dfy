/** The leg table of the exact trip solver (the first half of `tspExact` in cmd/tsp.go): every directed leg
    between different node pairs is priced once, however many stops share a node. */
module TripLegs {
  import opened Common
  import opened Bitmask
  import opened TripOrders
  import opened TripPool
  import opened TripCosts
  import opened TripTours
  import HeldKarp

  /** The price of a leg; a leg without a route costs `inf`. */
  function PriceOf(price: Prices, inf: real, leg: Leg): real {
    match price(leg)
    case Some(c) => c
    case None => inf
  }

  /** The leg table as the definition has it: one price for every pair of stops and every end. */
  function NaiveLegs(price: Prices, inf: real, start: int, end: int, stops: seq<int>): (legs: Legs)
    ensures LegsFor(legs, |stops|)
  {
    Legs(seq(|stops|, i requires 0 <= i < |stops| => PriceOf(price, inf, (start, stops[i]))),
         seq(|stops|, i requires 0 <= i < |stops| =>
           seq(|stops|, j requires 0 <= j < |stops| => if i == j then inf
             else PriceOf(price, inf, (stops[i], stops[j])))),
         seq(|stops|, i requires 0 <= i < |stops| => PriceOf(price, inf, (stops[i], end))))
  }

  ghost predicate PricesNonNegative(price: Prices) {
    forall leg :: price(leg).Some? ==> price(leg).value >= 0.0
  }

  lemma PricesNotNegative(price: Prices, inf: real, start: int, end: int, stops: seq<int>)
    requires inf >= 0.0 && PricesNonNegative(price)
    ensures NonNegativeLegs(NaiveLegs(price, inf, start, end, stops))
  {}

  /** Different legs in the order first asked for, and for every request the place of its leg. */
  datatype Book = Book(legs: seq<Leg>, byNodes: map<Leg, nat>, legIndex: seq<nat>)

  ghost predicate BookOk(b: Book, asked: seq<Leg>) {
    && |b.legIndex| == |asked|
    && (forall leg :: leg in b.byNodes ==> b.byNodes[leg] < |b.legs| && b.legs[b.byNodes[leg]] == leg)
    && (forall k :: 0 <= k < |b.legs| ==> b.legs[k] in b.byNodes && b.byNodes[b.legs[k]] == k)
    && (forall k :: 0 <= k < |asked| ==> b.legIndex[k] < |b.legs| && b.legs[b.legIndex[k]] == asked[k])
    && (forall k :: 0 <= k < |b.legs| ==> b.legs[k] in asked)
  }

  /** No leg is priced twice. */
  lemma LegsDiffer(b: Book, asked: seq<Leg>, i: nat, j: nat)
    requires BookOk(b, asked) && i < j < |b.legs|
    ensures b.legs[i] != b.legs[j]
  {
    assert b.byNodes[b.legs[i]] == i && b.byNodes[b.legs[j]] == j;
  }

  method AddLeg(b: Book, ghost asked: seq<Leg>, from: int, to: int) returns (b': Book)
    requires BookOk(b, asked)
    ensures BookOk(b', asked + [(from, to)])
  {
    var key := (from, to);
    if key in b.byNodes {
      b' := b.(legIndex := b.legIndex + [b.byNodes[key]]);
    } else {
      b' := Book(b.legs + [key], b.byNodes[key := |b.legs|], b.legIndex + [|b.legs|]);
    }
  }

  /** The requests of the stops before `i` to the other stops before `j` (all of them when it is past the end). */
  function Others(stops: seq<int>, i: nat, j: nat): (r: seq<Leg>)
    requires i < |stops| && j <= |stops|
    ensures |r| == if j <= i then j else j - 1
  {
    if j == 0 then [] else Others(stops, i, j - 1) + if j - 1 == i then [] else [(stops[i], stops[j - 1])]
  }

  /** All requests of the first `n` stops, in order. */
  function Requests(start: int, end: int, stops: seq<int>, n: nat): (r: seq<Leg>)
    requires n <= |stops|
    ensures |r| == n * (|stops| + 1)
  {
    if n == 0 then [] else
      var r :=
        Requests(start, end, stops, n - 1) + [(start, stops[n - 1]), (stops[n - 1], end)]
        + Others(stops, n - 1, |stops|);
      assert |r| == (n - 1) * (|stops| + 1) + 2 + |stops| - 1;
      r
  }

  lemma OtherAt(stops: seq<int>, i: nat, j: nat, n: nat)
    requires i < |stops| && j < n <= |stops| && j != i
    ensures var k := if j < i then j else j - 1;
      k < |Others(stops, i, n)| && Others(stops, i, n)[k] == (stops[i], stops[j])
    decreases n
  {
    if j < n - 1 {
      OtherAt(stops, i, j, n - 1);
    }
  }

  /** The requests of one stop stand at place `k`. */
  ghost predicate AskedAt(start: int, end: int, stops: seq<int>, i: nat, all: seq<Leg>, k: nat)
    requires i < |stops|
  {
    && k + 2 + |Others(stops, i, |stops|)| <= |all|
    && all[k] == (start, stops[i]) && all[k + 1] == (stops[i], end)
    && all[k + 2..k + 2 + |Others(stops, i, |stops|)|] == Others(stops, i, |stops|)
  }

  lemma AskedLast(start: int, end: int, stops: seq<int>, i: nat, before: seq<Leg>)
    requires i < |stops|
    ensures AskedAt(start, end, stops, i, before + [(start, stops[i]), (stops[i], end)] + Others(stops, i, |stops|),
      |before|)
  {
    hide Others;
  }

  lemma StillAsked(start: int, end: int, stops: seq<int>, i: nat, before: seq<Leg>, k: nat, more: seq<Leg>)
    requires i < |stops| && AskedAt(start, end, stops, i, before, k)
    ensures AskedAt(start, end, stops, i, before + more, k)
  {
    hide Others;
    var (a, b) := (k + 2, k + 2 + |Others(stops, i, |stops|)|);
    assert (before + more)[a..b] == before[a..b];
  }

  /** Where the requests of stop `i` stand among all. */
  lemma {:induction false} RequestsAt(start: int, end: int, stops: seq<int>, i: nat, n: nat)
    requires i < n <= |stops|
    ensures AskedAt(start, end, stops, i, Requests(start, end, stops, n), |Requests(start, end, stops, i)|)
    decreases n
  {
    hide *;
    var m := n - 1;
    var before := Requests(start, end, stops, m);
    NextRequests(start, end, stops, m);
    var own := [(start, stops[m]), (stops[m], end)];
    if i < m {
      RequestsAt(start, end, stops, i, m);
      StillAsked(start, end, stops, i, before, |Requests(start, end, stops, i)|, own + Others(stops, m, |stops|));
      assert before + own + Others(stops, m, |stops|) == before + (own + Others(stops, m, |stops|));
    } else {
      AskedLast(start, end, stops, i, before);
    }
  }

  method CollectLegs(start: int, end: int, stops: seq<int>) returns (b: Book)
    ensures BookOk(b, Requests(start, end, stops, |stops|))
  {
    hide BookOk;
    b := Book([], map[], []);
    NothingAsked();
    for i := 0 to |stops|
      invariant BookOk(b, Requests(start, end, stops, i))
    {
      ghost var before := Requests(start, end, stops, i);
      b := AddLeg(b, before, start, stops[i]);
      b := AddLeg(b, before + [(start, stops[i])], stops[i], end);
      ghost var asked := before + [(start, stops[i]), (stops[i], end)];
      assert before + [(start, stops[i])] + [(stops[i], end)] == asked;
      assert asked + Others(stops, i, 0) == asked;
      for j := 0 to |stops|
        invariant BookOk(b, asked + Others(stops, i, j))
      {
        if i != j {
          b := AddLeg(b, asked + Others(stops, i, j), stops[i], stops[j]);
          assert asked + Others(stops, i, j) + [(stops[i], stops[j])] == asked + Others(stops, i, j + 1);
        } else {
          assert Others(stops, i, j + 1) == Others(stops, i, j);
        }
      }
      NextRequests(start, end, stops, i);
    }
  }

  lemma NothingAsked()
    ensures BookOk(Book([], map[], []), [])
  {}

  lemma NextRequests(start: int, end: int, stops: seq<int>, i: nat)
    requires i < |stops|
    ensures Requests(start, end, stops, i + 1)
      == Requests(start, end, stops, i) + [(start, stops[i]), (stops[i], end)] + Others(stops, i, |stops|)
  {}

  /** What the pool of workers delivered for the different legs. */
  ghost predicate PricesOf(price: Prices, inf: real, legs: seq<Leg>, costs: seq<real>) {
    |costs| == |legs| && forall k :: 0 <= k < |legs| ==> costs[k] == PriceOf(price, inf, legs[k])
  }

  /** The price read back for request number `k` is the price of the leg asked for. */
  lemma PriceRead(price: Prices, inf: real, b: Book, asked: seq<Leg>, costs: seq<real>, k: nat)
    requires BookOk(b, asked) && PricesOf(price, inf, b.legs, costs) && k < |asked|
    ensures k < |b.legIndex| && b.legIndex[k] < |costs| && costs[b.legIndex[k]] == PriceOf(price, inf, asked[k])
  {}

  /** One row of the table between stops, read from request number `k` on. */
  method FillRow(ghost price: Prices, inf: real, b: Book, ghost asked: seq<Leg>, costs: seq<real>, stops: seq<int>,
      i: nat, k: nat)
    returns (row: seq<real>, k': nat)
    requires BookOk(b, asked) && PricesOf(price, inf, b.legs, costs) && i < |stops|
    requires k + |Others(stops, i, |stops|)| <= |asked|
    requires asked[k..k + |Others(stops, i, |stops|)|] == Others(stops, i, |stops|)
    ensures |row| == |stops| && k' == k + |Others(stops, i, |stops|)|
    ensures forall j :: 0 <= j < |stops| ==> row[j] == if i == j then inf else PriceOf(price, inf, (stops[i], stops[j]))
  {
    hide BookOk;
    hide PricesOf;
    hide PriceOf;
    row, k' := [], k;
    ghost var others := Others(stops, i, |stops|);
    for j := 0 to |stops|
      invariant |row| == j && k' == k + if j <= i then j else j - 1
      invariant forall m :: 0 <= m < j ==> row[m] == if i == m then inf else PriceOf(price, inf, (stops[i], stops[m]))
    {
      if i == j {
        row := row + [inf];
      } else {
        OtherAt(stops, i, j, |stops|);
        assert asked[k..k + |others|][k' - k] == asked[k'];
        PriceRead(price, inf, b, asked, costs, k');
        row := row + [costs[b.legIndex[k']]];
        k' := k' + 1;
      }
    }
  }

  /** A delivered answer as a cost. */
  function CostOf(inf: real, answer: Answer): real {
    match answer
    case Priced(Some(c)) => c
    case _ => inf
  }

  /** What the workers deliver for the different legs are their prices. */
  lemma DeliveredPrices(price: Prices, inf: real, legs: seq<Leg>, delivered: seq<Answer>, costs: seq<real>)
    requires |delivered| == |costs| == |legs|
    requires forall k :: 0 <= k < |legs| ==>
      delivered[k] == Priced(price(legs[k])) && costs[k] == CostOf(inf, delivered[k])
    ensures PricesOf(price, inf, legs, costs)
  {}

  /** Whatever the cache holds and however the workers take turns, pricing every different leg once gives the
      table that pricing every request would give; nothing for a cancelled request. */
  method PriceLegs(request: Request, inf: real, start: int, end: int, stops: seq<int>) returns (legs: Option<Legs>)
    requires request.Valid()
    modifies request
    ensures request.Valid() && (old(request.cancelled) ==> request.cancelled)
    ensures legs.None? <==> request.cancelled
    ensures legs.Some? ==> legs.value == NaiveLegs(request.price, inf, start, end, stops)
  {
    hide *;
    var b := CollectLegs(start, end, stops);
    var delivered := request.All(b.legs);
    if delivered.None? {
      return None;
    }
    var answers := delivered.value;
    var costs := seq(|answers|, k requires 0 <= k < |answers| => CostOf(inf, answers[k]));
    DeliveredPrices(request.price, inf, b.legs, answers, costs);
    var table := SpreadPrices(request.price, inf, start, end, stops, b, costs);
    return Some(table);
  }

  /** Reads the prices back in the order of the requests. */
  method SpreadPrices(ghost price: Prices, inf: real, start: int, end: int, stops: seq<int>, b: Book, costs: seq<real>)
    returns (legs: Legs)
    requires BookOk(b, Requests(start, end, stops, |stops|)) && PricesOf(price, inf, b.legs, costs)
    ensures legs == NaiveLegs(price, inf, start, end, stops)
  {
    hide BookOk;
    hide PricesOf;
    hide PriceOf;
    hide Requests;
    hide Others;
    ghost var asked := Requests(start, end, stops, |stops|);
    legs := Legs([], [], []);
    var k := 0;
    NoRequests(start, end, stops);
    for i := 0 to |stops|
      invariant k == |Requests(start, end, stops, i)|
      invariant |legs.start| == |legs.between| == |legs.end| == i
      invariant forall m :: 0 <= m < i ==>
        && legs.start[m] == PriceOf(price, inf, (start, stops[m]))
          && legs.end[m] == PriceOf(price, inf, (stops[m], end))
        && legs.between[m] == NaiveLegs(price, inf, start, end, stops).between[m]
    {
      RequestsAt(start, end, stops, i, |stops|);
      NextRequests(start, end, stops, i);
      PriceRead(price, inf, b, asked, costs, k);
      PriceRead(price, inf, b, asked, costs, k + 1);
      var fromStart, toEnd := costs[b.legIndex[k]], costs[b.legIndex[k + 1]];
      var row;
      row, k := FillRow(price, inf, b, asked, costs, stops, i, k + 2);
      assert row == NaiveLegs(price, inf, start, end, stops).between[i];
      legs := Legs(legs.start + [fromStart], legs.between + [row], legs.end + [toEnd]);
    }
  }

  // ---- The table and the tours it stands for ----

  /** The cost so far of an order by the table is that of the legs travelled; a leg without a route counts as the
      sentinel at least. */
  ghost predicate SameCost(inf: real, total: real, travelled: Ext) {
    match travelled
    case Fin(v) => total == v
    case Inf => total >= inf
  }

  lemma SameCostGrows(inf: real, total: real, travelled: Ext, c: real, leg: Ext)
    requires inf >= 0.0 && total >= 0.0 && c >= 0.0 && SameCost(inf, total, travelled) && SameCost(inf, c, leg)
    ensures SameCost(inf, total + c, Add(travelled, leg))
  {}

  lemma LegCost(price: Prices, inf: real, from: int, to: int)
    requires inf >= 0.0 && PricesNonNegative(price)
    ensures SameCost(inf, PriceOf(price, inf, (from, to)), CostsOf(price)(from, to))
    ensures PriceOf(price, inf, (from, to)) >= 0.0
    ensures price((from, to)).Some? ==> CostsOf(price)(from, to) == Fin(price((from, to)).value)
  {}

  lemma OneLegMore(cost: Pricing, nodes: seq<int>, k: nat)
    requires k + 1 < |nodes|
    ensures LegSum(cost, nodes, 0, k + 1) == Add(LegSum(cost, nodes, 0, k), cost(nodes[k], nodes[k + 1]))
  {
    LegsSplit(cost, nodes, 0, k, k + 1);
    assert LegSum(cost, nodes, k, k + 1) == Add(cost(nodes[k], nodes[k + 1]), LegSum(cost, nodes, k + 1, k + 1));
  }

  lemma {:induction false} CostIsLegs(price: Prices, inf: real, t: Trip, o: seq<nat>, nodes: seq<int>, k: nat)
    requires inf >= 0.0 && PricesNonNegative(price) && IsTrip(t) && KeepsPrerequisites(t.pre, o)
    requires Visits(t, o, nodes) && 0 < k <= |o|
    ensures var c := Cost(NaiveLegs(price, inf, t.start, t.end, t.stops), |t.pre|, o[..k]);
      c >= 0.0 && SameCost(inf, c, LegSum(CostsOf(price), nodes, 0, k))
  {
    hide CostsOf;
    hide PriceOf;
    hide LegSum;
    hide Has;
    hide SameCost;
    var (legs, n) := (NaiveLegs(price, inf, t.start, t.end, t.stops), |t.pre|);
    var m: nat := k - 1;
    OneLegMore(CostsOf(price), nodes, m);
    LegCost(price, inf, nodes[m], nodes[k]);
    assert nodes[m + 1] == t.stops[o[m]];
    if m == 0 {
      NoLegs(CostsOf(price), nodes);
      FirstLeg(inf, PriceOf(price, inf, (nodes[0], nodes[1])), CostsOf(price)(nodes[0], nodes[1]));
    } else {
      CostIsLegs(price, inf, t, o, nodes, m);
      assert o[..k][..m] == o[..m];
      assert nodes[m - 1 + 1] == t.stops[o[m - 1]] && o[m - 1] != o[m];
      SameCostGrows(inf, Cost(legs, n, o[..m]), LegSum(CostsOf(price), nodes, 0, m),
        PriceOf(price, inf, (nodes[m], nodes[k])), CostsOf(price)(nodes[m], nodes[k]));
    }
  }

  lemma NoLegs(cost: Pricing, nodes: seq<int>)
    requires nodes != []
    ensures LegSum(cost, nodes, 0, 0) == Fin(0.0)
  {}

  lemma FirstLeg(inf: real, c: real, leg: Ext)
    requires SameCost(inf, c, leg)
    ensures SameCost(inf, c, Add(Fin(0.0), leg))
  {}

  /** The total of an order by the table is the cost of its tour; it reaches the sentinel if a leg is missing. */
  lemma TotalIsTour(price: Prices, inf: real, t: Trip, o: seq<nat>, nodes: seq<int>)
    requires inf >= 0.0 && PricesNonNegative(price) && IsTrip(t) && KeepsPrerequisites(t.pre, o)
    requires Visits(t, o, nodes) && |o| > 0
    ensures SameCost(inf, Total(NaiveLegs(price, inf, t.start, t.end, t.stops), |t.pre|, o),
      Tour(CostsOf(price), nodes))
  {
    hide CostsOf;
    hide PriceOf;
    hide LegSum;
    hide Has;
    hide SameCost;
    var n := |o|;
    CostIsLegs(price, inf, t, o, nodes, n);
    assert o[..n] == o;
    OneLegMore(CostsOf(price), nodes, n);
    LegCost(price, inf, nodes[n], nodes[n + 1]);
    assert nodes[n - 1 + 1] == t.stops[o[n - 1]];
    SameCostGrows(inf, Cost(NaiveLegs(price, inf, t.start, t.end, t.stops), |t.pre|, o),
      LegSum(CostsOf(price), nodes, 0, n),
      PriceOf(price, inf, (nodes[n], nodes[n + 1])), CostsOf(price)(nodes[n], nodes[n + 1]));
  }

  /** No order of all stops that keeps to the prerequisites has a cheaper tour, and this one's can be travelled. */
  ghost predicate IsBestOrder(t: Trip, cost: Pricing, inf: real, r: seq<nat>) {
    && |r| == |t.pre| && KeepsPrerequisites(t.pre, r)
    && forall nr :: Visits(t, r, nr) ==> NoneCheaper(t, cost, inf, nr)
  }

  ghost predicate NoneCheaper(t: Trip, cost: Pricing, inf: real, nr: seq<int>) {
    && |nr| > 0 && Less(Tour(cost, nr), Fin(inf))
    && forall o, no :: |o| == |t.pre| && KeepsPrerequisites(t.pre, o) && Visits(t, o, no) ==>
         |no| > 0 && !Less(Tour(cost, no), Tour(cost, nr))
  }

  /** Every order of all stops that keeps to the prerequisites misses a leg or costs as much as the sentinel. */
  ghost predicate NoTour(t: Trip, cost: Pricing, inf: real) {
    forall o, no :: |o| == |t.pre| && KeepsPrerequisites(t.pre, o) && Visits(t, o, no) ==>
      |no| > 0 && !Less(Tour(cost, no), Fin(inf))
  }

  lemma FullIsKept(pre: seq<nat>, o: seq<nat>)
    requires |o| == |pre|
    ensures KeepsPrerequisites(pre, o) <==> IsFullOrder(pre, o)
  {
    if IsFullOrder(pre, o) {
      FeasibleWithin(pre, o);
    }
    if IsFullOrder(pre, o) || KeepsPrerequisites(pre, o) {
      FeasibleMeansKept(pre, o);
    }
  }

  /** An optimum of the table is a best order of the trip. */
  lemma OptimumIsBest(price: Prices, inf: real, t: Trip, r: seq<nat>)
    requires inf >= 0.0 && PricesNonNegative(price) && IsTrip(t)
    requires HeldKarp.IsOptimum(HeldKarp.Problem(t.pre, NaiveLegs(price, inf, t.start, t.end, t.stops), inf), r)
    ensures IsBestOrder(t, CostsOf(price), inf, r)
  {
    hide Tour;
    hide CostsOf;
    hide KeepsPrerequisites;
    hide IsFullOrder;
    hide NaiveLegs;
    FullLength(t.pre, r);
    FullIsKept(t.pre, r);
    forall nr | Visits(t, r, nr)
      ensures NoneCheaper(t, CostsOf(price), inf, nr)
    {
      TotalIsTour(price, inf, t, r, nr);
      forall o, no | |o| == |t.pre| && KeepsPrerequisites(t.pre, o) && Visits(t, o, no)
        ensures |no| > 0 && !Less(Tour(CostsOf(price), no), Tour(CostsOf(price), nr))
      {
        FullIsKept(t.pre, o);
        TotalIsTour(price, inf, t, o, no);
        KeptInBounds(t.pre, o);
      }
    }
  }

  lemma KeptInBounds(pre: seq<nat>, o: seq<nat>)
    requires KeepsPrerequisites(pre, o)
    ensures forall k :: 0 <= k < |o| ==> o[k] < |pre|
  {}

  /** When no order stays below the sentinel by the table, no tour does. */
  lemma UnreachableMeansNoTour(price: Prices, inf: real, t: Trip)
    requires inf >= 0.0 && PricesNonNegative(price) && IsTrip(t) && |t.pre| > 0
    ensures HeldKarp.NoneReachable(HeldKarp.Problem(t.pre, NaiveLegs(price, inf, t.start, t.end, t.stops), inf))
      <==> NoTour(t, CostsOf(price), inf)
  {
    hide Tour;
    hide CostsOf;
    hide KeepsPrerequisites;
    hide Feasible;
    hide NaiveLegs;
    var p := HeldKarp.Problem(t.pre, NaiveLegs(price, inf, t.start, t.end, t.stops), inf);
    if HeldKarp.NoneReachable(p) {
      forall o, no | |o| == |t.pre| && KeepsPrerequisites(t.pre, o) && Visits(t, o, no)
        ensures |no| > 0 && !Less(Tour(CostsOf(price), no), Fin(inf))
      {
        FullIsKept(t.pre, o);
        TotalIsTour(price, inf, t, o, no);
        KeptInBounds(t.pre, o);
      }
    }
    if NoTour(t, CostsOf(price), inf) {
      forall o | IsFullOrder(p.pre, o) && HeldKarp.InBounds(p, o)
        ensures Total(p.legs, |p.pre|, o) >= p.inf
      {
        FullLength(t.pre, o);
        FullIsKept(t.pre, o);
        var no := TourOf(t, o);
        TotalIsTour(price, inf, t, o, no);
      }
    }
  }

  lemma FullLength(pre: seq<nat>, o: seq<nat>)
    requires IsFullOrder(pre, o)
    ensures |o| == |pre|
  {}

  /** The nodes of the tour of an order. */
  function TourOf(t: Trip, o: seq<nat>): (nodes: seq<int>)
    requires |t.pre| == |t.stops| && forall k :: 0 <= k < |o| ==> o[k] < |t.pre|
    ensures Visits(t, o, nodes)
  {
    [t.start] + seq(|o|, k requires 0 <= k < |o| && o[k] < |t.stops| => t.stops[o[k]]) + [t.end]
  }

  /** The exact solver on a priced trip: a cheapest tour among those of all orders that keep to the prerequisites. */
  method TspExact(request: Request, inf: real, start: int, end: int, stops: seq<int>, pre: seq<nat>)
    returns (r: Option<seq<nat>>)
    requires request.Valid()
    requires inf >= 0.0 && PricesNonNegative(request.price)
    modifies request
    ensures request.cancelled ==> r.None?
    ensures !request.cancelled ==>
      (r.None? <==>
        |stops| > 16 || |pre| != |stops| || !HasOrder(pre)
        || (|stops| > 0 && NoTour(Trip(pre, stops, start, end), CostsOf(request.price), inf)))
    ensures r.Some? && |stops| == 0 ==> r.value == []
    ensures r.Some? && |stops| > 0 ==> IsBestOrder(Trip(pre, stops, start, end), CostsOf(request.price), inf, r.value)
  {
    hide *;
    PricesNotNegative(request.price, inf, start, end, stops);
    SixteenStops();
    var gone := request.Err();
    if gone {
      return None;
    }
    var ok := ValidateTsp(|stops|, pre, HeldKarp.MAX_EXACT_STOPS);
    if !ok {
      return None;
    }
    if |stops| == 0 {
      return Some([]);
    }
    ghost var t := Trip(pre, stops, start, end);
    var legs := PriceLegs(request, inf, start, end, stops);
    if legs.None? {
      return None;
    }
    r := HeldKarp.TspExact(|stops|, pre, legs.value, inf);
    TripPosed(t);
    UnreachableMeansNoTour(request.price, inf, t);
    if r.Some? {
      OptimumIsBest(request.price, inf, t, r.value);
    }
  }

  lemma SixteenStops()
    ensures HeldKarp.MAX_EXACT_STOPS == 16
  {}

  lemma TripPosed(t: Trip)
    requires |t.pre| == |t.stops|
    ensures IsTrip(t)
  {}

  lemma NoRequests(start: int, end: int, stops: seq<int>)
    ensures |Requests(start, end, stops, 0)| == 0
  {}
}
