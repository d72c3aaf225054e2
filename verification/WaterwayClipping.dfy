/** Clipping polylines to a map window (cmd/tinytiles_waterways.go), over exact reals. */
module WaterwayClipping {

  datatype Point = Point(x: real, y: real)

  datatype Window = Window(minX: real, minY: real, maxX: real, maxY: real)

  predicate InWindow(w: Window, p: Point) {
    w.minX <= p.x <= w.maxX && w.minY <= p.y <= w.maxY
  }

  /** The point a share `u` of the way along a segment. */
  function Along(a: Point, b: Point, u: real): Point {
    Point(a.x + u * (b.x - a.x), a.y + u * (b.y - a.y))
  }

  // ---- One segment ----

  /** The four half-planes of the window, as `p * u <= q` along the segment. */
  function Slope(a: Point, b: Point, i: nat): real {
    if i == 0 then -(b.x - a.x) else if i == 1 then b.x - a.x else if i == 2 then -(b.y - a.y) else b.y - a.y
  }

  function Room(a: Point, w: Window, i: nat): real {
    if i == 0 then a.x - w.minX else if i == 1 then w.maxX - a.x else if i == 2 then a.y - w.minY else w.maxY - a.y
  }

  predicate Admits(a: Point, b: Point, w: Window, i: nat, u: real) {
    Slope(a, b, i) * u <= Room(a, w, i)
  }

  lemma InWindowAdmits(a: Point, b: Point, w: Window, u: real)
    ensures InWindow(w, Along(a, b, u)) <==>
      Admits(a, b, w, 0, u) && Admits(a, b, w, 1, u) && Admits(a, b, w, 2, u) && Admits(a, b, w, 3, u)
  {
    var (dx, dy) := (b.x - a.x, b.y - a.y);
    Turned(dx, u);
    Turned(dy, u);
    assert Slope(a, b, 0) == -dx && Slope(a, b, 1) == dx && Slope(a, b, 2) == -dy && Slope(a, b, 3) == dy;
    assert Admits(a, b, w, 0, u) <==> w.minX <= a.x + u * dx;
    assert Admits(a, b, w, 1, u) <==> a.x + u * dx <= w.maxX;
    assert Admits(a, b, w, 2, u) <==> w.minY <= a.y + u * dy;
    assert Admits(a, b, w, 3, u) <==> a.y + u * dy <= w.maxY;
  }

  lemma Turned(d: real, u: real)
    ensures (-d) * u == -(u * d) && d * u == u * d
  {}

  lemma DivideBy(p: real, q: real, u: real)
    requires p != 0.0
    ensures p > 0.0 ==> (p * u <= q <==> u <= q / p)
    ensures p < 0.0 ==> (p * u <= q <==> u >= q / p)
  {
    var r := q / p;
    assert r * p == q;
    assert p * (u - r) == p * u - q;
    SignOf(p, u - r);
  }

  lemma SignOf(p: real, d: real)
    requires p != 0.0
    ensures p > 0.0 ==> (p * d <= 0.0 <==> d <= 0.0)
    ensures p < 0.0 ==> (p * d <= 0.0 <==> d >= 0.0)
  {}

  predicate Between(u0: real, u1: real, u: real) {
    u0 <= u <= u1
  }

  ghost predicate AllAdmit(a: Point, b: Point, w: Window, n: nat, u: real) {
    forall i :: 0 <= i < n ==> Admits(a, b, w, i, u)
  }

  /** The first `n` half-planes leave exactly the shares from `u0` to `u1`. */
  ghost predicate Leaves(a: Point, b: Point, w: Window, n: nat, u0: real, u1: real) {
    forall u: real :: Between(0.0, 1.0, u) && AllAdmit(a, b, w, n, u) <==> Between(u0, u1, u)
  }

  ghost predicate LeavesNothing(a: Point, b: Point, w: Window) {
    forall u: real :: 0.0 <= u <= 1.0 ==> !InWindow(w, Along(a, b, u))
  }

  lemma LeavesMore(a: Point, b: Point, w: Window, n: nat, u0: real, u1: real, v0: real, v1: real)
    requires Leaves(a, b, w, n, u0, u1)
    requires forall u: real :: Between(u0, u1, u) && Admits(a, b, w, n, u) <==> Between(v0, v1, u)
    ensures Leaves(a, b, w, n + 1, v0, v1)
  {
    hide Admits;
    hide Between;
    var m := n + 1;
    forall u: real
      ensures AllAdmit(a, b, w, m, u) <==> AllAdmit(a, b, w, n, u) && Admits(a, b, w, n, u)
    {}
  }

  lemma NothingLeft(a: Point, b: Point, w: Window, n: nat, u0: real, u1: real)
    requires n < 4 && Leaves(a, b, w, n, u0, u1)
    requires forall u: real :: Between(u0, u1, u) ==> !Admits(a, b, w, n, u)
    ensures LeavesNothing(a, b, w)
  {
    forall u: real | 0.0 <= u <= 1.0
      ensures !InWindow(w, Along(a, b, u))
    {
      InWindowAdmits(a, b, w, u);
      hide Admits;
      assert Between(0.0, 1.0, u);
      if AllAdmit(a, b, w, n, u) {
        assert Between(u0, u1, u);
      }
    }
  }

  /** The share of a segment that lies in the window: none, or from `u0` to `u1`. */
  datatype Share = Outside | Inside(u0: real, u1: real)

  ghost predicate IsShare(a: Point, b: Point, w: Window, s: Share) {
    match s
    case Outside => LeavesNothing(a, b, w)
    case Inside(u0, u1) =>
      && 0.0 <= u0 <= u1 <= 1.0
      && forall u: real :: 0.0 <= u <= 1.0 ==> (InWindow(w, Along(a, b, u)) <==> u0 <= u <= u1)
  }

  /** In coordinates: exactly the shares between the two ends lie within the four sides of the window. */
  lemma ShareMeans(a: Point, b: Point, w: Window, s: Share, u: real)
    requires IsShare(a, b, w, s) && 0.0 <= u <= 1.0
    ensures s.Inside? && s.u0 <= u <= s.u1 <==>
      && w.minX <= a.x + u * (b.x - a.x) <= w.maxX
      && w.minY <= a.y + u * (b.y - a.y) <= w.maxY
  {
    var q := Along(a, b, u);
    assert InWindow(w, q) <==> s.Inside? && s.u0 <= u <= s.u1;
    assert q.x == a.x + u * (b.x - a.x) && q.y == a.y + u * (b.y - a.y);
  }

  lemma AllLeft(a: Point, b: Point, w: Window, u0: real, u1: real)
    requires Leaves(a, b, w, 4, u0, u1) && u0 <= u1
    ensures IsShare(a, b, w, Inside(u0, u1))
  {
    hide Admits;
    forall u: real
      ensures (0.0 <= u <= 1.0 && InWindow(w, Along(a, b, u))) <==> Between(u0, u1, u)
    {
      InWindowAdmits(a, b, w, u);
      assert Between(0.0, 1.0, u) && AllAdmit(a, b, w, 4, u) <==> Between(u0, u1, u);
    }
    assert Between(u0, u1, u0) && Between(u0, u1, u1);
  }

  /** Returns precisely the part of the segment inside the window. */
  method ClipSegment(a: Point, b: Point, w: Window) returns (s: Share)
    ensures IsShare(a, b, w, s)
  {
    hide IsShare;
    hide Admits;
    hide LeavesNothing;
    var u0, u1 := 0.0, 1.0;
    assert Leaves(a, b, w, 0, u0, u1);
    hide Leaves;
    for i := 0 to 4
      invariant u0 <= u1 && Leaves(a, b, w, i, u0, u1)
    {
      var p, q := Slope(a, b, i), Room(a, w, i);
      if p == 0.0 {
        FlatAdmits(a, b, w, i);
        if q < 0.0 {
          NothingLeft(a, b, w, i, u0, u1);
          OutsideShare(a, b, w);
          return Outside;
        }
        LeavesMore(a, b, w, i, u0, u1, u0, u1);
      } else {
        var ratio := q / p;
        SlopeAdmits(a, b, w, i);
        if p < 0.0 {
          if ratio > u1 {
            NothingLeft(a, b, w, i, u0, u1);
            OutsideShare(a, b, w);
            return Outside;
          }
          var v := if ratio > u0 then ratio else u0;
          LeavesMore(a, b, w, i, u0, u1, v, u1);
          u0 := v;
        } else {
          if ratio < u0 {
            NothingLeft(a, b, w, i, u0, u1);
            OutsideShare(a, b, w);
            return Outside;
          }
          var v := if ratio < u1 then ratio else u1;
          LeavesMore(a, b, w, i, u0, u1, u0, v);
          u1 := v;
        }
      }
    }
    AllLeft(a, b, w, u0, u1);
    s := Inside(u0, u1);
  }

  lemma OutsideShare(a: Point, b: Point, w: Window)
    requires LeavesNothing(a, b, w)
    ensures IsShare(a, b, w, Outside)
  {}

  lemma FlatAdmits(a: Point, b: Point, w: Window, i: nat)
    requires Slope(a, b, i) == 0.0
    ensures forall u: real :: Admits(a, b, w, i, u) <==> Room(a, w, i) >= 0.0
  {}

  lemma SlopeAdmits(a: Point, b: Point, w: Window, i: nat)
    requires Slope(a, b, i) != 0.0
    ensures var (p, ratio) := (Slope(a, b, i), Room(a, w, i) / Slope(a, b, i));
      forall u: real :: Admits(a, b, w, i, u) <==> if p > 0.0 then u <= ratio else u >= ratio
  {
    forall u: real
      ensures Admits(a, b, w, i, u) <==>
        if Slope(a, b, i) > 0.0 then u <= Room(a, w, i) / Slope(a, b, i) else u >= Room(a, w, i) / Slope(a, b, i)
    {
      DivideBy(Slope(a, b, i), Room(a, w, i), u);
    }
  }

  /** A segment has only one share. */
  lemma OneShare(a: Point, b: Point, w: Window, s: Share, t: Share)
    requires IsShare(a, b, w, s) && IsShare(a, b, w, t)
    ensures s == t
  {
    if s.Inside? {
      assert InWindow(w, Along(a, b, s.u0)) && InWindow(w, Along(a, b, s.u1));
    }
    if t.Inside? {
      assert InWindow(w, Along(a, b, t.u0)) && InWindow(w, Along(a, b, t.u1));
    }
  }

  // ---- Polylines ----

  /** The visible part of the segment from vertex `k` to vertex `k + 1`. */
  datatype Part = Part(k: nat, a: Point, b: Point)

  ghost predicate IsPart(points: seq<Point>, w: Window, p: Part, u0: real, u1: real) {
    && p.k + 1 < |points| && IsShare(points[p.k], points[p.k + 1], w, Inside(u0, u1))
    && p.a == Along(points[p.k], points[p.k + 1], u0) && p.b == Along(points[p.k], points[p.k + 1], u1)
  }

  /** A visible part of positive length. */
  ghost predicate Visible(points: seq<Point>, w: Window, p: Part) {
    p.a != p.b && exists u0, u1 :: IsPart(points, w, p, u0, u1)
  }

  /** All visible parts of the first `m` segments, in order. */
  ghost predicate VisibleTo(points: seq<Point>, w: Window, parts: seq<Part>, m: nat) {
    && (forall i :: 0 <= i < |parts| ==> parts[i].k < m && Visible(points, w, parts[i]))
    && (forall i, j :: 0 <= i < j < |parts| ==> parts[i].k < parts[j].k)
    && forall p :: Visible(points, w, p) && p.k < m ==> p in parts
  }

  /** The line leaves the window at some vertex after segment `j` begins and not after segment `k` does. */
  ghost predicate Cut(points: seq<Point>, w: Window, j: nat, k: nat) {
    exists v :: j < v <= k && v < |points| && !InWindow(w, points[v])
  }

  /** The visible parts as polylines: broken exactly where the line leaves the window at a vertex. */
  ghost function Fragments(points: seq<Point>, w: Window, parts: seq<Part>): seq<seq<Point>> {
    if parts == [] then [] else
      var n := |parts| - 1;
      var before := Fragments(points, w, parts[..n]);
      if before == [] || Cut(points, w, parts[n - 1].k, parts[n].k) then before + [[parts[n].a, parts[n].b]]
      else before[..|before| - 1] + [before[|before| - 1] + [parts[n].b]]
  }

  lemma PartInWindow(points: seq<Point>, w: Window, p: Part)
    requires Visible(points, w, p)
    ensures InWindow(w, p.a) && InWindow(w, p.b)
  {
    var u0, u1 :| IsPart(points, w, p, u0, u1);
  }

  lemma {:induction false} FragmentsShape(points: seq<Point>, w: Window, parts: seq<Part>)
    ensures Fragments(points, w, parts) == [] <==> parts == []
    ensures parts != [] ==>
      var f := Fragments(points, w, parts); |f[|f| - 1]| >= 2 && f[|f| - 1][|f[|f| - 1]| - 1] == parts[|parts| - 1].b
  {
    if parts != [] {
      FragmentsShape(points, w, parts[..|parts| - 1]);
    }
  }

  /** At least two points, all in the window. */
  ghost predicate Line(w: Window, f: seq<Point>) {
    |f| >= 2 && forall i :: 0 <= i < |f| ==> InWindow(w, f[i])
  }

  lemma LineExtends(w: Window, f: seq<Point>, p: Point)
    requires Line(w, f) && InWindow(w, p)
    ensures Line(w, f + [p])
  {
    hide InWindow;
  }

  lemma {:induction false} FragmentsInWindow(points: seq<Point>, w: Window, parts: seq<Part>)
    requires forall i :: 0 <= i < |parts| ==> Visible(points, w, parts[i])
    ensures forall i :: 0 <= i < |Fragments(points, w, parts)| ==> Line(w, Fragments(points, w, parts)[i])
  {
    if parts != [] {
      var n := |parts| - 1;
      var before := Fragments(points, w, parts[..n]);
      FragmentsInWindow(points, w, parts[..n]);
      PartInWindow(points, w, parts[n]);
      assert Line(w, [parts[n].a, parts[n].b]);
      if before != [] {
        LineExtends(w, before[|before| - 1], parts[n].b);
      }
      hide Line;
      hide Visible;
    }
  }

  lemma AtStart(a: Point, b: Point, w: Window, s: Share)
    requires IsShare(a, b, w, s) && InWindow(w, a)
    ensures s.Inside? && s.u0 == 0.0 && Along(a, b, s.u0) == a
  {
    assert Along(a, b, 0.0) == a;
  }

  lemma AtEnd(a: Point, b: Point, w: Window, s: Share)
    requires IsShare(a, b, w, s) && InWindow(w, b)
    ensures s.Inside? && s.u1 == 1.0 && Along(a, b, s.u1) == b
  {
    assert Along(a, b, 1.0) == b;
  }

  /** A window is convex: between two points inside everything is inside. */
  lemma InsideBetween(w: Window, a: Point, b: Point, u: real)
    requires InWindow(w, a) && InWindow(w, b) && 0.0 <= u <= 1.0
    ensures InWindow(w, Along(a, b, u))
  {
    ShareWithin(w.minX, w.maxX, a.x, b.x - a.x, u);
    ShareWithin(w.minY, w.maxY, a.y, b.y - a.y, u);
  }

  lemma ShareWithin(lo: real, hi: real, a: real, d: real, u: real)
    requires lo <= a <= hi && lo <= a + d <= hi && 0.0 <= u <= 1.0
    ensures lo <= a + u * d <= hi
  {
    ShareOf(d, u);
  }

  lemma ShareOf(d: real, u: real)
    requires 0.0 <= u <= 1.0
    ensures d >= 0.0 ==> 0.0 <= u * d <= d
    ensures d <= 0.0 ==> d <= u * d <= 0.0
  {
    assert d - u * d == (1.0 - u) * d;
    SignOfProduct(u, d);
    SignOfProduct(1.0 - u, d);
  }

  lemma SignOfProduct(x: real, y: real)
    requires x >= 0.0
    ensures y >= 0.0 ==> x * y >= 0.0
    ensures y <= 0.0 ==> x * y <= 0.0
  {}

  /** A segment between two different points of the window is visible as a whole. */
  lemma InsideIsVisible(points: seq<Point>, w: Window, v: nat)
    requires v + 1 < |points| && InWindow(w, points[v]) && InWindow(w, points[v + 1]) && points[v] != points[v + 1]
    ensures Visible(points, w, Part(v, points[v], points[v + 1]))
  {
    var (a, b) := (points[v], points[v + 1]);
    forall u: real | 0.0 <= u <= 1.0
      ensures InWindow(w, Along(a, b, u))
    {
      InsideBetween(w, a, b, u);
    }
    assert IsPart(points, w, Part(v, a, b), 0.0, 1.0);
  }

  /** Where a part ends inside the window. */
  lemma PartEnds(points: seq<Point>, w: Window, p: Part)
    requires Visible(points, w, p)
    ensures p.k + 1 < |points|
    ensures InWindow(w, points[p.k + 1]) ==> p.b == points[p.k + 1]
    ensures InWindow(w, points[p.k]) ==> p.a == points[p.k]
  {
    var u0, u1 :| IsPart(points, w, p, u0, u1);
    if InWindow(w, points[p.k + 1]) {
      AtEnd(points[p.k], points[p.k + 1], w, Inside(u0, u1));
    }
    if InWindow(w, points[p.k]) {
      AtStart(points[p.k], points[p.k + 1], w, Inside(u0, u1));
    }
  }

  /** Between two visible parts that follow one another inside the window the line stands still. */
  lemma {:induction false} StandsStill(points: seq<Point>, w: Window, parts: seq<Part>, m: nat, i: nat, v: nat)
    requires VisibleTo(points, w, parts, m) && i + 1 < |parts| && parts[i + 1].k < |points|
    requires !Cut(points, w, parts[i].k, parts[i + 1].k) && parts[i].k < v <= parts[i + 1].k
    ensures points[v] == points[parts[i].k + 1] && InWindow(w, points[v])
    decreases v
  {
    assert InWindow(w, points[v]);
    if parts[i].k + 1 < v {
      var u := v - 1;
      StandsStill(points, w, parts, m, i, u);
      if points[u] != points[v] {
        InsideIsVisible(points, w, u);
        NotBetween(points, w, parts, m, i, Part(u, points[u], points[v]));
      }
    }
  }

  /** No visible part lies between two consecutive ones. */
  lemma NotBetween(points: seq<Point>, w: Window, parts: seq<Part>, m: nat, i: nat, p: Part)
    requires VisibleTo(points, w, parts, m) && i + 1 < |parts| && Visible(points, w, p)
    ensures p.k <= parts[i].k || parts[i + 1].k <= p.k
  {
    hide Visible;
    if p.k < m {
      var j :| 0 <= j < |parts| && parts[j] == p;
      assert j <= i || i + 1 <= j;
    }
  }

  /** Where one part ends inside the window and the line does not leave it, the next part begins, also when
      the line stands still in between. */
  lemma PartsMeet(points: seq<Point>, w: Window, parts: seq<Part>, m: nat, i: nat)
    requires VisibleTo(points, w, parts, m) && i + 1 < |parts| && !Cut(points, w, parts[i].k, parts[i + 1].k)
    ensures parts[i + 1].k < |points| && parts[i].b == parts[i + 1].a == points[parts[i + 1].k]
  {
    var (p, q) := (parts[i], parts[i + 1]);
    assert Visible(points, w, p) && Visible(points, w, q) && p.k < q.k;
    PartEnds(points, w, p);
    PartEnds(points, w, q);
    StandsStill(points, w, parts, m, i, q.k);
    StandsStill(points, w, parts, m, i, p.k + 1);
  }

  // ---- What is drawn ----

  /** The steps of a fragment from point to point. */
  function Steps(f: seq<Point>): (r: seq<(Point, Point)>)
    ensures |r| == if |f| < 2 then 0 else |f| - 1
    ensures forall i :: 0 <= i < |r| ==> r[i] == (f[i], f[i + 1])
  {
    if |f| < 2 then [] else Steps(f[..|f| - 1]) + [(f[|f| - 2], f[|f| - 1])]
  }

  /** The steps of all fragments, one fragment after another. */
  function AllSteps(fs: seq<seq<Point>>): seq<(Point, Point)> {
    if fs == [] then [] else AllSteps(fs[..|fs| - 1]) + Steps(fs[|fs| - 1])
  }

  /** From where to where the parts lead. */
  function Ends(parts: seq<Part>): (r: seq<(Point, Point)>)
    ensures |r| == |parts| && forall i :: 0 <= i < |r| ==> r[i] == (parts[i].a, parts[i].b)
  {
    seq(|parts|, i requires 0 <= i < |parts| => (parts[i].a, parts[i].b))
  }

  lemma StepMore(f: seq<Point>, p: Point)
    requires |f| >= 1
    ensures Steps(f + [p]) == Steps(f) + [(f[|f| - 1], p)]
  {
    assert (f + [p])[..|f|] == f;
  }

  lemma AllStepsMore(before: seq<seq<Point>>, f: seq<Point>)
    ensures AllSteps(before + [f]) == AllSteps(before) + Steps(f)
  {
    assert (before + [f])[..|before|] == before;
  }

  ghost predicate Joined(points: seq<Point>, w: Window, parts: seq<Part>, i: nat)
    requires i + 1 < |parts|
  {
    Cut(points, w, parts[i].k, parts[i + 1].k) || parts[i].b == parts[i + 1].a
  }

  lemma FragmentsStep(points: seq<Point>, w: Window, parts: seq<Part>, q: Part)
    ensures var before := Fragments(points, w, parts);
      Fragments(points, w, parts + [q]) ==
        if before == [] || Cut(points, w, parts[|parts| - 1].k, q.k) then before + [[q.a, q.b]]
        else before[..|before| - 1] + [before[|before| - 1] + [q.b]]
  {
    assert (parts + [q])[..|parts|] == parts;
    FragmentsShape(points, w, parts);
    hide Cut;
  }

  /** A new fragment draws one step. */
  lemma NewFragmentStep(before: seq<seq<Point>>, a: Point, b: Point)
    ensures AllSteps(before + [[a, b]]) == AllSteps(before) + [(a, b)]
  {
    StepMore([a], b);
    assert [a] + [b] == [a, b] && Steps([a]) == [];
    AllStepsMore(before, [a, b]);
  }

  /** So does a last fragment that grows by a point. */
  lemma LongerFragmentStep(front: seq<seq<Point>>, last: seq<Point>, b: Point)
    requires |last| >= 1
    ensures AllSteps(front + [last + [b]]) == AllSteps(front + [last]) + [(last[|last| - 1], b)]
  {
    hide *;
    AllStepsMore(front, last);
    AllStepsMore(front, last + [b]);
    StepMore(last, b);
    assert AllSteps(front) + (Steps(last) + [(last[|last| - 1], b)])
      == (AllSteps(front) + Steps(last)) + [(last[|last| - 1], b)];
  }

  lemma StepsGrow(points: seq<Point>, w: Window, init: seq<Part>, q: Part)
    requires AllSteps(Fragments(points, w, init)) == Ends(init)
    requires init != [] ==> Cut(points, w, init[|init| - 1].k, q.k) || init[|init| - 1].b == q.a
    ensures AllSteps(Fragments(points, w, init + [q])) == Ends(init + [q])
  {
    hide *;
    FragmentsShape(points, w, init);
    FragmentsStep(points, w, init, q);
    var before := Fragments(points, w, init);
    NewFragmentStep(before, q.a, q.b);
    if before != [] {
      var (front, last) := (before[..|before| - 1], before[|before| - 1]);
      assert before == front + [last];
      LongerFragmentStep(front, last, q.b);
    }
    assert Ends(init + [q]) == Ends(init) + [(q.a, q.b)];
  }

  /** The steps drawn are exactly the parts, each once and in order: nothing is left out between them. */
  lemma {:induction false} StepsArePartsIn(points: seq<Point>, w: Window, parts: seq<Part>, n: nat)
    requires n <= |parts| && forall i: nat :: i + 1 < |parts| ==> Joined(points, w, parts, i)
    ensures AllSteps(Fragments(points, w, parts[..n])) == Ends(parts[..n])
  {
    hide Fragments;
    hide AllSteps;
    hide Ends;
    hide Cut;
    if n == 0 {
      NothingToDraw(points, w);
      assert parts[..0] == [];
    } else {
      var k := n - 1;
      StepsArePartsIn(points, w, parts, k);
      if k > 0 {
        var j := k - 1;
        assert Joined(points, w, parts, j);
      }
      StepsGrow(points, w, parts[..k], parts[k]);
      assert parts[..n] == parts[..k] + [parts[k]];
    }
  }

  lemma NothingToDraw(points: seq<Point>, w: Window)
    ensures AllSteps(Fragments(points, w, [])) == Ends([])
  {}

  lemma StepsAreParts(points: seq<Point>, w: Window, parts: seq<Part>, m: nat)
    requires VisibleTo(points, w, parts, m)
    ensures AllSteps(Fragments(points, w, parts)) == Ends(parts)
  {
    forall i: nat | i + 1 < |parts|
      ensures Joined(points, w, parts, i)
    {
      if !Cut(points, w, parts[i].k, parts[i + 1].k) {
        PartsMeet(points, w, parts, m, i);
      }
    }
    StepsArePartsIn(points, w, parts, |parts|);
    assert parts[..|parts|] == parts;
  }

  lemma NoPart(points: seq<Point>, w: Window, parts: seq<Part>, m: nat, s: Share)
    requires VisibleTo(points, w, parts, m) && m + 1 < |points| && IsShare(points[m], points[m + 1], w, s)
    requires s.Inside? ==> Along(points[m], points[m + 1], s.u0) == Along(points[m], points[m + 1], s.u1)
    ensures VisibleTo(points, w, parts, m + 1)
  {
    hide IsShare;
    forall p | Visible(points, w, p) && p.k < m + 1
      ensures p.k < m
    {
      var u0, u1 :| IsPart(points, w, p, u0, u1);
      if p.k == m {
        OneShare(points[m], points[m + 1], w, s, Inside(u0, u1));
      }
    }
  }

  lemma OnePart(points: seq<Point>, w: Window, parts: seq<Part>, m: nat, s: Share)
    requires VisibleTo(points, w, parts, m) && m + 1 < |points| && IsShare(points[m], points[m + 1], w, s) && s.Inside?
    requires Along(points[m], points[m + 1], s.u0) != Along(points[m], points[m + 1], s.u1)
    ensures VisibleTo(points, w,
      parts + [Part(m, Along(points[m], points[m + 1], s.u0), Along(points[m], points[m + 1], s.u1))], m + 1)
  {
    hide IsShare;
    hide Along;
    var q := Part(m, Along(points[m], points[m + 1], s.u0), Along(points[m], points[m + 1], s.u1));
    assert IsPart(points, w, q, s.u0, s.u1);
    forall p | Visible(points, w, p) && p.k < m + 1
      ensures p in parts + [q]
    {
      var u0, u1 :| IsPart(points, w, p, u0, u1);
      if p.k == m {
        OneShare(points[m], points[m + 1], w, s, Inside(u0, u1));
      }
    }
  }

  // ---- The loop ----

  /** After the first `m` segments: finished fragments and the one being drawn. */
  ghost predicate Drawing(points: seq<Point>, w: Window, parts: seq<Part>, m: nat, clipped: seq<seq<Point>>,
      current: seq<Point>)
    requires m < |points|
  {
    && VisibleTo(points, w, parts, m)
    && (|current| <= 1 ==>
      clipped == Fragments(points, w, parts) && (parts == [] || Cut(points, w, parts[|parts| - 1].k, m)))
    && (|current| >= 1 ==> current[|current| - 1] == points[m] && InWindow(w, points[m]))
    && (|current| >= 2 ==>
          parts != [] && clipped + [current] == Fragments(points, w, parts) && !Cut(points, w, parts[|parts| - 1].k, m))
  }

  /** The fragment being drawn after a visible part, before it is known whether the line goes on. */
  ghost predicate Drawn(points: seq<Point>, w: Window, parts: seq<Part>, m: nat, clipped: seq<seq<Point>>,
      current: seq<Point>, end: Point)
    requires m < |points|
  {
    && VisibleTo(points, w, parts, m + 1) && |current| >= 1 && current[|current| - 1] == end
    && (|current| == 1 ==>
      clipped == Fragments(points, w, parts) && (parts == [] || Cut(points, w, parts[|parts| - 1].k, m)))
    && (|current| >= 2 ==>
          parts != [] && clipped + [current] == Fragments(points, w, parts) && !Cut(points, w, parts[|parts| - 1].k, m))
  }

  lemma CutLater(points: seq<Point>, w: Window, j: nat, m: nat)
    requires m + 1 < |points|
    ensures Cut(points, w, j, m) ==> Cut(points, w, j, m + 1)
    ensures j <= m && !InWindow(w, points[m + 1]) ==> Cut(points, w, j, m + 1)
    ensures !Cut(points, w, j, m) && InWindow(w, points[m + 1]) ==> !Cut(points, w, j, m + 1)
  {}

  lemma Invisible(points: seq<Point>, w: Window, parts: seq<Part>, m: nat, clipped: seq<seq<Point>>,
      current: seq<Point>)
    requires m + 1 < |points| && Drawing(points, w, parts, m, clipped, current)
    requires IsShare(points[m], points[m + 1], w, Outside)
    ensures current == [] && Drawing(points, w, parts, m + 1, clipped, [])
  {
    if |current| >= 1 {
      AtStart(points[m], points[m + 1], w, Outside);
    }
    NoPart(points, w, parts, m, Outside);
    if parts != [] {
      CutLater(points, w, parts[|parts| - 1].k, m);
    }
  }

  /** What is visible of the next segment joins the fragment being drawn. */
  lemma PartDrawn(points: seq<Point>, w: Window, parts: seq<Part>, m: nat, clipped: seq<seq<Point>>,
      current: seq<Point>, s: Share)
    returns (parts': seq<Part>)
    requires m + 1 < |points| && Drawing(points, w, parts, m, clipped, current)
    requires IsShare(points[m], points[m + 1], w, s) && s.Inside?
    ensures var (start, end) := (Along(points[m], points[m + 1], s.u0), Along(points[m], points[m + 1], s.u1));
      && (current != [] ==> current[|current| - 1] == start)
      && var joined := if current == [] then [start] else current;
         Drawn(points, w, parts', m, clipped, if end == start then joined else joined + [end], end)
  {
    var (start, end) := (Along(points[m], points[m + 1], s.u0), Along(points[m], points[m + 1], s.u1));
    if current != [] {
      AtStart(points[m], points[m + 1], w, s);
    }
    var joined := if current == [] then [start] else current;
    if start == end {
      parts' := parts;
      NoPart(points, w, parts, m, s);
    } else {
      var q := Part(m, start, end);
      parts' := parts + [q];
      OnePart(points, w, parts, m, s);
      NewestFragment(points, w, parts, q, clipped, joined);
    }
    hide IsShare;
    hide Fragments;
    hide VisibleTo;
  }

  lemma NewestFragment(points: seq<Point>, w: Window, parts: seq<Part>, q: Part, clipped: seq<seq<Point>>,
      joined: seq<Point>)
    requires joined != [] && joined[|joined| - 1] == q.a
    requires |joined| == 1 ==>
      clipped == Fragments(points, w, parts) && (parts == [] || Cut(points, w, parts[|parts| - 1].k, q.k))
    requires |joined| >= 2 ==>
      parts != [] && clipped + [joined] == Fragments(points, w, parts) && !Cut(points, w, parts[|parts| - 1].k, q.k)
    ensures clipped + [joined + [q.b]] == Fragments(points, w, parts + [q])
    ensures !Cut(points, w, q.k, q.k)
  {
    FragmentsShape(points, w, parts);
    assert (parts + [q])[..|parts|] == parts;
    if |joined| == 1 {
      assert joined + [q.b] == [q.a, q.b];
    } else {
      var before := clipped + [joined];
      assert before[..|before| - 1] == clipped && before[|before| - 1] == joined;
    }
  }

  /** The line goes on inside the window, or the fragment is finished there. */
  lemma VertexInside(points: seq<Point>, w: Window, parts: seq<Part>, m: nat, clipped: seq<seq<Point>>,
      current: seq<Point>, s: Share)
    requires m + 1 < |points| && IsShare(points[m], points[m + 1], w, s) && s.Inside? && InWindow(w, points[m + 1])
    requires Drawn(points, w, parts, m, clipped, current, Along(points[m], points[m + 1], s.u1))
    ensures Drawing(points, w, parts, m + 1, clipped, current)
  {
    AtEnd(points[m], points[m + 1], w, s);
    hide IsShare;
    hide Fragments;
    hide VisibleTo;
    hide InWindow;
    if parts != [] {
      CutLater(points, w, parts[|parts| - 1].k, m);
    }
  }

  lemma VertexOutside(points: seq<Point>, w: Window, parts: seq<Part>, m: nat, clipped: seq<seq<Point>>,
      current: seq<Point>, end: Point)
    requires m + 1 < |points| && !InWindow(w, points[m + 1]) && Drawn(points, w, parts, m, clipped, current, end)
    ensures Drawing(points, w, parts, m + 1, if |current| >= 2 then clipped + [current] else clipped, [])
  {
    if parts != [] {
      assert parts[|parts| - 1].k <= m;
      CutLater(points, w, parts[|parts| - 1].k, m);
    }
    hide Fragments;
    hide InWindow;
    hide Visible;
  }

  lemma LineEnds(points: seq<Point>, w: Window, parts: seq<Part>, m: nat, clipped: seq<seq<Point>>, current: seq<Point>)
    requires m + 1 == |points| && Drawing(points, w, parts, m, clipped, current)
    ensures VisibleTo(points, w, parts, m)
    ensures Fragments(points, w, parts) == if |current| >= 2 then clipped + [current] else clipped
  {}

  lemma NothingDrawn(points: seq<Point>, w: Window)
    requires |points| > 0
    ensures Drawing(points, w, [], 0, [], [])
  {}

  /** The result for a polyline: its visible parts of positive length, broken only where the line leaves
      the window at a vertex. Its steps from point to point are exactly those parts, each once and in order. */
  ghost predicate IsClipping(points: seq<Point>, w: Window, result: seq<seq<Point>>) {
    exists parts ::
      VisibleTo(points, w, parts, |points|) && result == Fragments(points, w, parts) && AllSteps(result) == Ends(parts)
  }

  method ClipWaterway(points: seq<Point>, w: Window) returns (clipped: seq<seq<Point>>)
    ensures IsClipping(points, w, clipped)
    ensures forall i :: 0 <= i < |clipped| ==> Line(w, clipped[i])
    ensures forall i, p :: 0 <= i < |clipped| && p in clipped[i] ==> w.minX <= p.x <= w.maxX && w.minY <= p.y <= w.maxY
  {
    hide *;
    clipped := [];
    if |points| < 2 {
      TooShort(points, w);
      PointsInside(w, clipped);
      return;
    }
    var current: seq<Point> := [];
    ghost var parts: seq<Part> := [];
    NothingDrawn(points, w);
    for index := 1 to |points|
      invariant Drawing(points, w, parts, index - 1, clipped, current)
    {
      var a, b := points[index - 1], points[index];
      var s := ClipSegment(a, b, w);
      if s.Outside? {
        Invisible(points, w, parts, index - 1, clipped, current);
        if |current| >= 2 {
          clipped := clipped + [current];
        }
        current := [];
      } else {
        var start, end := Along(a, b, s.u0), Along(a, b, s.u1);
        parts := PartDrawn(points, w, parts, index - 1, clipped, current, s);
        ghost var joined := if current == [] then [start] else current;
        if |current| == 0 || current[|current| - 1] != start {
          current := current + [start];
        }
        assert current == joined;
        if current[|current| - 1] != end {
          current := current + [end];
        }
        if !InWindow(w, b) {
          VertexOutside(points, w, parts, index - 1, clipped, current, end);
          if |current| >= 2 {
            clipped := clipped + [current];
          }
          current := [];
        } else {
          VertexInside(points, w, parts, index - 1, clipped, current, s);
        }
      }
    }
    LineEnds(points, w, parts, |points| - 1, clipped, current);
    if |current| >= 2 {
      clipped := clipped + [current];
    }
    Clipped(points, w, parts);
    PointsInside(w, clipped);
  }

  lemma PointsInside(w: Window, clipped: seq<seq<Point>>)
    requires forall i :: 0 <= i < |clipped| ==> Line(w, clipped[i])
    ensures forall i, p :: 0 <= i < |clipped| && p in clipped[i] ==> w.minX <= p.x <= w.maxX && w.minY <= p.y <= w.maxY
  {
    forall i, p | 0 <= i < |clipped| && p in clipped[i]
      ensures w.minX <= p.x <= w.maxX && w.minY <= p.y <= w.maxY
    {
      assert Line(w, clipped[i]);
      assert InWindow(w, p);
    }
  }

  lemma TooShort(points: seq<Point>, w: Window)
    requires |points| < 2
    ensures IsClipping(points, w, [])
  {
    assert VisibleTo(points, w, [], |points|);
    NothingToDraw(points, w);
    assert Fragments(points, w, []) == [];
  }

  lemma LastSegment(points: seq<Point>, w: Window, parts: seq<Part>)
    requires |points| > 0 && VisibleTo(points, w, parts, |points| - 1)
    ensures VisibleTo(points, w, parts, |points|)
    ensures forall i :: 0 <= i < |parts| ==> Visible(points, w, parts[i])
  {
    forall p | Visible(points, w, p)
      ensures p.k < |points| - 1
    {
      PartEnds(points, w, p);
    }
    hide Visible;
  }

  lemma Clipped(points: seq<Point>, w: Window, parts: seq<Part>)
    requires |points| > 0 && VisibleTo(points, w, parts, |points| - 1)
    ensures IsClipping(points, w, Fragments(points, w, parts))
    ensures forall i :: 0 <= i < |Fragments(points, w, parts)| ==> Line(w, Fragments(points, w, parts)[i])
  {
    hide Visible;
    hide VisibleTo;
    hide Fragments;
    hide AllSteps;
    LastSegment(points, w, parts);
    FragmentsInWindow(points, w, parts);
    StepsAreParts(points, w, parts, |points|);
  }
}
