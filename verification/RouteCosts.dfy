/** Query options and the cost of an edge under them (core/router.go), over exact reals. */
module RouteCosts {
  import opened Common

  datatype Objective = UnsetObjective | Distance | Duration | Economy

  datatype Engine = OtherEngine | AStar | Dijkstra | DijkstraNode

  /** The routing attributes an edge shares with others of its kind. */
  datatype Attributes = Attributes(speed: real, maxHeight: real, maxWeight: real, highway: string)

  datatype Edge = Edge(to: int, dist: real, attributes: Attributes)

  datatype ProfileDef = ProfileDef(
    objective: Objective, maxSpeed: real, allowed: Option<set<string>>, speedScale: real, leftTurn: real, uTurn: real)

  datatype Weights = Weights(
    leftTurn: real, rightTurn: real, uTurn: real, crossing: real, maxSpeed: real,
    vehicleHeight: real, vehicleWeight: real, noLeftTurn: bool, trafficLight: real)

  datatype Options = Options(
    engine: Engine, objective: Objective, profile: Option<ProfileDef>, weights: Weights, emergency: bool)

  /** What a route search answers. */
  datatype Outcome = Found(path: seq<int>, cost: real) | StartUnreachable | TargetUnreachable | NoPath

  function WithProfile(o: Options): Options {
    match o.profile
    case None => o
    case Some(def) =>
      var w := o.weights;
      o.(objective := if o.objective == UnsetObjective then def.objective else o.objective,
         weights := w.(
           maxSpeed := if w.maxSpeed <= 0.0 then def.maxSpeed else w.maxSpeed,
           leftTurn := if w.leftTurn == 0.0 && def.leftTurn > 0.0 then def.leftTurn else w.leftTurn,
           uTurn := if w.uTurn == 0.0 && def.uTurn > 0.0 then def.uTurn else w.uTurn))
  }

  /** Explicit settings first, then the profile's, then the fixed defaults. */
  function WithDefaults(o: Options): (r: Options)
    ensures r.weights.maxSpeed >= 5.0
    ensures r.objective != UnsetObjective && r.engine != OtherEngine
    ensures o.weights.maxSpeed >= 5.0 ==> r.weights.maxSpeed == o.weights.maxSpeed
  {
    var q := WithProfile(o);
    var speed := if q.weights.maxSpeed <= 0.0 then 130.0 else q.weights.maxSpeed;
    q.(engine := if q.engine == OtherEngine then AStar else q.engine,
       objective := if q.objective == UnsetObjective then Distance else q.objective,
       weights := q.weights.(maxSpeed := Max(speed, 5.0)))
  }

  function SpeedScale(o: Options): (scale: real)
    ensures 0.0 < scale <= 1.0
  {
    match o.profile
    case None => 1.0
    case Some(def) => if 0.0 < def.speedScale < 1.0 then def.speedScale else 1.0
  }

  /** The speed an edge without restrictions is assumed to allow. */
  function FreeFlowSpeed(speed: real): real {
    Max(3.0, if speed <= 0.0 then 50.0 else speed)
  }

  function EffectiveSpeed(o: Options, speed: real): (v: real)
    ensures v >= 3.0
    ensures v <= FreeFlowSpeed(speed)
    ensures o.weights.maxSpeed >= 3.0 ==> v <= o.weights.maxSpeed
  {
    var base := if speed <= 0.0 then 50.0 else speed;
    var scaled := base * SpeedScale(o);
    assert scaled <= base by { ScalingSlows(base, SpeedScale(o)); }
    var capped := if o.weights.maxSpeed > 0.0 && scaled > o.weights.maxSpeed then o.weights.maxSpeed else scaled;
    Max(3.0, capped)
  }

  lemma ScalingSlows(v: real, scale: real)
    requires v >= 0.0 && 0.0 <= scale <= 1.0
    ensures v * scale <= v
  {
    assert v - v * scale == v * (1.0 - scale);
  }

  function EmergencySpeed(speed: real): (v: real)
    ensures v >= 10.0
  {
    Max(10.0, (if speed <= 0.0 then 60.0 else speed) * 1.3)
  }

  function Square(x: real): (s: real)
    ensures s >= 0.0
  {
    x * x
  }

  predicate AttributesAllowed(o: Options, a: Attributes) {
    && !(o.weights.vehicleHeight > 0.0 && a.maxHeight > 0.0 && o.weights.vehicleHeight > a.maxHeight)
    && !(o.weights.vehicleWeight > 0.0 && a.maxWeight > 0.0 && o.weights.vehicleWeight > a.maxWeight)
    && (o.profile.None? || o.profile.value.allowed.None? || a.highway == ""
      || a.highway in o.profile.value.allowed.value)
  }

  /** The cost of travelling `dist` metres along an edge with the given attributes. */
  function BaseCost(o: Options, a: Attributes, dist: real): (cost: real) {
    if o.emergency then dist * 3.6 / EmergencySpeed(a.speed)
    else match o.objective
      case Duration => dist * 3.6 / EffectiveSpeed(o, a.speed)
      case Economy => dist / 1000.0 * (1.0 + 0.7 * Square(EffectiveSpeed(o, a.speed) / 100.0))
      case _ => dist
  }

  lemma QuotientNonNegative(x: real, y: real)
    requires x >= 0.0 && y > 0.0
    ensures x / y >= 0.0
  {}

  lemma ProductNonNegative(x: real, y: real)
    requires x >= 0.0 && y >= 0.0
    ensures x * y >= 0.0
  {}

  lemma BaseCostNonNegative(o: Options, a: Attributes, dist: real)
    requires dist >= 0.0
    ensures BaseCost(o, a, dist) >= 0.0
  {
    if o.emergency {
      QuotientNonNegative(dist * 3.6, EmergencySpeed(a.speed));
    } else if o.objective == Duration {
      QuotientNonNegative(dist * 3.6, EffectiveSpeed(o, a.speed));
    } else if o.objective == Economy {
      ProductNonNegative(dist / 1000.0, 1.0 + 0.7 * Square(EffectiveSpeed(o, a.speed) / 100.0));
    }
  }
}
