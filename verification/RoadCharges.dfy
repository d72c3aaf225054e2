/** What the cost and the permission of an edge mean, said without the functions that compute them: speeds are
    the nearest ones within the limits, and costs are tied to speeds by products (core/router.go). */
module RoadCharges {
  import opened Common
  import opened RouteCosts

  // ---- Speeds ----

  /** The speed a vehicle would like to drive: the posted one, or 50, slowed down by its profile. */
  ghost predicate Wants(o: Options, posted: real, w: real) {
    var base := if posted > 0.0 then posted else 50.0;
    if o.profile.Some? && 0.0 < o.profile.value.speedScale < 1.0 then w == base * o.profile.value.speedScale
    else w == base
  }

  /** Nobody is assumed to be slower than 3 nor, beyond that, faster than the cap if there is one. */
  ghost predicate InLimits(o: Options, v: real) {
    v >= 3.0 && (o.weights.maxSpeed > 0.0 ==> v <= o.weights.maxSpeed || v == 3.0)
  }

  ghost function Gap(a: real, b: real): real {
    if a < b then b - a else a - b
  }

  /** The speed within the limits that is nearest to the wanted one. */
  ghost predicate Drives(o: Options, posted: real, v: real) {
    && InLimits(o, v)
    && exists w: real :: Wants(o, posted, w) && forall u: real :: InLimits(o, u) ==> Gap(v, w) <= Gap(u, w)
  }

  /** In an emergency 1.3 times the posted speed, or 60, but at least 10. */
  ghost predicate DrivesFast(posted: real, v: real) {
    var base := if posted > 0.0 then posted else 60.0;
    v >= 10.0 && v >= base * 1.3 && (v == 10.0 || v == base * 1.3)
  }

  // ---- Charges ----

  /** The economy cost of a distance in metres at a speed, times ten million: the square of the speed weighs in. */
  function EconomyUnits(d: real, v: real): real {
    d * (10000.0 + 0.7 * (v * v))
  }

  /** What an edge is charged: seconds when time counts, metres when distance does, and kilometres weighted by the
      square of the speed for economy. */
  ghost predicate Charge(o: Options, e: Edge, c: real) {
    if o.emergency then exists v: real :: DrivesFast(e.attributes.speed, v) && c * v == e.dist * 3.6
    else if o.objective == Duration then
      exists v: real :: Drives(o, e.attributes.speed, v) && c * v == e.dist * 3.6
    else if o.objective == Economy then
      exists v: real :: Drives(o, e.attributes.speed, v) && c * 10000000.0 == EconomyUnits(e.dist, v)
    else c == e.dist
  }

  /** Neither limit of the edge is below the vehicle, and its class is one the profile may use. */
  ghost predicate MayUse(o: Options, a: Attributes) {
    && (o.weights.vehicleHeight <= 0.0 || a.maxHeight <= 0.0 || a.maxHeight >= o.weights.vehicleHeight)
    && (o.weights.vehicleWeight <= 0.0 || a.maxWeight <= 0.0 || a.maxWeight >= o.weights.vehicleWeight)
    && (match o.profile
        case None => true
        case Some(def) => match def.allowed
          case None => true
          case Some(classes) => a.highway != "" ==> a.highway in classes)
  }

  lemma MayUseIsAllowed(o: Options, a: Attributes)
    ensures AttributesAllowed(o, a) <==> MayUse(o, a)
  {}

  // ---- The model computes exactly these ----

  lemma EffectiveSpeedIsDriven(o: Options, posted: real)
    ensures Drives(o, posted, EffectiveSpeed(o, posted))
  {
    var base := if posted > 0.0 then posted else 50.0;
    var v, w := EffectiveSpeed(o, posted), base * SpeedScale(o);
    assert Wants(o, posted, w);
    forall u: real | InLimits(o, u)
      ensures Gap(v, w) <= Gap(u, w)
    {}
  }

  /** There is only one such speed. */
  lemma OneSpeed(o: Options, posted: real, v: real)
    requires Drives(o, posted, v)
    ensures v == EffectiveSpeed(o, posted)
  {
    EffectiveSpeedIsDriven(o, posted);
    var e := EffectiveSpeed(o, posted);
    var w: real :| Wants(o, posted, w) && forall u: real :: InLimits(o, u) ==> Gap(v, w) <= Gap(u, w);
    assert Gap(v, w) <= Gap(e, w);
  }

  lemma QuotientTimes(x: real, v: real)
    requires v > 0.0
    ensures x / v * v == x
  {}

  lemma OneQuotient(c: real, v: real, x: real)
    requires v > 0.0 && c * v == x
    ensures c == x / v
  {
    assert x / v == c * v / v;
  }

  lemma EconomyFactor(d: real, v: real)
    ensures d / 1000.0 * (1.0 + 0.7 * Square(v / 100.0)) * 10000000.0 == EconomyUnits(d, v)
  {
    assert Square(v / 100.0) == v * v / 10000.0;
    var q := v * v;
    assert d / 1000.0 * (1.0 + 0.7 * (q / 10000.0)) * 10000000.0 == d * (10000.0 + 0.7 * q);
  }

  lemma EmergencyCharge(o: Options, e: Edge, c: real)
    requires o.emergency
    ensures Charge(o, e, c) <==> c == BaseCost(o, e.attributes, e.dist)
  {
    var v := EmergencySpeed(e.attributes.speed);
    QuotientTimes(e.dist * 3.6, v);
    assert DrivesFast(e.attributes.speed, v);
    if Charge(o, e, c) {
      var u: real :| DrivesFast(e.attributes.speed, u) && c * u == e.dist * 3.6;
      OneQuotient(c, u, e.dist * 3.6);
    }
  }

  lemma DurationCharge(o: Options, e: Edge, c: real)
    requires !o.emergency && o.objective == Duration
    ensures Charge(o, e, c) <==> c == BaseCost(o, e.attributes, e.dist)
  {
    hide EffectiveSpeed;
    hide Drives;
    var v := EffectiveSpeed(o, e.attributes.speed);
    EffectiveSpeedIsDriven(o, e.attributes.speed);
    QuotientTimes(e.dist * 3.6, v);
    if Charge(o, e, c) {
      var u: real :| Drives(o, e.attributes.speed, u) && c * u == e.dist * 3.6;
      OneSpeed(o, e.attributes.speed, u);
      OneQuotient(c, u, e.dist * 3.6);
    }
  }

  lemma EconomyCharge(o: Options, e: Edge, c: real)
    requires !o.emergency && o.objective == Economy
    ensures Charge(o, e, c) <==> c == BaseCost(o, e.attributes, e.dist)
  {
    hide EffectiveSpeed;
    hide Drives;
    hide Square;
    hide EconomyUnits;
    var v := EffectiveSpeed(o, e.attributes.speed);
    EffectiveSpeedIsDriven(o, e.attributes.speed);
    EconomyFactor(e.dist, v);
    assert Drives(o, e.attributes.speed, v);
    if Charge(o, e, c) {
      var u: real :| Drives(o, e.attributes.speed, u) && c * 10000000.0 == EconomyUnits(e.dist, u);
      OneSpeed(o, e.attributes.speed, u);
    }
  }

  /** The cost of an edge is what it is charged, and nothing else is. */
  lemma CostIsCharge(o: Options, e: Edge, c: real)
    ensures Charge(o, e, c) <==> c == BaseCost(o, e.attributes, e.dist)
  {
    if o.emergency {
      EmergencyCharge(o, e, c);
    } else if o.objective == Duration {
      DurationCharge(o, e, c);
    } else if o.objective == Economy {
      EconomyCharge(o, e, c);
    }
  }

  /** At a posted speed within the limits an edge takes exactly its distance over that speed; above the cap the
      cap counts; a profile that slows the vehicle down does so by its factor. */
  lemma PostedSpeedCounts(o: Options, a: Attributes, d: real)
    requires o.objective == Duration && !o.emergency && a.speed > 0.0 && o.weights.maxSpeed >= 3.0
    ensures o.profile.None? && 3.0 <= a.speed <= o.weights.maxSpeed ==> BaseCost(o, a, d) * a.speed == d * 3.6
    ensures o.profile.None? && a.speed > o.weights.maxSpeed ==> BaseCost(o, a, d) * o.weights.maxSpeed == d * 3.6
    ensures o.profile.Some? && 0.0 < o.profile.value.speedScale < 1.0
      ==> var w := a.speed * o.profile.value.speedScale;
          && (3.0 <= w <= o.weights.maxSpeed ==> BaseCost(o, a, d) * w == d * 3.6)
          && (w > o.weights.maxSpeed ==> BaseCost(o, a, d) * o.weights.maxSpeed == d * 3.6)
  {
    QuotientTimes(d * 3.6, EffectiveSpeed(o, a.speed));
  }

  // ---- Options ----

  /** Settings left open are filled from the profile; explicit ones stay. */
  lemma ProfileCounts(o: Options, def: ProfileDef)
    requires o.profile == Some(def)
    ensures o.objective == UnsetObjective && def.objective != UnsetObjective ==>
      WithDefaults(o).objective == def.objective
    ensures o.weights.maxSpeed <= 0.0 && def.maxSpeed >= 5.0 ==> WithDefaults(o).weights.maxSpeed == def.maxSpeed
    ensures o.weights.leftTurn == 0.0 && def.leftTurn > 0.0 ==> WithDefaults(o).weights.leftTurn == def.leftTurn
    ensures o.weights.uTurn == 0.0 && def.uTurn > 0.0 ==> WithDefaults(o).weights.uTurn == def.uTurn
  {}

  lemma ExplicitCounts(o: Options)
    ensures o.objective != UnsetObjective ==> WithDefaults(o).objective == o.objective
    ensures o.engine != OtherEngine ==> WithDefaults(o).engine == o.engine
    ensures o.weights.leftTurn != 0.0 ==> WithDefaults(o).weights.leftTurn == o.weights.leftTurn
    ensures o.weights.uTurn != 0.0 ==> WithDefaults(o).weights.uTurn == o.weights.uTurn
    ensures 0.0 < o.weights.maxSpeed < 5.0 ==> WithDefaults(o).weights.maxSpeed == 5.0
    ensures WithDefaults(o).profile == o.profile && WithDefaults(o).emergency == o.emergency
    ensures var (w, v) := (o.weights, WithDefaults(o).weights);
      && v.rightTurn == w.rightTurn && v.crossing == w.crossing && v.trafficLight == w.trafficLight
      && v.vehicleHeight == w.vehicleHeight && v.vehicleWeight == w.vehicleWeight && v.noLeftTurn == w.noLeftTurn
  {}

  lemma NothingGiven(o: Options)
    requires o.profile.None?
    ensures o.objective == UnsetObjective ==> WithDefaults(o).objective == Distance
    ensures o.engine == OtherEngine ==> WithDefaults(o).engine == AStar
    ensures o.weights.maxSpeed <= 0.0 ==> WithDefaults(o).weights.maxSpeed == 130.0
    ensures WithDefaults(o).weights.leftTurn == o.weights.leftTurn && WithDefaults(o).weights.uTurn == o.weights.uTurn
  {}
}
