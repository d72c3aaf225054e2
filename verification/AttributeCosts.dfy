/** The query-local, direct-mapped cache of attribute costs (core/router_attribute_cost.go). */
module AttributeCosts {
  import opened RouteCosts
  import GraphStore

  const CACHE_SIZE: nat := 64

  /** `tag` is the attribute index plus one, 0 an empty entry. */
  datatype Slot = Slot(tag: nat, allowed: bool, parameter: real)

  /** What the records of a store mean: the float64 behind each bit pattern. */
  type Float64 = nat -> real

  function AttributesOf(d: GraphStore.Store, f64: Float64, attribute: nat): Attributes
    requires attribute < |d.attributes| && d.attributes[attribute].class_ < |d.classes|
  {
    var a := d.attributes[attribute];
    Attributes(f64(a.speed), f64(a.height), f64(a.weight), d.classes[a.class_])
  }

  function ModeOf(o: Options): Objective {
    if o.emergency then Duration else o.objective
  }

  /** The decoded part of the cost: a speed, or the economy factor. */
  function ParameterOf(o: Options, a: Attributes): real {
    if o.emergency then EmergencySpeed(a.speed)
    else match o.objective
      case Duration => EffectiveSpeed(o, a.speed)
      case Economy => 1.0 + 0.7 * Square(EffectiveSpeed(o, a.speed) / 100.0)
      case _ => 0.0
  }

  function CachedCost(mode: Objective, parameter: real, distance: real): real
    requires mode == Duration ==> parameter > 0.0
  {
    match mode
    case Duration => distance * 3.6 / parameter
    case Economy => distance / 1000.0 * parameter
    case _ => distance
  }

  lemma CachedCostAgrees(o: Options, a: Attributes, distance: real)
    ensures ModeOf(o) == Duration ==> ParameterOf(o, a) > 0.0
    ensures CachedCost(ModeOf(o), ParameterOf(o, a), distance) == BaseCost(o, a, distance)
  {}

  ghost predicate SlotCorrect(o: Options, d: GraphStore.Store, f64: Float64, i: nat, s: Slot) {
    s.tag != 0 ==>
      && s.tag - 1 < |d.attributes| && (s.tag - 1) % CACHE_SIZE == i
      && d.attributes[s.tag - 1].class_ < |d.classes|
      && var a := AttributesOf(d, f64, s.tag - 1);
      && s.allowed == AttributesAllowed(o, a)
      && (s.allowed ==> s.parameter == ParameterOf(o, a))
  }

  class CompactRouteCosts {
    const options: Options
    const mode: Objective
    const d: GraphStore.Store
    const f64: Float64
    const slots: array<Slot>

    ghost predicate Valid()
      reads slots
    {
      && slots.Length == CACHE_SIZE && mode == ModeOf(options)
      && GraphStore.Readable(d)
      && forall i :: 0 <= i < CACHE_SIZE ==> SlotCorrect(options, d, f64, i, slots[i])
    }

    constructor (o: Options, d: GraphStore.Store, f64: Float64)
      requires GraphStore.Readable(d)
      ensures Valid() && fresh(slots) && options == o && this.d == d && this.f64 == f64
    {
      options, mode, this.d, this.f64 := o, ModeOf(o), d, f64;
      slots := new Slot[CACHE_SIZE](_ => Slot(0, false, 0.0));
    }

    /** Whatever the cache holds, the answer is that of the uncached evaluation. */
    method EdgeCost(attribute: nat, distance: real) returns (cost: real, allowed: bool)
      requires Valid() && attribute < |d.attributes|
      modifies slots
      ensures Valid()
      ensures d.attributes[attribute].class_ < |d.classes|
      ensures allowed == AttributesAllowed(options, AttributesOf(d, f64, attribute))
      ensures allowed ==> cost == BaseCost(options, AttributesOf(d, f64, attribute), distance)
    {
      hide EffectiveSpeed;
      hide EmergencySpeed;
      hide BaseCost;
      hide ParameterOf;
      hide AttributesAllowed;
      hide CachedCost;
      assert d.attributes[attribute] in d.attributes;
      var i := attribute % CACHE_SIZE;
      if slots[i].tag != attribute + 1 {
        var a := AttributesOf(d, f64, attribute);
        var ok := AttributesAllowed(options, a);
        slots[i] := Slot(attribute + 1, ok, if ok then ParameterOf(options, a) else 0.0);
      }
      var slot := slots[i];
      assert SlotCorrect(options, d, f64, i, slot) && slot.tag == attribute + 1;
      if !slot.allowed {
        return 0.0, false;
      }
      CachedCostAgrees(options, AttributesOf(d, f64, attribute), distance);
      return CachedCost(mode, slot.parameter, distance), true;
    }
  }
}
