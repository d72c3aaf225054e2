/** The cost function of one trip request (`tripCosts` in cmd/tsp.go): leg prices are searched on demand and
    cached, one by one or by a pool of workers at once; a cancelled request gives no more prices. */
module TripCosts {
  import opened Common
  import opened TripPool
  import opened TripTours

  function AsCost(answer: Answer): Ext {
    match answer
    case Priced(Some(c)) => Fin(c)
    case _ => Inf
  }

  /** The prices as costs; a leg without a route costs `Inf`. */
  function CostsOf(price: Prices): Pricing {
    (from: int, to: int) => AsCost(Priced(price((from, to))))
  }

  lemma PriceIsCost(price: Prices, from: int, to: int)
    ensures CostsOf(price)(from, to) == AsCost(Priced(price((from, to))))
  {}

  lemma StillOk(price: Prices, cache: map<Leg, Answer>, before: bool, after: bool)
    requires CacheOk(price, cache, before) && (before ==> after)
    ensures CacheOk(price, cache, after)
  {}

  class Request {
    const price: Prices
    const workers: nat
    /** Whether the request is cancelled at this moment, at the latest. */
    const cancels: nat -> bool
    /** How a pool that is started at this moment runs. */
    const schedules: nat -> Schedule
    var time: nat
    var cancelled: bool
    var cache: map<Leg, Answer>

    ghost predicate Valid()
      reads this
    {
      workers > 0 && CacheOk(price, cache, cancelled)
    }

    constructor (price: Prices, workers: nat, cancels: nat -> bool, schedules: nat -> Schedule)
      requires workers > 0
      ensures Valid() && this.price == price && this.workers == workers && cache == map[] && !cancelled
    {
      this.price, this.workers, this.cancels, this.schedules := price, workers, cancels, schedules;
      time, cancelled, cache := 0, false, map[];
    }

    /** Asks whether the request is cancelled; once it is it stays so. */
    method Err() returns (gone: bool)
      requires Valid()
      modifies this`time, this`cancelled
      ensures Valid() && gone == cancelled && (old(cancelled) ==> cancelled)
    {
      time := time + 1;
      gone := cancelled || cancels(time);
      StillOk(price, cache, cancelled, gone);
      cancelled := gone;
    }

    /** The price from the cache or a search, or the excuse of a cancelled request. */
    method Cost(from: int, to: int) returns (answer: Answer)
      requires Valid()
      modifies this
      ensures Valid() && (old(cancelled) ==> cancelled)
      ensures RightAnswer(price, (from, to), answer, cancelled)
    {
      var gone := Err();
      if gone {
        return Aborted;
      }
      if (from, to) in cache {
        return cache[(from, to)];
      }
      gone := Err();
      answer := if gone && schedules(time).fails(time) then Aborted else Priced(price((from, to)));
      cache := cache[(from, to) := answer];
    }

    /** The prices of all legs, by the pool; nothing if the request is cancelled. */
    method All(legs: seq<Leg>) returns (answers: Option<seq<Answer>>)
      requires Valid()
      modifies this
      ensures Valid() && (old(cancelled) ==> cancelled) && (answers.Some? <==> !cancelled)
      ensures answers.Some? ==>
        |answers.value| == |legs| && forall k :: 0 <= k < |legs| ==> answers.value[k] == Priced(price(legs[k]))
    {
      hide CacheOk;
      var gone := Err();
      if gone {
        return None;
      }
      ghost var run;
      answers, cache, run := ParallelMap(legs, price, workers, cache, schedules(time));
      cancelled := answers.None?;
    }
  }
}
