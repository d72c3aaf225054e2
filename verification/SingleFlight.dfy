/** Sharing one download between all requests for the same tile, each of which may be cancelled on its
    own (cmd/tile_proxy.go). Every step below is one critical section of the cache's mutex, or something
    that happens outside it; a run interleaves the steps of any number of requests and downloads. */
module SingleFlight {
  import opened Common

  /** A download in progress or done. Its place in the table stands for the pointer. */
  datatype Flight<K, T> = Flight(key: K, waiters: int, cancelled: bool, finished: bool, result: Option<T>)

  datatype Shared<!K, T> = Shared(flights: map<K, nat>, table: seq<Flight<K, T>>, mem: map<K, T>)

  // ---- The critical sections ----

  /** Joins the registered flight of the key, or registers a new one. */
  function Join<K, T>(s: Shared<K, T>, key: K): (Shared<K, T>, nat)
    requires key in s.flights ==> s.flights[key] < |s.table|
  {
    if key in s.flights then
      var f := s.flights[key];
      (s.(table := s.table[f := s.table[f].(waiters := s.table[f].waiters + 1)]), f)
    else
      (s.(flights := s.flights[key := |s.table|], table := s.table + [Flight(key, 1, false, false, None)]), |s.table|)
  }

  /** A waiter goes; the last one cancels the flight and takes it out of the register. */
  function Leave<K, T>(s: Shared<K, T>, key: K, f: nat): Shared<K, T>
    requires f < |s.table|
  {
    var waiters := s.table[f].waiters - 1;
    if waiters == 0 then
      s.(table := s.table[f := s.table[f].(waiters := 0, cancelled := true)],
         flights := if key in s.flights && s.flights[key] == f then s.flights - {key} else s.flights)
    else
      s.(table := s.table[f := s.table[f].(waiters := waiters)])
  }

  /** The download is over: its result is published. */
  function Finish<K, T>(s: Shared<K, T>, key: K, f: nat, result: T): Shared<K, T>
    requires f < |s.table|
  {
    s.(table := s.table[f := s.table[f].(finished := true, result := Some(result))],
       flights := if key in s.flights && s.flights[key] == f then s.flights - {key} else s.flights)
  }

  /** After publishing, the download lets go of its context. */
  function Release<K, T>(s: Shared<K, T>, f: nat): Shared<K, T>
    requires f < |s.table|
  {
    s.(table := s.table[f := s.table[f].(cancelled := true)])
  }

  /** The cache as the code keeps it. */
  class TileCache<!K(==), T> {
    var flights: map<K, nat>
    var table: seq<Flight<K, T>>
    var mem: map<K, T>

    constructor ()
      ensures View() == Shared(map[], [], map[])
    {
      flights, table, mem := map[], [], map[];
    }

    function View(): Shared<K, T>
      reads this
    {
      Shared(flights, table, mem)
    }

    /** The first half of `loadTile`: a memory hit answers at once, otherwise the request waits on a flight. */
    method Enter(key: K, unexpired: bool) returns (hit: Option<T>, flight: nat)
      requires forall k :: k in flights ==> flights[k] < |table|
      modifies this
      ensures hit.Some? <==> old(key in mem) && unexpired
      ensures hit.Some? ==> View() == old(View()) && hit.value == old(mem[key])
      ensures hit.None? ==> (View(), flight) == Join(old(View()), key)
    {
      if key in mem && unexpired {
        return Some(mem[key]), 0;
      }
      hit := None;
      ghost var was := table;
      if key in flights {
        flight := flights[key];
      } else {
        flight := |table|;
        table := table + [Flight(key, 0, false, false, None)];
        flights := flights[key := flight];
      }
      table := table[flight := table[flight].(waiters := table[flight].waiters + 1)];
      assert key !in old(flights) ==> table == was + [Flight(key, 1, false, false, None)];
    }

    method LeaveTileFlight(key: K, flight: nat)
      requires flight < |table|
      modifies this
      ensures View() == Leave(old(View()), key, flight)
    {
      table := table[flight := table[flight].(waiters := table[flight].waiters - 1)];
      if table[flight].waiters == 0 {
        table := table[flight := table[flight].(cancelled := true)];
        if key in flights && flights[key] == flight {
          flights := flights - {key};
        }
      }
    }

    method FinishFill(key: K, flight: nat, result: T)
      requires flight < |table|
      modifies this
      ensures View() == Finish(old(View()), key, flight, result)
    {
      table := table[flight := table[flight].(result := Some(result))];
      if key in flights && flights[key] == flight {
        flights := flights - {key};
      }
      table := table[flight := table[flight].(finished := true)];
    }
  }

  // ---- Requests ----

  datatype Answer<T> = Failed | FromMemory(tile: T) | FromFlight(flight: nat, tile: T)

  /** Where a request is in `loadTile`. */
  datatype Phase<T> = Arrived | Waiting(flight: nat) | GivingUp(flight: nat) | Woken(flight: nat)
      | Answered(answer: Answer<T>)

  datatype Request<K, T> = Request(key: K, cancelled: bool, phase: Phase<T>)

  /** `fetched` is what the downloads have put into the memory: the data they are about to return. */
  datatype State<!K, T> = State(shared: Shared<K, T>, requests: seq<Request<K, T>>, fetched: map<nat, T>)

  /** The steps; `r` is a request, `f` a flight. */
  datatype Step<K, T> =
    | Arrive(key: K) | CancelRequest(r: nat) | Refuse(r: nat) | Hit(r: nat) | Enter(r: nat)
    | GiveUp(r: nat) | Wake(r: nat) | Go(r: nat)
    | Remember(f: nat, tile: T) | Expire(key: K) | Complete(f: nat, tile: T) | LetGo(f: nat)

  predicate OnFlight<T>(p: Phase<T>) {
    p.Waiting? || p.GivingUp? || p.Woken?
  }

  ghost predicate Enabled<K(!new), T(!new)>(s: State<K, T>, step: Step<K, T>) {
    match step
    case Arrive(_) => true
    case CancelRequest(r) => r < |s.requests|
    case Refuse(r) => r < |s.requests| && s.requests[r].phase == Arrived && s.requests[r].cancelled
    case Hit(r) => r < |s.requests| && s.requests[r].phase == Arrived && s.requests[r].key in s.shared.mem
    case Enter(r) => r < |s.requests| && s.requests[r].phase == Arrived
    case GiveUp(r) => r < |s.requests| && s.requests[r].phase.Waiting? && s.requests[r].cancelled
    case Wake(r) => r < |s.requests| && s.requests[r].phase.Waiting?
      && s.requests[r].phase.flight < |s.shared.table| && s.shared.table[s.requests[r].phase.flight].finished
    case Go(r) => r < |s.requests| && (s.requests[r].phase.GivingUp? || s.requests[r].phase.Woken?)
    case Remember(f, _) => f < |s.shared.table| && !s.shared.table[f].finished && f !in s.fetched
    case Expire(_) => true
    case Complete(f, tile) =>
      f < |s.shared.table| && !s.shared.table[f].finished && (f in s.fetched ==> tile == s.fetched[f])
    case LetGo(f) => f < |s.shared.table| && s.shared.table[f].finished
  }

  ghost predicate Indexed<K(!new), T>(s: State<K, T>) {
    && (forall k :: k in s.shared.flights ==> s.shared.flights[k] < |s.shared.table|)
    && forall r :: 0 <= r < |s.requests| && OnFlight(s.requests[r].phase) ==>
      s.requests[r].phase.flight < |s.shared.table|
  }

  ghost function Moved<K, T>(s: State<K, T>, r: nat, phase: Phase<T>): seq<Request<K, T>>
    requires r < |s.requests|
  {
    s.requests[r := s.requests[r].(phase := phase)]
  }

  /** What a woken request returns: the result its flight has published by then. */
  ghost function Outcome<K, T>(s: State<K, T>, r: nat): Answer<T>
    requires r < |s.requests| && OnFlight(s.requests[r].phase) && s.requests[r].phase.flight < |s.shared.table|
  {
    var f := s.requests[r].phase.flight;
    if s.requests[r].phase.GivingUp? || s.shared.table[f].result.None? then Failed
    else FromFlight(f, s.shared.table[f].result.value)
  }

  ghost function Apply<K(!new), T(!new)>(s: State<K, T>, step: Step<K, T>): State<K, T>
    requires Indexed(s) && Enabled(s, step)
  {
    match step
    case Arrive(key) => s.(requests := s.requests + [Request(key, false, Arrived)])
    case CancelRequest(r) => s.(requests := s.requests[r := s.requests[r].(cancelled := true)])
    case Refuse(r) => s.(requests := Moved(s, r, Answered(Failed)))
    case Hit(r) => s.(requests := Moved(s, r, Answered(FromMemory(s.shared.mem[s.requests[r].key]))))
    case Enter(r) =>
      var (shared, f) := Join(s.shared, s.requests[r].key);
      s.(shared := shared, requests := Moved(s, r, Waiting(f)))
    case GiveUp(r) => s.(requests := Moved(s, r, GivingUp(s.requests[r].phase.flight)))
    case Wake(r) => s.(requests := Moved(s, r, Woken(s.requests[r].phase.flight)))
    case Go(r) =>
      s.(shared := Leave(s.shared, s.requests[r].key, s.requests[r].phase.flight), requests :=
        Moved(s, r, Answered(Outcome(s, r))))
    case Remember(f, tile) =>
      s.(shared := s.shared.(mem := s.shared.mem[s.shared.table[f].key := tile]), fetched := s.fetched[f := tile])
    case Expire(key) => s.(shared := s.shared.(mem := s.shared.mem - {key}))
    case Complete(f, tile) => s.(shared := Finish(s.shared, s.shared.table[f].key, f, tile))
    case LetGo(f) => s.(shared := Release(s.shared, f))
  }

  // ---- The invariant ----

  ghost function Riders<K, T>(requests: seq<Request<K, T>>, f: nat): set<nat> {
    set r: nat | r < |requests| && OnFlight(requests[r].phase) && requests[r].phase.flight == f
  }

  /** A registered flight is running for its key: unfinished, uncancelled, and somebody waits for it. */
  ghost predicate Registered<K(!new), T>(s: Shared<K, T>) {
    forall k :: k in s.flights ==> IsRegistered(s, k)
  }

  ghost predicate IsRegistered<K, T>(s: Shared<K, T>, k: K)
    requires k in s.flights
  {
    var f := s.flights[k];
    f < |s.table| && s.table[f].key == k && !s.table[f].finished && !s.table[f].cancelled && s.table[f].waiters >= 1
  }

  ghost predicate FlightOk<K, T>(s: State<K, T>, f: nat)
    requires f < |s.shared.table|
  {
    var t := s.shared.table[f];
    && t.waiters == |Riders(s.requests, f)|
    && (t.waiters == 0 ==> t.cancelled)
    && (!t.finished && t.cancelled ==> t.waiters == 0)
    && (!t.finished && !t.cancelled ==> t.key in s.shared.flights && s.shared.flights[t.key] == f)
    && (t.finished <==> t.result.Some?)
  }

  ghost predicate RequestOk<K, T>(s: State<K, T>, r: nat)
    requires r < |s.requests|
  {
    var q := s.requests[r];
    match q.phase
    case Arrived => true
    case Waiting(f) => f < |s.shared.table| && s.shared.table[f].key == q.key
    case GivingUp(f) => f < |s.shared.table| && s.shared.table[f].key == q.key && q.cancelled
    case Woken(f) => f < |s.shared.table| && s.shared.table[f].key == q.key && s.shared.table[f].finished
    case Answered(Failed) => q.cancelled
    case Answered(FromMemory(_)) => true
    case Answered(FromFlight(f, tile)) =>
      f < |s.shared.table| && s.shared.table[f].key == q.key && s.shared.table[f].finished
        && s.shared.table[f].result == Some(tile)
  }

  ghost predicate Inv<K(!new), T(!new)>(s: State<K, T>) {
    && Registered(s.shared)
    && (forall f: nat :: f < |s.shared.table| ==> FlightOk(s, f))
    && (forall r: nat :: r < |s.requests| ==> RequestOk(s, r))
  }

  lemma InvIndexed<K(!new), T(!new)>(s: State<K, T>)
    requires Inv(s)
    ensures Indexed(s)
  {
    forall k | k in s.shared.flights
      ensures s.shared.flights[k] < |s.shared.table|
    {
      assert IsRegistered(s.shared, k);
    }
    forall r | 0 <= r < |s.requests| && OnFlight(s.requests[r].phase)
      ensures s.requests[r].phase.flight < |s.shared.table|
    {
      assert RequestOk(s, r);
    }
  }

  // ---- Every step keeps the invariant ----

  lemma SameRiders<K(!new), T(!new)>(requests: seq<Request<K, T>>, requests': seq<Request<K, T>>, f: nat)
    requires |requests| <= |requests'|
    requires forall r :: 0 <= r < |requests| ==>
      (OnFlight(requests'[r].phase) && requests'[r].phase.flight == f <==>
        OnFlight(requests[r].phase) && requests[r].phase.flight == f)
    requires forall r :: |requests| <= r < |requests'| ==> !OnFlight(requests'[r].phase)
    ensures Riders(requests', f) == Riders(requests, f)
  {}

  /** Steps that leave the shared part alone and do not move a request on or off a flight. */
  lemma QuietStep<K(!new), T(!new)>(s: State<K, T>, s': State<K, T>)
    requires Inv(s) && s'.shared == s.shared && |s.requests| <= |s'.requests|
    requires forall r :: 0 <= r < |s.requests| ==> QuietMove(s.requests[r].phase, s'.requests[r].phase)
    requires forall r :: |s.requests| <= r < |s'.requests| ==> !OnFlight(s'.requests[r].phase)
    requires forall r: nat :: r < |s'.requests| ==> RequestOk(s', r)
    ensures Inv(s')
  {
    forall f: nat | f < |s'.shared.table|
      ensures FlightOk(s', f)
    {
      assert FlightOk(s, f);
      SameRiders(s.requests, s'.requests, f);
    }
  }

  predicate QuietMove<T>(p: Phase<T>, p': Phase<T>) {
    (OnFlight(p) <==> OnFlight(p')) && (OnFlight(p) ==> p.flight == p'.flight)
  }

  lemma RequestStepKeeps<K(!new), T(!new)>(s: State<K, T>, step: Step<K, T>)
    requires Inv(s) && Indexed(s) && Enabled(s, step)
    requires step.Arrive? || step.CancelRequest? || step.Refuse? || step.Hit? || step.GiveUp? || step.Wake?
    ensures Inv(Apply(s, step))
  {
    hide FlightOk;
    hide Registered;
    var s' := Apply(s, step);
    forall r: nat | r < |s'.requests|
      ensures RequestOk(s', r)
    {
      if r < |s.requests| {
        assert RequestOk(s, r);
      }
    }
    QuietStep(s, s');
  }

  lemma MemoryStepKeeps<K(!new), T(!new)>(s: State<K, T>, step: Step<K, T>)
    requires Inv(s) && Indexed(s) && Enabled(s, step) && (step.Remember? || step.Expire?)
    ensures Inv(Apply(s, step))
  {
    var s' := Apply(s, step);
    forall k | k in s'.shared.flights
      ensures IsRegistered(s'.shared, k)
    {
      assert IsRegistered(s.shared, k);
    }
    forall f: nat | f < |s'.shared.table|
      ensures FlightOk(s', f)
    {
      assert FlightOk(s, f);
    }
    forall r: nat | r < |s'.requests|
      ensures RequestOk(s', r)
    {
      assert RequestOk(s, r);
    }
  }

  /** Finished flights are in no way registered, so publishing and letting go touch one flight only. */
  lemma FlightStepKeeps<K(!new), T(!new)>(s: State<K, T>, step: Step<K, T>)
    requires Inv(s) && Indexed(s) && Enabled(s, step) && (step.Complete? || step.LetGo?)
    ensures Inv(Apply(s, step))
  {
    var s' := Apply(s, step);
    var f := step.f;
    assert FlightOk(s, f);
    forall k | k in s'.shared.flights
      ensures IsRegistered(s'.shared, k)
    {
      assert IsRegistered(s.shared, k);
    }
    forall g: nat | g < |s'.shared.table|
      ensures FlightOk(s', g)
    {
      assert FlightOk(s, g);
    }
    forall r: nat | r < |s'.requests|
      ensures RequestOk(s', r)
    {
      assert RequestOk(s, r);
    }
  }

  lemma RidersGain<K(!new), T(!new)>(requests: seq<Request<K, T>>, r: nat, phase: Phase<T>, f: nat)
    requires r < |requests| && !OnFlight(requests[r].phase) && OnFlight(phase) && phase.flight == f
    ensures var requests' := requests[r := requests[r].(phase := phase)];
      && |Riders(requests', f)| == |Riders(requests, f)| + 1
      && forall g: nat :: g != f ==> Riders(requests', g) == Riders(requests, g)
  {
    var requests' := requests[r := requests[r].(phase := phase)];
    assert Riders(requests', f) == Riders(requests, f) + {r};
    forall g: nat | g != f
      ensures Riders(requests', g) == Riders(requests, g)
    {}
  }

  lemma RidersLose<K(!new), T(!new)>(requests: seq<Request<K, T>>, r: nat, phase: Phase<T>, f: nat)
    requires r < |requests| && OnFlight(requests[r].phase) && requests[r].phase.flight == f && !OnFlight(phase)
    ensures var requests' := requests[r := requests[r].(phase := phase)];
      && |Riders(requests, f)| == |Riders(requests', f)| + 1
      && forall g: nat :: g != f ==> Riders(requests', g) == Riders(requests, g)
  {
    var requests' := requests[r := requests[r].(phase := phase)];
    assert Riders(requests, f) == Riders(requests', f) + {r};
    forall g: nat | g != f
      ensures Riders(requests', g) == Riders(requests, g)
    {}
  }

  lemma NobodyOnNew<K(!new), T(!new)>(s: State<K, T>)
    requires Inv(s)
    ensures Riders(s.requests, |s.shared.table|) == {}
  {
    InvIndexed(s);
  }

  /** What is true of the other requests survives as long as flights keep their key and their result. */
  lemma OthersSurvive<K(!new), T(!new)>(s: State<K, T>, s': State<K, T>, r: nat)
    requires Inv(s) && |s'.requests| == |s.requests| && |s.shared.table| <= |s'.shared.table|
    requires forall q :: 0 <= q < |s.requests| && q != r ==> s'.requests[q] == s.requests[q]
    requires forall f :: 0 <= f < |s.shared.table| ==> Keeps(s.shared.table[f], s'.shared.table[f])
    ensures forall q: nat :: q < |s'.requests| && q != r ==> RequestOk(s', q)
  {
    hide Registered;
    hide FlightOk;
    forall q: nat | q < |s'.requests| && q != r
      ensures RequestOk(s', q)
    {
      assert RequestOk(s, q);
    }
  }

  predicate Keeps<K(==), T(==)>(t: Flight<K, T>, t': Flight<K, T>) {
    t'.key == t.key && t'.finished == t.finished && t'.result == t.result
  }

  lemma EnterKeeps<K(!new), T(!new)>(s: State<K, T>, r: nat)
    requires Inv(s) && Indexed(s) && Enabled(s, Step<K, T>.Enter(r))
    ensures Inv(Apply(s, Step<K, T>.Enter(r)))
  {
    var s' := Apply(s, Step<K, T>.Enter(r));
    var key := s.requests[r].key;
    var f := Join(s.shared, key).1;
    RidersGain(s.requests, r, Waiting(f), f);
    NobodyOnNew(s);
    if key in s.shared.flights {
      assert IsRegistered(s.shared, key);
    }
    forall k | k in s'.shared.flights
      ensures IsRegistered(s'.shared, k)
    {
      if k in s.shared.flights {
        assert IsRegistered(s.shared, k);
      }
    }
    forall g: nat | g < |s'.shared.table|
      ensures FlightOk(s', g)
    {
      if g < |s.shared.table| {
        assert FlightOk(s, g);
      }
    }
    hide FlightOk;
    OthersSurvive(s, s', r);
  }

  lemma GoKeeps<K(!new), T(!new)>(s: State<K, T>, r: nat)
    requires Inv(s) && Indexed(s) && Enabled(s, Step<K, T>.Go(r))
    ensures Inv(Apply(s, Step<K, T>.Go(r)))
  {
    var s' := Apply(s, Step<K, T>.Go(r));
    var f := s.requests[r].phase.flight;
    RidersLose(s.requests, r, Answered(Outcome(s, r)), f);
    assert RequestOk(s, r) && FlightOk(s, f);
    forall k | k in s'.shared.flights
      ensures IsRegistered(s'.shared, k)
    {
      assert IsRegistered(s.shared, k);
    }
    forall g: nat | g < |s'.shared.table|
      ensures FlightOk(s', g)
    {
      assert FlightOk(s, g);
    }
    hide FlightOk;
    OthersSurvive(s, s', r);
  }

  lemma StepKeepsInv<K(!new), T(!new)>(s: State<K, T>, step: Step<K, T>)
    requires Inv(s) && Indexed(s) && Enabled(s, step)
    ensures Inv(Apply(s, step)) && Indexed(Apply(s, step))
  {
    hide *;
    match step {
      case Enter(r) => EnterKeeps(s, r);
      case Go(r) => GoKeeps(s, r);
      case Complete(_, _) => FlightStepKeeps(s, step);
      case LetGo(_) => FlightStepKeeps(s, step);
      case Remember(_, _) => MemoryStepKeeps(s, step);
      case Expire(_) => MemoryStepKeeps(s, step);
      case _ => RequestStepKeeps(s, step);
    }
    InvIndexed(Apply(s, step));
  }

  // ---- What is in the memory ----

  /** A download of this key fetched the tile. */
  ghost predicate FetchedBy<K, T>(s: State<K, T>, f: nat, key: K, tile: T) {
    f < |s.shared.table| && s.shared.table[f].key == key && f in s.fetched && s.fetched[f] == tile
  }

  ghost predicate Fetched<K, T>(s: State<K, T>, key: K, tile: T) {
    exists f: nat :: FetchedBy(s, f, key, tile)
  }

  /** A download publishes what it fetched. */
  ghost predicate FetchOk<K, T>(s: State<K, T>, f: nat) {
    f < |s.shared.table| && f in s.fetched
      && (s.shared.table[f].finished ==> s.shared.table[f].result == Some(s.fetched[f]))
  }

  ghost predicate RecallOk<K, T>(s: State<K, T>, r: nat)
    requires r < |s.requests|
  {
    var q := s.requests[r];
    q.phase.Answered? && q.phase.answer.FromMemory? ==> Fetched(s, q.key, q.phase.answer.tile)
  }

  ghost predicate MemoryInv<K(!new), T(!new)>(s: State<K, T>) {
    && (forall f: nat :: f in s.fetched ==> FetchOk(s, f))
    && (forall k :: k in s.shared.mem ==> Fetched(s, k, s.shared.mem[k]))
    && (forall r: nat :: r < |s.requests| ==> RecallOk(s, r))
  }

  /** Downloads keep their key and what they fetched. */
  ghost predicate Grows<K(!new), T(!new)>(s: State<K, T>, s': State<K, T>) {
    && |s.shared.table| <= |s'.shared.table|
    && (forall f :: 0 <= f < |s.shared.table| ==> s'.shared.table[f].key == s.shared.table[f].key)
    && (forall f: nat :: f in s.fetched ==> f in s'.fetched && s'.fetched[f] == s.fetched[f])
  }

  lemma StaysFetched<K(!new), T(!new)>(s: State<K, T>, s': State<K, T>, key: K, tile: T)
    requires Grows(s, s') && Fetched(s, key, tile)
    ensures Fetched(s', key, tile)
  {
    var f: nat :| FetchedBy(s, f, key, tile);
    assert FetchedBy(s', f, key, tile);
  }

  lemma StepGrows<K(!new), T(!new)>(s: State<K, T>, step: Step<K, T>)
    requires Indexed(s) && Enabled(s, step)
    ensures Grows(s, Apply(s, step))
  {}

  lemma FetchStays<K(!new), T(!new)>(s: State<K, T>, step: Step<K, T>, f: nat)
    requires MemoryInv(s) && Indexed(s) && Enabled(s, step) && f in Apply(s, step).fetched
    ensures FetchOk(Apply(s, step), f)
  {
    if f in s.fetched {
      assert FetchOk(s, f);
    }
    hide RecallOk;
    hide Fetched;
  }

  lemma MemoryStays<K(!new), T(!new)>(s: State<K, T>, step: Step<K, T>, k: K)
    requires MemoryInv(s) && Indexed(s) && Enabled(s, step) && k in Apply(s, step).shared.mem
    ensures Fetched(Apply(s, step), k, Apply(s, step).shared.mem[k])
  {
    var s' := Apply(s, step);
    StepGrows(s, step);
    if step.Remember? && k == s.shared.table[step.f].key {
      assert FetchedBy(s', step.f, k, step.tile);
    } else {
      assert k in s.shared.mem && s'.shared.mem[k] == s.shared.mem[k];
      StaysFetched(s, s', k, s.shared.mem[k]);
    }
  }

  lemma RecallStays<K(!new), T(!new)>(s: State<K, T>, step: Step<K, T>, r: nat)
    requires MemoryInv(s) && Indexed(s) && Enabled(s, step) && r < |Apply(s, step).requests|
    ensures RecallOk(Apply(s, step), r)
  {
    var s' := Apply(s, step);
    StepGrows(s, step);
    var q := s'.requests[r];
    hide Grows;
    hide Fetched;
    if q.phase.Answered? && q.phase.answer.FromMemory? {
      if step.Hit? && step.r == r {
        assert q.key == s.requests[r].key && q.phase.answer.tile == s.shared.mem[q.key];
      } else {
        assert r < |s.requests| && s.requests[r].phase == q.phase && s.requests[r].key == q.key;
        assert RecallOk(s, r);
      }
      StaysFetched(s, s', q.key, q.phase.answer.tile);
    }
  }

  /** Every step keeps: what is in memory, and what was answered from it, was fetched by a download of that key. */
  lemma StepKeepsMemory<K(!new), T(!new)>(s: State<K, T>, step: Step<K, T>)
    requires MemoryInv(s) && Indexed(s) && Enabled(s, step)
    ensures MemoryInv(Apply(s, step))
  {
    hide FetchOk;
    hide Fetched;
    hide RecallOk;
    hide Apply;
    hide Enabled;
    hide Indexed;
    var s' := Apply(s, step);
    forall f: nat | f in s'.fetched
      ensures FetchOk(s', f)
    {
      FetchStays(s, step, f);
    }
    forall k | k in s'.shared.mem
      ensures Fetched(s', k, s'.shared.mem[k])
    {
      MemoryStays(s, step, k);
    }
    forall r: nat | r < |s'.requests|
      ensures RecallOk(s', r)
    {
      RecallStays(s, step, r);
    }
  }

  // ---- Whole runs ----

  ghost predicate Next<K(!new), T(!new)>(s: State<K, T>, s': State<K, T>) {
    Indexed(s) && exists step :: Enabled(s, step) && s' == Apply(s, step)
  }

  /** A run from the empty cache, in any interleaving. */
  ghost predicate IsRun<K(!new), T(!new)>(run: seq<State<K, T>>) {
    && |run| > 0 && run[0] == State(Shared(map[], [], map[]), [], map[])
    && forall i :: 0 <= i < |run| - 1 ==> Next(run[i], run[i + 1])
  }

  lemma {:induction false} RunKeepsInv<K(!new), T(!new)>(run: seq<State<K, T>>, i: nat)
    requires IsRun(run) && i < |run|
    ensures Inv(run[i]) && Indexed(run[i])
  {
    if i > 0 {
      RunKeepsInv(run, i - 1);
      assert Next(run[i - 1], run[i - 1 + 1]);
      var step :| Enabled(run[i - 1], step) && run[i] == Apply(run[i - 1], step);
      StepKeepsInv(run[i - 1], step);
    }
  }

  lemma {:induction false} RunKeepsMemory<K(!new), T(!new)>(run: seq<State<K, T>>, i: nat)
    requires IsRun(run) && i < |run|
    ensures MemoryInv(run[i])
  {
    hide Apply;
    hide Enabled;
    hide Indexed;
    if i > 0 {
      var k := i - 1;
      RunKeepsMemory(run, k);
      assert Next(run[k], run[k + 1]);
      var step :| Enabled(run[k], step) && run[i] == Apply(run[k], step);
      StepKeepsMemory(run[k], step);
    }
  }

  /** At most one download per tile is running and not cancelled. */
  lemma OneDownload<K(!new), T(!new)>(run: seq<State<K, T>>, i: nat, f: nat, g: nat)
    requires IsRun(run) && i < |run|
    requires f < |run[i].shared.table| && g < |run[i].shared.table|
    requires run[i].shared.table[f].key == run[i].shared.table[g].key
    requires var t, u := run[i].shared.table[f], run[i].shared.table[g];
      !t.finished && !t.cancelled && !u.finished && !u.cancelled
    ensures f == g
  {
    RunKeepsInv(run, i);
    assert FlightOk(run[i], f) && FlightOk(run[i], g);
  }

  /** A running download is cancelled exactly when nobody waits for it any more: one request giving up
      never cancels the download of the others. */
  lemma CancelledWhenAlone<K(!new), T(!new)>(run: seq<State<K, T>>, i: nat, f: nat)
    requires IsRun(run) && i < |run| && f < |run[i].shared.table| && !run[i].shared.table[f].finished
    ensures run[i].shared.table[f].cancelled <==> Riders(run[i].requests, f) == {}
  {
    RunKeepsInv(run, i);
    assert FlightOk(run[i], f);
  }

  /** A waiting request waits for the download registered for its tile, or for one that is done. */
  lemma NobodyForgotten<K(!new), T(!new)>(run: seq<State<K, T>>, i: nat, r: nat)
    requires IsRun(run) && i < |run| && r < |run[i].requests| && run[i].requests[r].phase.Waiting?
    ensures var s, f := run[i].shared, run[i].requests[r].phase.flight;
      && f < |s.table|
      && (s.table[f].finished
        || (run[i].requests[r].key in s.flights && s.flights[run[i].requests[r].key] == f && !s.table[f].cancelled))
  {
    RunKeepsInv(run, i);
    var f := run[i].requests[r].phase.flight;
    assert RequestOk(run[i], r) && FlightOk(run[i], f);
    assert r in Riders(run[i].requests, f);
  }

  /** The tile was fetched by a download of the key, and is what that download publishes. */
  ghost predicate Source<K, T>(s: State<K, T>, f: nat, key: K, tile: T) {
    FetchedBy(s, f, key, tile) && (s.shared.table[f].finished ==> s.shared.table[f].result == Some(tile))
  }

  /** A request answered by a download got the published result of a download of its own tile. One answered
      from memory got what a download of its own tile fetched, which is what that download publishes. One
      that failed had been cancelled itself. */
  lemma AnswersAreRight<K(!new), T(!new)>(run: seq<State<K, T>>, i: nat, r: nat)
    requires IsRun(run) && i < |run| && r < |run[i].requests| && run[i].requests[r].phase.Answered?
    ensures var (table, key) := (run[i].shared.table, run[i].requests[r].key);
      match run[i].requests[r].phase.answer
      case Failed => run[i].requests[r].cancelled
      case FromMemory(tile) => exists f: nat :: Source(run[i], f, key, tile)
      case FromFlight(f, tile) =>
        f < |table| && table[f].finished && table[f].key == key && table[f].result == Some(tile)
  {
    RunKeepsInv(run, i);
    RunKeepsMemory(run, i);
    assert RequestOk(run[i], r) && RecallOk(run[i], r);
    hide IsRun;
    hide Inv;
    if run[i].requests[r].phase.answer.FromMemory? {
      var f: nat :| FetchedBy(run[i], f, run[i].requests[r].key, run[i].requests[r].phase.answer.tile);
      assert FetchOk(run[i], f);
      assert Source(run[i], f, run[i].requests[r].key, run[i].requests[r].phase.answer.tile);
    }
  }

  /** Leaving an older flight never takes a newer one out of the register. */
  lemma OldWaitersLeaveNewer<K(!new), T(!new)>(s: State<K, T>, r: nat, k: K)
    requires Inv(s) && Indexed(s) && Enabled(s, Step<K, T>.Go(r)) && k in s.shared.flights
    requires s.shared.flights[k] != s.requests[r].phase.flight
    ensures var s' := Apply(s, Step<K, T>.Go(r));
      k in s'.shared.flights && s'.shared.flights[k] == s.shared.flights[k]
      && !s'.shared.table[s.shared.flights[k]].cancelled
      && s'.shared.table[s.shared.flights[k]].waiters == s.shared.table[s.shared.flights[k]].waiters
  {
    assert IsRegistered(s.shared, k);
  }

  /** After the last waiter has gone, the next request for the tile starts over with a fresh download. */
  lemma AbandonedMeansFresh<K(!new), T(!new)>(s: State<K, T>, r: nat, q: nat)
    requires Inv(s) && Indexed(s) && Enabled(s, Step<K, T>.Go(r))
    requires Riders(s.requests, s.requests[r].phase.flight) == {r}
    requires q != r && Enabled(s, Step<K, T>.Enter(q)) && s.requests[q].key == s.requests[r].key
    requires !s.shared.table[s.requests[r].phase.flight].finished
    ensures var s' := Apply(s, Step<K, T>.Go(r));
      && Enabled(s', Step<K, T>.Enter(q)) && Indexed(s')
      && var s'' := Apply(s', Step<K, T>.Enter(q));
         && s''.requests[q].phase == Waiting(|s.shared.table|)
         && s''.shared.table[|s.shared.table|] == Flight(s.requests[q].key, 1, false, false, None)
  {
    var f := s.requests[r].phase.flight;
    assert FlightOk(s, f) && RequestOk(s, r);
    assert s.shared.table[f].waiters == 1;
    StepKeepsInv(s, Step<K, T>.Go(r));
  }

  /** What a request was answered never changes, and neither does a published result. */
  lemma PublishedIsFinal<K(!new), T(!new)>(s: State<K, T>, step: Step<K, T>, f: nat, r: nat)
    requires Inv(s) && Indexed(s) && Enabled(s, step)
    ensures f < |s.shared.table| && s.shared.table[f].finished ==>
      && f < |Apply(s, step).shared.table|
      && Apply(s, step).shared.table[f].result == s.shared.table[f].result && Apply(s, step).shared.table[f].finished
    ensures r < |s.requests| && s.requests[r].phase.Answered? ==>
      r < |Apply(s, step).requests| && Apply(s, step).requests[r].phase == s.requests[r].phase
  {}
}
