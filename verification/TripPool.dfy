/** Pricing legs in parallel (`parallelMap` with the cost function of `tripCosts` in cmd/tsp.go): workers take
    job numbers from an atomic counter and share a cache of leg prices, which they read and write under a
    lock but search outside of it. Every atomic action is one step; any interleaving is allowed. */
module TripPool {
  import opened Common

  /** A directed leg between two nodes. */
  type Leg = (int, int)

  /** What a leg costs; none when no route exists. */
  type Prices = Leg -> Option<real>

  /** The outcome of a cost call: the price, or the error of a cancelled request. */
  datatype Answer = Priced(price: Option<real>) | Aborted

  datatype Worker =
    | Ready
    | Checked                             // has seen that the request goes on
    | Claimed(job: nat)                   // took a job number
    | Searching(job: nat)                 // missed the cache
    | Answered(job: nat, answer: Answer)
    | Stopped

  datatype Pool =
      Pool(next: nat, workers: seq<Worker>, cache: map<Leg, Answer>, results: seq<Option<Answer>>, cancelled: bool)

  /** All workers ready, and the answers that earlier calls left in the cache. */
  function Initial(jobs: nat, workers: nat, known: map<Leg, Answer>): Pool {
    Pool(0, seq(workers, _ => Ready), known, seq(jobs, _ => None), false)
  }

  // ---- Steps ----

  ghost predicate Check(a: Pool, b: Pool, w: nat)
    requires w < |a.workers|
  {
    a.workers[w].Ready? && b == a.(workers := a.workers[w := if a.cancelled then Stopped else Checked])
  }

  /** Takes the next number; past the last job the worker stops. */
  ghost predicate Claim(legs: seq<Leg>, a: Pool, b: Pool, w: nat)
    requires w < |a.workers|
  {
    && a.workers[w].Checked?
    && b == a.(next := a.next + 1, workers := a.workers[w := if a.next >= |legs| then Stopped else Claimed(a.next)])
  }

  ghost predicate LookUp(legs: seq<Leg>, a: Pool, b: Pool, w: nat)
    requires w < |a.workers|
  {
    && a.workers[w].Claimed? && a.workers[w].job < |legs|
    && var job := a.workers[w].job;
       b == a.(workers := a.workers[w :=
         if a.cancelled then Answered(job, Aborted)
         else if legs[job] in a.cache then Answered(job, a.cache[legs[job]])
         else Searching(job)])
  }

  ghost predicate SearchGives(legs: seq<Leg>, price: Prices, a: Pool, b: Pool, w: nat, answer: Answer)
    requires w < |a.workers|
  {
    && a.workers[w].Searching? && a.workers[w].job < |legs|
    && var (job, leg) := (a.workers[w].job, legs[a.workers[w].job]);
       && RightAnswer(price, leg, answer, a.cancelled)
       && b == a.(workers := a.workers[w := Answered(job, answer)], cache := a.cache[leg := answer])
  }

  /** The search ends: with the price, or with an error if the request was cancelled meanwhile. Either
      outcome is cached. */
  ghost predicate Search(legs: seq<Leg>, price: Prices, a: Pool, b: Pool, w: nat)
    requires w < |a.workers|
  {
    exists answer: Answer :: SearchGives(legs, price, a, b, w, answer)
  }

  ghost predicate Store(a: Pool, b: Pool, w: nat)
    requires w < |a.workers|
  {
    && a.workers[w].Answered? && a.workers[w].job < |a.results|
    && b == a.(workers := a.workers[w := Ready], results := a.results[a.workers[w].job := Some(a.workers[w].answer)])
  }

  ghost predicate Works(legs: seq<Leg>, price: Prices, a: Pool, b: Pool, w: nat) {
    && w < |a.workers|
    && (Check(a, b, w) || Claim(legs, a, b, w) || LookUp(legs, a, b, w) || Search(legs, price, a, b, w)
      || Store(a, b, w))
  }

  ghost predicate Next(legs: seq<Leg>, price: Prices, a: Pool, b: Pool) {
    b == a.(cancelled := true) || exists w: nat :: Works(legs, price, a, b, w)
  }

  // ---- The invariant ----

  predicate HasJob(w: Worker, job: nat) {
    (w.Claimed? || w.Searching? || w.Answered?) && w.job == job
  }

  /** Right, or the excuse of a cancelled request. */
  predicate RightAnswer(price: Prices, leg: Leg, answer: Answer, cancelled: bool) {
    answer == Priced(price(leg)) || (answer == Aborted && cancelled)
  }

  /** A worker's job is its own, is not delivered yet and bears a right answer if any; a worker stops
      only for a reason. */
  ghost predicate WorkerOk(legs: seq<Leg>, price: Prices, p: Pool, w: nat)
    requires w < |p.workers| && |p.results| == |legs|
  {
    match p.workers[w]
    case Ready => true
    case Checked => true
    case Claimed(job) => job < |legs| && job < p.next && p.results[job].None?
    case Searching(job) => job < |legs| && job < p.next && p.results[job].None?
    case Answered(job, answer) =>
      job < |legs| && job < p.next && p.results[job].None? && RightAnswer(price, legs[job], answer, p.cancelled)
    case Stopped => p.cancelled || p.next >= |legs|
  }

  ghost predicate Apart(p: Pool, v: nat, w: nat)
    requires v < |p.workers| && w < |p.workers|
  {
    forall job: nat :: !(HasJob(p.workers[v], job) && HasJob(p.workers[w], job))
  }

  ghost predicate InWork(p: Pool, job: nat) {
    exists w: nat :: w < |p.workers| && HasJob(p.workers[w], job)
  }

  /** A job that was handed out is delivered with a right answer or in work; the others are untouched. */
  ghost predicate JobOk(legs: seq<Leg>, price: Prices, p: Pool, job: nat)
    requires job < |legs| == |p.results|
  {
    match p.results[job]
    case Some(answer) => job < p.next && RightAnswer(price, legs[job], answer, p.cancelled)
    case None => job < p.next ==> InWork(p, job)
  }

  ghost predicate CacheOk(price: Prices, cache: map<Leg, Answer>, cancelled: bool) {
    forall leg :: leg in cache ==> RightAnswer(price, leg, cache[leg], cancelled)
  }

  ghost predicate Inv(legs: seq<Leg>, price: Prices, p: Pool) {
    && |p.results| == |legs|
    && CacheOk(price, p.cache, p.cancelled)
    && (forall w: nat :: w < |p.workers| ==> WorkerOk(legs, price, p, w))
    && (forall v: nat, w: nat :: v < w < |p.workers| ==> Apart(p, v, w))
    && (forall job: nat :: job < |legs| ==> JobOk(legs, price, p, job))
  }

  lemma InitialInv(legs: seq<Leg>, price: Prices, workers: nat, known: map<Leg, Answer>)
    requires CacheOk(price, known, false)
    ensures Inv(legs, price, Initial(|legs|, workers, known))
  {}

  // ---- Every step keeps it ----

  /** Jobs that other workers hold stay in work. */
  lemma OthersGoOn(p: Pool, b: Pool, w: nat, job: nat)
    requires w < |p.workers| && InWork(p, job) && |b.workers| == |p.workers|
    requires forall v: nat :: v < |p.workers| && v != w ==> b.workers[v] == p.workers[v]
    requires HasJob(p.workers[w], job) ==> HasJob(b.workers[w], job)
    ensures InWork(b, job)
  {
    var v: nat :| v < |p.workers| && HasJob(p.workers[v], job);
    assert HasJob(b.workers[v], job);
  }

  lemma CancelKeeps(legs: seq<Leg>, price: Prices, a: Pool, b: Pool)
    requires Inv(legs, price, a) && b == a.(cancelled := true)
    ensures Inv(legs, price, b)
  {
    forall w: nat | w < |b.workers|
      ensures WorkerOk(legs, price, b, w)
    {
      assert WorkerOk(legs, price, a, w);
    }
    forall v: nat, w: nat | v < w < |b.workers|
      ensures Apart(b, v, w)
    {
      assert Apart(a, v, w);
    }
    forall job: nat | job < |legs|
      ensures JobOk(legs, price, b, job)
    {
      assert JobOk(legs, price, a, job);
      if InWork(a, job) {
        var v: nat :| v < |a.workers| && HasJob(a.workers[v], job);
        assert HasJob(b.workers[v], job);
      }
    }
  }

  /** A step of worker `w` that claims no job and delivers none. */
  lemma PrivateStep(legs: seq<Leg>, price: Prices, a: Pool, b: Pool, w: nat)
    requires Inv(legs, price, a) && w < |a.workers| == |b.workers|
    requires b.results == a.results && b.cancelled == a.cancelled && b.next >= a.next
    requires forall v: nat :: v < |a.workers| && v != w ==> b.workers[v] == a.workers[v]
    requires forall job: nat :: HasJob(b.workers[w], job) == HasJob(a.workers[w], job)
    requires b.next == a.next || a.next >= |legs|
    requires CacheOk(price, b.cache, b.cancelled) && WorkerOk(legs, price, b, w)
    ensures Inv(legs, price, b)
  {
    forall v: nat | v < |b.workers|
      ensures WorkerOk(legs, price, b, v)
    {
      assert WorkerOk(legs, price, a, v);
    }
    forall v: nat, u: nat | v < u < |b.workers|
      ensures Apart(b, v, u)
    {
      assert Apart(a, v, u);
    }
    hide CacheOk;
    hide WorkerOk;
    hide Apart;
    hide HasJob;
    forall job: nat | job < |legs|
      ensures JobOk(legs, price, b, job)
    {
      assert JobOk(legs, price, a, job);
      if InWork(a, job) {
        OthersGoOn(a, b, w, job);
      }
    }
  }

  lemma ClaimKeeps(legs: seq<Leg>, price: Prices, a: Pool, b: Pool, w: nat)
    requires Inv(legs, price, a) && w < |a.workers| && Claim(legs, a, b, w) && a.next < |legs|
    ensures Inv(legs, price, b)
  {
    assert JobOk(legs, price, a, a.next);
    forall v: nat | v < |b.workers|
      ensures WorkerOk(legs, price, b, v)
    {
      assert WorkerOk(legs, price, a, v);
    }
    forall v: nat, u: nat | v < u < |b.workers|
      ensures Apart(b, v, u)
    {
      assert Apart(a, v, u) && WorkerOk(legs, price, a, v) && WorkerOk(legs, price, a, u);
    }
    forall job: nat | job < |legs|
      ensures JobOk(legs, price, b, job)
    {
      assert JobOk(legs, price, a, job);
      if job == a.next {
        assert HasJob(b.workers[w], job);
      } else if InWork(a, job) {
        OthersGoOn(a, b, w, job);
      }
    }
  }

  lemma StoreKeeps(legs: seq<Leg>, price: Prices, a: Pool, b: Pool, w: nat)
    requires Inv(legs, price, a) && w < |a.workers| && Store(a, b, w)
    ensures Inv(legs, price, b)
  {
    assert WorkerOk(legs, price, a, w);
    var done := a.workers[w].job;
    forall v: nat | v < |b.workers|
      ensures WorkerOk(legs, price, b, v)
    {
      assert WorkerOk(legs, price, a, v);
      if v != w {
        assert if v < w then Apart(a, v, w) else Apart(a, w, v);
        assert HasJob(a.workers[w], done);
      }
    }
    forall v: nat, u: nat | v < u < |b.workers|
      ensures Apart(b, v, u)
    {
      assert Apart(a, v, u);
    }
    forall job: nat | job < |legs|
      ensures JobOk(legs, price, b, job)
    {
      assert JobOk(legs, price, a, job);
      if job != done && InWork(a, job) {
        OthersGoOn(a, b, w, job);
      }
    }
  }

  lemma SearchCaches(legs: seq<Leg>, price: Prices, a: Pool, b: Pool, w: nat)
    requires Inv(legs, price, a) && w < |a.workers| && Search(legs, price, a, b, w)
    ensures CacheOk(price, b.cache, b.cancelled) && WorkerOk(legs, price, b, w)
  {
    assert WorkerOk(legs, price, a, w);
  }

  lemma WorkKeeps(legs: seq<Leg>, price: Prices, a: Pool, b: Pool, w: nat)
    requires Inv(legs, price, a) && Works(legs, price, a, b, w)
    ensures Inv(legs, price, b)
  {
    hide Inv;
    hide Store;
    hide Search;
    if Store(a, b, w) {
      StoreKeeps(legs, price, a, b, w);
    } else if Claim(legs, a, b, w) && a.next < |legs| {
      ClaimKeeps(legs, price, a, b, w);
    } else {
      WorkerOfInv(legs, price, a, w);
      if Search(legs, price, a, b, w) {
        SearchCaches(legs, price, a, b, w);
        SearchParts(legs, price, a, b, w);
      }
      PrivateStep(legs, price, a, b, w);
    }
  }

  lemma WorkerOfInv(legs: seq<Leg>, price: Prices, p: Pool, w: nat)
    requires Inv(legs, price, p) && w < |p.workers|
    ensures |p.results| == |legs| && WorkerOk(legs, price, p, w) && CacheOk(price, p.cache, p.cancelled)
  {}

  lemma SearchParts(legs: seq<Leg>, price: Prices, a: Pool, b: Pool, w: nat)
    requires w < |a.workers| && Search(legs, price, a, b, w)
    ensures |b.workers| == |a.workers| && b.results == a.results && b.cancelled == a.cancelled && b.next == a.next
    ensures forall v: nat :: v < |a.workers| && v != w ==> b.workers[v] == a.workers[v]
    ensures forall job: nat :: HasJob(b.workers[w], job) == HasJob(a.workers[w], job)
  {}

  lemma StepKeepsInv(legs: seq<Leg>, price: Prices, a: Pool, b: Pool)
    requires Inv(legs, price, a) && Next(legs, price, a, b)
    ensures Inv(legs, price, b)
  {
    hide Inv;
    hide Works;
    if b == a.(cancelled := true) {
      CancelKeeps(legs, price, a, b);
    } else {
      var w: nat :| Works(legs, price, a, b, w);
      WorkKeeps(legs, price, a, b, w);
    }
  }

  /** A run: any number of steps from the start of `workers` workers. */
  ghost predicate Run(legs: seq<Leg>, price: Prices, workers: nat, known: map<Leg, Answer>, run: seq<Pool>) {
    && |run| > 0 && run[0] == Initial(|legs|, workers, known)
    && forall i :: 0 <= i < |run| - 1 ==> Next(legs, price, run[i], run[i + 1])
  }

  lemma {:induction false} RunKeepsInv(legs: seq<Leg>, price: Prices, workers: nat, known: map<Leg, Answer>,
      run: seq<Pool>, i: nat)
    requires CacheOk(price, known, false)
    requires Run(legs, price, workers, known, run) && i < |run|
    ensures Inv(legs, price, run[i]) && |run[i].workers| == workers
  {
    hide Inv;
    if i == 0 {
      InitialInv(legs, price, workers, known);
    } else {
      RunKeepsInv(legs, price, workers, known, run, i - 1);
      var k := i - 1;
      assert Next(legs, price, run[k], run[k + 1]);
      StepKeepsInv(legs, price, run[k], run[i]);
      SameWorkers(legs, price, run[k], run[i]);
    }
  }

  lemma SameWorkers(legs: seq<Leg>, price: Prices, a: Pool, b: Pool)
    requires Next(legs, price, a, b)
    ensures |b.workers| == |a.workers| && (a.cancelled ==> b.cancelled)
  {}

  ghost predicate AllStopped(p: Pool) {
    forall w: nat :: w < |p.workers| ==> p.workers[w].Stopped?
  }

  /** When every worker has stopped and the request was not cancelled, each job has its price at its own
      place, whatever the interleaving and however often a leg was searched twice. */
  lemma AllPriced(legs: seq<Leg>, price: Prices, workers: nat, known: map<Leg, Answer>, run: seq<Pool>)
    requires CacheOk(price, known, false)
    requires Run(legs, price, workers, known, run) && workers > 0
    requires var p := run[|run| - 1]; AllStopped(p) && !p.cancelled
    ensures var p := run[|run| - 1];
      |p.results| == |legs| && forall job :: 0 <= job < |legs| ==> p.results[job] == Some(Priced(price(legs[job])))
  {
    var last := |run| - 1;
    RunKeepsInv(legs, price, workers, known, run, last);
    var p := run[last];
    hide Run;
    assert p.workers[0].Stopped? && WorkerOk(legs, price, p, 0);
    forall job | 0 <= job < |legs|
      ensures p.results[job] == Some(Priced(price(legs[job])))
    {
      assert JobOk(legs, price, p, job);
    }
  }

  /** A delivered result is final, and two workers never deliver to the same place. */
  lemma ResultsAreFinal(legs: seq<Leg>, price: Prices, a: Pool, b: Pool, job: nat)
    requires Inv(legs, price, a) && Next(legs, price, a, b) && job < |legs| && a.results[job].Some?
    ensures |b.results| == |a.results| && b.results[job] == a.results[job]
  {
    if w: nat :| Works(legs, price, a, b, w) {
      assert WorkerOk(legs, price, a, w);
    }
  }

  // ---- Every run comes to an end ----

  /** How far a worker is from stopping, leaving new jobs aside. */
  function Ahead(w: Worker): nat {
    match w
    case Stopped => 0
    case Checked => 1
    case Ready => 2
    case Answered(_, _) => 3
    case Searching(_) => 4
    case Claimed(_) => 5
  }

  function AllAhead(workers: seq<Worker>): nat {
    if workers == [] then 0 else AllAhead(workers[..|workers| - 1]) + Ahead(workers[|workers| - 1])
  }

  lemma {:induction false} OneMoves(workers: seq<Worker>, w: nat, v: Worker)
    requires w < |workers|
    ensures AllAhead(workers[w := v]) == AllAhead(workers) - Ahead(workers[w]) + Ahead(v)
  {
    var n := |workers| - 1;
    if w == n {
      assert workers[w := v][..n] == workers[..n];
    } else {
      OneMoves(workers[..n], w, v);
      assert workers[w := v][..n] == workers[..n][w := v];
    }
  }

  /** What is left to do: the jobs not yet handed out, and the way of every worker. */
  function Fuel(jobs: nat, p: Pool): nat {
    5 * (if p.next < jobs then jobs - p.next else 0) + AllAhead(p.workers)
  }

  /** Every step of a worker uses up some of it, so workers cannot go on for ever. */
  lemma WorkEnds(legs: seq<Leg>, price: Prices, a: Pool, b: Pool, w: nat)
    requires Works(legs, price, a, b, w)
    ensures |b.workers| == |a.workers| && Fuel(|legs|, b) < Fuel(|legs|, a)
  {
    OneMoves(a.workers, w, b.workers[w]);
    assert b.workers == a.workers[w := b.workers[w]];
    hide AllAhead;
  }

  /** The next action of a worker that has not stopped; a search under way when the request is cancelled
      may fail or still succeed. */
  method WorkOne(legs: seq<Leg>, price: Prices, p: Pool, w: nat, fails: bool) returns (q: Pool)
    requires Inv(legs, price, p) && w < |p.workers| && !p.workers[w].Stopped?
    ensures Works(legs, price, p, q, w) && q.cancelled == p.cancelled
  {
    WorkerOfInv(legs, price, p, w);
    hide Inv;
    hide CacheOk;
    match p.workers[w] {
      case Ready =>
        q := p.(workers := p.workers[w := if p.cancelled then Stopped else Checked]);
      case Checked =>
        q := p.(next := p.next + 1, workers := p.workers[w := if p.next >= |legs| then Stopped else Claimed(p.next)]);
      case Claimed(job) =>
        q := p.(workers := p.workers[w :=
          if p.cancelled then Answered(job, Aborted)
          else if legs[job] in p.cache then Answered(job, p.cache[legs[job]])
          else Searching(job)]);
      case Searching(job) =>
        var answer := if p.cancelled && fails then Aborted else Priced(price(legs[job]));
        q := p.(workers := p.workers[w := Answered(job, answer)], cache := p.cache[legs[job] := answer]);
        assert SearchGives(legs, price, p, q, w, answer);
      case Answered(job, answer) =>
        q := p.(workers := p.workers[w := Ready], results := p.results[job := Some(answer)]);
    }
  }

  /** A worker that has not stopped, from number `turn` on. */
  method Someone(workers: seq<Worker>, turn: nat) returns (w: Option<nat>)
    ensures w.Some? ==> w.value < |workers| && !workers[w.value].Stopped?
    ensures w.None? ==> forall v :: 0 <= v < |workers| ==> workers[v].Stopped?
  {
    if turn < |workers| && !workers[turn].Stopped? {
      return Some(turn);
    }
    for v := 0 to |workers|
      invariant forall u :: 0 <= u < v ==> workers[u].Stopped?
    {
      if !workers[v].Stopped? {
        return Some(v);
      }
    }
    return None;
  }

  lemma RunGrows(legs: seq<Leg>, price: Prices, workers: nat, known: map<Leg, Answer>, run: seq<Pool>, q: Pool)
    requires Run(legs, price, workers, known, run) && Next(legs, price, run[|run| - 1], q)
    ensures Run(legs, price, workers, known, run + [q])
  {
    hide Next;
    var more := run + [q];
    forall i | 0 <= i < |more| - 1
      ensures Next(legs, price, more[i], more[i + 1])
    {
      if i < |run| - 1 {
        assert Next(legs, price, run[i], run[i + 1]);
      }
    }
  }

  lemma RunStarts(legs: seq<Leg>, price: Prices, workers: nat, known: map<Leg, Answer>)
    ensures Run(legs, price, workers, known, [Initial(|legs|, workers, known)])
    ensures |Initial(|legs|, workers, known).workers| == workers && !Initial(|legs|, workers, known).cancelled
  {}

  /** Whose turn it is, when the request is cancelled if at all, and whether searches then fail. */
  datatype Schedule = Schedule(turn: nat -> nat, cancelAt: Option<nat>, fails: nat -> bool)

  /** Prices all legs under any schedule and whatever right answers are known: the prices in the order of
      the jobs, or nothing after a cancellation. The cache it leaves behind is right again. */
  method ParallelMap(legs: seq<Leg>, price: Prices, workers: nat, known: map<Leg, Answer>, schedule: Schedule)
    returns (r: Option<seq<Answer>>, cache: map<Leg, Answer>, ghost run: seq<Pool>)
    requires workers > 0 && CacheOk(price, known, false)
    ensures Run(legs, price, workers, known, run) && AllStopped(run[|run| - 1])
    ensures r.Some? <==> !run[|run| - 1].cancelled
    ensures cache == run[|run| - 1].cache && CacheOk(price, cache, r.None?)
    ensures r.Some? ==> |r.value| == |legs| && forall job :: 0 <= job < |legs| ==>
      r.value[job] == Priced(price(legs[job]))
    ensures schedule.cancelAt.None? ==> r.Some?
  {
    hide Run;
    hide Inv;
    hide Works;
    hide Fuel;
    hide Next;
    hide CacheOk;
    var p := Initial(|legs|, workers, known);
    run := [p];
    RunStarts(legs, price, workers, known);
    var time := 0;
    var w: Option<nat> := Someone(p.workers, schedule.turn(0));
    while w.Some?
      invariant |run| > 0 && run[|run| - 1] == p && Run(legs, price, workers, known, run)
      invariant w.Some? ==> w.value < |p.workers| && !p.workers[w.value].Stopped?
      invariant w.None? ==> forall v :: 0 <= v < |p.workers| ==> p.workers[v].Stopped?
      invariant schedule.cancelAt.None? ==> !p.cancelled
      decreases Fuel(|legs|, p), if w.Some? then 1 else 0
    {
      RunKeepsInv(legs, price, workers, known, run, |run| - 1);
      var q := WorkOne(legs, price, p, w.value, schedule.fails(time));
      WorkEnds(legs, price, p, q, w.value);
      WorkIsNext(legs, price, p, q, w.value);
      RunGrows(legs, price, workers, known, run, q);
      run, p := run + [q], q;
      if schedule.cancelAt == Some(time) {
        q := p.(cancelled := true);
        CancelIsNext(legs, price, p, q);
        SameFuel(|legs|, p, q);
        RunGrows(legs, price, workers, known, run, q);
        run, p := run + [q], q;
      }
      time := time + 1;
      w := Someone(p.workers, schedule.turn(time));
    }
    RunKeepsInv(legs, price, workers, known, run, |run| - 1);
    CacheOfInv(legs, price, p);
    cache := p.cache;
    if p.cancelled {
      r := None;
    } else {
      AllPriced(legs, price, workers, known, run);
      r := Some(seq(|legs|, job requires 0 <= job < |legs| && job < |p.results|
        && p.results[job].Some? => p.results[job].value));
    }
  }

  lemma CacheOfInv(legs: seq<Leg>, price: Prices, p: Pool)
    requires Inv(legs, price, p)
    ensures CacheOk(price, p.cache, p.cancelled) && |p.results| == |legs|
  {}

  lemma WorkIsNext(legs: seq<Leg>, price: Prices, a: Pool, b: Pool, w: nat)
    requires Works(legs, price, a, b, w)
    ensures Next(legs, price, a, b)
  {
    hide Works;
  }

  lemma CancelIsNext(legs: seq<Leg>, price: Prices, a: Pool, b: Pool)
    requires b == a.(cancelled := true)
    ensures Next(legs, price, a, b)
  {}

  lemma SameFuel(jobs: nat, a: Pool, b: Pool)
    requires b == a.(cancelled := true)
    ensures Fuel(jobs, b) == Fuel(jobs, a)
  {}
}
