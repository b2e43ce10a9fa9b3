/** The status-polling controller, driven by timers, fetches that settle later, and its callers. */
module Polling {
  import opened Wrappers

  datatype StopReason = Resolved | MaxPollsReached | StoppedByCaller | NotStarted

  /**
   * The controller's fields, the scheduler's queued timers in scheduling order, and the number of fetches
   * still awaited.
   */
  datatype Poll = Poll(
    maxPolls: int, attempts: nat, running: bool, stopped: StopReason, handle: Option<nat>,
    queued: seq<nat>, nextId: nat, fetches: nat)

  /** What can happen to a controller. A settled fetch may find its callback asking to stop. */
  datatype Event =
    | Start
    | Stop(reason: StopReason)
    | Fire(index: nat)
    | Settle(ok: bool, carryOn: bool, stopInside: Option<StopReason>)

  function Fresh(maxPolls: int): Poll {
    Poll(maxPolls, 0, false, NotStarted, None, [], 1, 0)
  }

  function Without(ids: seq<nat>, id: nat): seq<nat> {
    if ids == [] then [] else (if ids[0] == id then [] else [ids[0]]) + Without(ids[1..], id)
  }

  function StopValue(p: Poll, reason: StopReason): Poll {
    if !p.running then p
    else
      p.(running := false, stopped := reason, handle := None,
      queued := if p.handle.Some? then Without(p.queued, p.handle.value) else p.queued)
  }

  function QueueValue(p: Poll): Poll {
    if !p.running then p
    else if p.attempts >= p.maxPolls then StopValue(p, MaxPollsReached)
    else p.(handle := Some(p.nextId), queued := p.queued + [p.nextId], nextId := p.nextId + 1)
  }

  function StartValue(p: Poll): Poll {
    if p.running then p else QueueValue(p.(running := true))
  }

  /** The timer's callback, up to the point where the fetch is awaited. */
  function FireValue(p: Poll, index: nat): Poll
    requires index < |p.queued|
  {
    var q := p.(queued := p.queued[..index] + p.queued[index + 1..], handle := None);
    if !q.running then q else q.(attempts := q.attempts + 1, fetches := q.fetches + 1)
  }

  /** The rest of the tick, once the fetch has settled. */
  function SettleValue(p: Poll, ok: bool, carryOn: bool, stopInside: Option<StopReason>): Poll
    requires p.fetches > 0
  {
    var q := p.(fetches := p.fetches - 1);
    var r := if stopInside.Some? then StopValue(q, stopInside.value) else q;
    if ok && !carryOn then StopValue(r, Resolved) else QueueValue(r)
  }

  predicate Enabled(p: Poll, e: Event) {
    match e
    case Fire(i) => i < |p.queued|
    case Settle(_, _, _) => p.fetches > 0
    case _ => true
  }

  function Step(p: Poll, e: Event): Poll {
    match e
    case Start => StartValue(p)
    case Stop(reason) => StopValue(p, reason)
    case Fire(i) => if i < |p.queued| then FireValue(p, i) else p
    case Settle(ok, carryOn, inside) => if p.fetches > 0 then SettleValue(p, ok, carryOn, inside) else p
  }

  function Run(p: Poll, es: seq<Event>): Poll
    decreases |es|
  {
    if es == [] then p else Run(Step(p, es[0]), es[1..])
  }

  // --- the objects themselves --------------------------------------------------------------------

  /** A scheduler driven by hand: a map of queued callbacks, kept in scheduling order. */
  class ManualScheduler {
    var nextId: nat
    var queued: seq<nat>

    constructor ()
      ensures nextId == 1 && queued == []
    {
      nextId, queued := 1, [];
    }

    method Schedule() returns (id: nat)
      modifies this
      ensures id == old(nextId) && nextId == id + 1 && queued == old(queued) + [id]
    {
      id := nextId;
      nextId := nextId + 1;
      queued := queued + [id];
    }

    method Cancel(id: nat)
      modifies this`queued
      ensures queued == Without(old(queued), id)
    {
      queued := Without(queued, id);
    }

    method Take(index: nat)
      requires index < |queued|
      modifies this`queued
      ensures queued == old(queued[..index] + queued[index + 1..])
    {
      queued := queued[..index] + queued[index + 1..];
    }
  }

  class PollController {
    const maxPolls: int
    const scheduler: ManualScheduler
    var handle: Option<nat>
    var attempts: nat
    var running: bool
    var stopped: StopReason
    var inFlight: nat

    function Value(): Poll
      reads this, scheduler
    {
      Poll(maxPolls, attempts, running, stopped, handle, scheduler.queued, scheduler.nextId, inFlight)
    }

    constructor (maxPolls: int, scheduler: ManualScheduler)
      requires scheduler.nextId == 1 && scheduler.queued == []
      ensures Value() == Fresh(maxPolls)
      ensures this.scheduler == scheduler
    {
      this.maxPolls, this.scheduler := maxPolls, scheduler;
      handle, attempts, running, stopped, inFlight := None, 0, false, NotStarted, 0;
    }

    method Start()
      modifies this, scheduler
      ensures Value() == Step(old(Value()), Event.Start)
    {
      if running {
        return;
      }
      running := true;
      Queue();
    }

    method Stop(reason: StopReason)
      modifies this, scheduler
      ensures Value() == StopValue(old(Value()), reason)
    {
      if !running {
        return;
      }
      running := false;
      stopped := reason;
      if handle.Some? {
        scheduler.Cancel(handle.value);
        handle := None;
      }
    }

    method Queue()
      modifies this, scheduler
      ensures Value() == QueueValue(old(Value()))
    {
      if !running {
        return;
      }
      if attempts >= maxPolls {
        Stop(MaxPollsReached);
        return;
      }
      var id := scheduler.Schedule();
      handle := Some(id);
    }

    /** A queued timer fires: its callback runs until the fetch is awaited. */
    method Fire(index: nat)
      requires index < |scheduler.queued|
      modifies this, scheduler
      ensures Value() == Step(old(Value()), Event.Fire(index))
    {
      scheduler.Take(index);
      handle := None;
      if !running {
        return;
      }
      attempts := attempts + 1;
      inFlight := inFlight + 1;
    }

    /** The awaited fetch settles and the tick runs to its end. */
    method Settle(ok: bool, carryOn: bool, stopInside: Option<StopReason>)
      requires inFlight > 0
      modifies this, scheduler
      ensures Value() == Step(old(Value()), Event.Settle(ok, carryOn, stopInside))
    {
      inFlight := inFlight - 1;
      if stopInside.Some? {
        Stop(stopInside.value);
      }
      if ok && !carryOn {
        Stop(Resolved);
        return;
      }
      Queue();
    }
  }

  // --- one timer or one fetch --------------------------------------------------------------------

  /** A running controller waits for exactly one thing; a stopped one has no timer and starts no fetch. */
  ghost predicate OneAtATime(p: Poll) {
    && (p.attempts > 0 ==> p.attempts <= p.maxPolls)
    && (if !p.running then p.queued == [] && p.handle == None && p.fetches <= 1
        else if p.fetches == 0 then p.handle.Some? && p.queued == [p.handle.value] && p.attempts < p.maxPolls
        else p.fetches == 1 && p.queued == [] && p.handle == None)
  }

  /** Starting again, with polls left, while the last fetch of the run before is still awaited. */
  predicate RestartsInFlight(p: Poll, e: Event) {
    e.Start? && !p.running && p.fetches > 0 && p.attempts < p.maxPolls
  }

  lemma FreshIsOneAtATime(maxPolls: int)
    ensures OneAtATime(Fresh(maxPolls))
  {
  }

  /** Every event keeps it, except exactly a restart with a fetch in flight. */
  lemma OneAtATimeExactly(p: Poll, e: Event)
    requires OneAtATime(p)
    ensures OneAtATime(Step(p, e)) <==> !RestartsInFlight(p, e)
  {
    if p.running && p.handle.Some? {
      assert p.queued[1..] == [];
      assert Without(p.queued, p.handle.value) == [];
    }
  }

  // --- what each event comes to --------------------------------------------------------------------

  /** Stopped for this reason, with nothing left to fire. */
  predicate Ended(q: Poll, reason: StopReason) {
    !q.running && q.stopped == reason && q.handle.None? && q.queued == []
  }

  /** Running on, with one timer and nothing else to wait for. */
  predicate WaitsToFire(q: Poll) {
    q.running && q.fetches == 0 && |q.queued| == 1 && q.handle == Some(q.queued[0])
  }

  /**
   * A settled fetch resolves the polling exactly when it succeeded and its callback is content. Anything else, a
   * failure included, leads to one more timer while attempts remain, and to the limit when none do.
   */
  lemma SettledFetchExactly(p: Poll, ok: bool, carryOn: bool)
    requires OneAtATime(p) && p.running && p.fetches == 1
    ensures var q := Step(p, Event.Settle(ok, carryOn, None));
            && q.fetches == 0 && q.attempts == p.attempts
            && (Ended(q, Resolved) <==> ok && !carryOn)
            && (WaitsToFire(q) <==> (!ok || carryOn) && p.attempts < p.maxPolls)
            && (Ended(q, MaxPollsReached) <==> (!ok || carryOn) && p.attempts >= p.maxPolls)
  {
  }

  /** A stop from inside the callback stands: what the fetch brought changes nothing any more. */
  lemma StopInsideStands(p: Poll, ok: bool, carryOn: bool, reason: StopReason)
    requires OneAtATime(p) && p.running && p.fetches == 1
    ensures var q := Step(p, Event.Settle(ok, carryOn, Some(reason)));
            Ended(q, reason) && q.fetches == 0 && q.attempts == p.attempts
  {
  }

  /** A timer begins one fetch and is used up; a fetch that settles on a stopped controller leaves it stopped. */
  lemma TimerBeginsOneFetch(p: Poll)
    requires OneAtATime(p)
    ensures WaitsToFire(p) ==>
              Step(p, Fire(0)) == p.(attempts := p.attempts + 1, fetches := 1, queued := [], handle := None)
    ensures !p.running && p.fetches > 0 ==>
              forall ok, carryOn, inside :: Step(p, Event.Settle(ok, carryOn, inside)) == p.(fetches := 0)
  {
  }

  /** Starting queues one timer, or ends at once when no attempt is left; stopping ends for the reason given. */
  lemma StartAndStopExactly(p: Poll, reason: StopReason)
    requires OneAtATime(p)
    ensures p.running ==> Step(p, Start) == p && Ended(Step(p, Event.Stop(reason)), reason)
    ensures !p.running ==> Step(p, Event.Stop(reason)) == p
    ensures !p.running && p.fetches == 0 ==>
              if p.attempts < p.maxPolls then WaitsToFire(Step(p, Start)) else Ended(Step(p, Start), MaxPollsReached)
    ensures Step(p, Start).attempts == Step(p, Event.Stop(reason)).attempts == p.attempts
  {
    if p.running && p.handle.Some? {
      assert Without(p.queued, p.handle.value) == [];
    }
  }

  /** An event that can end the polling for this reason by saying so. */
  predicate Says(e: Event, reason: StopReason) {
    match e
    case Stop(r) => r == reason
    case Settle(ok, carryOn, inside) => inside == Some(reason) || (reason == Resolved && ok && !carryOn)
    case _ => false
  }

  /** A reason found at the end of a run was given in it, unless it is the limit, and then the attempts are used up. */
  lemma {:induction false} EveryStopHasItsCause(p: Poll, es: seq<Event>, reason: StopReason)
    requires p.running || p.stopped != reason
    requires var q := Run(p, es); !q.running && q.stopped == reason
    ensures (exists i :: 0 <= i < |es| && Says(es[i], reason))
            || (reason == MaxPollsReached && Run(p, es).attempts >= p.maxPolls)
    decreases |es|
  {
    var p' := Step(p, es[0]);
    if !Says(es[0], reason) {
      if p'.running || p'.stopped != reason {
        EveryStopHasItsCause(p', es[1..], reason);
        AttemptsByOne(p, es[0]);
        if i :| 0 <= i < |es[1..]| && Says(es[1..][i], reason) {
          assert Says(es[i + 1], reason);
        }
      } else {
        AttemptsNeverFall(p', es[1..]);
      }
    }
  }

  lemma {:induction false} AttemptsNeverFall(p: Poll, es: seq<Event>)
    ensures Run(p, es).attempts >= p.attempts
    decreases |es|
  {
    if es != [] {
      AttemptsByOne(p, es[0]);
      AttemptsNeverFall(Step(p, es[0]), es[1..]);
    }
  }

  // --- runs ------------------------------------------------------------------------------------------

  predicate Orderly(p: Poll, es: seq<Event>)
    decreases |es|
  {
    es == [] || (!RestartsInFlight(p, es[0]) && Orderly(Step(p, es[0]), es[1..]))
  }

  /** How many fetches a run begins. */
  function Begun(p: Poll, es: seq<Event>): nat
    decreases |es|
  {
    if es == [] then 0
    else (if Step(p, es[0]).attempts > p.attempts then 1 else 0) + Begun(Step(p, es[0]), es[1..])
  }

  /**
   * Under every interleaving of timers, settling fetches, stops and orderly starts, at most one timer or one
   * fetch is outstanding, every attempt is one fetch, and they never exceed maxPolls.
   */
  lemma {:induction false} EveryRunIsBounded(p: Poll, es: seq<Event>)
    requires OneAtATime(p) && Orderly(p, es)
    ensures var q := Run(p, es);
            && OneAtATime(q) && |q.queued| + q.fetches <= 1
            && q.maxPolls == p.maxPolls && q.attempts == p.attempts + Begun(p, es)
            && (q.attempts > 0 ==> q.attempts <= p.maxPolls)
    decreases |es|
  {
    if es != [] {
      OneAtATimeExactly(p, es[0]);
      AttemptsByOne(p, es[0]);
      EveryRunIsBounded(Step(p, es[0]), es[1..]);
    }
  }

  lemma AttemptsByOne(p: Poll, e: Event)
    ensures Step(p, e).attempts == p.attempts || (p.running && e.Fire? && Step(p, e).attempts == p.attempts + 1)
    ensures Step(p, e).maxPolls == p.maxPolls
  {
  }

  predicate NoStart(es: seq<Event>) {
    forall i :: 0 <= i < |es| ==> !es[i].Start?
  }

  /** Once stopped, and until started again, nothing begins and the reason never changes. */
  lemma {:induction false} StoppedIsFinal(p: Poll, es: seq<Event>)
    requires !p.running && NoStart(es)
    ensures var q := Run(p, es);
            !q.running && q.stopped == p.stopped && q.attempts == p.attempts && Begun(p, es) == 0
    decreases |es|
  {
    if es != [] {
      assert !es[0].Start?;
      StoppedIsFinal(Step(p, es[0]), es[1..]);
    }
  }

  /** What is left to happen: each attempt still allowed costs a timer and a fetch. */
  function Remaining(p: Poll): int {
    (if p.maxPolls > p.attempts then 3 * (p.maxPolls - p.attempts) else 0) + 2 * p.fetches + |p.queued|
  }

  /** Every timer that fires and every fetch that settles brings the end nearer. */
  lemma RemainingFalls(p: Poll, e: Event)
    requires OneAtATime(p) && (e.Fire? || e.Settle?) && Enabled(p, e)
    ensures 0 <= Remaining(Step(p, e)) < Remaining(p)
  {
    if p.running && p.handle.Some? {
      assert Without(p.queued, p.handle.value) == [];
    }
  }

  predicate LeftAlone(p: Poll, es: seq<Event>)
    decreases |es|
  {
    es == [] || ((es[0].Fire? || es[0].Settle?) && Enabled(p, es[0]) && LeftAlone(Step(p, es[0]), es[1..]))
  }

  /** A controller left alone runs out of events, and when it has, it has stopped. */
  lemma {:induction false} LeftAloneItStops(p: Poll, es: seq<Event>)
    requires OneAtATime(p) && LeftAlone(p, es)
    ensures |es| <= Remaining(p)
    ensures var q := Run(p, es); (forall e: Event :: (e.Fire? || e.Settle?) ==> !Enabled(q, e)) ==> !q.running
    decreases |es|
  {
    if es == [] {
      assert Enabled(p, Fire(0)) <==> p.queued != [];
      assert Enabled(p, Event.Settle(true, true, None)) <==> p.fetches > 0;
    } else {
      RemainingFalls(p, es[0]);
      OneAtATimeExactly(p, es[0]);
      LeftAloneItStops(Step(p, es[0]), es[1..]);
    }
  }

  /** The excluded restart is real: with two polls allowed, a third fetch begins. */
  lemma RestartInFlightOverruns()
    ensures var es := [Start, Fire(0), Event.Stop(StoppedByCaller), Start, Event.Settle(true, true, None), Fire(0), Fire(0)];
            Run(Fresh(2), es).attempts == 3
  {
  }
}
