/** Provider health: which checks become events, and how long a provider was not healthy. */
module Outage {
  import opened Wrappers

  datatype Health = Healthy | Degraded | Unavailable

  /** A health event; a time that does not parse is None. */
  datatype Event = Event(at: Option<int>, status: Health)

  /** The totals the loop carries: time counted so far, and when the open outage began. */
  function Fold(events: seq<Event>): (int, Option<int>) {
    if events == [] then (0, None)
    else
      var (total, openedAt) := Fold(events[..|events| - 1]);
      var event := events[|events| - 1];
      if event.at.None? then (total, openedAt)
      else if event.status == Healthy then
        (if openedAt.Some? then total + (event.at.value - openedAt.value) else total, None)
      else (total, if openedAt.None? then event.at else openedAt)
  }

  function UnhealthyMillis(events: seq<Event>, now: Option<int>): int {
    var (total, openedAt) := Fold(events);
    if openedAt.Some? && now.Some? then total + (now.value - openedAt.value) else total
  }

  method ComputeUnhealthyMillis(events: seq<Event>, now: Option<int>) returns (millis: int)
    ensures millis == UnhealthyMillis(events, now)
  {
    var total := 0;
    var openedAt: Option<int> := None;
    for i := 0 to |events|
      invariant (total, openedAt) == Fold(events[..i])
    {
      assert events[..i + 1][..i] == events[..i];
      var event := events[i];
      if event.at.None? {
        continue;
      }
      if event.status == Healthy {
        if openedAt.Some? {
          total := total + (event.at.value - openedAt.value);
          openedAt := None;
        }
      } else if openedAt.None? {
        openedAt := event.at;
      }
    }
    assert events[..|events|] == events;
    millis := if openedAt.Some? && now.Some? then total + (now.value - openedAt.value) else total;
  }

  // --- what the figure means ------------------------------------------------------------------------

  predicate AllParse(events: seq<Event>) {
    forall i :: 0 <= i < |events| ==> events[i].at.Some?
  }

  function Gap(from: int, to: int, status: Health): int {
    if status == Healthy then 0 else to - from
  }

  /** Each gap between consecutive events counts whole when the status that opened it was not healthy. */
  function GapSum(events: seq<Event>): int
    requires AllParse(events)
  {
    if |events| < 2 then 0
    else
      var n := |events|;
      GapSum(events[..n - 1]) + Gap(events[n - 2].at.value, events[n - 1].at.value, events[n - 2].status)
  }

  predicate InOrder(events: seq<Event>) {
    AllParse(events) && forall i, j :: 0 <= i < j < |events| ==> events[i].at.value <= events[j].at.value
  }

  lemma {:induction false} FoldIsGaps(events: seq<Event>)
    requires AllParse(events) && events != []
    ensures var (total, openedAt) := Fold(events);
            var last := events[|events| - 1];
            && (openedAt.None? <==> last.status == Healthy)
            && (openedAt.None? ==> total == GapSum(events))
            && (openedAt.Some? ==> total + (last.at.value - openedAt.value) == GapSum(events))
  {
    var front := events[..|events| - 1];
    if front != [] {
      FoldIsGaps(front);
    } else {
      assert Fold(front) == (0, None);
    }
  }

  /**
   * The figure is the sum of the gaps whose latest status was not healthy, the last one ending now: going
   * from degraded to unavailable never counts a moment twice.
   */
  lemma MeansTheGaps(events: seq<Event>, now: int)
    requires AllParse(events) && events != []
    ensures var last := events[|events| - 1];
            UnhealthyMillis(events, Some(now)) == GapSum(events) + Gap(last.at.value, now, last.status)
  {
    FoldIsGaps(events);
  }

  lemma {:induction false} GapsAreBounded(events: seq<Event>)
    requires InOrder(events) && events != []
    ensures 0 <= GapSum(events) <= events[|events| - 1].at.value - events[0].at.value
  {
    if |events| >= 2 {
      GapsAreBounded(events[..|events| - 1]);
    }
  }

  /** Never negative, and never more than the time since the first event. */
  lemma NeverMoreThanElapsed(events: seq<Event>, now: int)
    requires InOrder(events) && events != [] && events[|events| - 1].at.value <= now
    ensures 0 <= UnhealthyMillis(events, Some(now)) <= now - events[0].at.value
  {
    MeansTheGaps(events, now);
    GapsAreBounded(events);
  }

  /** The events whose time could be read. */
  function Parsed(events: seq<Event>): seq<Event> {
    if events == [] then []
    else Parsed(events[..|events| - 1]) + if events[|events| - 1].at.None? then [] else [events[|events| - 1]]
  }

  lemma {:induction false} FoldSkips(events: seq<Event>)
    ensures AllParse(Parsed(events)) && Fold(Parsed(events)) == Fold(events)
  {
    if events != [] {
      var front, last := events[..|events| - 1], events[|events| - 1];
      FoldSkips(front);
      if last.at.None? {
        assert Parsed(events) == Parsed(front);
      } else {
        assert Parsed(events)[..|Parsed(front)|] == Parsed(front);
      }
    }
  }

  /**
   * An event whose time cannot be read is as if it were not there; and without a moment to measure to, the stretch
   * still open is left out.
   */
  lemma UnreadableTimesAreSkipped(events: seq<Event>, now: Option<int>)
    ensures AllParse(Parsed(events)) && UnhealthyMillis(events, now) == UnhealthyMillis(Parsed(events), now)
    ensures var read := Parsed(events);
            read != [] && read[|read| - 1].status == Healthy ==> UnhealthyMillis(events, now) == GapSum(read)
  {
    FoldSkips(events);
    if Parsed(events) != [] {
      FoldIsGaps(Parsed(events));
    }
  }

  // --- recording only changes loses nothing --------------------------------------------------------------

  /** The checks that recordHealthChange turns into events: those whose status is not the one before. */
  function Changes(checks: seq<Event>): seq<Event> {
    if checks == [] then []
    else
      var n := |checks|;
      Changes(checks[..n - 1])
      + if n > 1 && checks[n - 2].status == checks[n - 1].status then [] else [checks[n - 1]]
  }

  lemma FoldAppend(events: seq<Event>, e: Event)
    requires e.at.Some?
    ensures var (total, openedAt) := Fold(events);
            Fold(events + [e]) ==
            if e.status == Healthy then (if openedAt.Some? then total + (e.at.value - openedAt.value) else total, None)
            else (total, if openedAt.None? then e.at else openedAt)
  {
    assert (events + [e])[..|events|] == events;
  }

  lemma {:induction false} ChangesFoldAlike(checks: seq<Event>)
    requires AllParse(checks)
    ensures Fold(Changes(checks)) == Fold(checks)
  {
    if checks != [] {
      var n := |checks|;
      var front := checks[..n - 1];
      ChangesFoldAlike(front);
      FoldAppend(Changes(front), checks[n - 1]);
      FoldAppend(front, checks[n - 1]);
      assert front + [checks[n - 1]] == checks;
      if n > 1 && checks[n - 2].status == checks[n - 1].status {
        assert Changes(checks) == Changes(front);
        FoldIsGaps(front);
      }
    }
  }

  lemma {:induction false} NoRepeatsInChanges(checks: seq<Event>)
    ensures var c := Changes(checks);
            && (checks != [] ==> c != [] && c[|c| - 1].status == checks[|checks| - 1].status)
            && forall i :: 0 < i < |c| ==> c[i - 1].status != c[i].status
  {
    if checks != [] {
      NoRepeatsInChanges(checks[..|checks| - 1]);
    }
  }

  /**
   * Writing a row only when the status changes gives, at every moment, the same figure as writing one for
   * every check, and never two rows running with the same status.
   */
  lemma RecordingChangesIsEnough(checks: seq<Event>, now: Option<int>)
    requires AllParse(checks)
    ensures UnhealthyMillis(Changes(checks), now) == UnhealthyMillis(checks, now)
    ensures var c := Changes(checks); forall i :: 0 < i < |c| ==> c[i - 1].status != c[i].status
  {
    ChangesFoldAlike(checks);
    NoRepeatsInChanges(checks);
  }
}
