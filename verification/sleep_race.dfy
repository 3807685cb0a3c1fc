/** A backoff sleep against an abort: the timer and the signal call back in any order. */
module SleepRace {
  import opened Timers

  datatype SleepResult = Slept | RejectedWithReason

  datatype Sleeper = Sleeper(timer: Timer, listening: bool, aborted: bool, results: seq<SleepResult>)

  datatype SleepEvent = WakeUp | AbortSignal

  /** On an aborted signal it rejects before any timer is armed. */
  function StartSleep(hasSignal: bool, aborted: bool): Sleeper {
    if hasSignal && aborted then Sleeper(Unarmed, false, true, [RejectedWithReason])
    else Sleeper(Armed, hasSignal, false, [])
  }

  function StepSleep(s: Sleeper, e: SleepEvent): Sleeper {
    match e
    case WakeUp =>
      if s.timer != Armed then s
      else s.(timer := Fired, listening := false, results := s.results + [Slept])
    case AbortSignal =>
      if s.aborted then s
      else if !s.listening then s.(aborted := true)
      else s.(aborted := true, timer := if s.timer == Armed then Cleared else s.timer,
              results := if s.results == [] then [RejectedWithReason] else s.results)
  }

  function RunSleep(s: Sleeper, events: seq<SleepEvent>): Sleeper
    decreases |events|
  {
    if events == [] then s else StepSleep(RunSleep(s, events[..|events| - 1]), events[|events| - 1])
  }

  /** The timer fires before any abort. */
  predicate WokeFirst(events: seq<SleepEvent>) {
    exists i | 0 <= i < |events| :: events[i] == WakeUp && AbortSignal !in events[..i]
  }

  lemma WokeFirstSnoc(events: seq<SleepEvent>, e: SleepEvent)
    ensures WokeFirst(events + [e]) <==> WokeFirst(events) || (e == WakeUp && AbortSignal !in events)
  {
    var longer := events + [e];
    if WokeFirst(events) {
      var i :| 0 <= i < |events| && events[i] == WakeUp && AbortSignal !in events[..i];
      assert longer[i] == WakeUp && longer[..i] == events[..i];
    }
    if e == WakeUp && AbortSignal !in events {
      assert longer[|events|] == WakeUp && longer[..|events|] == events;
    }
    if WokeFirst(longer) {
      var i :| 0 <= i < |longer| && longer[i] == WakeUp && AbortSignal !in longer[..i];
      if i < |events| {
        assert events[i] == WakeUp && longer[..i] == events[..i];
      } else {
        assert longer[..i] == events;
      }
    }
  }

  /** How the sleep should have settled after these callbacks. */
  function Settlements(hasSignal: bool, aborted: bool, events: seq<SleepEvent>): seq<SleepResult> {
    if aborted then [RejectedWithReason]
    else if WakeUp in events && (hasSignal ==> WokeFirst(events)) then [Slept]
    else if hasSignal && AbortSignal in events then [RejectedWithReason]
    else []
  }

  lemma SettlementsSnoc(hasSignal: bool, aborted: bool, events: seq<SleepEvent>, e: SleepEvent)
    ensures var before := Settlements(hasSignal, aborted, events);
      Settlements(hasSignal, aborted, events + [e]) ==
        if before != [] then before
        else if e == WakeUp then [Slept]
        else if hasSignal then [RejectedWithReason]
        else []
  {
    WokeFirstSnoc(events, e);
    assert WokeFirst(events) ==> WakeUp in events;
    if !WokeFirst(events) && WakeUp in events {
      NeverFirst(events);
    }
  }

  lemma NeverFirst(events: seq<SleepEvent>)
    requires !WokeFirst(events) && WakeUp in events
    ensures AbortSignal in events
  {
    var i :| 0 <= i < |events| && events[i] == WakeUp;
    assert AbortSignal in events[..i];
  }

  /** The state of a sleep, read off its events. */
  function SleeperAfter(hasSignal: bool, aborted: bool, events: seq<SleepEvent>): Sleeper {
    var results := Settlements(hasSignal, aborted, events);
    var timer := if aborted then Unarmed else if results == [] then Armed else if results == [Slept] then Fired else Cleared;
    // its listener is removed when the timer fires, and stays on a signal that aborted it
    var listening := if results == [] then hasSignal else timer == Cleared;
    Sleeper(timer, listening, aborted || AbortSignal in events, results)
  }

  lemma SleeperSnoc(hasSignal: bool, aborted: bool, events: seq<SleepEvent>, e: SleepEvent)
    requires aborted ==> hasSignal
    ensures SleeperAfter(hasSignal, aborted, events + [e]) == StepSleep(SleeperAfter(hasSignal, aborted, events), e)
  {
    SettlementsSnoc(hasSignal, aborted, events, e);
    if aborted {
      assert SleeperAfter(hasSignal, aborted, events) == Sleeper(Unarmed, false, true, [RejectedWithReason]);
    }
  }

  /**
    In every interleaving, and also on a signal that was aborted before, a sleep settles at most once, by
    the first event that concerns it. Then its timer is not armed, and its listener is removed unless the
    abort settled it.
   */
  lemma {:induction false} SleepOutcome(hasSignal: bool, aborted: bool, events: seq<SleepEvent>)
    requires aborted ==> hasSignal
    ensures RunSleep(StartSleep(hasSignal, aborted), events) == SleeperAfter(hasSignal, aborted, events)
    decreases |events|
  {
    if events != [] {
      var pre, e := events[..|events| - 1], events[|events| - 1];
      assert events == pre + [e];
      SleepOutcome(hasSignal, aborted, pre);
      SleeperSnoc(hasSignal, aborted, pre, e);
    }
  }
}
