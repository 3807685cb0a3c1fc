/**
  A health check against its timeout. Events arrive in any order; one that cannot happen in the current
  state has no effect.
 */
module Races {
  import opened Options
  import opened Timers
  import opened AttestorCache

  /** What was thrown: an `Error`, whose message goes into a text or does not, or any other value. */
  datatype Thrown = ErrorObject(textMessage: bool) | OtherValue(printable: bool)

  /** The catch clause can build its log message from the error; otherwise that throws in turn. */
  predicate Renderable(e: Thrown) {
    match e
    case ErrorObject(textMessage) => textMessage
    case OtherValue(printable) => printable
  }

  /** How the promise of `check()` settles. */
  datatype Settlement = Fulfilled(outcome: Outcome) | Failed(error: Thrown)

  datatype Winner = ByWork(settlement: Settlement) | ByTimer

  /** How the promise of `execute` settles. */
  datatype Completion = Returned(outcome: Outcome) | Raised

  /** Where `execute` is: awaiting the race, about to enter its catch clause, or done. */
  datatype Control = Awaiting | Throwing(error: Thrown) | Finished

  /** `results` lists every time `execute` settled. */
  datatype Execution =
    Execution(pending: bool, timer: Timer, winner: Option<Winner>, control: Control, results: seq<Completion>)

  datatype RunnerEvent = WorkSettles(settlement: Settlement) | TimeoutFires | Resume | Catch

  /** `check()` threw before any timer was armed, or it returned and the timer was armed. */
  function Start(throws: Option<Thrown>): Execution {
    match throws
    case Some(e) => Execution(false, Unarmed, None, Throwing(e), [])
    case None => Execution(true, Armed, None, Awaiting, [])
  }

  /** The race rejected: the check failed or the timer was first. */
  predicate Rejects(w: Winner) {
    w.ByTimer? || w.settlement.Failed?
  }

  /** The error of the race; the timer rejects with `new Error("timeout")`. */
  function ErrorOf(w: Winner): Thrown
    requires Rejects(w)
  {
    if w.ByTimer? then ErrorObject(true) else w.settlement.error
  }

  function First<T>(earlier: Option<T>, later: T): Option<T> {
    if earlier.Some? then earlier else Some(later)
  }

  /** The catch clause: it logs the error and answers down, unless the message cannot be built. */
  function Handled(e: Thrown): Completion {
    if Renderable(e) then Returned(Outcome(Down, None)) else Raised
  }

  predicate Effective(s: Execution, e: RunnerEvent) {
    match e
    case WorkSettles(_) => s.pending
    case TimeoutFires => s.timer == Armed
    case Resume => s.winner.Some? && s.control == Awaiting
    case Catch => s.control.Throwing?
  }

  function StepRunner(s: Execution, e: RunnerEvent): Execution {
    if !Effective(s, e) then s
    else match e
      case WorkSettles(r) => s.(pending := false, winner := First(s.winner, ByWork(r)))
      case TimeoutFires => s.(timer := Fired, winner := First(s.winner, ByTimer))
      case Resume =>
        // the await of the race resumes: the timer is cleared, then the outcome is returned or the error thrown
        var cleared := s.(timer := if s.timer == Armed then Cleared else s.timer);
        if Rejects(s.winner.value) then cleared.(control := Throwing(ErrorOf(s.winner.value)))
        else cleared.(control := Finished, results := s.results + [Returned(s.winner.value.settlement.outcome)])
      case Catch => s.(control := Finished, results := s.results + [Handled(s.control.error)])
  }

  function RunExecution(s: Execution, events: seq<RunnerEvent>): Execution
    decreases |events|
  {
    if events == [] then s
    else StepRunner(RunExecution(s, events[..|events| - 1]), events[|events| - 1])
  }

  // ----- what a list of events should lead to

  /** The side that an event settles. */
  function SideOf(e: RunnerEvent): Option<Winner> {
    match e
    case WorkSettles(r) => Some(ByWork(r))
    case TimeoutFires => Some(ByTimer)
    case _ => None
  }

  /** Which side is first in a list of events; later settlements lose. */
  function FirstOf(events: seq<RunnerEvent>): Option<Winner> {
    if events == [] then None
    else if SideOf(events[0]).Some? then SideOf(events[0])
    else FirstOf(events[1..])
  }

  /** The continuation ran after one side had won. */
  predicate Resumed(events: seq<RunnerEvent>) {
    exists j | 0 <= j < |events| :: events[j] == Resume && FirstOf(events[..j]).Some?
  }

  /** The catch clause ran after the continuation. */
  predicate Caught(events: seq<RunnerEvent>) {
    exists j | 0 <= j < |events| :: events[j] == Catch && Resumed(events[..j])
  }

  predicate Settled(throws: Option<Thrown>, events: seq<RunnerEvent>) {
    if throws.Some? then Catch in events
    else FirstOf(events).Some? && if Rejects(FirstOf(events).value) then Caught(events) else Resumed(events)
  }

  /** The error that reaches the catch clause, if any: the one thrown at once, or that of the winner. */
  function ErrorOfRun(throws: Option<Thrown>, events: seq<RunnerEvent>): Option<Thrown> {
    if throws.Some? then throws
    else if FirstOf(events).Some? && Rejects(FirstOf(events).value) then Some(ErrorOf(FirstOf(events).value))
    else None
  }

  predicate CheckFailed(w: Option<Winner>) {
    w.Some? && w.value.ByWork? && w.value.settlement.Failed?
  }

  /** The error cannot be rendered: it was thrown at once, or its rejection was first. */
  predicate Unrenderable(throws: Option<Thrown>, events: seq<RunnerEvent>) {
    match throws
    case Some(e) => !Renderable(e)
    case None => CheckFailed(FirstOf(events)) && !Renderable(FirstOf(events).value.settlement.error)
  }

  /** How the execution should settle. */
  function Answer(throws: Option<Thrown>, events: seq<RunnerEvent>): Completion
    requires Settled(throws, events)
  {
    match ErrorOfRun(throws, events)
    case None => Returned(FirstOf(events).value.settlement.outcome)
    case Some(e) => Handled(e)
  }

  lemma {:induction false} FirstOfSnoc(events: seq<RunnerEvent>, e: RunnerEvent)
    ensures FirstOf(events + [e]) == if FirstOf(events).Some? then FirstOf(events) else SideOf(e)
  {
    if events == [] {
      assert events + [e] == [e];
    } else {
      assert (events + [e])[1..] == events[1..] + [e];
      FirstOfSnoc(events[1..], e);
    }
  }

  lemma ResumedSnoc(events: seq<RunnerEvent>, e: RunnerEvent)
    ensures Resumed(events + [e]) <==> Resumed(events) || (e == Resume && FirstOf(events).Some?)
  {
    var longer := events + [e];
    if Resumed(events) {
      var j :| 0 <= j < |events| && events[j] == Resume && FirstOf(events[..j]).Some?;
      assert longer[j] == Resume && longer[..j] == events[..j];
    }
    if e == Resume && FirstOf(events).Some? {
      assert longer[|events|] == Resume && longer[..|events|] == events;
    }
    if Resumed(longer) {
      var j :| 0 <= j < |longer| && longer[j] == Resume && FirstOf(longer[..j]).Some?;
      if j < |events| {
        assert events[j] == Resume && longer[..j] == events[..j];
      } else {
        assert longer[..j] == events;
      }
    }
  }

  lemma CaughtSnoc(events: seq<RunnerEvent>, e: RunnerEvent)
    ensures Caught(events + [e]) <==> Caught(events) || (e == Catch && Resumed(events))
  {
    var longer := events + [e];
    if Caught(events) {
      var j :| 0 <= j < |events| && events[j] == Catch && Resumed(events[..j]);
      assert longer[j] == Catch && longer[..j] == events[..j];
    }
    if e == Catch && Resumed(events) {
      assert longer[|events|] == Catch && longer[..|events|] == events;
    }
    if Caught(longer) {
      var j :| 0 <= j < |longer| && longer[j] == Catch && Resumed(longer[..j]);
      if j < |events| {
        assert events[j] == Catch && longer[..j] == events[..j];
      } else {
        assert longer[..j] == events;
      }
    }
  }

  lemma {:induction false} ResumedHasWinner(events: seq<RunnerEvent>)
    ensures Resumed(events) ==> FirstOf(events).Some?
    ensures Caught(events) ==> Resumed(events)
    decreases |events|
  {
    if events != [] {
      var pre, e := events[..|events| - 1], events[|events| - 1];
      assert events == pre + [e];
      ResumedHasWinner(pre);
      FirstOfSnoc(pre, e);
      ResumedSnoc(pre, e);
      CaughtSnoc(pre, e);
    }
  }

  /** `s` is the state of a race with these answers to: who won, did the continuation run, did the catch clause. */
  predicate Fits(s: Execution, winner: Option<Winner>, resumed: bool, caught: bool)
    requires caught ==> resumed
    requires resumed ==> winner.Some?
  {
    && s.winner == winner
    && (winner == None ==> s.pending && s.timer == Armed)
    && (resumed ==> s.timer != Armed)
    && s.control == (if !resumed then Awaiting
                     else if Rejects(winner.value) && !caught then Throwing(ErrorOf(winner.value))
                     else Finished)
    && s.results == if s.control == Finished then [WonBy(winner.value)] else []
  }

  function WonBy(w: Winner): Completion {
    if Rejects(w) then Handled(ErrorOf(w)) else Returned(w.settlement.outcome)
  }

  lemma StepFits(s: Execution, winner: Option<Winner>, resumed: bool, caught: bool, e: RunnerEvent)
    requires (caught ==> resumed) && (resumed ==> winner.Some?) && Fits(s, winner, resumed, caught)
    ensures Fits(StepRunner(s, e), if winner.Some? then winner else SideOf(e),
                 resumed || (e == Resume && winner.Some?), caught || (e == Catch && resumed))
  {
  }

  /** The state of an execution whose check did not throw at once, read off its events. */
  lemma {:induction false} RacingState(events: seq<RunnerEvent>)
    ensures (Caught(events) ==> Resumed(events)) && (Resumed(events) ==> FirstOf(events).Some?)
    ensures Fits(RunExecution(Start(None), events), FirstOf(events), Resumed(events), Caught(events))
    decreases |events|
  {
    ResumedHasWinner(events);
    if events != [] {
      var pre, e := events[..|events| - 1], events[|events| - 1];
      assert events == pre + [e];
      RacingState(pre);
      FirstOfSnoc(pre, e);
      ResumedSnoc(pre, e);
      CaughtSnoc(pre, e);
      StepFits(RunExecution(Start(None), pre), FirstOf(pre), Resumed(pre), Caught(pre), e);
    }
  }

  /** If the check threw, nothing but the catch clause matters. */
  lemma {:induction false} ThrownState(e: Thrown, events: seq<RunnerEvent>)
    ensures RunExecution(Start(Some(e)), events) ==
      if Catch in events then Start(Some(e)).(control := Finished, results := [Answer(Some(e), events)]) else Start(Some(e))
    decreases |events|
  {
    if events != [] {
      var pre, last := events[..|events| - 1], events[|events| - 1];
      assert events == pre + [last];
      ThrownState(e, pre);
    }
  }

  /**
    In every interleaving, and also when the check throws at once, `execute` settles at most once, with the
    answer of whichever side came first, and then no timer is armed.
   */
  lemma ExecutionOutcome(throws: Option<Thrown>, events: seq<RunnerEvent>)
    ensures var s := RunExecution(Start(throws), events);
      && s.results == (if Settled(throws, events) then [Answer(throws, events)] else [])
      && (Settled(throws, events) ==> s.timer != Armed)
  {
    match throws
    case None => RacingState(events);
    case Some(e) => ThrownState(e, events);
  }

  /**
    No exception is to escape `execute`. One does if and only if the error that reaches the catch clause
    cannot be rendered, because its log message is built there without protection.
   */
  lemma RaisedExactly(throws: Option<Thrown>, events: seq<RunnerEvent>)
    requires Settled(throws, events)
    ensures RunExecution(Start(throws), events).results == [Raised] <==> Unrenderable(throws, events)
  {
    ExecutionOutcome(throws, events);
  }

  /** It happens for every such error, thrown at once or as a rejection. */
  lemma UnrenderableEscapes(e: Thrown)
    requires !Renderable(e)
    ensures RunExecution(Start(Some(e)), [Catch]).results == [Raised]
    ensures RunExecution(Start(None), [WorkSettles(Failed(e)), Resume, Catch]).results == [Raised]
  {
    var events := [WorkSettles(Failed(e)), Resume, Catch];
    assert events[0] == WorkSettles(Failed(e)) && events[1] == Resume && events[2] == Catch;
    assert FirstOf(events[..1]) == Some(ByWork(Failed(e)));
    assert events[..2][1] == Resume && events[..2][..1] == events[..1];
    assert Resumed(events[..2]);
    ExecutionOutcome(Some(e), [Catch]);
    ExecutionOutcome(None, events);
  }

  predicate ReportedDown(w: Option<Winner>) {
    w.Some? && w.value.ByWork? && w.value.settlement.Fulfilled? && w.value.settlement.outcome.status == Down
  }

  /** Otherwise it returns: down exactly when the check threw, rejected, lost to its timeout or reported down. */
  lemma DownExactly(throws: Option<Thrown>, events: seq<RunnerEvent>)
    requires Settled(throws, events) && !Unrenderable(throws, events)
    ensures exists outcome ::
      && RunExecution(Start(throws), events).results == [Returned(outcome)]
      && (outcome.status == Down <==>
            || throws.Some?
            || FirstOf(events) == Some(ByTimer)
            || CheckFailed(FirstOf(events))
            || ReportedDown(FirstOf(events)))
      // no error text leaves the runner: a check that failed answers without details
      && (throws.Some? || FirstOf(events) == Some(ByTimer) || CheckFailed(FirstOf(events)) ==> outcome.details == None)
      && (throws == None && FirstOf(events).value.ByWork? && !CheckFailed(FirstOf(events)) ==>
            FirstOf(events) == Some(ByWork(Fulfilled(outcome))))
  {
    ExecutionOutcome(throws, events);
    RaisedExactly(throws, events);
    var outcome := Answer(throws, events).outcome;
    assert RunExecution(Start(throws), events).results == [Returned(outcome)];
  }

  lemma {:induction false} LateEventsIgnored(s: Execution, more: seq<RunnerEvent>)
    requires s.control == Finished && s.timer != Armed
    ensures RunExecution(s, more).results == s.results && RunExecution(s, more).timer == s.timer
    ensures RunExecution(s, more).control == Finished
    decreases |more|
  {
    if more != [] {
      LateEventsIgnored(s, more[..|more| - 1]);
    }
  }

  /** Events that can still happen. */
  function Remaining(s: Execution): nat {
    (if s.pending then 1 else 0) + (if s.timer == Armed then 1 else 0) +
    match s.control case Awaiting => 2 case Throwing(_) => 1 case Finished => 0
  }

  /** An execution never hangs, even if the check never settles: until it has settled some event can
      happen without the check's help, and every event that happens leaves fewer. */
  lemma ExecutionProgress(throws: Option<Thrown>, events: seq<RunnerEvent>)
    ensures var s := RunExecution(Start(throws), events);
      && (!Settled(throws, events) ==> Effective(s, TimeoutFires) || Effective(s, Resume) || Effective(s, Catch))
      && forall e | Effective(s, e) :: Remaining(StepRunner(s, e)) < Remaining(s)
  {
    match throws
    case None => RacingState(events);
    case Some(e) => ThrownState(e, events);
  }
}
