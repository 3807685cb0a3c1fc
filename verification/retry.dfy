/**
  The retry loop. The environment decides, round by round, how `fn` settles, whether its error is
  retryable, what `Math.random()` draws, and when the signal aborts.
 */
module Retry {
  import opened Timers
  import opened Backoff
  import opened SleepRace

  datatype Attempt = Returns(value: int) | Throws(error: string) {
    function ErrorText(): string {
      if Throws? then error else ""
    }
  }

  datatype Round = Round(
    abortAtHead: bool,                // before the attempt
    result: Attempt,
    abortInFn: bool,
    retryable: bool,
    abortBeforeSleep: bool,           // while `onRetry` ran
    draw: real,
    sleepEvents: seq<SleepEvent>      // from the start of the backoff to the next attempt
  ) {
    /** The timer fires in the end, if it is still armed. */
    function Callbacks(): seq<SleepEvent> {
      sleepEvents + [WakeUp]
    }
  }

  type Environment = nat -> Round

  /** The delay before each retry. */
  type Delays = nat -> real

  function Drawn(env: Environment, p: Policy): Delays {
    (a: nat) => p.Delay(a, env(a).draw)
  }

  datatype Event =
    | Call(attempt: nat)
    | Abort
    | Notify(error: string, number: nat)
    | Sleep(delayMs: real)  // timer armed, abort listener added
    | Wake                  // timer fired, abort listener removed

  type Trace = seq<Event>

  datatype Result = Resolved(value: int) | RejectedWith(error: string) | RejectedAborted | InvalidRetries

  // ----- what a run should do

  /** During the last backoff, the signal aborted after the timer had fired. */
  predicate LateAbort(env: Environment, signal: bool, a: nat) {
    signal && a > 0 && AbortSignal in env(a - 1).Callbacks()
  }

  predicate HeadAborted(env: Environment, signal: bool, a: nat) {
    LateAbort(env, signal, a) || (signal && env(a).abortAtHead)
  }

  predicate SleepAborted(env: Environment, signal: bool, a: nat) {
    signal && !WokeFirst(env(a).Callbacks())
  }

  predicate Goes(env: Environment, signal: bool, retries: nat, a: nat) {
    var r := env(a);
    && a < retries && r.result.Throws? && r.retryable
    && !HeadAborted(env, signal, a) && !SleepAborted(env, signal, a)
    && !(signal && (r.abortInFn || r.abortBeforeSleep))
  }

  /** The first round, from `a` on, that is not followed by another. */
  function StopRound(env: Environment, signal: bool, retries: nat, a: nat): (k: nat)
    requires a <= retries
    ensures a <= k <= retries && !Goes(env, signal, retries, k)
    ensures forall j | a <= j < k :: Goes(env, signal, retries, j)
    decreases retries - a
  {
    if Goes(env, signal, retries, a) then StopRound(env, signal, retries, a + 1) else a
  }

  /** The trace of `k` rounds that all went on to the next. */
  function Rounds(env: Environment, delays: Delays, k: nat): Trace
  {
    if k == 0 then []
    else
      var r := env(k - 1);
      Rounds(env, delays, k - 1) + [Call(k - 1), Notify(r.result.ErrorText(), k), Sleep(delays(k - 1)), Wake]
  }

  /** The last round `k`, up to the end of the run. */
  function Ending(env: Environment, delays: Delays, signal: bool, retries: nat, k: nat): (Trace, Result) {
    var r := env(k);
    if HeadAborted(env, signal, k) then ([Abort], RejectedAborted)
    else
      var called := if signal && r.abortInFn then [Call(k), Abort] else [Call(k)];
      match r.result
      case Returns(v) => (called, Resolved(v))
      case Throws(e) =>
        if signal && r.abortInFn then (called, RejectedAborted)
        else if k >= retries || !r.retryable then (called, RejectedWith(e))
        else if signal && r.abortBeforeSleep then (called + [Notify(e, k + 1), Abort], RejectedAborted)
        else (called + [Notify(e, k + 1), Sleep(delays(k)), Abort], RejectedAborted)
  }

  function FullTrace(env: Environment, delays: Delays, signal: bool, retries: nat): Trace {
    var k := StopRound(env, signal, retries, 0);
    Rounds(env, delays, k) + Ending(env, delays, signal, retries, k).0
  }

  function FinalResult(env: Environment, delays: Delays, signal: bool, retries: nat): Result {
    Ending(env, delays, signal, retries, StopRound(env, signal, retries, 0)).1
  }

  // ----- the loop

  /** What a sleep leaves in the trace, by how its timer ended. */
  function SleepTrace(delayMs: real, s: Sleeper): Trace {
    match s.timer
    case Unarmed => []
    case Armed => [Sleep(delayMs)]
    case Fired => [Sleep(delayMs), Wake]
    case Cleared => [Sleep(delayMs), Abort]
  }

  /** `sleep`, through all that its timer and the signal do: it wakes unless an abort came before the timer. */
  method SleepFor(delayMs: real, signal: bool, aborted: bool, callbacks: seq<SleepEvent>) returns (s: Sleeper, trace: Trace)
    requires WakeUp in callbacks && (aborted ==> signal)
    ensures s.results == if !aborted && (signal ==> WokeFirst(callbacks)) then [Slept] else [RejectedWithReason]
    ensures trace == if aborted then [] else [Sleep(delayMs), if s.results == [Slept] then Wake else Abort]
    ensures s.aborted <==> aborted || AbortSignal in callbacks
    ensures s.timer != Armed && (s.listening ==> s.aborted)
  {
    s := RunSleep(StartSleep(signal, aborted), callbacks);
    SleepOutcome(signal, aborted, callbacks);
    trace := SleepTrace(delayMs, s);
  }

  lemma StopsAt(env: Environment, delays: Delays, signal: bool, retries: nat, k: nat, tail: Trace, result: Result)
    requires k <= retries && StopRound(env, signal, retries, 0) == StopRound(env, signal, retries, k)
    requires !Goes(env, signal, retries, k)
    requires tail == Ending(env, delays, signal, retries, k).0 && result == Ending(env, delays, signal, retries, k).1
    ensures FullTrace(env, delays, signal, retries) == Rounds(env, delays, k) + tail
    ensures FinalResult(env, delays, signal, retries) == result
  {
  }

  predicate BacksOff(env: Environment, signal: bool, retries: nat, k: nat) {
    var r := env(k);
    && k < retries && r.result.Throws? && r.retryable && !HeadAborted(env, signal, k) && !(signal && r.abortInFn)
  }

  /** What follows the call in a round that backs off. */
  function BackoffTrace(env: Environment, delays: Delays, signal: bool, k: nat): Trace {
    var notice := Notify(env(k).result.ErrorText(), k + 1);
    if signal && env(k).abortBeforeSleep then [notice, Abort]
    else [notice, Sleep(delays(k)), if SleepAborted(env, signal, k) then Abort else Wake]
  }

  /** Announces the retry, then sleeps for the drawn delay; `late` is an abort after the sleep. */
  method BackOff(env: Environment, p: Policy, signal: bool, retries: nat, k: nat) returns (trace: Trace, woke: bool, late: bool)
    requires BacksOff(env, signal, retries, k)
    ensures trace == BackoffTrace(env, Drawn(env, p), signal, k)
    ensures woke <==> Goes(env, signal, retries, k)
    ensures woke ==> (late <==> LateAbort(env, signal, k + 1))
  {
    var round := env(k);
    trace := [Notify(round.result.error, k + 1)];
    var aborted := signal && round.abortBeforeSleep;
    if aborted {
      trace := trace + [Abort];
    }
    var delay := p.Delay(k, round.draw);
    assert delay == Drawn(env, p)(k);
    var sleeper, slept := SleepFor(delay, signal, aborted, round.Callbacks());
    trace, woke, late := trace + slept, sleeper.results == [Slept], signal && sleeper.aborted;
  }

  lemma BackoffEnds(env: Environment, delays: Delays, signal: bool, retries: nat, k: nat)
    requires BacksOff(env, signal, retries, k)
    requires StopRound(env, signal, retries, 0) == StopRound(env, signal, retries, k)
    ensures var t := Rounds(env, delays, k) + ([Call(k)] + BackoffTrace(env, delays, signal, k));
      if Goes(env, signal, retries, k) then
        t == Rounds(env, delays, k + 1) && StopRound(env, signal, retries, 0) == StopRound(env, signal, retries, k + 1)
      else
        t == FullTrace(env, delays, signal, retries) && FinalResult(env, delays, signal, retries) == RejectedAborted
  {
    if !Goes(env, signal, retries, k) {
      StopsAt(env, delays, signal, retries, k, [Call(k)] + BackoffTrace(env, delays, signal, k), RejectedAborted);
    }
  }

  predicate ValidRetries(retries: real) {
    retries >= 0.0 && retries.Floor as real == retries
  }

  /** The valid numbers of retries are the natural numbers. */
  lemma ValidRetriesMeans(retries: real, n: int)
    requires n as real <= retries < n as real + 1.0
    ensures ValidRetries(retries) <==> n >= 0 && retries == n as real
  {
    assert retries.Floor == n;
  }

  method WithRetry(env: Environment, p: Policy, signal: bool, retries: real) returns (result: Result, trace: Trace)
    ensures !ValidRetries(retries) ==> result == InvalidRetries && trace == []
    ensures ValidRetries(retries) ==> trace == FullTrace(env, Drawn(env, p), signal, retries.Floor)
    ensures ValidRetries(retries) ==> result == FinalResult(env, Drawn(env, p), signal, retries.Floor)
  {
    trace := [];
    ghost var delays := Drawn(env, p);
    if !ValidRetries(retries) {
      return InvalidRetries, trace;
    }
    var n: nat := retries.Floor;
    var lastError := "";
    var attempt: nat := 0;
    var aborted := false;
    while attempt <= n
      invariant attempt <= n
      invariant trace == Rounds(env, delays, attempt)
      invariant StopRound(env, signal, n, 0) == StopRound(env, signal, n, attempt)
      invariant aborted <==> LateAbort(env, signal, attempt)
      decreases n - attempt
    {
      var round := env(attempt);
      if signal && round.abortAtHead {
        aborted := true;
      }
      if aborted {
        StopsAt(env, delays, signal, n, attempt, [Abort], RejectedAborted);
        return RejectedAborted, trace + [Abort];
      }
      var round0 := [Call(attempt)];
      if signal && round.abortInFn {
        aborted, round0 := true, round0 + [Abort];
      }
      match round.result {
        case Returns(v) =>
          StopsAt(env, delays, signal, n, attempt, round0, Resolved(v));
          return Resolved(v), trace + round0;
        case Throws(error) =>
          lastError := error;
          if aborted {
            StopsAt(env, delays, signal, n, attempt, round0, RejectedAborted);
            return RejectedAborted, trace + round0;
          }
          if attempt == n || !round.retryable {
            StopsAt(env, delays, signal, n, attempt, round0, RejectedWith(error));
            trace := trace + round0;
            break;
          }
          BackoffEnds(env, delays, signal, n, attempt);
          var slept, woke;
          slept, woke, aborted := BackOff(env, p, signal, n, attempt);
          trace := trace + (round0 + slept);
          if !woke {
            return RejectedAborted, trace;
          }
      }
      attempt := attempt + 1;
    }
    result := RejectedWith(lastError);
  }
}
