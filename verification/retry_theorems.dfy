/** What every run of the retry loop observably does. */
module RetryTheorems {
  import opened Timers
  import opened Backoff
  import opened SleepRace
  import opened Retry

  datatype Kind = Calls | Notices | Sleeps | Wakes

  predicate Is(kind: Kind, e: Event) {
    match kind
    case Calls => e.Call?
    case Notices => e.Notify?
    case Sleeps => e.Sleep?
    case Wakes => e.Wake?
  }

  function One(kind: Kind, e: Event): Trace {
    if Is(kind, e) then [e] else []
  }

  /** The events of one kind, in order. */
  function Of(kind: Kind, t: Trace): Trace {
    if t == [] then [] else Of(kind, t[..|t| - 1]) + One(kind, t[|t| - 1])
  }

  /** Abort listeners added and not removed again. */
  function Listeners(t: Trace): int {
    |Of(Sleeps, t)| - |Of(Wakes, t)|
  }

  lemma {:induction false} Appends(kind: Kind, t: Trace, u: Trace)
    ensures Of(kind, t + u) == Of(kind, t) + Of(kind, u)
    decreases |u|
  {
    if u == [] {
      assert t + u == t;
    } else {
      var v := u[..|u| - 1];
      assert (t + u)[..|t + u| - 1] == t + v;
      Appends(kind, t, v);
    }
  }

  lemma Single(kind: Kind, a: Event)
    ensures Of(kind, [a]) == One(kind, a)
  {
    assert [a][..0] == [];
  }

  lemma Pair(kind: Kind, a: Event, b: Event)
    ensures Of(kind, [a, b]) == One(kind, a) + One(kind, b)
  {
    assert [a, b] == [a] + [b];
    Appends(kind, [a], [b]);
    Single(kind, a);
    Single(kind, b);
  }

  lemma Triple(kind: Kind, a: Event, b: Event, c: Event)
    ensures Of(kind, [a, b, c]) == One(kind, a) + One(kind, b) + One(kind, c)
  {
    assert [a, b, c] == [a, b] + [c];
    Appends(kind, [a, b], [c]);
    Pair(kind, a, b);
    Single(kind, c);
  }

  lemma Quad(kind: Kind, a: Event, b: Event, c: Event, d: Event)
    ensures Of(kind, [a, b, c, d]) == One(kind, a) + One(kind, b) + One(kind, c) + One(kind, d)
  {
    assert [a, b, c, d] == [a, b, c] + [d];
    Appends(kind, [a, b, c], [d]);
    Triple(kind, a, b, c);
    Single(kind, d);
  }

  /** The event of each kind in round `a`, when the round goes on to the next. */
  function RoundEvent(env: Environment, delays: Delays, kind: Kind, a: nat): Event {
    match kind
    case Calls => Call(a)
    case Notices => Notify(env(a).result.ErrorText(), a + 1)
    case Sleeps => Sleep(delays(a))
    case Wakes => Wake
  }

  /** The events of one kind of rounds 0, 1, ..., k - 1. */
  function RoundEvents(env: Environment, delays: Delays, kind: Kind, k: nat): Trace {
    if k == 0 then [] else RoundEvents(env, delays, kind, k - 1) + [RoundEvent(env, delays, kind, k - 1)]
  }

  /** `s` is the events of one kind of rounds 0, 1, ..., n - 1. */
  ghost predicate AreRoundEvents(env: Environment, delays: Delays, kind: Kind, n: nat, s: Trace) {
    |s| == n && forall i | 0 <= i < n :: s[i] == RoundEvent(env, delays, kind, i)
  }

  lemma {:induction false} RoundEventsAt(env: Environment, delays: Delays, kind: Kind, k: nat)
    ensures AreRoundEvents(env, delays, kind, k, RoundEvents(env, delays, kind, k))
  {
    if k > 0 {
      RoundEventsAt(env, delays, kind, k - 1);
    }
  }

  lemma {:induction false} RoundsShape(env: Environment, delays: Delays, kind: Kind, k: nat)
    ensures Of(kind, Rounds(env, delays, k)) == RoundEvents(env, delays, kind, k)
    decreases k
  {
    if k > 0 {
      RoundsShape(env, delays, kind, k - 1);
      OneRound(env, delays, kind, k);
    }
  }

  lemma OneRound(env: Environment, delays: Delays, kind: Kind, k: nat)
    requires k > 0
    ensures Of(kind, Rounds(env, delays, k)) == Of(kind, Rounds(env, delays, k - 1)) + [RoundEvent(env, delays, kind, k - 1)]
  {
    var call, notice := Call(k - 1), Notify(env(k - 1).result.ErrorText(), k);
    var sleep := Sleep(delays(k - 1));
    Quad(kind, call, notice, sleep, Wake);
    assert Of(kind, [call, notice, sleep, Wake]) == [RoundEvent(env, delays, kind, k - 1)];
    Appends(kind, Rounds(env, delays, k - 1), [call, notice, sleep, Wake]);
  }

  lemma {:induction false} RoundsNotAborted(env: Environment, delays: Delays, k: nat)
    ensures Abort !in Rounds(env, delays, k)
  {
    if k > 0 {
      RoundsNotAborted(env, delays, k - 1);
    }
  }

  /** Round `k` got as far as `onRetry`. */
  predicate Announces(env: Environment, signal: bool, retries: nat, k: nat) {
    var r := env(k);
    && r.result.Throws? && r.retryable && k < retries
    && !HeadAborted(env, signal, k) && !(signal && r.abortInFn)
  }

  /** How many events of a kind the last round contributes. */
  function Last(env: Environment, signal: bool, retries: nat, kind: Kind, k: nat): nat {
    match kind
    case Calls => if HeadAborted(env, signal, k) then 0 else 1
    case Notices => if Announces(env, signal, retries, k) then 1 else 0
    case Sleeps =>
      if Announces(env, signal, retries, k) && !(signal && env(k).abortBeforeSleep) then 1 else 0
    case Wakes => 0
  }

  lemma EndingShape(env: Environment, delays: Delays, signal: bool, retries: nat, kind: Kind, k: nat)
    ensures Of(kind, Ending(env, delays, signal, retries, k).0)
         == if Last(env, signal, retries, kind, k) == 1 then [RoundEvent(env, delays, kind, k)] else []
  {
    if !Announces(env, signal, retries, k) {
      Single(kind, Abort);
      Single(kind, Call(k));
      Pair(kind, Call(k), Abort);
    } else {
      BackoffEnding(env, delays, signal, retries, k);
      var e, d := Notify(env(k).result.ErrorText(), k + 1), Sleep(delays(k));
      Triple(kind, Call(k), e, Abort);
      Quad(kind, Call(k), e, d, Abort);
    }
  }

  lemma BackoffEnding(env: Environment, delays: Delays, signal: bool, retries: nat, k: nat)
    requires Announces(env, signal, retries, k)
    ensures var e, d := Notify(env(k).result.ErrorText(), k + 1), Sleep(delays(k));
      Ending(env, delays, signal, retries, k) ==
        (if signal && env(k).abortBeforeSleep then [Call(k), e, Abort] else [Call(k), e, d, Abort], RejectedAborted)
  {
    var e, d := Notify(env(k).result.ErrorText(), k + 1), Sleep(delays(k));
    assert [Call(k)] + [e, Abort] == [Call(k), e, Abort];
    assert [Call(k)] + [e, d, Abort] == [Call(k), e, d, Abort];
  }

  lemma EndingEvents(env: Environment, delays: Delays, signal: bool, retries: nat, kind: Kind, k: nat)
    ensures RoundEvents(env, delays, kind, k) + Of(kind, Ending(env, delays, signal, retries, k).0)
         == RoundEvents(env, delays, kind, k + Last(env, signal, retries, kind, k))
  {
    EndingShape(env, delays, signal, retries, kind, k);
    if Last(env, signal, retries, kind, k) == 0 {
      assert RoundEvents(env, delays, kind, k) + [] == RoundEvents(env, delays, kind, k);
    }
  }

  lemma AppendsTo(kind: Kind, t: Trace, u: Trace, s: Trace, r: Trace)
    requires Of(kind, t) == s && s + Of(kind, u) == r
    ensures Of(kind, t + u) == r
  {
    Appends(kind, t, u);
  }

  lemma EventsThrough(env: Environment, delays: Delays, signal: bool, retries: nat, kind: Kind, k: nat)
    ensures Of(kind, Rounds(env, delays, k) + Ending(env, delays, signal, retries, k).0)
         == RoundEvents(env, delays, kind, k + Last(env, signal, retries, kind, k))
  {
    RoundsShape(env, delays, kind, k);
    EndingEvents(env, delays, signal, retries, kind, k);
    AppendsTo(kind, Rounds(env, delays, k), Ending(env, delays, signal, retries, k).0,
              RoundEvents(env, delays, kind, k), RoundEvents(env, delays, kind, k + Last(env, signal, retries, kind, k)));
  }

  /** The events of each kind are those of rounds 0, 1, ... in order, up to and with the last round. */
  lemma TraceShape(env: Environment, delays: Delays, signal: bool, retries: nat, kind: Kind)
    ensures var k := StopRound(env, signal, retries, 0);
      var s := Of(kind, FullTrace(env, delays, signal, retries));
      AreRoundEvents(env, delays, kind, k + Last(env, signal, retries, kind, k), s)
  {
    var k := StopRound(env, signal, retries, 0);
    RunEvents(env, delays, signal, retries, kind, k);
  }

  lemma RunEvents(env: Environment, delays: Delays, signal: bool, retries: nat, kind: Kind, k: nat)
    ensures AreRoundEvents(env, delays, kind, k + Last(env, signal, retries, kind, k),
                           Of(kind, Rounds(env, delays, k) + Ending(env, delays, signal, retries, k).0))
  {
    EventsThrough(env, delays, signal, retries, kind, k);
    IndexedEvents(env, delays, kind, k + Last(env, signal, retries, kind, k),
                  Of(kind, Rounds(env, delays, k) + Ending(env, delays, signal, retries, k).0));
  }

  lemma IndexedEvents(env: Environment, delays: Delays, kind: Kind, n: nat, s: Trace)
    requires s == RoundEvents(env, delays, kind, n)
    ensures AreRoundEvents(env, delays, kind, n, s)
  {
    RoundEventsAt(env, delays, kind, n);
  }

  lemma CountOf(env: Environment, delays: Delays, signal: bool, retries: nat, kind: Kind)
    ensures var k := StopRound(env, signal, retries, 0);
      |Of(kind, FullTrace(env, delays, signal, retries))| == k + Last(env, signal, retries, kind, k)
  {
    TraceShape(env, delays, signal, retries, kind);
  }

  /** `fn` is called for attempts 0, 1, 2, ... and at most `retries + 1` times. */
  lemma CallsInOrder(env: Environment, delays: Delays, signal: bool, retries: nat)
    ensures var calls := Of(Calls, FullTrace(env, delays, signal, retries));
      |calls| <= retries + 1 && forall i | 0 <= i < |calls| :: calls[i] == Call(i)
  {
    TraceShape(env, delays, signal, retries, Calls);
  }

  /** The run was aborted while it was in a backoff, or after one and before the next call. */
  predicate AbortedAroundBackoff(env: Environment, signal: bool, retries: nat) {
    var k := StopRound(env, signal, retries, 0);
    if HeadAborted(env, signal, k) then k > 0 else Announces(env, signal, retries, k)
  }

  /**
    `onRetry` receives 1, 2, ..., m, each with the error just thrown: one fewer than calls, unless the run
    was aborted in or after a backoff, when as many. (Aborted before the first call, both are none.)
   */
  lemma NoticesInOrder(env: Environment, delays: Delays, signal: bool, retries: nat)
    ensures var t := FullTrace(env, delays, signal, retries);
      var calls, notices := |Of(Calls, t)|, Of(Notices, t);
      && (forall i | 0 <= i < |notices| ::
            env(i).result.Throws? && notices[i] == Notify(env(i).result.error, i + 1))
      && (calls == 0 <==> signal && env(0).abortAtHead)
      && |notices| == if calls == 0 || AbortedAroundBackoff(env, signal, retries) then calls else calls - 1
  {
    NoticesAreRounds(env, delays, signal, retries);
    CountOf(env, delays, signal, retries, Calls);
    CountOf(env, delays, signal, retries, Notices);
  }

  lemma NoticesAreRounds(env: Environment, delays: Delays, signal: bool, retries: nat)
    ensures var notices := Of(Notices, FullTrace(env, delays, signal, retries));
      forall i | 0 <= i < |notices| :: env(i).result.Throws? && notices[i] == Notify(env(i).result.error, i + 1)
  {
    TraceShape(env, delays, signal, retries, Notices);
    forall i: nat | i < StopRound(env, signal, retries, 0) ensures env(i).result.Throws? {
      assert Goes(env, signal, retries, i);
    }
  }

  /** An abort ends the run: `fn`, `onRetry` and the timer are never started on an aborted signal. */
  lemma AbortIsLast(env: Environment, delays: Delays, signal: bool, retries: nat, i: nat)
    requires i < |FullTrace(env, delays, signal, retries)| && FullTrace(env, delays, signal, retries)[i] == Abort
    ensures signal && i == |FullTrace(env, delays, signal, retries)| - 1
  {
    var k := StopRound(env, signal, retries, 0);
    var pre := Rounds(env, delays, k);
    RoundsNotAborted(env, delays, k);
    forall j | 0 <= j < |pre| ensures FullTrace(env, delays, signal, retries)[j] != Abort {
      assert FullTrace(env, delays, signal, retries)[j] == pre[j];
    }
  }

  lemma AbortInTrace(env: Environment, delays: Delays, signal: bool, retries: nat)
    ensures Abort in FullTrace(env, delays, signal, retries)
       <==> Abort in Ending(env, delays, signal, retries, StopRound(env, signal, retries, 0)).0
  {
    RoundsNotAborted(env, delays, StopRound(env, signal, retries, 0));
  }

  lemma AbortEndsBackoff(env: Environment, delays: Delays, signal: bool, retries: nat, k: nat)
    requires Announces(env, signal, retries, k)
    ensures Abort in Ending(env, delays, signal, retries, k).0
  {
    var ending := Ending(env, delays, signal, retries, k).0;
    assert ending[|ending| - 1] == Abort;
  }

  lemma EndingResult(env: Environment, delays: Delays, signal: bool, retries: nat, k: nat)
    requires k <= retries && !Goes(env, signal, retries, k)
    ensures var (ending, result) := Ending(env, delays, signal, retries, k);
      match result
      case Resolved(v) => env(k).result == Returns(v) && Last(env, signal, retries, Calls, k) == 1
      case RejectedAborted => signal && Abort in ending
      case RejectedWith(e) =>
        && Abort !in ending && env(k).result == Throws(e) && Last(env, signal, retries, Calls, k) == 1
        && (k == retries || !env(k).retryable)
      case InvalidRetries => false
  {
    var ending := Ending(env, delays, signal, retries, k).0;
    if HeadAborted(env, signal, k) || (signal && env(k).abortInFn) || Announces(env, signal, retries, k) {
      assert ending[|ending| - 1] == Abort;
    }
  }

  /**
    The run returns the value of its last call, all earlier calls having thrown; or it rejects with the
    abort reason after an abort; or, when no abort was observed, with the error of its last call, which
    was out of retries or not retryable.
   */
  lemma RunResult(env: Environment, delays: Delays, signal: bool, retries: nat)
    ensures var t := FullTrace(env, delays, signal, retries);
      var c := |Of(Calls, t)|;
      && (forall j | 0 <= j < c - 1 :: env(j).result.Throws? && env(j).retryable)
      && match FinalResult(env, delays, signal, retries)
         case Resolved(v) => c > 0 && env(c - 1).result == Returns(v)
         case RejectedAborted => signal && Abort in t
         case RejectedWith(e) =>
           && Abort !in t && c > 0 && env(c - 1).result == Throws(e)
           && (c == retries + 1 || !env(c - 1).retryable)
         case InvalidRetries => false
  {
    var k := StopRound(env, signal, retries, 0);
    TraceShape(env, delays, signal, retries, Calls);
    AbortInTrace(env, delays, signal, retries);
    EndingResult(env, delays, signal, retries, k);
    forall j | 0 <= j < k ensures env(j).result.Throws? && env(j).retryable {
      assert Goes(env, signal, retries, j);
    }
  }

  // ----- the order of events

  /** `e` may come directly after `before`. */
  predicate Follows(before: Event, e: Event) {
    match e
    case Call(a) => a > 0 && before == Wake
    case Notify(_, number) => number > 0 && before == Call(number - 1)
    case Sleep(_) => before.Notify?
    case Wake => before.Sleep?
    case Abort => true
  }

  predicate InOrder(t: Trace) {
    && (t != [] ==> t[0] in {Call(0), Abort})
    && forall i | 0 < i < |t| :: Follows(t[i - 1], t[i])
  }

  lemma {:induction false} RoundsInOrder(env: Environment, delays: Delays, k: nat)
    ensures InOrder(Rounds(env, delays, k))
    ensures var t := Rounds(env, delays, k); k > 0 ==> t != [] && t[|t| - 1] == Wake
    ensures k == 0 ==> Rounds(env, delays, k) == []
  {
    if k > 0 {
      RoundsInOrder(env, delays, k - 1);
      var round := [Call(k - 1), Notify(env(k - 1).result.ErrorText(), k), Sleep(delays(k - 1)), Wake];
      AppendInOrder(Rounds(env, delays, k - 1), round);
    }
  }

  lemma AppendInOrder(t: Trace, u: Trace)
    requires InOrder(t) && u != [] && forall i | 0 < i < |u| :: Follows(u[i - 1], u[i])
    requires if t == [] then u[0] in {Call(0), Abort} else Follows(t[|t| - 1], u[0])
    ensures InOrder(t + u)
  {
    var v := t + u;
    forall i | 0 < i < |v| ensures Follows(v[i - 1], v[i]) {
      if i < |t| {
        assert v[i - 1] == t[i - 1] && v[i] == t[i];
      } else if i > |t| {
        assert v[i - 1] == u[i - |t| - 1] && v[i] == u[i - |t|];
      }
    }
  }

  lemma EndingInOrder(env: Environment, delays: Delays, signal: bool, retries: nat, k: nat)
    ensures var u := Ending(env, delays, signal, retries, k).0;
      u != [] && u[0] in {Call(k), Abort} && forall i | 0 < i < |u| :: Follows(u[i - 1], u[i])
  {
    if Announces(env, signal, retries, k) {
      BackoffEnding(env, delays, signal, retries, k);
    }
  }

  /**
    What comes directly after what: `onRetry` after the call that threw, a backoff after `onRetry`, and the
    next call after the backoff woke.
   */
  lemma TraceInOrder(env: Environment, delays: Delays, signal: bool, retries: nat)
    ensures InOrder(FullTrace(env, delays, signal, retries))
  {
    var k := StopRound(env, signal, retries, 0);
    RoundsInOrder(env, delays, k);
    EndingInOrder(env, delays, signal, retries, k);
    AppendInOrder(Rounds(env, delays, k), Ending(env, delays, signal, retries, k).0);
  }

  // ----- results read off the environment alone

  /** The signal does not abort from this attempt to the next. */
  predicate Quiet(r: Round) {
    !r.abortAtHead && !r.abortInFn && !r.abortBeforeSleep && AbortSignal !in r.sleepEvents
  }

  /** The rounds before `a` all failed with an error to retry, and no signal aborted in them. */
  predicate ReachedQuietly(env: Environment, signal: bool, a: nat) {
    forall j | 0 <= j < a :: env(j).result.Throws? && env(j).retryable && (signal ==> Quiet(env(j)))
  }

  /** Attempt `a` is made, and no abort is seen before its result is. */
  predicate Attempted(env: Environment, signal: bool, a: nat) {
    ReachedQuietly(env, signal, a) && !(signal && env(a).abortAtHead)
  }

  /** The signal aborts in round `a`, at a moment that ends the run. */
  predicate AbortSeen(r: Round, retries: nat, a: nat) {
    || r.abortAtHead
    || (r.result.Throws? && r.abortInFn)
    || (r.result.Throws? && r.retryable && a < retries && (r.abortBeforeSleep || AbortSignal in r.sleepEvents))
  }

  lemma QuietWakes(r: Round)
    ensures AbortSignal in r.Callbacks() <==> AbortSignal in r.sleepEvents
    ensures !WokeFirst(r.Callbacks()) ==> AbortSignal in r.sleepEvents
  {
    var n := |r.sleepEvents|;
    assert r.Callbacks()[n] == WakeUp && r.Callbacks()[..n] == r.sleepEvents;
    if AbortSignal in r.Callbacks() {
      var i :| 0 <= i < |r.Callbacks()| && r.Callbacks()[i] == AbortSignal;
      assert r.sleepEvents[i] == AbortSignal;
    }
  }

  /** A round that was reached quietly comes no later than the one that stops the run. */
  lemma {:induction false} QuietGoesOn(env: Environment, signal: bool, retries: nat, a: nat)
    requires a <= retries && ReachedQuietly(env, signal, a)
    ensures a <= StopRound(env, signal, retries, 0) && !LateAbort(env, signal, a)
    decreases a
  {
    if a > 0 {
      QuietGoesOn(env, signal, retries, a - 1);
      QuietWakes(env(a - 1));
    }
  }

  /** The rounds before the last went on, so they were quiet except for an abort too late for a sleep. */
  lemma GoneIsQuiet(env: Environment, signal: bool, retries: nat, k: nat)
    requires k <= StopRound(env, signal, retries, 0) <= retries
    ensures !LateAbort(env, signal, k) ==> ReachedQuietly(env, signal, k)
    ensures LateAbort(env, signal, k) ==> k > 0 && ReachedQuietly(env, signal, k - 1)
  {
    forall j | 0 <= j < k
      ensures env(j).result.Throws? && env(j).retryable
      ensures signal && (j < k - 1 || !LateAbort(env, signal, k)) ==> Quiet(env(j))
    {
      assert Goes(env, signal, retries, j);
      QuietWakes(env(j));
      if j < k - 1 {
        assert Goes(env, signal, retries, j + 1);
      }
    }
  }

  /** The run rejects with the abort reason if and only if the signal aborts at a moment that it sees. */
  lemma AbortedExactly(env: Environment, delays: Delays, signal: bool, retries: nat)
    ensures FinalResult(env, delays, signal, retries) == RejectedAborted <==>
      signal && exists a :: 0 <= a <= retries && ReachedQuietly(env, signal, a) && AbortSeen(env(a), retries, a)
  {
    var k := StopRound(env, signal, retries, 0);
    GoneIsQuiet(env, signal, retries, k);
    QuietWakes(env(k));
    if LateAbort(env, signal, k) {
      QuietWakes(env(k - 1));
      assert Goes(env, signal, retries, k - 1);
      assert AbortSeen(env(k - 1), retries, k - 1);
    } else if FinalResult(env, delays, signal, retries) == RejectedAborted {
      assert AbortSeen(env(k), retries, k);
    }
    forall a: nat | signal && a <= retries && ReachedQuietly(env, signal, a) && AbortSeen(env(a), retries, a)
      ensures FinalResult(env, delays, signal, retries) == RejectedAborted
    {
      SeenIsFinal(env, delays, signal, retries, a);
    }
  }

  lemma SeenIsFinal(env: Environment, delays: Delays, signal: bool, retries: nat, a: nat)
    requires signal && a <= retries && ReachedQuietly(env, signal, a) && AbortSeen(env(a), retries, a)
    ensures FinalResult(env, delays, signal, retries) == RejectedAborted
  {
    var k := StopRound(env, signal, retries, 0);
    QuietGoesOn(env, signal, retries, a);
    QuietWakes(env(a));
    if a < k {
      assert Goes(env, signal, retries, a);
      assert LateAbort(env, signal, a + 1);
      assert !Goes(env, signal, retries, a + 1);
    }
  }

  /** It resolves with the value of the first attempt that returns, if no abort is seen before. */
  lemma ResolvedExactly(env: Environment, delays: Delays, signal: bool, retries: nat, v: int)
    ensures FinalResult(env, delays, signal, retries) == Resolved(v) <==>
      exists a :: 0 <= a <= retries && Attempted(env, signal, a) && env(a).result == Returns(v)
  {
    var k := StopRound(env, signal, retries, 0);
    GoneIsQuiet(env, signal, retries, k);
    if FinalResult(env, delays, signal, retries) == Resolved(v) {
      assert Attempted(env, signal, k) && env(k).result == Returns(v);
    }
    forall a: nat | a <= retries && Attempted(env, signal, a) && env(a).result == Returns(v)
      ensures FinalResult(env, delays, signal, retries) == Resolved(v)
    {
      QuietGoesOn(env, signal, retries, a);
      assert !Goes(env, signal, retries, a);
    }
  }

  /** It rejects with an error that is not to be retried, or is the last one allowed, if no abort is seen before. */
  lemma RejectedExactly(env: Environment, delays: Delays, signal: bool, retries: nat, e: string)
    ensures FinalResult(env, delays, signal, retries) == RejectedWith(e) <==>
      exists a :: 0 <= a <= retries && Attempted(env, signal, a) && env(a).result == Throws(e)
        && !(signal && env(a).abortInFn) && (a == retries || !env(a).retryable)
  {
    var k := StopRound(env, signal, retries, 0);
    GoneIsQuiet(env, signal, retries, k);
    EndingResult(env, delays, signal, retries, k);
    if FinalResult(env, delays, signal, retries) == RejectedWith(e) {
      assert Attempted(env, signal, k) && env(k).result == Throws(e);
    }
    forall a: nat | a <= retries && Attempted(env, signal, a) && env(a).result == Throws(e)
        && !(signal && env(a).abortInFn) && (a == retries || !env(a).retryable)
      ensures FinalResult(env, delays, signal, retries) == RejectedWith(e)
    {
      QuietGoesOn(env, signal, retries, a);
      assert !Goes(env, signal, retries, a);
    }
  }

  /** Nothing is aborted unless the environment aborts the signal. */
  lemma AbortHasCause(env: Environment, delays: Delays, signal: bool, retries: nat)
    requires Abort in FullTrace(env, delays, signal, retries) || FinalResult(env, delays, signal, retries) == RejectedAborted
    ensures signal && exists a :: 0 <= a <= retries && !Quiet(env(a))
  {
    var k := StopRound(env, signal, retries, 0);
    AbortInTrace(env, delays, signal, retries);
    QuietWakes(env(k));
    if LateAbort(env, signal, k) {
      QuietWakes(env(k - 1));
      assert !Quiet(env(k - 1));
    } else {
      assert !Quiet(env(k));
    }
  }

  /** The backoffs wait for the drawn delays of attempts 0, 1, ... in order, each within the cap. */
  lemma SleepsAreBounded(env: Environment, p: Policy, signal: bool, retries: nat, i: nat)
    requires p.Valid() && forall a: nat :: 0.0 <= env(a).draw < 1.0
    requires i < |Of(Sleeps, FullTrace(env, Drawn(env, p), signal, retries))|
    ensures var s := Of(Sleeps, FullTrace(env, Drawn(env, p), signal, retries));
      s[i] == Sleep(p.Delay(i, env(i).draw)) && 0.0 <= p.Delay(i, env(i).draw) <= p.maxDelayMs && |s| <= retries
  {
    SleepsInOrder(env, Drawn(env, p), signal, retries);
    DelayBounds(p, i, env(i).draw);
  }

  lemma SleepsInOrder(env: Environment, delays: Delays, signal: bool, retries: nat)
    ensures var s := Of(Sleeps, FullTrace(env, delays, signal, retries));
      |s| <= retries && forall i | 0 <= i < |s| :: s[i] == Sleep(delays(i))
  {
    TraceShape(env, delays, signal, retries, Sleeps);
  }

  // ----- the total wait

  /** All that a run waits in its backoffs. */
  function TotalSlept(t: Trace): real {
    if t == [] then 0.0
    else TotalSlept(t[..|t| - 1]) + if t[|t| - 1].Sleep? then t[|t| - 1].delayMs else 0.0
  }

  lemma {:induction false} TotalOfSleeps(t: Trace)
    ensures TotalSlept(Of(Sleeps, t)) == TotalSlept(t)
    decreases |t|
  {
    if t != [] {
      var pre, last := t[..|t| - 1], t[|t| - 1];
      TotalOfSleeps(pre);
      assert last.Sleep? ==> (Of(Sleeps, pre) + [last])[..|Of(Sleeps, pre)|] == Of(Sleeps, pre);
      assert !last.Sleep? ==> Of(Sleeps, pre) + [] == Of(Sleeps, pre);
    }
  }

  lemma {:induction false} TotalIsSum(delays: Delays, sleeps: Trace)
    requires forall i | 0 <= i < |sleeps| :: sleeps[i] == Sleep(delays(i))
    ensures TotalSlept(sleeps) == Sum(delays, |sleeps|)
    decreases |sleeps|
  {
    if sleeps != [] {
      TotalIsSum(delays, sleeps[..|sleeps| - 1]);
    }
  }

  lemma DrawnArePossible(env: Environment, p: Policy)
    requires forall a: nat :: 0.0 <= env(a).draw < 1.0
    ensures PossibleDelays(p, Drawn(env, p))
  {
    forall a: nat ensures PossibleDelay(p, a, Drawn(env, p)(a)) {
      assert Drawn(env, p)(a) == p.Delay(a, env(a).draw);
    }
  }

  lemma FewerCaps(n: nat, m: nat, cap: real)
    requires n <= m && cap >= 0.0
    ensures Times(n, cap) <= Times(m, cap)
  {
    MulMonotone(cap, n as real, m as real);
  }

  /**
    All sleeps of a run together last at most one cap for each, at most `retries` caps, and for a growing
    delay at most the closed geometric bound.
   */
  lemma RunWaits(env: Environment, p: Policy, signal: bool, retries: nat)
    requires p.Valid() && forall a: nat :: 0.0 <= env(a).draw < 1.0
    ensures var t := FullTrace(env, Drawn(env, p), signal, retries);
      var n := |Of(Sleeps, t)|;
      && n <= retries
      && TotalSlept(t) <= Times(n, p.maxDelayMs) <= Times(retries, p.maxDelayMs)
      && (p.factor > 1.0 ==> TotalSlept(t) <= GrowthBound(p, n))
  {
    var delays := Drawn(env, p);
    var t := FullTrace(env, delays, signal, retries);
    SleepsInOrder(env, delays, signal, retries);
    TotalOfSleeps(t);
    TotalIsSum(delays, Of(Sleeps, t));
    DrawnArePossible(env, p);
    TotalBelowCaps(p, delays, |Of(Sleeps, t)|);
    FewerCaps(|Of(Sleeps, t)|, retries, p.maxDelayMs);
    if p.factor > 1.0 {
      TotalWaitBound(p, delays, |Of(Sleeps, t)|);
    }
  }

  // ----- abort listeners

  /** What a sleep leaves in the trace counts the listener that the race leaves on the signal. */
  lemma SleepListeners(delayMs: real, signal: bool, aborted: bool, callbacks: seq<SleepEvent>)
    requires WakeUp in callbacks && (aborted ==> signal)
    ensures var s := RunSleep(StartSleep(signal, aborted), callbacks);
      signal ==> Listeners(SleepTrace(delayMs, s)) == if s.listening then 1 else 0
  {
    var s := RunSleep(StartSleep(signal, aborted), callbacks);
    SleepOutcome(signal, aborted, callbacks);
    Pair(Sleeps, Sleep(delayMs), Wake);
    Pair(Wakes, Sleep(delayMs), Wake);
    Pair(Sleeps, Sleep(delayMs), Abort);
    Pair(Wakes, Sleep(delayMs), Abort);
  }

  lemma ListenersAppend(t: Trace, u: Trace)
    ensures Listeners(t + u) == Listeners(t) + Listeners(u)
  {
    Appends(Sleeps, t, u);
    Appends(Wakes, t, u);
  }

  lemma {:induction false} PrefixListeners(t: Trace, i: nat)
    requires i <= |t|
    ensures Listeners(t[..i]) <= |Of(Sleeps, t)|
  {
    assert t == t[..i] + t[i..];
    Appends(Sleeps, t[..i], t[i..]);
  }

  lemma BalancedRounds(env: Environment, delays: Delays, k: nat)
    ensures Listeners(Rounds(env, delays, k)) == 0
  {
    RoundsShape(env, delays, Sleeps, k);
    RoundsShape(env, delays, Wakes, k);
    RoundEventsAt(env, delays, Sleeps, k);
    RoundEventsAt(env, delays, Wakes, k);
  }

  lemma ListenersInTail(pre: Trace, tail: Trace, i: nat)
    requires Listeners(pre) == 0 && |Of(Sleeps, tail)| <= 1
    requires |pre| <= i <= |pre + tail|
    ensures Listeners((pre + tail)[..i]) <= 1
  {
    var j := i - |pre|;
    PrefixListeners(tail, j);
    PrefixOfAppend(pre, tail, j);
    FewListeners(pre, tail[..j], (pre + tail)[..i]);
  }

  lemma FewListeners(pre: Trace, part: Trace, t: Trace)
    requires Listeners(pre) == 0 && Listeners(part) <= 1 && t == pre + part
    ensures Listeners(t) <= 1
  {
    ListenersAppend(pre, part);
  }

  lemma PrefixOfAppend(pre: Trace, tail: Trace, j: nat)
    requires j <= |tail|
    ensures (pre + tail)[..|pre| + j] == pre + tail[..j]
  {
  }

  lemma LastRoundListeners(env: Environment, delays: Delays, a: nat, i: nat)
    requires |Rounds(env, delays, a)| <= i <= |Rounds(env, delays, a + 1)|
    ensures Listeners(Rounds(env, delays, a + 1)[..i]) <= 1
  {
    var call, notice := Call(a), Notify(env(a).result.ErrorText(), a + 1);
    var sleep := Sleep(delays(a));
    BalancedRounds(env, delays, a);
    Quad(Sleeps, call, notice, sleep, Wake);
    ListenersInTail(Rounds(env, delays, a), [call, notice, sleep, Wake], i);
  }

  lemma {:induction false} RoundsListeners(env: Environment, delays: Delays, k: nat, i: nat)
    requires i <= |Rounds(env, delays, k)|
    ensures Listeners(Rounds(env, delays, k)[..i]) <= 1
    decreases k
  {
    if k == 0 {
      assert Rounds(env, delays, k)[..i] == [];
    } else if i <= |Rounds(env, delays, k - 1)| {
      assert Rounds(env, delays, k)[..i] == Rounds(env, delays, k - 1)[..i];
      RoundsListeners(env, delays, k - 1, i);
    } else {
      LastRoundListeners(env, delays, k - 1, i);
    }
  }

  lemma OneListenerInEnding(env: Environment, delays: Delays, signal: bool, retries: nat, i: nat)
    requires var k := StopRound(env, signal, retries, 0);
      |Rounds(env, delays, k)| <= i <= |FullTrace(env, delays, signal, retries)|
    ensures Listeners(FullTrace(env, delays, signal, retries)[..i]) <= 1
  {
    var k := StopRound(env, signal, retries, 0);
    BalancedRounds(env, delays, k);
    EndingShape(env, delays, signal, retries, Sleeps, k);
    ListenersInTail(Rounds(env, delays, k), Ending(env, delays, signal, retries, k).0, i);
  }

  /** A run never has more than one live abort listener. */
  lemma OneListener(env: Environment, delays: Delays, signal: bool, retries: nat, i: nat)
    requires i <= |FullTrace(env, delays, signal, retries)|
    ensures Listeners(FullTrace(env, delays, signal, retries)[..i]) <= 1
  {
    var k := StopRound(env, signal, retries, 0);
    var pre, ending := Rounds(env, delays, k), Ending(env, delays, signal, retries, k).0;
    if i <= |pre| {
      assert (pre + ending)[..i] == pre[..i];
      RoundsListeners(env, delays, k, i);
    } else {
      OneListenerInEnding(env, delays, signal, retries, i);
    }
  }

  /** It leaves none behind on a signal that did not abort. */
  lemma NoListenerLeft(env: Environment, delays: Delays, signal: bool, retries: nat)
    requires Abort !in FullTrace(env, delays, signal, retries)
    ensures Listeners(FullTrace(env, delays, signal, retries)) == 0
  {
    var k := StopRound(env, signal, retries, 0);
    var ending := Ending(env, delays, signal, retries, k).0;
    AbortInTrace(env, delays, signal, retries);
    BalancedRounds(env, delays, k);
    ListenersAppend(Rounds(env, delays, k), ending);
    EndingShape(env, delays, signal, retries, Sleeps, k);
    EndingShape(env, delays, signal, retries, Wakes, k);
    if Announces(env, signal, retries, k) {
      AbortEndsBackoff(env, delays, signal, retries, k);
    }
  }
}
