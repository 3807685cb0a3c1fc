/**
  The interceptor chain around a task body. An interceptor is any deterministic program: given `next` and
  what was logged so far, it may call `next` any number of times and settles with an outcome.
 */
module Interceptors {
  /** How a promise settles. */
  datatype Outcome = Resolved(value: int) | Rejected(error: string)

  datatype Event = Enter(id: nat) | Exit(id: nat) | TaskRan

  type Log = seq<Event>

  datatype Settled = Settled(log: Log, outcome: Outcome)

  /** A call of `fn` or `next`, as a function of what happened before it. */
  type Computation = Log -> Settled

  type Interceptor = (Computation, Log) -> Settled

  ghost predicate Agree(f: Computation, g: Computation) {
    forall l :: f(l) == g(l)
  }

  /** A program can only call `next`, so it cannot tell apart two that always agree. */
  ghost predicate Extensional(i: Interceptor) {
    forall f: Computation, g: Computation, l: Log {:trigger i(f, l), i(g, l)} :: Agree(f, g) ==> i(f, l) == i(g, l)
  }

  ghost predicate AllExtensional(interceptors: seq<Interceptor>) {
    forall k | 0 <= k < |interceptors| :: Extensional(interceptors[k])
  }

  /** The intended meaning: the first interceptor wraps the chain of the rest. */
  function Chain(interceptors: seq<Interceptor>, fn: Computation, log: Log): Settled {
    if interceptors == [] then fn(log)
    else interceptors[0](l => Chain(interceptors[1..], fn, l), log)
  }

  lemma WrapStep(i: Interceptor, rest: seq<Interceptor>, fn: Computation, next: Computation, log: Log)
    requires Extensional(i)
    requires forall l :: next(l) == Chain(rest, fn, l)
    ensures i(next, log) == Chain([i] + rest, fn, log)
  {
    var g := (l: Log) => Chain(([i] + rest)[1..], fn, l);
    assert ([i] + rest)[1..] == rest;
    assert Agree(next, g);
    assert Chain([i] + rest, fn, log) == i(g, log);
  }

  /** The backwards loop builds the chain in which the first interceptor is outermost. */
  method ExecuteWithInterceptors(interceptors: seq<Interceptor>, fn: Computation, log: Log) returns (r: Settled)
    requires AllExtensional(interceptors)
    ensures r == Chain(interceptors, fn, log)
  {
    if |interceptors| == 0 {
      return fn(log);
    }
    var next: Computation := fn;
    var i := |interceptors| - 1;
    while i >= 0
      invariant -1 <= i < |interceptors|
      invariant forall l :: next(l) == Chain(interceptors[i + 1..], fn, l)
    {
      var interceptor := interceptors[i];
      var currentNext := next;
      next := l => interceptor(currentNext, l);
      forall l ensures next(l) == Chain(interceptors[i..], fn, l) {
        WrapStep(interceptor, interceptors[i + 1..], fn, currentNext, l);
        assert [interceptor] + interceptors[i + 1..] == interceptors[i..];
      }
      i := i - 1;
    }
    assert interceptors[0..] == interceptors;
    r := next(log);
  }

  /** Splitting the list anywhere: the front wraps the chain of the back. */
  lemma {:induction false} ChainSplits(a: seq<Interceptor>, b: seq<Interceptor>, fn: Computation, log: Log)
    requires AllExtensional(a)
    ensures Chain(a + b, fn, log) == Chain(a, l => Chain(b, fn, l), log)
    decreases a
  {
    var back := (l: Log) => Chain(b, fn, l);
    if a == [] {
      assert a + b == b;
    } else {
      assert (a + b)[1..] == a[1..] + b;
      var f, g := (l: Log) => Chain((a + b)[1..], fn, l), (l: Log) => Chain(a[1..], back, l);
      forall l ensures f(l) == g(l) {
        ChainSplits(a[1..], b, fn, l);
      }
      assert Agree(f, g);
      assert Chain(a + b, fn, log) == a[0](f, log);
      assert Chain(a, back, log) == a[0](g, log);
    }
  }

  // ----- interceptors that call next once

  /** Logs before and after a single call of `next` and passes its outcome on. */
  function Bracket(id: nat): Interceptor {
    (next: Computation, l: Log) =>
      var s := next(l + [Enter(id)]);
      Settled(s.log + [Exit(id)], s.outcome)
  }

  function Brackets(ids: seq<nat>): seq<Interceptor> {
    if ids == [] then [] else [Bracket(ids[0])] + Brackets(ids[1..])
  }

  function Enters(ids: seq<nat>): Log {
    if ids == [] then [] else [Enter(ids[0])] + Enters(ids[1..])
  }

  function ExitsReversed(ids: seq<nat>): Log {
    if ids == [] then [] else ExitsReversed(ids[1..]) + [Exit(ids[0])]
  }

  lemma ChainCons(i: Interceptor, rest: seq<Interceptor>, fn: Computation, log: Log)
    ensures Chain([i] + rest, fn, log) == i(l => Chain(([i] + rest)[1..], fn, l), log)
  {
  }

  lemma LogAssoc(log: Log, e: Event, es: Log, xs: Log, x: Event)
    ensures (((log + [e]) + es) + [TaskRan] + xs) + [x] == log + ([e] + es) + [TaskRan] + (xs + [x])
  {
  }

  /** Enter in list order, the body, exit in reverse order; the body's outcome comes out unchanged. */
  lemma {:induction false} BracketTrace(ids: seq<nat>, fn: Computation, outcome: Outcome, log: Log)
    requires forall l :: fn(l) == Settled(l + [TaskRan], outcome)
    ensures Chain(Brackets(ids), fn, log)
         == Settled(log + Enters(ids) + [TaskRan] + ExitsReversed(ids), outcome)
    decreases ids
  {
    if ids != [] {
      var rest := Brackets(ids[1..]);
      var id := ids[0];
      assert ([Bracket(id)] + rest)[1..] == rest;
      ChainCons(Bracket(id), rest, fn, log);
      BracketTrace(ids[1..], fn, outcome, log + [Enter(id)]);
      LogAssoc(log, Enter(id), Enters(ids[1..]), ExitsReversed(ids[1..]), Exit(id));
    } else {
      assert log + [] + [TaskRan] + [] == log + [TaskRan];
    }
  }

  // ----- interceptors that call next zero or many times

  /** Calls `next` `n` times in a row and settles with the last outcome, or with `none` for `n == 0`. */
  function CallTimes(n: nat, none: Outcome, next: Computation, log: Log): Settled {
    if n == 0 then Settled(log, none)
    else
      var s := next(log);
      CallTimes(n - 1, s.outcome, next, s.log)
  }

  function Repeaters(ns: seq<nat>, none: Outcome): seq<Interceptor> {
    if ns == [] then []
    else [(next: Computation, l: Log) => CallTimes(ns[0], none, next, l)] + Repeaters(ns[1..], none)
  }

  function Runs(log: Log): nat {
    if log == [] then 0 else Runs(log[..|log| - 1]) + if log[|log| - 1] == TaskRan then 1 else 0
  }

  function Product(ns: seq<nat>): nat {
    if ns == [] then 1 else ns[0] * Product(ns[1..])
  }

  lemma {:induction false} CallTimesRuns(n: nat, none: Outcome, next: Computation, each: nat, log: Log)
    requires forall l :: Runs(next(l).log) == Runs(l) + each
    ensures Runs(CallTimes(n, none, next, log).log) == Runs(log) + n * each
    decreases n
  {
    if n > 0 {
      var s := next(log);
      CallTimesRuns(n - 1, s.outcome, next, each, s.log);
      assert n * each == (n - 1) * each + each;
    }
  }

  /** The calls multiply: the body runs once for each way of choosing one call per interceptor. */
  lemma {:induction false} RunsMultiply(ns: seq<nat>, none: Outcome, fn: Computation, log: Log)
    requires forall l :: Runs(fn(l).log) == Runs(l) + 1
    ensures Runs(Chain(Repeaters(ns, none), fn, log).log) == Runs(log) + Product(ns)
    decreases ns
  {
    if ns != [] {
      var first: Interceptor := (next: Computation, l: Log) => CallTimes(ns[0], none, next, l);
      var rest := Repeaters(ns[1..], none);
      var all := Repeaters(ns, none);
      assert all[1..] == rest;
      var next := (l: Log) => Chain(all[1..], fn, l);
      forall l ensures Runs(next(l).log) == Runs(l) + Product(ns[1..]) {
        RunsMultiply(ns[1..], none, fn, l);
      }
      assert Chain(all, fn, log) == all[0](next, log);
      CallTimesRuns(ns[0], none, next, Product(ns[1..]), log);
    }
  }
}
