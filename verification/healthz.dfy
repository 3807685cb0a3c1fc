/**
  Health checks as a step system: any number of overlapping requests, each looking up or running every
  attestor, over one shared cache and a clock that never goes back.
 */
module Healthz {
  import opened Options
  import opened AttestorCache

  datatype Attestor = Attestor(name: string, critical: Option<bool>, minIntervalMs: Option<int>)

  /** One attestor within one request. */
  datatype RunId = RunId(request: nat, index: nat)

  datatype Run =
    | Executing(startedAt: int)
    | Settled(startedAt: int, snapshot: Snapshot)
    | Done(snapshot: Snapshot)
  {
    predicate InFlight() {
      !Done?
    }
  }

  datatype Event =
    | Started(id: RunId, name: string, at: int)
    | Hit(id: RunId, name: string, snapshot: Snapshot, at: int)
    | Reported(id: RunId, snapshot: Snapshot, at: int)
    | Stored(entry: Store)

  datatype State = State(clock: int, cache: Entries, runs: map<RunId, Run>, history: seq<Event>)

  function Init(start: int): State {
    State(start, map[], map[], [])
  }

  /** `runOne` up to its first await: look up and, on a miss, start the check in the same turn. */
  function Lookup(attestors: seq<Attestor>, s: State, id: RunId): State
    requires id.index < |attestors|
  {
    var name := attestors[id.index].name;
    var cache := AfterRead(s.cache, name, s.clock);
    match Read(s.cache, name, s.clock)
    case Some(snapshot) =>
      State(s.clock, cache, s.runs[id := Done(snapshot)], s.history + [Hit(id, name, snapshot, s.clock)])
    case None =>
      State(s.clock, cache, s.runs[id := Executing(s.clock)], s.history + [Started(id, name, s.clock)])
  }

  /** The runner settles with an outcome; a run whose runner raises is one that never settles. */
  function Settle(s: State, id: RunId, snapshot: Snapshot): State
    requires id in s.runs && s.runs[id].Executing?
  {
    s.(runs := s.runs[id := Settled(s.runs[id].startedAt, snapshot)],
       history := s.history + [Reported(id, snapshot, s.clock)])
  }

  /** `runOne` after the await: write the cache if the attestor has an interval, and return. */
  function Finish(attestors: seq<Attestor>, s: State, id: RunId): State
    requires id in s.runs && s.runs[id].Settled? && id.index < |attestors|
  {
    var a := attestors[id.index];
    var snapshot := s.runs[id].snapshot;
    var runs := s.runs[id := Done(snapshot)];
    match a.minIntervalMs
    case Some(ms) =>
      State(s.clock, AfterStore(s.cache, a.name, snapshot, ms, s.clock), runs,
            s.history + [Stored(Store(a.name, snapshot, ms, s.clock))])
    case None => s.(runs := runs)
  }

  datatype Step =
    | Tick(to: int)
    | LookupStep(id: RunId)
    | SettleStep(id: RunId, snapshot: Snapshot)
    | FinishStep(id: RunId)

  predicate Enabled(attestors: seq<Attestor>, s: State, step: Step) {
    match step
    case Tick(to) => s.clock <= to
    case LookupStep(id) => id !in s.runs && id.index < |attestors|
    case SettleStep(id, _) => id in s.runs && s.runs[id].Executing?
    case FinishStep(id) => id in s.runs && s.runs[id].Settled? && id.index < |attestors|
  }

  function Apply(attestors: seq<Attestor>, s: State, step: Step): State
    requires Enabled(attestors, s, step)
  {
    match step
    case Tick(to) => s.(clock := to)
    case LookupStep(id) => Lookup(attestors, s, id)
    case SettleStep(id, snapshot) => Settle(s, id, snapshot)
    case FinishStep(id) => Finish(attestors, s, id)
  }

  /** The state after a schedule; a step that is not enabled when its turn comes does nothing. */
  function Reach(attestors: seq<Attestor>, start: int, steps: seq<Step>): State
    decreases |steps|
  {
    if steps == [] then Init(start)
    else
      var before := Reach(attestors, start, steps[..|steps| - 1]);
      var step := steps[|steps| - 1];
      if Enabled(attestors, before, step) then Apply(attestors, before, step) else before
  }

  // ----- invariants

  function EventTime(e: Event): int {
    if e.Stored? then e.entry.at else e.at
  }

  function StoresOf(history: seq<Event>): seq<Store> {
    if history == [] then []
    else
      var rest := StoresOf(history[..|history| - 1]);
      if history[|history| - 1].Stored? then rest + [history[|history| - 1].entry] else rest
  }

  ghost predicate Ordered(history: seq<Event>, clock: int) {
    && (forall i | 0 <= i < |history| :: EventTime(history[i]) <= clock)
    && (forall i, j | 0 <= i < j < |history| :: EventTime(history[i]) <= EventTime(history[j]))
  }

  /** All attestors of one name agree on the interval. */
  predicate OneInterval(attestors: seq<Attestor>) {
    forall i, j | 0 <= i < |attestors| && 0 <= j < |attestors| && attestors[i].name == attestors[j].name ::
      attestors[i].minIntervalMs == attestors[j].minIntervalMs
  }

  predicate HasInterval(attestors: seq<Attestor>, name: string, ms: int) {
    exists i | 0 <= i < |attestors| :: attestors[i].name == name && attestors[i].minIntervalMs == Some(ms)
  }

  /** Stores use the interval configured for their name. */
  ghost predicate StoresConfigured(attestors: seq<Attestor>, history: seq<Event>) {
    forall i | 0 <= i < |history| && history[i].Stored? ::
      HasInterval(attestors, history[i].entry.name, history[i].entry.ttlMs)
  }

  /** Checks start no sooner than an interval after any earlier store. */
  ghost predicate StartsAfterStores(history: seq<Event>) {
    forall i, j | 0 <= i < j < |history| && history[i].Stored? && history[j].Started? ::
      history[i].entry.name == history[j].name && history[i].entry.ttlMs > 0 ==>
        history[i].entry.at + history[i].entry.ttlMs <= history[j].at
  }

  /** Every hit returned what the log of stores before it says. */
  ghost predicate HitsFresh(history: seq<Event>) {
    forall i | 0 <= i < |history| && history[i].Hit? ::
      Expected(StoresOf(history[..i]), history[i].name, history[i].at) == Some(history[i].snapshot)
  }

  /** What the history says about each run, and conversely. */
  ghost predicate RunsExplained(attestors: seq<Attestor>, s: State) {
    forall id | id in s.runs :: RunExplained(attestors, s.history, id, s.runs[id])
  }

  ghost predicate RunExplained(attestors: seq<Attestor>, history: seq<Event>, id: RunId, run: Run) {
    && id.index < |attestors|
    && var name := attestors[id.index].name;
    match run
    case Executing(t) => Started(id, name, t) in history
    case Settled(t, snapshot) =>
      Started(id, name, t) in history && exists at :: Reported(id, snapshot, at) in history
    case Done(snapshot) =>
      || (exists at :: Hit(id, name, snapshot, at) in history)
      || ((exists t :: Started(id, name, t) in history) && exists at :: Reported(id, snapshot, at) in history)
  }

  /** A started check is still in flight, or its result was stored no earlier than it started. */
  ghost predicate StartsExplained(attestors: seq<Attestor>, s: State) {
    forall i | 0 <= i < |s.history| && s.history[i].Started? :: StartExplained(attestors, s, s.history[i])
  }

  ghost predicate StartExplained(attestors: seq<Attestor>, s: State, e: Event)
    requires e.Started?
  {
    && e.id in s.runs && e.id.index < |attestors| && attestors[e.id.index].name == e.name
    && (s.runs[e.id].InFlight() ==> s.runs[e.id].startedAt == e.at)
    && (s.runs[e.id].Done? && attestors[e.id.index].minIntervalMs.Some? ==> StoredSince(s.history, e.name, e.at))
  }

  ghost predicate StoredSince(history: seq<Event>, name: string, since: int) {
    exists j | 0 <= j < |history| :: history[j].Stored? && history[j].entry.name == name && since <= history[j].entry.at
  }

  ghost predicate Inv(attestors: seq<Attestor>, s: State) {
    && Represents(s.cache, StoresOf(s.history), s.clock)
    && Ordered(s.history, s.clock)
    && StoresConfigured(attestors, s.history)
    && StartsAfterStores(s.history)
    && HitsFresh(s.history)
    && RunsExplained(attestors, s)
    && StartsExplained(attestors, s)
  }

  lemma StoresOfSnoc(history: seq<Event>, e: Event)
    ensures StoresOf(history + [e]) == if e.Stored? then StoresOf(history) + [e.entry] else StoresOf(history)
  {
    assert (history + [e])[..|history|] == history;
  }

  lemma {:induction false} StoresOfMember(history: seq<Event>, k: nat) returns (i: nat)
    requires k < |StoresOf(history)|
    ensures i < |history| && history[i] == Stored(StoresOf(history)[k])
    decreases |history|
  {
    var pre := history[..|history| - 1];
    if k < |StoresOf(pre)| {
      i := StoresOfMember(pre, k);
    } else {
      i := |history| - 1;
    }
  }

  lemma LastStoreSnoc(log: seq<Store>, e: Store, name: string)
    ensures LastStore(log + [e], name) == if e.name == name && e.ttlMs > 0 then Some(e) else LastStore(log, name)
  {
    assert (log + [e])[..|log|] == log;
  }

  /** The last matching store is at least as late as every other matching store of the log. */
  lemma {:induction false} LastStoreIsLatest(history: seq<Event>, clock: int, i: nat)
    requires Ordered(history, clock)
    requires i < |history| && history[i].Stored? && history[i].entry.ttlMs > 0
    ensures var e := LastStore(StoresOf(history), history[i].entry.name);
      e.Some? && history[i].entry.at <= e.value.at && Stored(e.value) in history
    decreases |history|
  {
    var last := |history| - 1;
    var pre := history[..last];
    assert pre + [history[last]] == history;
    StoresOfSnoc(pre, history[last]);
    if history[last].Stored? {
      LastStoreSnoc(StoresOf(pre), history[last].entry, history[i].entry.name);
    }
    if i < last {
      LastStoreIsLatest(pre, clock, i);
    }
  }

  /** On a miss every earlier store of the name has expired. */
  lemma MissMeansExpired(attestors: seq<Attestor>, s: State, name: string, i: nat)
    requires Inv(attestors, s) && OneInterval(attestors)
    requires Read(s.cache, name, s.clock) == None
    requires i < |s.history| && s.history[i].Stored? && s.history[i].entry.name == name
    requires s.history[i].entry.ttlMs > 0
    ensures s.history[i].entry.at + s.history[i].entry.ttlMs <= s.clock
  {
    ReadRefines(s.cache, StoresOf(s.history), s.clock, name, s.clock);
    LastStoreIsLatest(s.history, s.clock, i);
    var e := LastStore(StoresOf(s.history), name).value;
    var j :| 0 <= j < |s.history| && s.history[j] == Stored(e);
    assert HasInterval(attestors, name, e.ttlMs) && HasInterval(attestors, name, s.history[i].entry.ttlMs);
  }

  lemma StaysExplained(attestors: seq<Attestor>, history: seq<Event>, e: Event, id: RunId, run: Run)
    requires RunExplained(attestors, history, id, run)
    ensures RunExplained(attestors, history + [e], id, run)
  {
    assert forall x | x in history :: x in history + [e];
  }

  lemma StaysStored(history: seq<Event>, e: Event, name: string, since: int)
    requires StoredSince(history, name, since)
    ensures StoredSince(history + [e], name, since)
  {
    var j :| 0 <= j < |history| && history[j].Stored? && history[j].entry.name == name && since <= history[j].entry.at;
    assert (history + [e])[j] == history[j];
  }
}
