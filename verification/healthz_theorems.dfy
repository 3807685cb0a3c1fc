/** What holds in every state that overlapping health requests can reach. */
module HealthzTheorems {
  import opened Options
  import opened AttestorCache
  import opened Healthz

  // ----- every step keeps the invariant

  lemma OrderedSnoc(history: seq<Event>, e: Event, clock: int)
    requires Ordered(history, clock) && EventTime(e) == clock
    ensures Ordered(history + [e], clock)
  {
  }

  lemma StartsAfterStoresSnoc(history: seq<Event>, e: Event)
    requires StartsAfterStores(history)
    requires e.Started? ==> forall i | 0 <= i < |history| && history[i].Stored? ::
      history[i].entry.name == e.name && history[i].entry.ttlMs > 0 ==>
        history[i].entry.at + history[i].entry.ttlMs <= e.at
    ensures StartsAfterStores(history + [e])
  {
  }

  lemma HitsFreshSnoc(history: seq<Event>, e: Event)
    requires HitsFresh(history)
    requires e.Hit? ==> Expected(StoresOf(history), e.name, e.at) == Some(e.snapshot)
    ensures HitsFresh(history + [e])
  {
    var longer := history + [e];
    forall i | 0 <= i < |longer| && longer[i].Hit?
      ensures Expected(StoresOf(longer[..i]), longer[i].name, longer[i].at) == Some(longer[i].snapshot)
    {
      if i < |history| {
        assert longer[..i] == history[..i];
      } else {
        assert longer[..i] == history;
      }
    }
  }

  /** One run changed and one event was added: everything else stays explained. */
  lemma RunsStayExplained(attestors: seq<Attestor>, s: State, s': State, id: RunId, e: Event)
    requires RunsExplained(attestors, s)
    requires id in s'.runs && s'.runs == s.runs[id := s'.runs[id]] && s'.history == s.history + [e]
    requires RunExplained(attestors, s'.history, id, s'.runs[id])
    ensures RunsExplained(attestors, s')
  {
    forall other | other in s'.runs ensures RunExplained(attestors, s'.history, other, s'.runs[other]) {
      if other != id {
        StaysExplained(attestors, s.history, e, other, s.runs[other]);
      }
    }
  }

  lemma StartsStayExplained(attestors: seq<Attestor>, s: State, s': State, id: RunId, e: Event)
    requires StartsExplained(attestors, s)
    requires id in s'.runs && s'.runs == s.runs[id := s'.runs[id]] && s'.history == s.history + [e]
    requires e.Started? ==> StartExplained(attestors, s', e)
    requires forall i | 0 <= i < |s.history| && s.history[i].Started? && s.history[i].id == id ::
      StartExplained(attestors, s', s.history[i])
    ensures StartsExplained(attestors, s')
  {
    forall i | 0 <= i < |s'.history| && s'.history[i].Started? ensures StartExplained(attestors, s', s'.history[i]) {
      if i < |s.history| && s.history[i].id != id {
        var x := s.history[i];
        assert StartExplained(attestors, s, x);
        if StoredSince(s.history, x.name, x.at) {
          StaysStored(s.history, e, x.name, x.at);
        }
      }
    }
  }

  lemma TickKeepsInv(attestors: seq<Attestor>, s: State, to: int)
    requires Inv(attestors, s) && s.clock <= to
    ensures Inv(attestors, s.(clock := to))
  {
    forall name ensures RepresentsName(s.cache, StoresOf(s.history), to, name) {
      assert RepresentsName(s.cache, StoresOf(s.history), s.clock, name);
    }
    forall i | 0 <= i < |s.history| && s.history[i].Started?
      ensures StartExplained(attestors, s.(clock := to), s.history[i])
    {
      assert StartExplained(attestors, s, s.history[i]);
    }
  }

  lemma LookupKeepsInv(attestors: seq<Attestor>, s: State, id: RunId)
    requires Inv(attestors, s) && OneInterval(attestors)
    requires id.index < |attestors| && id !in s.runs
    ensures Inv(attestors, Lookup(attestors, s, id))
  {
    LookupKeepsHistory(attestors, s, id);
    LookupKeepsRuns(attestors, s, id);
  }

  lemma LookupKeepsHistory(attestors: seq<Attestor>, s: State, id: RunId)
    requires Inv(attestors, s) && OneInterval(attestors)
    requires id.index < |attestors| && id !in s.runs
    ensures var s' := Lookup(attestors, s, id);
      && Represents(s'.cache, StoresOf(s'.history), s'.clock) && Ordered(s'.history, s'.clock)
      && StoresConfigured(attestors, s'.history) && StartsAfterStores(s'.history) && HitsFresh(s'.history)
  {
    var name := attestors[id.index].name;
    ReadRefines(s.cache, StoresOf(s.history), s.clock, name, s.clock);
    match Read(s.cache, name, s.clock) {
      case Some(snapshot) => HitKeepsHistory(attestors, s, Hit(id, name, snapshot, s.clock));
      case None => MissKeepsHistory(attestors, s, Started(id, name, s.clock));
    }
  }

  lemma HitKeepsHistory(attestors: seq<Attestor>, s: State, e: Event)
    requires Inv(attestors, s) && e.Hit? && e.at == s.clock
    requires Expected(StoresOf(s.history), e.name, e.at) == Some(e.snapshot)
    ensures StoresOf(s.history + [e]) == StoresOf(s.history) && Ordered(s.history + [e], s.clock)
    ensures StoresConfigured(attestors, s.history + [e])
    ensures StartsAfterStores(s.history + [e]) && HitsFresh(s.history + [e])
  {
    StoresOfSnoc(s.history, e);
    OrderedSnoc(s.history, e, s.clock);
    StoresConfiguredSnoc(attestors, s.history, e);
    StartsAfterStoresSnoc(s.history, e);
    HitsFreshSnoc(s.history, e);
  }

  lemma MissKeepsHistory(attestors: seq<Attestor>, s: State, e: Event)
    requires Inv(attestors, s) && OneInterval(attestors) && e.Started? && e.at == s.clock
    requires Read(s.cache, e.name, s.clock) == None
    ensures StoresOf(s.history + [e]) == StoresOf(s.history) && Ordered(s.history + [e], s.clock)
    ensures StoresConfigured(attestors, s.history + [e])
    ensures StartsAfterStores(s.history + [e]) && HitsFresh(s.history + [e])
  {
    StoresOfSnoc(s.history, e);
    OrderedSnoc(s.history, e, s.clock);
    StoresConfiguredSnoc(attestors, s.history, e);
    MissAfterStores(attestors, s, e);
    HitsFreshSnoc(s.history, e);
  }

  lemma MissAfterStores(attestors: seq<Attestor>, s: State, e: Event)
    requires Inv(attestors, s) && OneInterval(attestors) && e.Started? && e.at == s.clock
    requires Read(s.cache, e.name, s.clock) == None
    ensures StartsAfterStores(s.history + [e])
  {
    forall i | 0 <= i < |s.history| && s.history[i].Stored?
      ensures s.history[i].entry.name == e.name && s.history[i].entry.ttlMs > 0 ==>
                s.history[i].entry.at + s.history[i].entry.ttlMs <= e.at
    {
      if s.history[i].entry.name == e.name && s.history[i].entry.ttlMs > 0 {
        MissMeansExpired(attestors, s, e.name, i);
      }
    }
    StartsAfterStoresSnoc(s.history, e);
  }

  lemma LookupKeepsRuns(attestors: seq<Attestor>, s: State, id: RunId)
    requires RunsExplained(attestors, s) && StartsExplained(attestors, s)
    requires id.index < |attestors| && id !in s.runs
    ensures RunsExplained(attestors, Lookup(attestors, s, id))
    ensures StartsExplained(attestors, Lookup(attestors, s, id))
  {
    var s' := Lookup(attestors, s, id);
    var e := s'.history[|s.history|];
    assert e in s'.history;
    RunsStayExplained(attestors, s, s', id, e);
    forall i | 0 <= i < |s.history| && s.history[i].Started? ensures s.history[i].id != id {
      assert StartExplained(attestors, s, s.history[i]);
    }
    StartsStayExplained(attestors, s, s', id, e);
  }

  lemma SettleKeepsInv(attestors: seq<Attestor>, s: State, id: RunId, snapshot: Snapshot)
    requires Inv(attestors, s) && id in s.runs && s.runs[id].Executing?
    ensures Inv(attestors, Settle(s, id, snapshot))
  {
    var s' := Settle(s, id, snapshot);
    var e := Reported(id, snapshot, s.clock);
    StoresOfSnoc(s.history, e);
    OrderedSnoc(s.history, e, s.clock);
    HitsFreshSnoc(s.history, e);
    StartsAfterStoresSnoc(s.history, e);
    assert RunExplained(attestors, s.history, id, s.runs[id]);
    assert e in s'.history;
    RunsStayExplained(attestors, s, s', id, e);
    forall i | 0 <= i < |s.history| && s.history[i].Started? && s.history[i].id == id
      ensures StartExplained(attestors, s', s.history[i])
    {
      assert StartExplained(attestors, s, s.history[i]);
    }
    StartsStayExplained(attestors, s, s', id, e);
  }

  lemma FinishKeepsInv(attestors: seq<Attestor>, s: State, id: RunId)
    requires Inv(attestors, s) && id in s.runs && s.runs[id].Settled? && id.index < |attestors|
    ensures Inv(attestors, Finish(attestors, s, id))
  {
    if attestors[id.index].minIntervalMs.Some? {
      FinishStores(attestors, s, id, attestors[id.index].minIntervalMs.value);
    } else {
      var s' := Finish(attestors, s, id);
      assert RunExplained(attestors, s.history, id, s.runs[id]);
      forall other | other in s'.runs ensures RunExplained(attestors, s'.history, other, s'.runs[other]) {
        assert other in s.runs && RunExplained(attestors, s.history, other, s.runs[other]);
      }
      forall i | 0 <= i < |s'.history| && s'.history[i].Started? ensures StartExplained(attestors, s', s'.history[i]) {
        assert StartExplained(attestors, s, s.history[i]);
      }
    }
  }

  lemma FinishStores(attestors: seq<Attestor>, s: State, id: RunId, ms: int)
    requires Inv(attestors, s) && id in s.runs && s.runs[id].Settled? && id.index < |attestors|
    requires attestors[id.index].minIntervalMs == Some(ms)
    ensures Inv(attestors, Finish(attestors, s, id))
  {
    FinishKeepsHistory(attestors, s, id, ms);
    FinishKeepsRuns(attestors, s, id, ms);
  }

  lemma FinishKeepsHistory(attestors: seq<Attestor>, s: State, id: RunId, ms: int)
    requires Inv(attestors, s) && id in s.runs && s.runs[id].Settled? && id.index < |attestors|
    requires attestors[id.index].minIntervalMs == Some(ms)
    ensures var s' := Finish(attestors, s, id);
      && Represents(s'.cache, StoresOf(s'.history), s'.clock) && Ordered(s'.history, s'.clock)
      && StoresConfigured(attestors, s'.history) && StartsAfterStores(s'.history) && HitsFresh(s'.history)
  {
    var store := Store(attestors[id.index].name, s.runs[id].snapshot, ms, s.clock);
    var e := Stored(store);
    assert Finish(attestors, s, id).history == s.history + [e];
    StoreRefines(s.cache, StoresOf(s.history), s.clock, store);
    StoresOfSnoc(s.history, e);
    OrderedSnoc(s.history, e, s.clock);
    HitsFreshSnoc(s.history, e);
    StartsAfterStoresSnoc(s.history, e);
    StoresConfiguredSnoc(attestors, s.history, e);
  }

  lemma StoresConfiguredSnoc(attestors: seq<Attestor>, history: seq<Event>, e: Event)
    requires StoresConfigured(attestors, history)
    requires e.Stored? ==> HasInterval(attestors, e.entry.name, e.entry.ttlMs)
    ensures StoresConfigured(attestors, history + [e])
  {
  }

  lemma FinishKeepsRuns(attestors: seq<Attestor>, s: State, id: RunId, ms: int)
    requires RunsExplained(attestors, s) && StartsExplained(attestors, s) && Ordered(s.history, s.clock)
    requires id in s.runs && s.runs[id].Settled? && id.index < |attestors|
    requires attestors[id.index].minIntervalMs == Some(ms)
    ensures RunsExplained(attestors, Finish(attestors, s, id))
    ensures StartsExplained(attestors, Finish(attestors, s, id))
  {
    var s' := Finish(attestors, s, id);
    var e := Stored(Store(attestors[id.index].name, s.runs[id].snapshot, ms, s.clock));
    assert RunExplained(attestors, s.history, id, s.runs[id]);
    assert forall x | x in s.history :: x in s'.history;
    RunsStayExplained(attestors, s, s', id, e);
    forall i | 0 <= i < |s.history| && s.history[i].Started? && s.history[i].id == id
      ensures StartExplained(attestors, s', s.history[i])
    {
      assert StartExplained(attestors, s, s.history[i]);
      assert s'.history[|s.history|] == e && EventTime(s.history[i]) <= s.clock;
    }
    StartsStayExplained(attestors, s, s', id, e);
  }

  lemma StepKeepsInv(attestors: seq<Attestor>, s: State, step: Step)
    requires Inv(attestors, s) && OneInterval(attestors) && Enabled(attestors, s, step)
    ensures Inv(attestors, Apply(attestors, s, step))
  {
    match step
    case Tick(to) => TickKeepsInv(attestors, s, to);
    case LookupStep(id) => LookupKeepsInv(attestors, s, id);
    case SettleStep(id, snapshot) => SettleKeepsInv(attestors, s, id, snapshot);
    case FinishStep(id) => FinishKeepsInv(attestors, s, id);
  }

  lemma {:induction false} ReachableInv(attestors: seq<Attestor>, start: int, steps: seq<Step>)
    requires OneInterval(attestors)
    ensures Inv(attestors, Reach(attestors, start, steps))
    decreases |steps|
  {
    if steps != [] {
      var pre := steps[..|steps| - 1];
      ReachableInv(attestors, start, pre);
      if Enabled(attestors, Reach(attestors, start, pre), steps[|steps| - 1]) {
        StepKeepsInv(attestors, Reach(attestors, start, pre), steps[|steps| - 1]);
      }
    } else {
      forall name ensures RepresentsName(map[], [], start, name) {}
    }
  }

  // ----- where stored outcomes come from

  /** The store at `i` keeps what a run of an attestor of that name reported before. */
  ghost predicate ReportedBefore(attestors: seq<Attestor>, history: seq<Event>, i: nat)
    requires i < |history| && history[i].Stored?
  {
    exists j | 0 <= j < i :: history[j].Reported? && ReportsFor(attestors, history[j], history[i].entry)
  }

  predicate ReportsFor(attestors: seq<Attestor>, report: Event, entry: Store)
    requires report.Reported?
  {
    && report.id.index < |attestors| && attestors[report.id.index].name == entry.name
    && report.snapshot == entry.snapshot && report.at <= entry.at
  }

  ghost predicate StoresReported(attestors: seq<Attestor>, history: seq<Event>) {
    forall i | 0 <= i < |history| && history[i].Stored? :: ReportedBefore(attestors, history, i)
  }

  /** What was reported is what the check settled with. */
  predicate ReportsSettled(steps: seq<Step>, history: seq<Event>) {
    forall i | 0 <= i < |history| && history[i].Reported? :: SettleStep(history[i].id, history[i].snapshot) in steps
  }

  lemma StoresReportedSnoc(attestors: seq<Attestor>, history: seq<Event>, e: Event)
    requires StoresReported(attestors, history)
    requires e.Stored? ==> exists j | 0 <= j < |history| ::
      history[j].Reported? && ReportsFor(attestors, history[j], e.entry)
    ensures StoresReported(attestors, history + [e])
  {
    var longer := history + [e];
    forall i | 0 <= i < |longer| && longer[i].Stored? ensures ReportedBefore(attestors, longer, i) {
      if i < |history| {
        assert ReportedBefore(attestors, history, i);
        var j :| 0 <= j < i && history[j].Reported? && ReportsFor(attestors, history[j], history[i].entry);
        assert longer[j] == history[j];
      } else {
        var j :| 0 <= j < |history| && history[j].Reported? && ReportsFor(attestors, history[j], e.entry);
        assert longer[j] == history[j];
      }
    }
  }

  lemma StepKeepsReports(attestors: seq<Attestor>, s: State, step: Step, steps: seq<Step>)
    requires Inv(attestors, s) && Enabled(attestors, s, step) && step in steps
    requires StoresReported(attestors, s.history) && ReportsSettled(steps, s.history)
    ensures StoresReported(attestors, Apply(attestors, s, step).history)
    ensures ReportsSettled(steps, Apply(attestors, s, step).history)
  {
    var h' := Apply(attestors, s, step).history;
    if h' != s.history {
      var e := h'[|s.history|];
      assert h' == s.history + [e];
      if e.Stored? {
        FinishReported(attestors, s, step.id, e);
      }
      StoresReportedSnoc(attestors, s.history, e);
    }
  }

  lemma FinishReported(attestors: seq<Attestor>, s: State, id: RunId, e: Event)
    requires Inv(attestors, s) && id in s.runs && s.runs[id].Settled? && id.index < |attestors|
    requires e.Stored? && Finish(attestors, s, id).history == s.history + [e]
    ensures exists j | 0 <= j < |s.history| :: s.history[j].Reported? && ReportsFor(attestors, s.history[j], e.entry)
  {
    assert RunExplained(attestors, s.history, id, s.runs[id]);
    assert (s.history + [e])[|s.history|] == e;
    var at :| Reported(id, s.runs[id].snapshot, at) in s.history;
    var j :| 0 <= j < |s.history| && s.history[j] == Reported(id, s.runs[id].snapshot, at);
    assert EventTime(s.history[j]) <= s.clock;
  }

  lemma ReportsSettledMore(steps: seq<Step>, more: seq<Step>, history: seq<Event>)
    requires ReportsSettled(steps, history) && forall step | step in steps :: step in more
    ensures ReportsSettled(more, history)
  {
  }

  /**
    Every stored outcome was reported before by a run of an attestor of its name, and every reported
    outcome is what that run's check settled with.
   */
  lemma {:induction false} StoredOutcomes(attestors: seq<Attestor>, start: int, steps: seq<Step>)
    requires OneInterval(attestors)
    ensures StoresReported(attestors, Reach(attestors, start, steps).history)
    ensures ReportsSettled(steps, Reach(attestors, start, steps).history)
    decreases |steps|
  {
    if steps != [] {
      var pre, step := steps[..|steps| - 1], steps[|steps| - 1];
      var s := Reach(attestors, start, pre);
      StoredOutcomes(attestors, start, pre);
      ReportsSettledMore(pre, steps, s.history);
      ReachableInv(attestors, start, pre);
      if Enabled(attestors, s, step) {
        StepKeepsReports(attestors, s, step, steps);
      }
    }
  }

  // ----- the rate limit

  /**
    However many requests overlap, no check starts before an earlier result of the same name, stored
    at time c, has been in the cache for its whole interval.
   */
  lemma IntervalRespected(attestors: seq<Attestor>, start: int, steps: seq<Step>, i: nat, j: nat)
    requires OneInterval(attestors)
    requires var h := Reach(attestors, start, steps).history;
      i < j < |h| && h[i].Stored? && h[j].Started? && h[i].entry.name == h[j].name && h[i].entry.ttlMs > 0
    ensures var h := Reach(attestors, start, steps).history;
      h[i].entry.at + h[i].entry.ttlMs <= h[j].at
  {
    ReachableInv(attestors, start, steps);
  }

  /** The documented cap: starts of one name are at least an interval apart. */
  ghost predicate Capped(history: seq<Event>, name: string, ms: int) {
    forall i, j | 0 <= i < j < |history| && history[i].Started? && history[j].Started? ::
      history[i].name == name && history[j].name == name ==> history[i].at + ms <= history[j].at
  }

  /** The step looks up `name` and misses, so a check starts. */
  predicate StartsCheck(attestors: seq<Attestor>, s: State, step: Step, name: string) {
    && step.LookupStep? && Enabled(attestors, s, step)
    && attestors[step.id.index].name == name && Read(s.cache, name, s.clock) == None
  }

  /** No check of `name` that started less than `ms` ago is still in flight. */
  ghost predicate NoYoungCheck(attestors: seq<Attestor>, s: State, name: string, ms: int) {
    forall id | id in s.runs && s.runs[id].InFlight() && id.index < |attestors| && attestors[id.index].name == name ::
      s.runs[id].startedAt + ms <= s.clock
  }

  lemma DoneHasExpired(attestors: seq<Attestor>, s: State, name: string, ms: int, e: Event)
    requires Inv(attestors, s) && OneInterval(attestors) && HasInterval(attestors, name, ms) && ms > 0
    requires Read(s.cache, name, s.clock) == None
    requires e.Started? && e.name == name && StartExplained(attestors, s, e) && s.runs[e.id].Done?
    ensures e.at + ms <= s.clock
  {
    assert attestors[e.id.index].minIntervalMs == Some(ms);
    var j :| 0 <= j < |s.history| && s.history[j].Stored? && s.history[j].entry.name == name
      && e.at <= s.history[j].entry.at;
    assert HasInterval(attestors, name, s.history[j].entry.ttlMs);
    MissMeansExpired(attestors, s, name, j);
  }

  /** A starting check keeps the distance to all earlier starts exactly when no young check is in flight. */
  lemma StartKeepsDistance(attestors: seq<Attestor>, s: State, name: string, ms: int)
    requires Inv(attestors, s) && OneInterval(attestors) && HasInterval(attestors, name, ms) && ms > 0
    requires Read(s.cache, name, s.clock) == None
    ensures NoYoungCheck(attestors, s, name, ms) <==>
            forall i | 0 <= i < |s.history| && s.history[i].Started? ::
              s.history[i].name == name ==> s.history[i].at + ms <= s.clock
  {
    if NoYoungCheck(attestors, s, name, ms) {
      forall i | 0 <= i < |s.history| && s.history[i].Started? && s.history[i].name == name
        ensures s.history[i].at + ms <= s.clock
      {
        assert StartExplained(attestors, s, s.history[i]);
        if s.runs[s.history[i].id].Done? {
          DoneHasExpired(attestors, s, name, ms, s.history[i]);
        }
      }
    }
    if forall i | 0 <= i < |s.history| && s.history[i].Started? ::
      s.history[i].name == name ==> s.history[i].at + ms <= s.clock
    {
      forall id | id in s.runs && s.runs[id].InFlight() && id.index < |attestors| && attestors[id.index].name == name
        ensures s.runs[id].startedAt + ms <= s.clock
      {
        assert RunExplained(attestors, s.history, id, s.runs[id]);
        assert Started(id, name, s.runs[id].startedAt) in s.history;
      }
    }
  }

  /** Every check of `name` started when no young one was in flight. */
  ghost predicate StartsGuarded(attestors: seq<Attestor>, start: int, steps: seq<Step>, name: string, ms: int) {
    forall k | 0 <= k < |steps| :: StartGuarded(attestors, Reach(attestors, start, steps[..k]), steps[k], name, ms)
  }

  ghost predicate StartGuarded(attestors: seq<Attestor>, s: State, step: Step, name: string, ms: int) {
    StartsCheck(attestors, s, step, name) ==> NoYoungCheck(attestors, s, name, ms)
  }

  lemma CappedStep(attestors: seq<Attestor>, s: State, step: Step, name: string, ms: int)
    requires Inv(attestors, s) && OneInterval(attestors) && HasInterval(attestors, name, ms) && ms > 0
    requires Enabled(attestors, s, step)
    ensures Capped(Apply(attestors, s, step).history, name, ms)
       <==> Capped(s.history, name, ms) && StartGuarded(attestors, s, step, name, ms)
  {
    var h, h' := s.history, Apply(attestors, s, step).history;
    if StartsCheck(attestors, s, step, name) {
      StartKeepsDistance(attestors, s, name, ms);
      assert h' == h + [Started(step.id, name, s.clock)];
      CappedSnoc(h, Started(step.id, name, s.clock), name, ms);
    } else if h' != h {
      assert h' == h + [h'[|h|]];
      CappedSnoc(h, h'[|h|], name, ms);
    }
  }

  lemma CappedSnoc(h: seq<Event>, e: Event, name: string, ms: int)
    ensures Capped(h + [e], name, ms) <==>
      && Capped(h, name, ms)
      && (e.Started? && e.name == name ==>
            forall i | 0 <= i < |h| && h[i].Started? :: h[i].name == name ==> h[i].at + ms <= e.at)
  {
    var h' := h + [e];
    if Capped(h', name, ms) {
      forall i, j | 0 <= i < j < |h| && h[i].Started? && h[j].Started? && h[i].name == name && h[j].name == name
        ensures h[i].at + ms <= h[j].at
      {
        assert h'[i] == h[i] && h'[j] == h[j];
      }
      forall i | 0 <= i < |h| && h[i].Started? && e.Started? && h[i].name == name && e.name == name
        ensures h[i].at + ms <= e.at
      {
        assert h'[i] == h[i] && h'[|h|] == e;
      }
    }
  }

  lemma ReachSnoc(attestors: seq<Attestor>, start: int, steps: seq<Step>, step: Step)
    ensures var s := Reach(attestors, start, steps);
      Reach(attestors, start, steps + [step]) == if Enabled(attestors, s, step) then Apply(attestors, s, step) else s
  {
    assert (steps + [step])[..|steps|] == steps;
  }

  lemma StartsGuardedSnoc(attestors: seq<Attestor>, start: int, steps: seq<Step>, step: Step, name: string, ms: int)
    ensures StartsGuarded(attestors, start, steps + [step], name, ms) <==>
      && StartsGuarded(attestors, start, steps, name, ms)
      && StartGuarded(attestors, Reach(attestors, start, steps), step, name, ms)
  {
    var longer := steps + [step];
    assert longer[..|steps|] == steps && longer[|steps|] == step;
    forall k | 0 <= k < |steps| ensures longer[..k] == steps[..k] && longer[k] == steps[k] {}
    if StartsGuarded(attestors, start, longer, name, ms) {
      forall k | 0 <= k < |steps|
        ensures StartGuarded(attestors, Reach(attestors, start, steps[..k]), steps[k], name, ms)
      {
        assert StartGuarded(attestors, Reach(attestors, start, longer[..k]), longer[k], name, ms);
      }
    }
  }

  /**
    Exactly when the documented cap of one call per interval holds: when every check that starts finds
    no check of its name younger than the interval still in flight.
   */
  lemma {:induction false} CapExact(attestors: seq<Attestor>, start: int, steps: seq<Step>, name: string, ms: int)
    requires OneInterval(attestors) && HasInterval(attestors, name, ms) && ms > 0
    ensures Capped(Reach(attestors, start, steps).history, name, ms)
       <==> StartsGuarded(attestors, start, steps, name, ms)
    decreases |steps|
  {
    if steps != [] {
      var pre, step := steps[..|steps| - 1], steps[|steps| - 1];
      assert steps == pre + [step];
      CapExact(attestors, start, pre, name, ms);
      ReachableInv(attestors, start, pre);
      ReachSnoc(attestors, start, pre, step);
      StartsGuardedSnoc(attestors, start, pre, step, name, ms);
      if Enabled(attestors, Reach(attestors, start, pre), step) {
        CappedStep(attestors, Reach(attestors, start, pre), step, name, ms);
      }
    }
  }

  /** If the step starts a check of `name`, no other check of `name` is in flight. */
  ghost predicate StartsAlone(attestors: seq<Attestor>, s: State, step: Step, name: string) {
    StartsCheck(attestors, s, step, name) ==>
      forall id | id in s.runs && id.index < |attestors| && attestors[id.index].name == name :: s.runs[id].Done?
  }

  /** Executions of one name that do not overlap start at least an interval apart. */
  lemma SequentialIsCapped(attestors: seq<Attestor>, start: int, steps: seq<Step>, name: string, ms: int)
    requires OneInterval(attestors) && HasInterval(attestors, name, ms) && ms > 0
    requires forall k | 0 <= k < |steps| :: StartsAlone(attestors, Reach(attestors, start, steps[..k]), steps[k], name)
    ensures Capped(Reach(attestors, start, steps).history, name, ms)
  {
    forall k | 0 <= k < |steps|
      ensures StartGuarded(attestors, Reach(attestors, start, steps[..k]), steps[k], name, ms)
    {
      assert StartsAlone(attestors, Reach(attestors, start, steps[..k]), steps[k], name);
    }
    CapExact(attestors, start, steps, name, ms);
  }

  predicate DistinctNames(attestors: seq<Attestor>) {
    forall i, j | 0 <= i < j < |attestors| :: attestors[i].name != attestors[j].name
  }

  /** If the step is a lookup, the runs of all other requests are done. */
  ghost predicate RequestAlone(attestors: seq<Attestor>, s: State, step: Step) {
    step.LookupStep? && Enabled(attestors, s, step) ==>
      forall id | id in s.runs && id.request != step.id.request :: s.runs[id].Done?
  }

  lemma AloneStartsAlone(attestors: seq<Attestor>, s: State, step: Step, name: string)
    requires DistinctNames(attestors) && RequestAlone(attestors, s, step)
    ensures StartsAlone(attestors, s, step, name)
  {
    if StartsCheck(attestors, s, step, name) {
      forall id | id in s.runs && id.index < |attestors| && attestors[id.index].name == name
        ensures s.runs[id].Done?
      {
        assert id.index == step.id.index && id != step.id;
      }
    }
  }

  /** Requests that do not overlap keep the cap, if no two attestors share a name. */
  lemma RequestsApartAreCapped(attestors: seq<Attestor>, start: int, steps: seq<Step>, name: string, ms: int)
    requires DistinctNames(attestors) && HasInterval(attestors, name, ms) && ms > 0
    requires forall k | 0 <= k < |steps| :: RequestAlone(attestors, Reach(attestors, start, steps[..k]), steps[k])
    ensures Capped(Reach(attestors, start, steps).history, name, ms)
  {
    forall k | 0 <= k < |steps|
      ensures StartsAlone(attestors, Reach(attestors, start, steps[..k]), steps[k], name)
    {
      assert RequestAlone(attestors, Reach(attestors, start, steps[..k]), steps[k]);
      AloneStartsAlone(attestors, Reach(attestors, start, steps[..k]), steps[k], name);
    }
    SequentialIsCapped(attestors, start, steps, name, ms);
  }

  /** Two checks of one name break the cap within a single request, which runs its attestors side by side. */
  lemma SharedNameBreaksCap(name: string, ms: int)
    requires ms > 0
    ensures var attestors := [Attestor(name, None, Some(ms)), Attestor(name, None, Some(ms))];
      var steps := [LookupStep(RunId(0, 0)), LookupStep(RunId(0, 1))];
      OneInterval(attestors) && !Capped(Reach(attestors, 0, steps).history, name, ms)
  {
    var attestors := [Attestor(name, None, Some(ms)), Attestor(name, None, Some(ms))];
    StartTwice(attestors, name, ms, RunId(0, 0), RunId(0, 1));
  }

  /** Two overlapping requests break the cap, whatever the interval: both start the check at once. */
  lemma OverlapBreaksCap(name: string, ms: int)
    requires ms > 0
    ensures var attestors := [Attestor(name, None, Some(ms))];
      var steps := [LookupStep(RunId(0, 0)), LookupStep(RunId(1, 0))];
      OneInterval(attestors) && !Capped(Reach(attestors, 0, steps).history, name, ms)
  {
    StartTwice([Attestor(name, None, Some(ms))], name, ms, RunId(0, 0), RunId(1, 0));
  }

  lemma StartTwice(attestors: seq<Attestor>, name: string, ms: int, a: RunId, b: RunId)
    requires ms > 0 && a != b && a.index < |attestors| && b.index < |attestors|
    requires attestors[a.index].name == name && attestors[b.index].name == name
    ensures !Capped(Reach(attestors, 0, [LookupStep(a), LookupStep(b)]).history, name, ms)
  {
    var first, second := LookupStep(a), LookupStep(b);
    ReachSnoc(attestors, 0, [], first);
    ReachSnoc(attestors, 0, [first], second);
    assert [] + [first] == [first] && [first] + [second] == [first, second];
    var h := Reach(attestors, 0, [first, second]).history;
    assert h == [Started(a, name, 0), Started(b, name, 0)];
    assert h[0].at + ms > h[1].at;
  }

  // ----- where the outcomes of a report come from

  /** Some run of an attestor of this name settled with the outcome. */
  predicate Produced(attestors: seq<Attestor>, steps: seq<Step>, name: string, snapshot: Snapshot) {
    exists step | step in steps ::
      step.SettleStep? && step.snapshot == snapshot
      && step.id.index < |attestors| && attestors[step.id.index].name == name
  }

  /**
    The run's own lookup hit a store of the name that was less than its interval old at that time, and
    that holds what a check of the name settled with.
   */
  ghost predicate FromCache(attestors: seq<Attestor>, steps: seq<Step>, history: seq<Event>, id: RunId, name: string, snapshot: Snapshot) {
    && Produced(attestors, steps, name, snapshot)
    && exists h, e | 0 <= h < |history| && e in StoresOf(history[..h]) ::
         && history[h].Hit? && history[h].id == id && history[h].name == name && history[h].snapshot == snapshot
         && e.name == name && e.snapshot == snapshot
         && e.at <= history[h].at < e.at + e.ttlMs
  }

  /** The outcome is what this run's own check settled with. */
  ghost predicate FromExecution(steps: seq<Step>, history: seq<Event>, id: RunId, name: string, snapshot: Snapshot) {
    && SettleStep(id, snapshot) in steps
    && (exists t :: Started(id, name, t) in history) && exists at :: Reported(id, snapshot, at) in history
  }

  lemma HitHasStore(attestors: seq<Attestor>, steps: seq<Step>, history: seq<Event>, clock: int, h: nat)
    requires Ordered(history, clock) && HitsFresh(history)
    requires StoresReported(attestors, history) && ReportsSettled(steps, history)
    requires h < |history| && history[h].Hit?
    ensures FromCache(attestors, steps, history, history[h].id, history[h].name, history[h].snapshot)
  {
    var pre := history[..h];
    var e := LastStore(StoresOf(pre), history[h].name).value;
    var k :| 0 <= k < |StoresOf(pre)| && StoresOf(pre)[k] == e;
    var i := StoresOfMember(pre, k);
    assert history[i] == Stored(e) && EventTime(history[i]) <= EventTime(history[h]);
    assert ReportedBefore(attestors, history, i);
    var j :| 0 <= j < i && history[j].Reported? && ReportsFor(attestors, history[j], e);
    assert SettleStep(history[j].id, history[j].snapshot) in steps;
  }

  /**
    In every reachable state a finished run holds what its own check settled with, or a fresh cached
    outcome that a check of its name settled with.
   */
  lemma OutcomeProvenance(attestors: seq<Attestor>, start: int, steps: seq<Step>, id: RunId)
    requires OneInterval(attestors)
    requires var s := Reach(attestors, start, steps); id in s.runs && s.runs[id].Done?
    ensures var s := Reach(attestors, start, steps);
      && id.index < |attestors|
      && var name, snapshot := attestors[id.index].name, s.runs[id].snapshot;
      || FromCache(attestors, steps, s.history, id, name, snapshot)
      || FromExecution(steps, s.history, id, name, snapshot)
  {
    var s := Reach(attestors, start, steps);
    ReachableInv(attestors, start, steps);
    StoredOutcomes(attestors, start, steps);
    assert RunExplained(attestors, s.history, id, s.runs[id]);
    var name, snapshot := attestors[id.index].name, s.runs[id].snapshot;
    if at :| Hit(id, name, snapshot, at) in s.history {
      var h :| 0 <= h < |s.history| && s.history[h] == Hit(id, name, snapshot, at);
      HitHasStore(attestors, steps, s.history, s.clock, h);
    } else {
      var at :| Reported(id, snapshot, at) in s.history;
      var h :| 0 <= h < |s.history| && s.history[h] == Reported(id, snapshot, at);
      assert SettleStep(s.history[h].id, s.history[h].snapshot) in steps;
    }
  }
}
