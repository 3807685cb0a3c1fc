/** The aggregate report: one entry per attestor, and a status that depends on no order. */
module HealthReport {
  import opened Options
  import opened AttestorCache
  import opened Healthz
  import HealthzTheorems

  datatype HealthStatus = AllOk | Degraded | SystemDown

  datatype AttestorRun = AttestorRun(attestor: Attestor, outcome: Outcome, durationMs: int) {
    predicate IsDown() {
      outcome.status == Down
    }

    /** Attestors are critical unless they say otherwise. */
    predicate IsCritical() {
      attestor.critical != Some(false)
    }
  }

  datatype CheckReport =
    CheckReport(name: string, status: CheckStatus, durationMs: int, details: Option<map<string, string>>)

  function ToReport(run: AttestorRun): CheckReport {
    CheckReport(run.attestor.name, run.outcome.status, run.durationMs, run.outcome.details)
  }

  predicate AnyDown(runs: seq<AttestorRun>) {
    exists run | run in runs :: run.IsDown()
  }

  predicate CriticalDown(runs: seq<AttestorRun>) {
    exists run | run in runs :: run.IsDown() && run.IsCritical()
  }

  /** The scan from front to back: the first critical failure ends it, others are remembered. */
  function Scan(runs: seq<AttestorRun>, degraded: bool): HealthStatus {
    if runs == [] then if degraded then Degraded else AllOk
    else if runs[0].IsDown() && runs[0].IsCritical() then SystemDown
    else Scan(runs[1..], degraded || runs[0].IsDown())
  }

  lemma {:induction false} ScanMeans(runs: seq<AttestorRun>, degraded: bool)
    ensures Scan(runs, degraded) == SystemDown <==> CriticalDown(runs)
    ensures Scan(runs, degraded) == AllOk <==> !AnyDown(runs) && !degraded
  {
    if runs != [] {
      assert runs == [runs[0]] + runs[1..];
      ScanMeans(runs[1..], degraded || runs[0].IsDown());
    }
  }

  /** The scan ends early and in list order, yet gives the same status for every permutation. */
  lemma StatusIgnoresOrder(a: seq<AttestorRun>, b: seq<AttestorRun>)
    requires multiset(a) == multiset(b)
    ensures Scan(a, false) == Scan(b, false)
  {
    ScanMeans(a, false);
    ScanMeans(b, false);
    assert forall run :: run in a <==> run in multiset(a);
    assert forall run :: run in b <==> run in multiset(b);
  }

  /** The loop with its early exit: down, degraded or ok by which runs are down, not by their order. */
  method DeriveStatus(runs: seq<AttestorRun>) returns (status: HealthStatus)
    ensures status == SystemDown <==> CriticalDown(runs)
    ensures status == Degraded <==> AnyDown(runs) && !CriticalDown(runs)
    ensures status == AllOk <==> !AnyDown(runs)
    ensures status == Scan(runs, false)
    ensures status == SystemDown <==> exists run | run in runs ::
      run.outcome.status == Down && (run.attestor.critical == None || run.attestor.critical == Some(true))
    ensures status == AllOk <==> forall run | run in runs :: run.outcome.status == Ok
  {
    var degraded := false;
    for i := 0 to |runs|
      invariant Scan(runs[i..], degraded) == Scan(runs, false)
      invariant degraded <==> exists k :: 0 <= k < i && runs[k].IsDown()
      invariant forall k | 0 <= k < i && runs[k].IsDown() :: !runs[k].IsCritical()
    {
      if runs[i].outcome.status == Down {
        var critical := match runs[i].attestor.critical case Some(c) => c case None => true;
        if critical {
          assert runs[i] in runs;
          return SystemDown;
        }
        degraded := true;
      }
    }
    status := if degraded then Degraded else AllOk;
  }

  predicate Answered(attestors: seq<Attestor>, s: State, request: nat) {
    forall i | 0 <= i < |attestors| :: RunId(request, i) in s.runs && s.runs[RunId(request, i)].Done?
  }

  /** `Promise.all` delivers the runs in attestor order, whatever order they completed in. */
  function RunsOf(attestors: seq<Attestor>, s: State, request: nat): (runs: seq<AttestorRun>)
    requires Answered(attestors, s, request)
    ensures |runs| == |attestors|
  {
    seq(|attestors|, i requires 0 <= i < |attestors| =>
      var snapshot := s.runs[RunId(request, i)].snapshot;
      AttestorRun(attestors[i], snapshot.outcome, snapshot.durationMs))
  }

  /** The end of `runAll`, once every run of the request is done. */
  method Aggregate(attestors: seq<Attestor>, s: State, request: nat)
    returns (status: HealthStatus, checks: seq<CheckReport>)
    requires Answered(attestors, s, request)
    ensures status == SystemDown <==> CriticalDown(RunsOf(attestors, s, request))
    ensures status == Degraded <==>
      AnyDown(RunsOf(attestors, s, request)) && !CriticalDown(RunsOf(attestors, s, request))
    ensures |checks| == |attestors|
    ensures forall i | 0 <= i < |attestors| ::
      var snapshot := s.runs[RunId(request, i)].snapshot;
      checks[i] ==
        CheckReport(attestors[i].name, snapshot.outcome.status, snapshot.durationMs, snapshot.outcome.details)
  {
    var runs := RunsOf(attestors, s, request);
    status := DeriveStatus(runs);
    checks := seq(|runs|, i requires 0 <= i < |runs| => ToReport(runs[i]));
  }

  /**
    In every reachable state, under any order of completion, entry `i` of the report describes attestor
    `i`, and its outcome is this request's own or a cached one less than its interval old at lookup.
   */
  lemma ReportDescribesAttestors(attestors: seq<Attestor>, start: int, steps: seq<Step>, request: nat, i: nat)
    requires OneInterval(attestors) && i < |attestors|
    requires Answered(attestors, Reach(attestors, start, steps), request)
    ensures var s := Reach(attestors, start, steps);
      var report := ToReport(RunsOf(attestors, s, request)[i]);
      var snapshot := Snapshot(Outcome(report.status, report.details), report.durationMs);
      && report.name == attestors[i].name
      && ( || HealthzTheorems.FromCache(attestors, steps, s.history, RunId(request, i), attestors[i].name, snapshot)
           || HealthzTheorems.FromExecution(steps, s.history, RunId(request, i), attestors[i].name, snapshot))
  {
    HealthzTheorems.OutcomeProvenance(attestors, start, steps, RunId(request, i));
  }
}
