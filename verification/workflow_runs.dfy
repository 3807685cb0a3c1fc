/**
  Running a workflow: a task may execute once all its parents have. A host compiles exactly when some
  run executes every task, and then no run can get stuck before that.
 */
module WorkflowRuns {
  import opened Sequences
  import opened TaskGraph
  import opened WorkflowCompiler

  /** `m` is an unfinished task whose parents are all finished. */
  predicate Ready(host: Host, done: seq<string>, m: string)
    requires WellFormed(host)
  {
    m in host.methods && m !in done && forall p | p in Parents(host, m) :: p in done
  }

  /** Tasks in the order they executed, each once and only when it was ready. */
  predicate ValidRun(host: Host, run: seq<string>)
    requires WellFormed(host)
  {
    forall i | 0 <= i < |run| :: Ready(host, run[..i], run[i])
  }

  predicate Complete(host: Host, run: seq<string>) {
    forall m | m in host.methods :: m in run
  }

  /**
    No deadlock: whatever has finished in an accepted workflow, if a task is missing then some task is
    ready. Only the contrapositive uses the graph: tasks that wait for each other form a cycle.
   */
  lemma NoDeadlock(host: Host, done: seq<string>)
    requires WellFormed(host) && Accepted(host)
    requires !Complete(host, done)
    ensures exists m :: Ready(host, done, m)
  {
    var edges := ParentEdges(host);
    var stuck := set m | m in host.methods && m !in done;
    if forall m :: !Ready(host, done, m) {
      forall m {:trigger HasSource(edges, stuck, m)} | m in stuck ensures HasSource(edges, stuck, m) {
        assert !Ready(host, done, m);
        var p :| p in Parents(host, m) && p !in done;
        assert (p, m) in edges && p in stuck;
      }
      var m :| m in host.methods && m !in done;
      assert m in stuck;
      StuckIsCyclic(edges, stuck);
    }
  }

  lemma ValidRunShape(host: Host, run: seq<string>)
    requires WellFormed(host) && ValidRun(host, run)
    ensures Distinct(run) && |run| <= |host.methods|
    ensures forall m | m in run :: m in host.methods
    ensures SourcesPrecede(ParentEdges(host), run)
    ensures Complete(host, run) ==> |run| == |host.methods| && multiset(run) == multiset(host.methods)
  {
    forall i, j | 0 <= i < j < |run| ensures run[i] != run[j] {
      assert Ready(host, run[..j], run[j]);
      assert run[..j][i] == run[i];
    }
    forall m | m in run ensures m in host.methods {
      var i :| 0 <= i < |run| && run[i] == m;
      assert Ready(host, run[..i], run[i]);
    }
    forall i, a | 0 <= i < |run| && (a, run[i]) in ParentEdges(host) ensures a in run[..i] {
      assert Ready(host, run[..i], run[i]);
    }
    DistinctCount(run);
    DistinctCount(host.methods);
    SubsetCount(Elements(run), Elements(host.methods));
    if Complete(host, run) {
      assert Elements(run) == Elements(host.methods);
      DistinctMultiset(run);
      DistinctMultiset(host.methods);
    }
  }

  lemma {:induction false} SubsetCount(a: set<string>, b: set<string>)
    requires a <= b
    ensures |a| <= |b|
  {
    if a != {} {
      var x :| x in a;
      SubsetCount(a - {x}, b - {x});
    }
  }

  lemma {:induction false} DistinctMultiset(s: seq<string>)
    requires Distinct(s)
    ensures multiset(s) == multiset(Elements(s))
  {
    if s != [] {
      DistinctMultiset(s[1..]);
      assert s == [s[0]] + s[1..];
      assert Elements(s) == Elements(s[1..]) + {s[0]};
      assert s[0] !in s[1..];
    }
  }

  /**
    A run of an accepted workflow that cannot be continued has executed every task exactly once;
    any other run can be continued, and the tasks left to execute strictly decrease.
   */
  lemma MaximalRunIsComplete(host: Host, run: seq<string>)
    requires WellFormed(host) && Accepted(host) && ValidRun(host, run)
    ensures (forall m :: !Ready(host, run, m)) <==> multiset(run) == multiset(host.methods)
    ensures forall m | Ready(host, run, m) ::
              ValidRun(host, run + [m]) && |host.methods| - |run + [m]| < |host.methods| - |run|
    ensures |run| <= |host.methods|
  {
    ValidRunShape(host, run);
    forall m | Ready(host, run, m) ensures ValidRun(host, run + [m]) {
      ExtendRun(host, run, m);
    }
    if !Complete(host, run) {
      NoDeadlock(host, run);
      var m :| m in host.methods && m !in run;
      assert m in multiset(host.methods) && m !in multiset(run);
    }
  }

  lemma ExtendRun(host: Host, run: seq<string>, m: string)
    requires WellFormed(host) && ValidRun(host, run) && Ready(host, run, m)
    ensures ValidRun(host, run + [m])
  {
    var longer := run + [m];
    forall i | 0 <= i < |longer| ensures Ready(host, longer[..i], longer[i]) {
      if i < |run| {
        assert longer[..i] == run[..i];
      } else {
        assert longer[..i] == run;
      }
    }
  }

  lemma {:induction false} FinishRun(host: Host, run: seq<string>) returns (all: seq<string>)
    requires WellFormed(host) && Accepted(host) && ValidRun(host, run)
    ensures ValidRun(host, all) && Complete(host, all)
    decreases |host.methods| - |run|
  {
    all := run;
    if !Complete(host, run) {
      NoDeadlock(host, run);
      var m :| Ready(host, run, m);
      ExtendRun(host, run, m);
      ValidRunShape(host, run + [m]);
      all := FinishRun(host, run + [m]);
    }
  }

  /** The compiler accepts exactly the hosts with a task whose workflow can run to the end. */
  lemma AcceptedIffRunnable(host: Host)
    requires WellFormed(host)
    ensures Accepted(host) <==> host.methods != [] && exists run :: ValidRun(host, run) && Complete(host, run)
  {
    if Accepted(host) {
      var run := FinishRun(host, []);
    }
    if run :| ValidRun(host, run) && Complete(host, run) {
      ValidRunShape(host, run);
      OrderedIsAcyclic(ParentEdges(host), run);
      forall m, p | m in host.methods && p in Parents(host, m) ensures p in host.methods {
        var i :| 0 <= i < |run| && run[i] == m;
        assert Ready(host, run[..i], run[i]);
        assert p in run[..i];
        assert p in run;
      }
    }
  }

  /** The order in which the compiler declares tasks is itself a run that executes all of them. */
  lemma DeclarationOrderRuns(host: Host, order: seq<string>)
    requires TaskNames(host, order) && Distinct(order)
    requires forall i | 0 <= i < |order| :: Resolvable(host, order, i)
    ensures ValidRun(host, order)
  {
    forall i | 0 <= i < |order| ensures Ready(host, order[..i], order[i]) {
      assert Resolvable(host, order, i);
    }
  }
}
