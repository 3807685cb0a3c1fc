/**
  Compiling a workflow host: decorated methods and their `parents` lists become a graph, the graph is
  sorted, and each task is declared with its parents resolved to declarations made before it.
 */
module WorkflowCompiler {
  import opened Options
  import opened Sequences
  import opened TaskGraph

  /** Decorated method names in order, and the optional `parents` metadata of each. */
  datatype Host = Host(methods: seq<string>, meta: map<string, Option<seq<string>>>)

  datatype CompileError =
    | NoTasks
    | CircularDependency
    | UnknownParent(task: string, parent: string)

  datatype Result<+T> = Success(value: T) | Failure(error: CompileError)

  datatype TaskDecl = TaskDecl(name: string, parents: seq<TaskDecl>)

  /** Own property names are distinct, and a decorated method carries metadata. */
  predicate WellFormed(host: Host) {
    Distinct(host.methods) && forall m | m in host.methods :: m in host.meta
  }

  function Parents(host: Host, m: string): seq<string>
    requires m in host.meta
  {
    match host.meta[m]
    case Some(ps) => ps
    case None => []
  }

  /** Pairs of a parent name, known or not, and the method that lists it. */
  function ParentEdges(host: Host): (r: Edges)
    requires WellFormed(host)
    ensures forall p, m :: (p, m) in r <==>
      m in host.methods && host.meta[m].Some? && p in host.meta[m].value
  {
    set m, p | m in host.methods && p in Parents(host, m) :: (p, m)
  }

  function KnownEdges(host: Host): Edges
    requires WellFormed(host)
  {
    set e | e in ParentEdges(host) && e.0 in host.methods
  }

  predicate ParentsKnown(host: Host)
    requires WellFormed(host)
  {
    forall m | m in host.methods :: forall p | p in Parents(host, m) :: p in host.methods
  }

  ghost predicate Accepted(host: Host)
    requires WellFormed(host)
  {
    host.methods != [] && !Cyclic(ParentEdges(host)) && ParentsKnown(host)
  }

  /** What acceptance asks of the metadata: a parent is a task, and neither directly nor indirectly its own child. */
  lemma AcceptedMetadata(host: Host)
    requires WellFormed(host)
    ensures Accepted(host) <==>
      && host.methods != [] && !Cyclic(ParentEdges(host))
      && forall m, p | m in host.methods && host.meta[m].Some? && p in host.meta[m].value :: p in host.methods
    ensures Accepted(host) ==>
      forall m | m in host.methods && host.meta[m].Some? :: m !in host.meta[m].value
  {
    forall m | m in host.methods && host.meta[m].Some? && m in host.meta[m].value ensures Cyclic(ParentEdges(host)) {
      assert Cycle(ParentEdges(host), [m, m]);
    }
    forall m, p | m in host.methods && host.meta[m].Some? && p in host.meta[m].value ensures p in Parents(host, m) {
    }
    forall m, p | m in host.methods && p in Parents(host, m)
      ensures host.meta[m].Some? && p in host.meta[m].value
    {
    }
  }

  /** Unknown parents are on no cycle, so leaving their edges out hides none. */
  lemma SameCycles(host: Host)
    requires WellFormed(host)
    ensures Cyclic(KnownEdges(host)) <==> Cyclic(ParentEdges(host))
  {
    if Cyclic(ParentEdges(host)) {
      var p :| Cycle(ParentEdges(host), p);
      forall k | 0 <= k < |p| - 1 ensures (p[k], p[k + 1]) in KnownEdges(host) {
        assert (p[k], p[k + 1]) in ParentEdges(host);
        if k > 0 {
          assert (p[k - 1], p[k - 1 + 1]) in ParentEdges(host);
        } else {
          assert (p[|p| - 2], p[|p| - 2 + 1]) in ParentEdges(host);
        }
      }
      assert Cycle(KnownEdges(host), p);
    }
    if Cyclic(KnownEdges(host)) {
      var p :| Cycle(KnownEdges(host), p);
      assert Cycle(ParentEdges(host), p);
    }
  }

  method AddParentEdges(graph: DirectedGraph, parents: seq<string>, child: string)
    requires graph.Valid() && child in graph.vertices
    modifies graph
    ensures graph.Valid() && graph.vertices == old(graph.vertices)
    ensures graph.edges == old(graph.edges) + set p | p in parents && p in graph.vertices :: (p, child)
  {
    for k := 0 to |parents|
      invariant graph.Valid() && graph.vertices == old(graph.vertices)
      invariant graph.edges == old(graph.edges) + set p | p in parents[..k] && p in graph.vertices :: (p, child)
    {
      graph.AddEdge(parents[k], child);
      assert parents[..k + 1] == parents[..k] + [parents[k]];
    }
    assert parents[..|parents|] == parents;
  }

  method BuildWorkflowHostGraph(host: Host) returns (r: Result<DirectedGraph>)
    requires WellFormed(host)
    ensures r.Success? <==> !Cyclic(ParentEdges(host))
    ensures r.Success? ==> fresh(r.value) && r.value.Valid()
    ensures r.Success? ==> r.value.vertices == host.methods && r.value.edges == KnownEdges(host)
    ensures r.Failure? ==> r.error == CircularDependency
  {
    var graph := new DirectedGraph();
    for i := 0 to |host.methods|
      invariant graph.Valid() && graph.vertices == host.methods[..i] && graph.edges == {}
    {
      graph.AddVertex(host.methods[i]);
    }
    assert host.methods[..|host.methods|] == host.methods;
    for i := 0 to |host.methods|
      invariant graph.Valid() && graph.vertices == host.methods
      invariant graph.edges == set e | e in KnownEdges(host) && e.1 in host.methods[..i]
    {
      AddParentEdges(graph, Parents(host, host.methods[i]), host.methods[i]);
      EdgesOfMethod(host, i);
    }
    assert graph.edges == KnownEdges(host);
    SameCycles(host);
    var sorted := graph.TopologicalSort();
    if sorted.None? {
      return Failure(CircularDependency);
    }
    r := Success(graph);
  }

  lemma EdgesOfMethod(host: Host, i: nat)
    requires WellFormed(host) && i < |host.methods|
    ensures (set e | e in KnownEdges(host) && e.1 in host.methods[..i + 1])
         == (set e | e in KnownEdges(host) && e.1 in host.methods[..i])
          + (set p | p in Parents(host, host.methods[i]) && p in host.methods :: (p, host.methods[i]))
  {
    assert host.methods[..i + 1] == host.methods[..i] + [host.methods[i]];
    var m := host.methods[i];
    var more := set p | p in Parents(host, m) && p in host.methods :: (p, m);
    forall e ensures e in more <==> e in KnownEdges(host) && e.1 == m {
      if e in KnownEdges(host) && e.1 == m {
        assert e == (e.0, m);
      }
    }
  }

  // ----- the declaration loop

  /** The last position before `i` at which `name` occurs: what a map filled in order holds. */
  function LastBefore(order: seq<string>, i: nat, name: string): (j: nat)
    requires i <= |order| && name in order[..i]
    ensures j < i && order[j] == name
  {
    if order[i - 1] == name then i - 1
    else
      assert order[..i] == order[..i - 1] + [order[i - 1]];
      LastBefore(order, i - 1, name)
  }

  predicate Resolvable(host: Host, order: seq<string>, i: nat)
    requires i < |order| && order[i] in host.meta
  {
    forall p | p in Parents(host, order[i]) :: p in order[..i]
  }

  /** The declaration of `order[i]`, with every parent resolved to its declaration before `i`. */
  predicate DeclaredAt(host: Host, order: seq<string>, tasks: seq<TaskDecl>, i: nat)
    requires i < |order| && i < |tasks| && order[i] in host.meta
  {
    var ps := Parents(host, order[i]);
    && tasks[i].name == order[i]
    && |tasks[i].parents| == |ps|
    && forall k | 0 <= k < |ps| ::
         ps[k] in order[..i] && tasks[i].parents[k] == tasks[LastBefore(order, i, ps[k])]
  }

  predicate TaskNames(host: Host, order: seq<string>) {
    WellFormed(host) && forall i | 0 <= i < |order| :: order[i] in host.methods
  }

  /** Looks the parents up in metadata order and stops at the first that is not declared yet. */
  method ResolveParents(task: string, parentNames: seq<string>, taskDecls: map<string, TaskDecl>)
    returns (r: Result<seq<TaskDecl>>)
    ensures r.Success? <==> forall p | p in parentNames :: p in taskDecls
    ensures r.Success? ==> |r.value| == |parentNames|
    ensures r.Success? ==> forall k | 0 <= k < |parentNames| :: r.value[k] == taskDecls[parentNames[k]]
    ensures r.Failure? ==> exists k ::
      && 0 <= k < |parentNames| && parentNames[k] !in taskDecls
      && (forall l | 0 <= l < k :: parentNames[l] in taskDecls)
      && r.error == UnknownParent(task, parentNames[k])
  {
    var parentsResolved: seq<TaskDecl> := [];
    for k := 0 to |parentNames|
      invariant |parentsResolved| == k
      invariant forall l | 0 <= l < k :: parentNames[l] in taskDecls && parentsResolved[l] == taskDecls[parentNames[l]]
    {
      if parentNames[k] !in taskDecls {
        return Failure(UnknownParent(task, parentNames[k]));
      }
      parentsResolved := parentsResolved + [taskDecls[parentNames[k]]];
    }
    r := Success(parentsResolved);
  }

  /**
    Declares the tasks in the order given. For any sequence of task names, sorted or not, it succeeds
    exactly when every parent occurs before its child, and otherwise names the first parent, in
    metadata order, of the first task for which it does not.
   */
  method DeclareTasks(host: Host, order: seq<string>) returns (r: Result<seq<TaskDecl>>)
    requires TaskNames(host, order)
    ensures r.Success? <==> forall i | 0 <= i < |order| :: Resolvable(host, order, i)
    ensures r.Success? ==> |r.value| == |order|
    ensures r.Success? ==> forall i | 0 <= i < |order| :: DeclaredAt(host, order, r.value, i)
    ensures r.Failure? ==> exists i, k ::
      && 0 <= i < |order| && (forall j | 0 <= j < i :: Resolvable(host, order, j))
      && 0 <= k < |Parents(host, order[i])|
      && (forall l | 0 <= l < k :: Parents(host, order[i])[l] in order[..i])
      && Parents(host, order[i])[k] !in order[..i]
      && r.error == UnknownParent(order[i], Parents(host, order[i])[k])
  {
    var tasks: seq<TaskDecl> := [];
    var taskDecls: map<string, TaskDecl> := map[];
    for i := 0 to |order|
      invariant |tasks| == i
      invariant forall j | 0 <= j < i :: Resolvable(host, order, j) && DeclaredAt(host, order, tasks, j)
      invariant forall v :: v in taskDecls <==> v in order[..i]
      invariant forall v | v in taskDecls :: taskDecls[v] == tasks[LastBefore(order, i, v)]
    {
      var parentsResolved := ResolveParents(order[i], Parents(host, order[i]), taskDecls);
      if parentsResolved.Failure? {
        assert !Resolvable(host, order, i);
        return Failure(parentsResolved.error);
      }
      var newTaskDecl := TaskDecl(order[i], parentsResolved.value);
      ghost var before := tasks;
      tasks := tasks + [newTaskDecl];
      forall j | 0 <= j < i ensures DeclaredAt(host, order, tasks, j) {
        assert DeclaredAt(host, order, before, j);
      }
      assert DeclaredAt(host, order, tasks, i);
      assert order[..i + 1] == order[..i] + [order[i]];
      taskDecls := taskDecls[order[i] := newTaskDecl];
    }
    r := Success(tasks);
  }

  /**
    Nothing about the sort needs to be trusted: whenever the loop gets through, the first occurrence is
    a rank that strictly decreases along parents, so what was declared is closed under parents and
    acyclic.
   */
  lemma DeclaredIsSound(host: Host, order: seq<string>)
    requires TaskNames(host, order)
    requires forall i | 0 <= i < |order| :: Resolvable(host, order, i)
    ensures forall m, p | m in order && p in Parents(host, m) ::
              p in order && FirstIndex(order, p) < FirstIndex(order, m)
    ensures !Cyclic(set e | e in ParentEdges(host) && e.1 in order)
  {
    var edges := set e | e in ParentEdges(host) && e.1 in order;
    forall i, a | 0 <= i < |order| && (a, order[i]) in edges ensures a in order[..i] {
      assert Resolvable(host, order, i);
    }
    forall m, p | m in order && p in Parents(host, m)
      ensures p in order && FirstIndex(order, p) < FirstIndex(order, m)
    {
      assert (p, m) in edges;
      RankDecreases(edges, order, p, m);
    }
    OrderedIsAcyclic(edges, order);
  }

  // ----- exact acceptance

  /** Each task is declared once, with its parents, in metadata order, declared strictly earlier. */
  predicate Compiled(host: Host, tasks: seq<TaskDecl>)
    requires WellFormed(host)
  {
    && |tasks| == |host.methods|
    && (forall i, j | 0 <= i < j < |tasks| :: tasks[i].name != tasks[j].name)
    && (forall i | 0 <= i < |tasks| :: tasks[i].name in host.methods)
    && forall i | 0 <= i < |tasks| :: ParentsDeclared(host, tasks, i)
  }

  predicate ParentsDeclared(host: Host, tasks: seq<TaskDecl>, i: nat)
    requires i < |tasks| && tasks[i].name in host.meta
  {
    var ps := Parents(host, tasks[i].name);
    && |tasks[i].parents| == |ps|
    && forall k | 0 <= k < |ps| :: tasks[i].parents[k].name == ps[k] && tasks[i].parents[k] in tasks[..i]
  }

  /** Every task carries exactly the parents that its metadata lists, in that order. */
  lemma CompiledMetadata(host: Host, tasks: seq<TaskDecl>, i: nat)
    requires WellFormed(host) && Compiled(host, tasks) && i < |tasks|
    ensures host.meta[tasks[i].name] == None ==> tasks[i].parents == []
    ensures forall ps | host.meta[tasks[i].name] == Some(ps) ::
      |tasks[i].parents| == |ps| && forall k | 0 <= k < |ps| :: tasks[i].parents[k].name == ps[k]
  {
    assert ParentsDeclared(host, tasks, i);
  }

  lemma CompiledFromOrder(host: Host, order: seq<string>, tasks: seq<TaskDecl>)
    requires TaskNames(host, order) && |tasks| == |order|
    requires Distinct(order) && forall v :: v in order <==> v in host.methods
    requires forall i | 0 <= i < |order| :: DeclaredAt(host, order, tasks, i)
    ensures Compiled(host, tasks)
  {
    DistinctCount(order);
    DistinctCount(host.methods);
    assert Elements(order) == Elements(host.methods);
    forall i | 0 <= i < |tasks| ensures tasks[i].name in host.methods && ParentsDeclared(host, tasks, i) {
      assert DeclaredAt(host, order, tasks, i);
      var ps := Parents(host, order[i]);
      forall k | 0 <= k < |ps| ensures tasks[i].parents[k].name == ps[k] && tasks[i].parents[k] in tasks[..i] {
        var j := LastBefore(order, i, ps[k]);
        assert DeclaredAt(host, order, tasks, j) && tasks[..i][j] == tasks[j];
      }
    }
    forall i, j | 0 <= i < j < |tasks| ensures tasks[i].name != tasks[j].name {
      assert DeclaredAt(host, order, tasks, i) && DeclaredAt(host, order, tasks, j);
    }
  }

  lemma SortedResolves(host: Host, order: seq<string>)
    requires WellFormed(host) && TopologicalOrder(host.methods, KnownEdges(host), order)
    ensures ParentsKnown(host) <==> forall i | 0 <= i < |order| :: Resolvable(host, order, i)
    ensures forall i, p | 0 <= i < |order| && p in Parents(host, order[i]) && p !in order[..i] :: p !in host.methods
  {
    forall i, p | 0 <= i < |order| && p in Parents(host, order[i]) && p in host.methods ensures p in order[..i] {
      assert (p, order[i]) in KnownEdges(host);
    }
    if forall i | 0 <= i < |order| :: Resolvable(host, order, i) {
      forall m, p | m in host.methods && p in Parents(host, m) ensures p in host.methods {
        var i :| 0 <= i < |order| && order[i] == m;
        assert Resolvable(host, order, i);
      }
    }
  }

  /**
    Compilation succeeds exactly for hosts with a task, only known parents and no cycle among parents
    (a task that lists itself included). A cycle is reported before an unknown parent.
   */
  method CreateWorkflow(host: Host) returns (r: Result<seq<TaskDecl>>)
    requires WellFormed(host)
    ensures r.Success? <==> Accepted(host)
    ensures r.Success? ==> Compiled(host, r.value)
    ensures host.methods == [] ==> r == Failure(NoTasks)
    ensures host.methods != [] && Cyclic(ParentEdges(host)) ==> r == Failure(CircularDependency)
    ensures host.methods != [] && !Cyclic(ParentEdges(host)) && !ParentsKnown(host) ==>
      && r.Failure? && r.error.UnknownParent?
      && r.error.task in host.methods && r.error.parent in Parents(host, r.error.task)
      && r.error.parent !in host.methods
  {
    if |host.methods| == 0 {
      return Failure(NoTasks);
    }
    var built := BuildWorkflowHostGraph(host);
    if built.Failure? {
      return Failure(built.error);
    }
    var graph := built.value;
    SameCycles(host);
    var topoSorted := graph.TopologicalSort();
    SortedResolves(host, topoSorted.value);
    r := DeclareTasks(host, topoSorted.value);
    if r.Success? {
      CompiledFromOrder(host, topoSorted.value, r.value);
    }
  }
}
