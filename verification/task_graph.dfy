/**
  Directed graphs over task names: walks, cycles, and a topological sort that fails exactly on cyclic
  graphs.
 */
module TaskGraph {
  import opened Options
  import opened Sequences

  type Edges = set<(string, string)>

  predicate Walk(edges: Edges, p: seq<string>) {
    p != [] && forall k | 0 <= k < |p| - 1 :: (p[k], p[k + 1]) in edges
  }

  predicate Cycle(edges: Edges, p: seq<string>) {
    Walk(edges, p) && |p| >= 2 && p[0] == p[|p| - 1]
  }

  ghost predicate Cyclic(edges: Edges) {
    exists p :: Cycle(edges, p)
  }

  /** Everything with an edge into `order[i]` occurs before position `i`. */
  ghost predicate SourcesPrecede(edges: Edges, order: seq<string>) {
    forall i, a | 0 <= i < |order| && (a, order[i]) in edges :: a in order[..i]
  }

  ghost predicate TopologicalOrder(vertices: seq<string>, edges: Edges, order: seq<string>) {
    && Distinct(order)
    && (forall v :: v in order <==> v in vertices)
    && SourcesPrecede(edges, order)
  }

  // ----- ranks exclude cycles

  function FirstIndex(order: seq<string>, v: string): (i: nat)
    requires v in order
    ensures i < |order| && order[i] == v && v !in order[..i]
  {
    if order[0] == v then 0 else FirstIndex(order[1..], v) + 1
  }

  /** The first occurrence is a rank that strictly decreases from an edge's target to its source. */
  lemma RankDecreases(edges: Edges, order: seq<string>, a: string, b: string)
    requires SourcesPrecede(edges, order) && (a, b) in edges && b in order
    ensures a in order && FirstIndex(order, a) < FirstIndex(order, b)
  {
    var i := FirstIndex(order, b);
    assert a in order[..i];
    var j :| 0 <= j < i && order[j] == a;
    FirstIndexLeast(order, a, j);
  }

  lemma FirstIndexLeast(order: seq<string>, v: string, j: nat)
    requires j < |order| && order[j] == v
    ensures FirstIndex(order, v) <= j
  {
  }

  lemma {:induction false} WalkRank(edges: Edges, order: seq<string>, p: seq<string>)
    requires SourcesPrecede(edges, order) && Walk(edges, p) && p[|p| - 1] in order
    ensures p[0] in order
    ensures FirstIndex(order, p[0]) + |p| - 1 <= FirstIndex(order, p[|p| - 1])
  {
    if |p| > 1 {
      var q := p[1..];
      forall k | 0 <= k < |q| - 1 ensures (q[k], q[k + 1]) in edges {
        assert q[k] == p[k + 1] && q[k + 1] == p[k + 2];
      }
      WalkRank(edges, order, q);
      assert (p[0], p[0 + 1]) in edges;
      RankDecreases(edges, order, p[0], p[1]);
    }
  }

  /** No cycle passes through an element of an order in which sources precede. */
  lemma OrderedIsAcyclic(edges: Edges, order: seq<string>)
    requires SourcesPrecede(edges, order)
    requires forall a, b | (a, b) in edges :: b in order
    ensures !Cyclic(edges)
  {
    if Cyclic(edges) {
      var p :| Cycle(edges, p);
      var k := |p| - 2;
      assert (p[k], p[k + 1]) in edges;
      WalkRank(edges, order, p);
    }
  }

  // ----- a set without a start contains a cycle

  ghost predicate HasSource(edges: Edges, from: set<string>, v: string) {
    exists u {:trigger (u, v) in edges} :: u in from && (u, v) in edges
  }

  ghost predicate Stuck(edges: Edges, stuck: set<string>) {
    forall v {:trigger HasSource(edges, stuck, v)} | v in stuck :: HasSource(edges, stuck, v)
  }

  function Elements(s: seq<string>): set<string> {
    set v | v in s
  }

  lemma {:induction false} DistinctCount(s: seq<string>)
    requires Distinct(s)
    ensures |Elements(s)| == |s|
  {
    if s != [] {
      DistinctCount(s[1..]);
      assert Elements(s) == Elements(s[1..]) + {s[0]};
    }
  }

  lemma CycleFromRepeat(edges: Edges, u: string, w: seq<string>)
    requires Walk(edges, w) && (u, w[0]) in edges && u in w
    ensures Cyclic(edges)
  {
    var j :| 0 <= j < |w| && w[j] == u;
    var p := [u] + w[..j + 1];
    forall k | 0 <= k < |p| - 1 ensures (p[k], p[k + 1]) in edges {
      if k > 0 { assert p[k] == w[k - 1] && p[k + 1] == w[k - 1 + 1]; }
    }
    assert Cycle(edges, p);
  }

  lemma WalkCons(edges: Edges, u: string, w: seq<string>)
    requires Walk(edges, w) && (u, w[0]) in edges
    ensures Walk(edges, [u] + w)
  {
    var p := [u] + w;
    forall k | 0 <= k < |p| - 1 ensures (p[k], p[k + 1]) in edges {
      if k > 0 { assert p[k] == w[k - 1] && p[k + 1] == w[k - 1 + 1]; }
    }
  }

  lemma {:induction false} BackwardWalk(edges: Edges, stuck: set<string>, w: seq<string>)
    requires Stuck(edges, stuck)
    requires Walk(edges, w) && w[0] in stuck
    ensures Cyclic(edges)
    decreases stuck - Elements(w)
  {
    assert HasSource(edges, stuck, w[0]);
    var u :| u in stuck && (u, w[0]) in edges;
    if u in w {
      CycleFromRepeat(edges, u, w);
    } else {
      WalkCons(edges, u, w);
      assert Elements([u] + w) == Elements(w) + {u};
      assert u in stuck - Elements(w);
      BackwardWalk(edges, stuck, [u] + w);
    }
  }

  /** If every element of a non-empty set has an edge from inside the set, the graph has a cycle. */
  lemma StuckIsCyclic(edges: Edges, stuck: set<string>)
    requires stuck != {} && Stuck(edges, stuck)
    ensures Cyclic(edges)
  {
    var v :| v in stuck;
    BackwardWalk(edges, stuck, [v]);
  }

  lemma SourcesPrecedeSnoc(edges: Edges, order: seq<string>, v: string)
    requires SourcesPrecede(edges, order)
    requires forall a | (a, v) in edges :: a in order
    ensures SourcesPrecede(edges, order + [v])
  {
    var longer := order + [v];
    forall i, a | 0 <= i < |longer| && (a, longer[i]) in edges ensures a in longer[..i] {
      if i < |order| {
        assert a in order[..i] && longer[..i] == order[..i];
      } else {
        assert longer[..i] == order;
      }
    }
  }

  /** Some source of `v` is missing from `sorted`. */
  ghost predicate Waits(edges: Edges, sorted: seq<string>, v: string) {
    exists a {:trigger (a, v) in edges} :: (a, v) in edges && a !in sorted
  }

  ghost predicate AllWait(edges: Edges, sorted: seq<string>, vs: seq<string>) {
    forall v {:trigger Waits(edges, sorted, v)} | v in vs && v !in sorted :: Waits(edges, sorted, v)
  }

  lemma WaitingIsCyclic(vertices: seq<string>, edges: Edges, sorted: seq<string>, v: string)
    requires forall a, b | (a, b) in edges :: a in vertices && b in vertices
    requires AllWait(edges, sorted, vertices) && v in vertices && v !in sorted
    ensures Cyclic(edges)
  {
    var stuck := set u | u in vertices && u !in sorted;
    forall u {:trigger HasSource(edges, stuck, u)} | u in stuck ensures HasSource(edges, stuck, u) {
      assert Waits(edges, sorted, u);
      var a :| (a, u) in edges && a !in sorted;
      assert a in stuck && (a, u) in edges;
    }
    assert v in stuck;
    StuckIsCyclic(edges, stuck);
  }

  class DirectedGraph {
    var vertices: seq<string>
    var edges: Edges

    ghost predicate Valid()
      reads this
    {
      Distinct(vertices) && forall a, b | (a, b) in edges :: a in vertices && b in vertices
    }

    constructor ()
      ensures Valid() && vertices == [] && edges == {}
    {
      vertices, edges := [], {};
    }

    method AddVertex(v: string)
      requires Valid()
      modifies this
      ensures Valid() && edges == old(edges)
      ensures vertices == if v in old(vertices) then old(vertices) else old(vertices) + [v]
    {
      if v !in vertices {
        vertices := vertices + [v];
      }
    }

    /** An edge is added only between existing vertices. */
    method AddEdge(source: string, target: string)
      requires Valid()
      modifies this
      ensures Valid() && vertices == old(vertices)
      ensures edges == old(edges) + if source in vertices && target in vertices then {(source, target)} else {}
    {
      if source in vertices && target in vertices {
        edges := edges + {(source, target)};
      }
    }

    /** The first vertex that is not yet sorted although all its sources are. */
    method NextReady(sorted: seq<string>) returns (r: Option<string>)
      ensures r.Some? ==> r.value in vertices && r.value !in sorted
      ensures r.Some? ==> forall a | (a, r.value) in edges :: a in sorted
      ensures r.None? ==> AllWait(edges, sorted, vertices)
    {
      for i := 0 to |vertices|
        invariant AllWait(edges, sorted, vertices[..i])
      {
        var v := vertices[i];
        if v !in sorted && forall e | e in edges :: e.1 == v ==> e.0 in sorted {
          assert forall a | (a, v) in edges :: (a, v).0 in sorted;
          return Some(v);
        }
        if v !in sorted {
          var e :| e in edges && e.1 == v && e.0 !in sorted;
          assert (e.0, v) in edges;
        }
      }
      assert vertices[..|vertices|] == vertices;
      r := None;
    }

    /** A topological order of the vertices, or none exactly when the graph has a cycle. */
    method TopologicalSort() returns (r: Option<seq<string>>)
      requires Valid()
      ensures r.None? <==> Cyclic(edges)
      ensures r.Some? ==> TopologicalOrder(vertices, edges, r.value)
    {
      var sorted: seq<string> := [];
      while true
        invariant Distinct(sorted) && forall v | v in sorted :: v in vertices
        invariant SourcesPrecede(edges, sorted)
        decreases Elements(vertices) - Elements(sorted)
      {
        var next := NextReady(sorted);
        if next.None? {
          break;
        }
        SourcesPrecedeSnoc(edges, sorted, next.value);
        assert Elements(sorted + [next.value]) == Elements(sorted) + {next.value};
        assert next.value in Elements(vertices) - Elements(sorted);
        sorted := sorted + [next.value];
      }
      if v :| v in vertices && v !in sorted {
        WaitingIsCyclic(vertices, edges, sorted, v);
        r := None;
      } else {
        OrderedIsAcyclic(edges, sorted);
        r := Some(sorted);
      }
    }
  }
}
