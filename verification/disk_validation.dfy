/** The checks on a disk configuration before it reaches the registry. */
module DiskValidation {
  import opened Options
  import opened Sequences

  /** A disk reference class: an identity, and a name that may be missing. */
  datatype Ref = Ref(id: nat, name: Option<string>)

  datatype ConfigError =
    | DuplicateRef(ref: Ref)
    | DefaultMissing(ref: Ref)
    | DriversMismatch(missing: seq<Ref>, unexpected: seq<Ref>)

  /** Reports the first reference that already occurred before it. */
  method AssertNoDuplicateRefs(refs: seq<Ref>) returns (error: Option<ConfigError>)
    ensures error == None <==> Distinct(refs)
    ensures error.Some? ==> exists i | 0 <= i < |refs| ::
      refs[i] in refs[..i] && Distinct(refs[..i]) && error == Some(DuplicateRef(refs[i]))
  {
    var seen: set<Ref> := {};
    for i := 0 to |refs|
      invariant seen == set r | r in refs[..i]
      invariant Distinct(refs[..i])
    {
      if refs[i] in seen {
        assert refs[i] in refs[..i];
        return Some(DuplicateRef(refs[i]));
      }
      seen := seen + {refs[i]};
      assert refs[..i + 1] == refs[..i] + [refs[i]];
    }
    assert refs[..|refs|] == refs;
    error := None;
  }

  function AssertDefaultInDisks(default_: Ref, refs: seq<Ref>): (error: Option<ConfigError>)
    ensures error == None <==> default_ in refs
    ensures error.Some? ==> error == Some(DefaultMissing(default_))
  {
    if default_ in refs then None else Some(DefaultMissing(default_))
  }

  /** The elements of `s` that are not in `others`, in order. */
  function Without(s: seq<Ref>, others: seq<Ref>): seq<Ref> {
    if s == [] then []
    else
      var rest := Without(s[1..], others);
      if s[0] in others then rest else [s[0]] + rest
  }

  lemma {:induction false} WithoutCounts(s: seq<Ref>, others: seq<Ref>, x: Ref)
    ensures multiset(Without(s, others))[x] == if x in others then 0 else multiset(s)[x]
  {
    if s != [] {
      WithoutCounts(s[1..], others, x);
      assert s == [s[0]] + s[1..];
    }
  }

  lemma WithoutMeans(s: seq<Ref>, others: seq<Ref>)
    ensures forall x :: multiset(Without(s, others))[x] == if x in others then 0 else multiset(s)[x]
    ensures forall x :: x in Without(s, others) <==> x in s && x !in others
    ensures Without(s, others) == [] <==> forall x | x in s :: x in others
  {
    var r := Without(s, others);
    forall x
      ensures multiset(r)[x] == if x in others then 0 else multiset(s)[x]
      ensures x in r <==> x in s && x !in others
    {
      WithoutCounts(s, others, x);
      assert (x in r <==> x in multiset(r)) && (x in s <==> x in multiset(s));
    }
    if r != [] {
      assert r[0] in r;
    }
  }

  lemma WithoutFirst(s: seq<Ref>, others: seq<Ref>)
    requires s != []
    ensures Without(s, others) == (if s[0] in others then [] else [s[0]]) + Without(s[1..], others)
  {
  }

  /** Part by part: what is reported keeps its order. */
  lemma {:induction false} WithoutOfParts(a: seq<Ref>, b: seq<Ref>, others: seq<Ref>)
    ensures Without(a + b, others) == Without(a, others) + Without(b, others)
  {
    if a == [] {
      assert a + b == b;
    } else {
      WithoutOfParts(a[1..], b, others);
      assert (a + b)[0] == a[0] && (a + b)[1..] == a[1..] + b;
      WithoutFirst(a, others);
      WithoutFirst(a + b, others);
    }
  }

  /** The references declared and those returned must be the same set; both differences are reported. */
  function AssertDriversMatchDisks(declared: seq<Ref>, returned: seq<Ref>): (error: Option<ConfigError>)
    ensures error == None <==> forall x :: x in declared <==> x in returned
    ensures error.Some? ==> error.value.DriversMismatch?
    ensures error.Some? ==> forall x ::
      && multiset(error.value.missing)[x] == (if x in returned then 0 else multiset(declared)[x])
      && multiset(error.value.unexpected)[x] == (if x in declared then 0 else multiset(returned)[x])
  {
    var missing, unexpected := Without(declared, returned), Without(returned, declared);
    WithoutMeans(declared, returned);
    WithoutMeans(returned, declared);
    if missing == [] && unexpected == [] then None else Some(DriversMismatch(missing, unexpected))
  }

  /** The asynchronous registration: what is declared, and the driver entries the factory returned. */
  method ForRootAsync(default_: Ref, declared: seq<Ref>, returned: seq<Ref>) returns (error: Option<ConfigError>)
    ensures error == None <==>
      Distinct(declared) && default_ in declared && forall x :: x in declared <==> x in returned
    ensures !Distinct(declared) ==> exists i | 0 <= i < |declared| ::
      declared[i] in declared[..i] && Distinct(declared[..i]) && error == Some(DuplicateRef(declared[i]))
    ensures Distinct(declared) && default_ !in declared ==> error == Some(DefaultMissing(default_))
    ensures Distinct(declared) && default_ in declared && error != None ==>
      error == Some(DriversMismatch(Without(declared, returned), Without(returned, declared)))
  {
    error := AssertNoDuplicateRefs(declared);
    if error == None {
      error := AssertDefaultInDisks(default_, declared);
      if error == None {
        error := AssertDriversMatchDisks(declared, returned);
      }
    }
  }

  lemma {:induction false} DistinctCounts(refs: seq<Ref>)
    ensures Distinct(refs) <==> forall x :: multiset(refs)[x] <= 1
  {
    if refs != [] {
      var front, last := refs[..|refs| - 1], refs[|refs| - 1];
      assert refs == front + [last];
      DistinctCounts(front);
      if last in front {
        var i :| 0 <= i < |front| && front[i] == last;
        assert refs[i] == refs[|refs| - 1];
        assert multiset(refs)[last] > 1;
      } else if !Distinct(front) {
        var x :| multiset(front)[x] > 1;
        assert multiset(refs)[x] >= multiset(front)[x];
        var i, j :| 0 <= i < j < |front| && front[i] == front[j];
        assert refs[i] == refs[j];
      } else {
        forall i, j | 0 <= i < j < |refs| ensures refs[i] != refs[j] {
          assert refs[i] == front[i];
        }
      }
    }
  }

  /**
    The factory is to return exactly one entry for each declared reference. The check compares sets, so
    for entries that pass it this holds if and only if no reference is returned twice.
   */
  lemma OneEntryPerReference(declared: seq<Ref>, returned: seq<Ref>)
    requires Distinct(declared) && AssertDriversMatchDisks(declared, returned) == None
    ensures multiset(declared) == multiset(returned) <==> Distinct(returned)
  {
    DistinctCounts(declared);
    DistinctCounts(returned);
    if Distinct(returned) {
      forall x ensures multiset(declared)[x] == multiset(returned)[x] {
        assert x in multiset(declared) <==> x in declared;
        assert x in multiset(returned) <==> x in returned;
      }
    }
  }

  /** It can fail: whatever passes still passes with one of its entries repeated. */
  lemma RepeatedEntriesPass(declared: seq<Ref>, returned: seq<Ref>, i: nat)
    requires AssertDriversMatchDisks(declared, returned) == None && i < |returned|
    ensures AssertDriversMatchDisks(declared, returned + [returned[i]]) == None
    ensures !Distinct(returned + [returned[i]])
  {
    var more := returned + [returned[i]];
    assert more[i] == more[|returned|];
  }
}
