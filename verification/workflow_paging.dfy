/** Listing the workflows of the server page by page, and the orphans among them. */
module WorkflowPaging {
  const PAGE_SIZE: nat := 50
  const MAX_PAGES: nat := 10

  function Least(a: nat, b: nat): (r: nat)
    ensures r <= a && r <= b && (r == a || r == b)
  {
    if a < b then a else b
  }

  /** What an unchanging server with these workflows answers to a page request. */
  function ListPage(server: seq<string>, offset: nat, limit: nat): seq<string> {
    server[Least(offset, |server|)..Least(offset + limit, |server|)]
  }

  /** Fetches the first 500 workflows, in server order, with no more requests than that takes. */
  method FetchAllServerWorkflows(server: seq<string>) returns (allWorkflows: seq<string>, requests: nat)
    ensures allWorkflows == server[..Least(|server|, 500)]
    ensures requests == Least(10, |server| / 50 + 1)
  {
    allWorkflows, requests := [], 0;
    var offset := 0;
    for page := 0 to MAX_PAGES
      invariant offset == page * PAGE_SIZE <= |server|
      invariant allWorkflows == server[..offset]
      invariant requests == page
    {
      var rows := ListPage(server, offset, PAGE_SIZE);
      requests := requests + 1;
      allWorkflows := allWorkflows + rows;
      if |rows| < PAGE_SIZE {
        break;
      }
      offset := offset + PAGE_SIZE;
    }
  }

  /** `filter((wf) => !localNames.has(wf))` */
  function Orphans(names: seq<string>, localNames: set<string>): (orphans: seq<string>)
    ensures forall n :: n in orphans <==> n in names && n !in localNames
  {
    if names == [] then []
    else
      var rest := Orphans(names[1..], localNames);
      assert names == [names[0]] + names[1..];
      if names[0] in localNames then rest else [names[0]] + rest
  }

  /** Filtering keeps server order: orphans of a prefix come before those of the rest. */
  lemma {:induction false} OrphansOfParts(a: seq<string>, b: seq<string>, localNames: set<string>)
    ensures Orphans(a + b, localNames) == Orphans(a, localNames) + Orphans(b, localNames)
  {
    if a == [] {
      assert a + b == b;
    } else {
      assert (a + b)[1..] == a[1..] + b;
      OrphansOfParts(a[1..], b, localNames);
    }
  }

  /** With the parts this says which names are orphans, how often and in which order. */
  lemma OrphansOfOne(name: string, localNames: set<string>)
    ensures Orphans([name], localNames) == if name in localNames then [] else [name]
  {
    assert [name][1..] == [];
  }

  /** Orphan detection: nothing without local names, otherwise the foreign names of the fetched prefix. */
  method DetectOrphans(server: seq<string>, localNames: set<string>) returns (orphans: seq<string>)
    ensures localNames == {} ==> orphans == []
    ensures localNames != {} ==> orphans == Orphans(server[..Least(|server|, 500)], localNames)
  {
    if localNames == {} {
      return [];
    }
    var serverWorkflows, _ := FetchAllServerWorkflows(server);
    orphans := Orphans(serverWorkflows, localNames);
  }

  /**
    The limit is real: what is reported are the orphans of the whole server if and only if every name
    behind the first 500 is local.
   */
  lemma OrphansBeyondLimit(server: seq<string>, localNames: set<string>)
    ensures Orphans(server[..Least(|server|, 500)], localNames) == Orphans(server, localNames) <==>
      forall i | 500 <= i < |server| :: server[i] in localNames
  {
    var cut := Least(|server|, 500);
    var front, beyond := server[..cut], server[cut..];
    assert server == front + beyond;
    OrphansOfParts(front, beyond, localNames);
    var missed := Orphans(beyond, localNames);
    if missed == [] {
      forall i | 500 <= i < |server| ensures server[i] in localNames {
        assert server[i] == beyond[i - cut];
      }
    } else {
      assert missed[0] in missed;
      var j :| 0 <= j < |beyond| && beyond[j] == missed[0];
      assert server[cut + j] !in localNames;
    }
  }
}
