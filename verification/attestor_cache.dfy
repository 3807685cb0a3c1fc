/**
  The attestor cache: a map with a time to live per entry, evicted lazily on reads. Its specification
  is the log of all stores.
 */
module AttestorCache {
  import opened Options

  datatype CheckStatus = Ok | Down

  datatype Outcome = Outcome(status: CheckStatus, details: Option<map<string, string>>)

  datatype Snapshot = Snapshot(outcome: Outcome, durationMs: int)

  datatype Entry = Entry(snapshot: Snapshot, expiresAt: int)

  type Entries = map<string, Entry>

  function Read(entries: Entries, name: string, now: int): Option<Snapshot> {
    if name in entries && now < entries[name].expiresAt then Some(entries[name].snapshot) else None
  }

  function AfterRead(entries: Entries, name: string, now: int): Entries {
    if name in entries && entries[name].expiresAt <= now then entries - {name} else entries
  }

  function AfterStore(entries: Entries, name: string, snapshot: Snapshot, ttlMs: int, now: int): Entries {
    if ttlMs <= 0 then entries else entries[name := Entry(snapshot, now + ttlMs)]
  }

  // ----- the log specification

  datatype Store = Store(name: string, snapshot: Snapshot, ttlMs: int, at: int)

  /** The last store for `name` that had a positive time to live. */
  function LastStore(log: seq<Store>, name: string): (r: Option<Store>)
    ensures r.Some? ==> r.value in log && r.value.name == name && r.value.ttlMs > 0
  {
    if log == [] then None
    else
      var e := log[|log| - 1];
      if e.name == name && e.ttlMs > 0 then Some(e) else LastStore(log[..|log| - 1], name)
  }

  /** A read sees the last store of its name while that store is younger than its time to live. */
  function Expected(log: seq<Store>, name: string, now: int): Option<Snapshot> {
    match LastStore(log, name)
    case Some(e) => if now < e.at + e.ttlMs then Some(e.snapshot) else None
    case None => None
  }

  /** Up to time `seen`, the entries are the last stores, less some that have expired. */
  ghost predicate Represents(entries: Entries, log: seq<Store>, seen: int) {
    forall name :: RepresentsName(entries, log, seen, name)
  }

  ghost predicate RepresentsName(entries: Entries, log: seq<Store>, seen: int, name: string) {
    match LastStore(log, name)
    case None => name !in entries
    case Some(e) =>
      if name in entries then entries[name] == Entry(e.snapshot, e.at + e.ttlMs)
      else e.at + e.ttlMs <= seen
  }

  lemma ReadRefines(entries: Entries, log: seq<Store>, seen: int, name: string, now: int)
    requires Represents(entries, log, seen) && seen <= now
    ensures Read(entries, name, now) == Expected(log, name, now)
    ensures Represents(AfterRead(entries, name, now), log, now)
  {
    assert RepresentsName(entries, log, seen, name);
    forall other ensures RepresentsName(AfterRead(entries, name, now), log, now, other) {
      assert RepresentsName(entries, log, seen, other);
    }
  }

  lemma StoreRefines(entries: Entries, log: seq<Store>, seen: int, e: Store)
    requires Represents(entries, log, seen) && seen <= e.at
    ensures Represents(AfterStore(entries, e.name, e.snapshot, e.ttlMs, e.at), log + [e], e.at)
  {
    assert (log + [e])[..|log|] == log;
    var after := AfterStore(entries, e.name, e.snapshot, e.ttlMs, e.at);
    forall other ensures RepresentsName(after, log + [e], e.at, other) {
      assert RepresentsName(entries, log, seen, other);
    }
  }

  // ----- whole histories

  datatype Op = Fetch(name: string, at: int) | Save(entry: Store)

  function OpTime(op: Op): int {
    match op case Fetch(_, at) => at case Save(e) => e.at
  }

  function Stores(ops: seq<Op>): seq<Store> {
    if ops == [] then []
    else
      var rest := Stores(ops[..|ops| - 1]);
      if ops[|ops| - 1].Save? then rest + [ops[|ops| - 1].entry] else rest
  }

  /** The entries after a history of calls that started with an empty cache. */
  function After(ops: seq<Op>): Entries {
    if ops == [] then map[]
    else
      var before := After(ops[..|ops| - 1]);
      match ops[|ops| - 1]
      case Fetch(name, at) => AfterRead(before, name, at)
      case Save(e) => AfterStore(before, e.name, e.snapshot, e.ttlMs, e.at)
  }

  /** The last positive store of `name` was evicted by a later fetch at or after its expiry. */
  predicate Evicted(ops: seq<Op>, name: string) {
    if ops == [] then false
    else
      var pre := ops[..|ops| - 1];
      match ops[|ops| - 1]
      case Save(e) => Evicted(pre, name) && !(e.name == name && e.ttlMs > 0)
      case Fetch(other, at) =>
        Evicted(pre, name) || (other == name && LastStore(Stores(pre), name).Some? && Expiry(pre, name) <= at)
  }

  function Expiry(ops: seq<Op>, name: string): int
    requires LastStore(Stores(ops), name).Some?
  {
    LastStore(Stores(ops), name).value.at + LastStore(Stores(ops), name).value.ttlMs
  }

  /** Whatever the clock does, the entries are the last stores less the evicted ones. */
  lemma {:induction false} EntriesExactly(ops: seq<Op>, name: string)
    ensures name in After(ops) <==> LastStore(Stores(ops), name).Some? && !Evicted(ops, name)
    ensures name in After(ops) ==>
      After(ops)[name] == Entry(LastStore(Stores(ops), name).value.snapshot, Expiry(ops, name))
    decreases |ops|
  {
    if ops != [] {
      var pre, op := ops[..|ops| - 1], ops[|ops| - 1];
      EntriesExactly(pre, name);
      if op.Save? {
        assert (Stores(pre) + [op.entry])[..|Stores(pre)|] == Stores(pre);
      }
    }
  }

  /** Its last store was evicted, and the clock is back before the expiry of that store. */
  predicate SetBack(ops: seq<Op>, name: string, now: int) {
    LastStore(Stores(ops), name).Some? && Evicted(ops, name) && now < Expiry(ops, name)
  }

  /** For every history, with no condition on the clock: a read differs from the log exactly in that case. */
  lemma {:induction false} RefinesExactly(ops: seq<Op>, name: string, now: int)
    ensures Read(After(ops), name, now) == Expected(Stores(ops), name, now) <==> !SetBack(ops, name, now)
    ensures SetBack(ops, name, now) ==> Read(After(ops), name, now) == None
  {
    EntriesExactly(ops, name);
  }

  lemma {:induction false} EvictedIsPast(ops: seq<Op>, name: string, now: int)
    requires forall i | 0 <= i < |ops| :: OpTime(ops[i]) <= now
    requires Evicted(ops, name) && LastStore(Stores(ops), name).Some?
    ensures Expiry(ops, name) <= now
    decreases |ops|
  {
    var pre, op := ops[..|ops| - 1], ops[|ops| - 1];
    assert OpTime(op) <= now;
    if op.Save? {
      assert (Stores(pre) + [op.entry])[..|Stores(pre)|] == Stores(pre);
    }
    if Evicted(pre, name) {
      EvictedIsPast(pre, name, now);
    }
  }

  /** A read whose clock is not behind that of any earlier call answers what the log of stores says. */
  lemma {:induction false} HistoryRefines(ops: seq<Op>, name: string, now: int)
    requires forall i | 0 <= i < |ops| :: OpTime(ops[i]) <= now
    ensures Read(After(ops), name, now) == Expected(Stores(ops), name, now)
  {
    RefinesExactly(ops, name, now);
    if SetBack(ops, name, now) {
      EvictedIsPast(ops, name, now);
    }
  }

  /** That happens: any entry fetched at or after its expiry is missed once the clock is back before it. */
  lemma {:induction false} ClockSetBack(ops: seq<Op>, e: Store, at: int, now: int)
    requires e.ttlMs > 0 && now < e.at + e.ttlMs <= at
    ensures var after := ops + [Save(e), Fetch(e.name, at)];
      Read(After(after), e.name, now) == None && Expected(Stores(after), e.name, now) == Some(e.snapshot)
  {
    var saved := ops + [Save(e)];
    var after := ops + [Save(e), Fetch(e.name, at)];
    assert saved[..|ops|] == ops && after[..|saved|] == saved;
    assert (Stores(ops) + [e])[..|Stores(ops)|] == Stores(ops);
    EntriesExactly(after, e.name);
  }

  // ----- the mutable cache

  /** `now` is the reading of the clock at the call; nothing is required of it. */
  class Cache {
    var entries: Entries
    ghost var history: seq<Op>

    ghost predicate Valid()
      reads this
    {
      entries == After(history)
    }

    constructor ()
      ensures Valid() && history == []
    {
      entries, history := map[], [];
    }

    method Get(name: string, now: int) returns (r: Option<Snapshot>)
      requires Valid()
      modifies this
      ensures Valid() && history == old(history) + [Fetch(name, now)]
      ensures r == if SetBack(old(history), name, now) then None else Expected(Stores(old(history)), name, now)
      ensures r == Read(old(entries), name, now) && entries == AfterRead(old(entries), name, now)
    {
      RefinesExactly(history, name, now);
      ghost var before := history;
      history := history + [Fetch(name, now)];
      assert history[..|before|] == before;
      if name !in entries {
        return None;
      }
      var entry := entries[name];
      if entry.expiresAt <= now {
        entries := entries - {name};
        return None;
      }
      r := Some(entry.snapshot);
    }

    method Set(name: string, snapshot: Snapshot, ttlMs: int, now: int)
      requires Valid()
      modifies this
      ensures Valid() && history == old(history) + [Save(Store(name, snapshot, ttlMs, now))]
      ensures entries == AfterStore(old(entries), name, snapshot, ttlMs, now)
    {
      ghost var before := history;
      history := history + [Save(Store(name, snapshot, ttlMs, now))];
      assert history[..|before|] == before;
      if ttlMs <= 0 {
        return;
      }
      entries := entries[name := Entry(snapshot, now + ttlMs)];
    }
  }
}
