/** What a registry holds after any history of calls, read off the history itself. */
module RegistryHistory {
  import opened Options
  import opened Sequences
  import opened DiskValidation
  import opened DiskRegistry

  function After(config: seq<Ref>, calls: seq<Call>): Table
    decreases |calls|
  {
    if calls == [] then map[]
    else AfterCall(config, After(config, calls[..|calls| - 1]), calls[|calls| - 1])
  }

  /** The driver the factory of `ref` returned in the first call for which it did. */
  function FirstMade(config: seq<Ref>, calls: seq<Call>, ref: Ref): Option<Driver> {
    if calls == [] || ref !in config then None
    else
      var earlier := FirstMade(config, calls[..|calls| - 1], ref);
      var last := calls[|calls| - 1];
      if earlier.Some? then earlier
      else if last.ref == ref then last.made
      else None
  }

  /** The most recent swap of `ref` since it was last restored, ignoring calls that failed. */
  function LastSwap(config: seq<Ref>, calls: seq<Call>, ref: Ref): Option<Driver> {
    if calls == [] then None
    else
      var last := calls[|calls| - 1];
      if last.ref != ref || FirstMade(config, calls, ref) == None || last.operation.Resolve? then
        LastSwap(config, calls[..|calls| - 1], ref)
      else if last.operation.Swap? then Some(last.operation.driver)
      else None
  }

  /** The driver that consumers of `ref` should reach. */
  function Behind(config: seq<Ref>, calls: seq<Call>, ref: Ref): Driver
    requires FirstMade(config, calls, ref).Some?
  {
    match LastSwap(config, calls, ref)
    case Some(d) => d
    case None => FirstMade(config, calls, ref).value
  }

  /**
    A reference is in the table once its factory has returned; behind it is the most recent swap since
    the last restore, and otherwise the driver its factory returned first. Calls on other references
    have no part in this.
   */
  lemma {:induction false} CallsDetermine(config: seq<Ref>, calls: seq<Call>, ref: Ref)
    ensures var t := After(config, calls);
      && (ref in t <==> FirstMade(config, calls, ref).Some?)
      && (ref in t ==> t[ref].original == FirstMade(config, calls, ref).value)
      && (ref in t ==> t[ref].current == Behind(config, calls, ref))
      && (ref !in t ==> LastSwap(config, calls, ref) == None)
      && (ref in t ==> ref in config)
    decreases |calls|
  {
    if calls != [] {
      CallsDetermine(config, calls[..|calls| - 1], ref);
    }
  }

  /** The references whose factory returned, once for each time it did. */
  function Constructed(config: seq<Ref>, calls: seq<Call>): seq<Ref> {
    if calls == [] then []
    else
      var pre, last := calls[..|calls| - 1], calls[|calls| - 1];
      Constructed(config, pre) +
      if last.ref !in After(config, pre) && last.ref in config && last.made.Some? then [last.ref] else []
  }

  /** Each factory returns successfully at most once. */
  lemma {:induction false} CallsConstructOnce(config: seq<Ref>, calls: seq<Call>)
    ensures Distinct(Constructed(config, calls))
    ensures forall r :: r in Constructed(config, calls) <==> r in After(config, calls)
    decreases |calls|
  {
    if calls != [] {
      CallsConstructOnce(config, calls[..|calls| - 1]);
    }
  }

  // ----- histories with start-up

  /** A start-up, or one call. */
  datatype Event = Init(made: Factories) | One(call: Call)

  /** The table after one more event. */
  function AfterEvent(config: seq<Ref>, t: Table, event: Event): Table {
    match event
    case Init(made) => EnsureAll(config, t, made, InitStop(config, t, made, 0))
    case One(call) => AfterCall(config, t, call)
  }

  function AfterEvents(config: seq<Ref>, events: seq<Event>): Table
    decreases |events|
  {
    if |events| == 0 then map[]
    else
      AfterEvent(config, AfterEvents(config, events[..|events| - 1]), events[|events| - 1])
  }

  /** Start-up up to entry `i`, as calls. */
  function InitCalls(config: seq<Ref>, made: Factories, i: nat): seq<Call>
    requires i <= |config|
  {
    if i == 0 then [] else InitCalls(config, made, i - 1) + [Call(config[i - 1], made(i - 1), Resolve)]
  }

  /** The history with each start-up spelled out as the resolves it got to. */
  function CallsOf(config: seq<Ref>, events: seq<Event>): seq<Call>
    decreases |events|
  {
    if |events| == 0 then []
    else
      var pre := events[..|events| - 1];
      CallsOf(config, pre) +
      match events[|events| - 1]
      case Init(made) => InitCalls(config, made, InitStop(config, AfterEvents(config, pre), made, 0))
      case One(call) => [call]
  }

  lemma AfterSnoc(config: seq<Ref>, calls: seq<Call>, call: Call)
    ensures After(config, calls + [call]) == AfterCall(config, After(config, calls), call)
  {
    assert (calls + [call])[..|calls|] == calls;
  }

  /** Start-up is a run of resolves, one for each entry in order. */
  lemma {:induction false} StartUpIsResolves(config: seq<Ref>, calls: seq<Call>, made: Factories, i: nat)
    requires i <= |config|
    ensures EnsureAll(config, After(config, calls), made, i) == After(config, calls + InitCalls(config, made, i))
  {
    if i == 0 {
      assert calls + InitCalls(config, made, 0) == calls;
    } else {
      StartUpIsResolves(config, calls, made, i - 1);
      var last := Call(config[i - 1], made(i - 1), Resolve);
      AfterSnoc(config, calls + InitCalls(config, made, i - 1), last);
      assert calls + InitCalls(config, made, i - 1) + [last] == calls + InitCalls(config, made, i);
    }
  }

  lemma {:induction false} EventsAreCalls(config: seq<Ref>, events: seq<Event>)
    ensures AfterEvents(config, events) == After(config, CallsOf(config, events))
    decreases |events|
  {
    if |events| != 0 {
      var pre := events[..|events| - 1];
      EventsAreCalls(config, pre);
      match events[|events| - 1] {
        case Init(made) =>
          StartUpIsResolves(config, CallsOf(config, pre), made, InitStop(config, AfterEvents(config, pre), made, 0));
        case One(call) => AfterSnoc(config, CallsOf(config, pre), call);
      }
    }
  }

  /** What a registry holds after any history of start-ups and calls, for each reference on its own. */
  lemma HistoryDetermines(config: seq<Ref>, events: seq<Event>, ref: Ref)
    ensures var t, calls := AfterEvents(config, events), CallsOf(config, events);
      && (ref in t <==> FirstMade(config, calls, ref).Some?)
      && (ref in t ==> t[ref].original == FirstMade(config, calls, ref).value)
      && (ref in t ==> t[ref].current == Behind(config, calls, ref))
      && (ref in t ==> ref in config)
  {
    EventsAreCalls(config, events);
    CallsDetermine(config, CallsOf(config, events), ref);
  }

  /**
    Which failure a call meets, whatever came before: an unknown reference is not registered; a known one
    fails only if its factory has not returned yet and throws now.
   */
  lemma FailsExactly(config: seq<Ref>, events: seq<Event>, ref: Ref, made: Option<Driver>)
    ensures EnsureFailure(config, AfterEvents(config, events), ref, made) ==
      if ref !in config then Some(NotRegistered)
      else if FirstMade(config, CallsOf(config, events), ref) == None && made == None then Some(FactoryThrew)
      else None
  {
    HistoryDetermines(config, events, ref);
  }

  /** Each factory returns successfully at most once, during start-up or later. */
  lemma ConstructedOnce(config: seq<Ref>, events: seq<Event>)
    ensures Distinct(Constructed(config, CallsOf(config, events)))
    ensures forall r :: r in Constructed(config, CallsOf(config, events)) <==> r in AfterEvents(config, events)
  {
    EventsAreCalls(config, events);
    CallsConstructOnce(config, CallsOf(config, events));
  }

  predicate Complete(config: seq<Ref>, t: Table) {
    forall r | r in config :: r in t
  }

  lemma CompleteAfterInit(config: seq<Ref>, t: Table, made: Factories)
    requires InitStop(config, t, made, 0) == |config|
    ensures Complete(config, EnsureAll(config, t, made, |config|))
  {
    forall r | r in config ensures r in EnsureAll(config, t, made, |config|) {
      var i :| 0 <= i < |config| && config[i] == r;
      InitRegisters(config, t, made, i);
    }
  }

  /** On a complete table calls construct nothing and another start-up passes. */
  lemma {:induction false} CompleteConstructsNothing(config: seq<Ref>, calls: seq<Call>, made: Factories, i: nat)
    requires Complete(config, After(config, calls)) && i <= |config|
    ensures EnsureAll(config, After(config, calls), made, i) == After(config, calls)
    ensures Constructed(config, calls + InitCalls(config, made, i)) == Constructed(config, calls)
  {
    if i == 0 {
      assert calls + InitCalls(config, made, 0) == calls;
    } else {
      CompleteConstructsNothing(config, calls, made, i - 1);
      StartUpIsResolves(config, calls, made, i - 1);
      var pre, last := calls + InitCalls(config, made, i - 1), Call(config[i - 1], made(i - 1), Resolve);
      assert pre + [last] == calls + InitCalls(config, made, i);
      assert (pre + [last])[..|pre|] == pre;
    }
  }

  /** So does any later event. */
  lemma EventConstructsNothing(config: seq<Ref>, events: seq<Event>, last: Event)
    requires Complete(config, AfterEvents(config, events))
    ensures Complete(config, AfterEvents(config, events + [last]))
    ensures Constructed(config, CallsOf(config, events + [last])) == Constructed(config, CallsOf(config, events))
  {
    var calls := CallsOf(config, events);
    assert (events + [last])[..|events|] == events;
    EventsAreCalls(config, events);
    match last {
      case Init(made) =>
        CompleteConstructsNothing(config, calls, made, InitStop(config, AfterEvents(config, events), made, 0));
      case One(call) =>
        assert CallsOf(config, events + [last]) == calls + [call];
        assert (calls + [call])[..|calls|] == calls;
        ConstructedOnce(config, events);
    }
  }

  /** Once complete, always complete, and nothing more is constructed. */
  lemma {:induction false} StaysComplete(config: seq<Ref>, events: seq<Event>, post: seq<Event>)
    requires Complete(config, AfterEvents(config, events))
    ensures Complete(config, AfterEvents(config, events + post))
    ensures Constructed(config, CallsOf(config, events + post)) == Constructed(config, CallsOf(config, events))
    decreases |post|
  {
    if |post| == 0 {
      assert events + post == events;
    } else {
      var front, last := post[..|post| - 1], post[|post| - 1];
      StaysComplete(config, events, front);
      EventConstructsNothing(config, events + front, last);
      assert events + front + [last] == events + post;
    }
  }

  lemma CompleteFails(config: seq<Ref>, events: seq<Event>, ref: Ref, made: Option<Driver>)
    requires Complete(config, AfterEvents(config, events))
    ensures EnsureFailure(config, AfterEvents(config, events), ref, made) ==
      if ref in config then None else Some(NotRegistered)
  {
    HistoryDetermines(config, events, ref);
  }

  /**
    After a start-up that did not fail, whatever is called later: every configured reference is there,
    a call fails exactly for the others, and no factory is run again.
   */
  lemma StartedIsComplete(config: seq<Ref>, pre: seq<Event>, made: Factories, post: seq<Event>)
    requires InitStop(config, AfterEvents(config, pre), made, 0) == |config|
    ensures var t := AfterEvents(config, pre + [Init(made)] + post);
      forall ref, now :: EnsureFailure(config, t, ref, now) == if ref in config then None else Some(NotRegistered)
    ensures Complete(config, AfterEvents(config, pre + [Init(made)] + post))
    ensures Constructed(config, CallsOf(config, pre + [Init(made)] + post)) ==
      Constructed(config, CallsOf(config, pre + [Init(made)]))
  {
    var started := pre + [Init(made)];
    assert started[..|pre|] == pre;
    CompleteAfterInit(config, AfterEvents(config, pre), made);
    StaysComplete(config, started, post);
    forall ref, now
      ensures EnsureFailure(config, AfterEvents(config, started + post), ref, now) ==
        if ref in config then None else Some(NotRegistered)
    {
      CompleteFails(config, started + post, ref, now);
    }
  }

  /** After validation every declared reference and the default resolve, unless a factory throws. */
  lemma ValidatedResolves(default_: Ref, declared: seq<Ref>, returned: seq<Ref>, events: seq<Event>, ref: Ref, made: Driver)
    requires AssertDefaultInDisks(default_, declared) == None && AssertDriversMatchDisks(declared, returned) == None
    requires ref in declared || ref == default_
    ensures EnsureFailure(returned, AfterEvents(returned, events), ref, Some(made)) == None
    ensures ref in AfterEvents(returned, events + [One(Call(ref, Some(made), Resolve))])
  {
    assert (events + [One(Call(ref, Some(made), Resolve))])[..|events|] == events;
  }

  // ----- a registry that runs a history

  /** The event is a resolve that succeeds. */
  predicate HandsOut(config: seq<Ref>, t: Table, event: Event) {
    && event.One? && event.call.operation.Resolve?
    && EnsureFailure(config, t, event.call.ref, event.call.made) == None
  }

  /** A resolve after `past` hands out a proxy if it succeeds; no other event does. */
  ghost predicate Answers(config: seq<Ref>, past: seq<Event>, event: Event, proxy: DiskProxy?) {
    proxy != null <==> HandsOut(config, AfterEvents(config, past), event)
  }

  /** A proxy that was handed out is the one of its reference. */
  ghost predicate Denotes(registry: Registry, event: Event, proxy: DiskProxy?)
    reads registry, registry.disks.Values
  {
    proxy != null ==>
      event.One? && event.call.ref in registry.disks && proxy == registry.disks[event.call.ref].disk
  }

  /** Every successful resolve of `events`, after `past`, handed out a proxy, and nothing else did. */
  ghost predicate AllAnswered(config: seq<Ref>, past: seq<Event>, events: seq<Event>, proxies: seq<DiskProxy?>) {
    |proxies| == |events| &&
    forall k | 0 <= k < |events| :: Answers(config, past + events[..k], events[k], proxies[k])
  }

  lemma AllAnsweredSnoc(config: seq<Ref>, past: seq<Event>, events: seq<Event>, i: nat, proxies: seq<DiskProxy?>, proxy: DiskProxy?)
    requires i < |events| && AllAnswered(config, past, events[..i], proxies)
    requires Answers(config, past + events[..i], events[i], proxy)
    ensures AllAnswered(config, past, events[..i + 1], proxies + [proxy])
  {
    var longer := events[..i + 1];
    forall k | 0 <= k <= i ensures Answers(config, past + longer[..k], longer[k], (proxies + [proxy])[k]) {
      assert longer[..k] == events[..k];
      if k < i {
        assert events[..i][..k] == events[..k];
        assert Answers(config, past + events[..i][..k], events[..i][k], proxies[k]);
      }
    }
  }

  /** Each proxy that was handed out is the one that its reference still has. */
  ghost predicate AllDenote(registry: Registry, events: seq<Event>, proxies: seq<DiskProxy?>)
    reads registry, registry.disks.Values
  {
    |proxies| <= |events| && forall k | 0 <= k < |proxies| :: Denotes(registry, events[k], proxies[k])
  }

  lemma AllDenoteSnoc(registry: Registry, events: seq<Event>, proxies: seq<DiskProxy?>, proxy: DiskProxy?)
    requires |proxies| < |events| && AllDenote(registry, events, proxies)
    requires Denotes(registry, events[|proxies|], proxy)
    ensures AllDenote(registry, events, proxies + [proxy])
  {
  }

  method Perform(registry: Registry, ghost past: seq<Event>, event: Event) returns (proxy: DiskProxy?)
    requires registry.Valid() && registry.Model() == AfterEvents(registry.config, past)
    modifies registry, registry.disks.Values
    ensures registry.Valid() && registry.SameObjects() && registry.NewAreFresh()
    ensures registry.Model() == AfterEvents(registry.config, past + [event])
    ensures Answers(registry.config, past, event, proxy)
    ensures Denotes(registry, event, proxy)
  {
    assert (past + [event])[..|past|] == past;
    proxy := null;
    match event {
      case Init(made) =>
        var _ := registry.OnModuleInit(made);
      case One(Call(ref, made, Resolve)) =>
        var failure;
        proxy, failure := registry.Resolve(ref, made);
        if failure.Some? {
          proxy := null;
        }
      case One(Call(ref, made, Swap(driver))) =>
        var _ := registry.Swap(ref, driver, made);
      case One(Call(ref, made, Restore)) =>
        var _ := registry.Restore(ref, made);
    }
  }

  method PerformNext(registry: Registry, ghost past: seq<Event>, events: seq<Event>, i: nat, proxies: seq<DiskProxy?>)
    returns (longer: seq<DiskProxy?>)
    requires i < |events| && registry.Valid() && registry.Model() == AfterEvents(registry.config, past + events[..i])
    requires AllAnswered(registry.config, past, events[..i], proxies) && AllDenote(registry, events, proxies)
    modifies registry, registry.disks.Values
    ensures registry.Valid() && registry.SameObjects() && registry.NewAreFresh()
    ensures registry.Model() == AfterEvents(registry.config, past + events[..i + 1])
    ensures AllAnswered(registry.config, past, events[..i + 1], longer) && AllDenote(registry, events, longer)
  {
    assert past + events[..i] + [events[i]] == past + events[..i + 1];
    var proxy := Perform(registry, past + events[..i], events[i]);
    AllAnsweredSnoc(registry.config, past, events, i, proxies, proxy);
    forall k | 0 <= k < |proxies| ensures Denotes(registry, events[k], proxies[k]) {
      assert old(Denotes(registry, events[k], proxies[k]));
    }
    AllDenoteSnoc(registry, events, proxies, proxy);
    longer := proxies + [proxy];
  }

  /**
    A registry that lived through `past` and runs `events` holds what the whole history says. Every
    successful resolve among them hands out the one proxy that its reference keeps from then on.
   */
  method Replay(registry: Registry, ghost past: seq<Event>, events: seq<Event>) returns (proxies: seq<DiskProxy?>)
    requires registry.Valid() && registry.Model() == AfterEvents(registry.config, past)
    modifies registry, registry.disks.Values
    ensures registry.Valid() && registry.SameObjects() && registry.NewAreFresh()
    ensures registry.Model() == AfterEvents(registry.config, past + events)
    ensures AllAnswered(registry.config, past, events, proxies)
    ensures AllDenote(registry, events, proxies)
  {
    proxies := [];
    assert past + events[..0] == past;
    for i := 0 to |events|
      invariant registry.Valid() && registry.SameObjects() && registry.NewAreFresh()
      invariant registry.Model() == AfterEvents(registry.config, past + events[..i])
      invariant AllAnswered(registry.config, past, events[..i], proxies)
      invariant AllDenote(registry, events, proxies)
    {
      proxies := PerformNext(registry, past, events, i, proxies);
    }
    assert events[..|events|] == events;
  }
}
