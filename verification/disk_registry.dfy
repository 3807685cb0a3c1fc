/**
  The disk registry: a memo table of swappable disks. Consumers hold a disk's proxy, which stays the
  same object while the driver behind it is swapped and restored.
 */
module DiskRegistry {
  import opened Options
  import opened DiskValidation

  type Driver = nat

  // ----- what calls do to the original and current driver of each reference

  datatype Drivers = Drivers(original: Driver, current: Driver)

  type Table = map<Ref, Drivers>

  datatype Failure = NotRegistered | FactoryThrew

  datatype Operation = Resolve | Swap(driver: Driver) | Restore

  /** `made` is what the driver factory does if the call has to run it: a driver, or nothing if it throws. */
  datatype Call = Call(ref: Ref, made: Option<Driver>, operation: Operation)

  function EnsureFailure(config: seq<Ref>, t: Table, ref: Ref, made: Option<Driver>): Option<Failure> {
    if ref in t then None
    else if ref !in config then Some(NotRegistered)
    else if made == None then Some(FactoryThrew)
    else None
  }

  function AfterEnsure(config: seq<Ref>, t: Table, ref: Ref, made: Option<Driver>): Table {
    if ref !in t && ref in config && made.Some? then t[ref := Drivers(made.value, made.value)] else t
  }

  /** What the factory does if start-up has to run it for entry `i`. */
  type Factories = nat -> Option<Driver>

  /** The table after ensuring the first `i` configured references in order. */
  function EnsureAll(config: seq<Ref>, t: Table, made: Factories, i: nat): Table
    requires i <= |config|
  {
    if i == 0 then t else AfterEnsure(config, EnsureAll(config, t, made, i - 1), config[i - 1], made(i - 1))
  }

  /** Entry `i` is in the table when its turn comes, or its factory returns. */
  predicate Buildable(config: seq<Ref>, t: Table, made: Factories, i: nat)
    requires i < |config|
  {
    made(i).Some? || config[i] in EnsureAll(config, t, made, i)
  }

  /** The entry from `i` on at which start-up ends: the first that is not buildable. */
  function InitStop(config: seq<Ref>, t: Table, made: Factories, i: nat): (stop: nat)
    requires i <= |config|
    ensures i <= stop <= |config|
    decreases |config| - i
  {
    if i == |config| || !Buildable(config, t, made, i) then i else InitStop(config, t, made, i + 1)
  }

  lemma {:induction false} InitStopIsFirst(config: seq<Ref>, t: Table, made: Factories, i: nat)
    requires i <= |config|
    ensures var stop := InitStop(config, t, made, i);
      && (forall k | i <= k < stop :: Buildable(config, t, made, k))
      && (stop < |config| ==> !Buildable(config, t, made, stop))
    decreases |config| - i
  {
    if i < |config| && Buildable(config, t, made, i) {
      InitStopIsFirst(config, t, made, i + 1);
    }
  }

  /** Start-up passes the entries in front of `stop`, and fails there. */
  lemma InitStep(config: seq<Ref>, t: Table, made: Factories, i: nat, stop: nat)
    requires i <= stop == InitStop(config, t, made, 0) && i < |config|
    ensures EnsureFailure(config, EnsureAll(config, t, made, i), config[i], made(i)) ==
      if i < stop then None else Some(FactoryThrew)
    ensures AfterEnsure(config, EnsureAll(config, t, made, i), config[i], made(i)) ==
      EnsureAll(config, t, made, if i < stop then i + 1 else i)
  {
    InitStopIsFirst(config, t, made, 0);
    assert i < stop ==> Buildable(config, t, made, i);
  }

  /** Ensuring never drops a reference or changes the drivers of one that is there. */
  lemma {:induction false} EnsureAllKeeps(config: seq<Ref>, t: Table, made: Factories, i: nat, j: nat)
    requires i <= j <= |config|
    ensures forall r | r in EnsureAll(config, t, made, i) ::
      r in EnsureAll(config, t, made, j) && EnsureAll(config, t, made, j)[r] == EnsureAll(config, t, made, i)[r]
    decreases j
  {
    if i < j {
      EnsureAllKeeps(config, t, made, i, j - 1);
    }
  }

  /** Start-up leaves in the table every entry in front of the one where it ends. */
  lemma InitRegisters(config: seq<Ref>, t: Table, made: Factories, i: nat)
    requires i < InitStop(config, t, made, 0)
    ensures config[i] in EnsureAll(config, t, made, InitStop(config, t, made, 0))
  {
    var stop := InitStop(config, t, made, 0);
    InitStopIsFirst(config, t, made, 0);
    assert Buildable(config, t, made, i);
    EnsureAllKeeps(config, t, made, i + 1, stop);
    EnsureAllKeeps(config, t, made, i, i + 1);
  }

  function AfterCall(config: seq<Ref>, t: Table, call: Call): Table {
    var ensured := AfterEnsure(config, t, call.ref, call.made);
    if call.ref !in ensured then ensured
    else match call.operation
      case Resolve => ensured
      case Swap(d) => ensured[call.ref := ensured[call.ref].(current := d)]
      case Restore => ensured[call.ref := ensured[call.ref].(current := ensured[call.ref].original)]
  }

  // ----- the objects

  class Disk {
    const driver: Driver

    constructor (driver: Driver)
      ensures this.driver == driver
    {
      this.driver := driver;
    }
  }

  /** The proxy consumers hold: every access goes to the current disk of its owner. */
  class DiskProxy {
    const owner: SwappableDisk

    constructor (owner: SwappableDisk)
      ensures this.owner == owner
    {
      this.owner := owner;
    }

    function CurrentDriver(): Driver
      reads owner
    {
      owner.currentDisk.driver
    }
  }

  class SwappableDisk {
    var disk: DiskProxy?
    const originalDriver: Driver
    var currentDisk: Disk

    ghost predicate Valid()
      reads this
    {
      disk != null && disk.owner == this
    }

    ghost function Model(): Drivers
      reads this
    {
      Drivers(originalDriver, currentDisk.driver)
    }

    constructor (driver: Driver)
      ensures Valid() && Model() == Drivers(driver, driver) && fresh(disk)
    {
      originalDriver := driver;
      currentDisk := new Disk(driver);
      new;
      disk := new DiskProxy(this);
    }

    method Swap(driver: Driver)
      requires Valid()
      modifies this
      ensures Valid() && disk == old(disk)
      ensures Model() == old(Model()).(current := driver)
    {
      currentDisk := new Disk(driver);
    }

    method Restore()
      requires Valid()
      modifies this
      ensures Valid() && disk == old(disk)
      ensures Model() == old(Model()).(current := old(Model()).original)
    {
      currentDisk := new Disk(originalDriver);
    }
  }

  class Registry {
    const config: seq<Ref>
    var disks: map<Ref, SwappableDisk>

    ghost predicate Valid()
      reads this, disks.Values
    {
      && (forall r | r in disks :: r in config && disks[r].disk != null && disks[r].disk.owner == disks[r])
      && forall r, q | r in disks && q in disks && disks[r] == disks[q] :: r == q
    }

    ghost function Model(): Table
      reads this, disks.Values
    {
      map r | r in disks :: disks[r].Model()
    }

    /** References handed out before still denote the same objects. */
    twostate predicate SameObjects()
      reads this, disks.Values
    {
      forall r | r in old(disks) :: r in disks && disks[r] == old(disks[r]) && disks[r].disk == old(disks[r].disk)
    }

    /** Entries made since are new objects, so that whoever may change the registry may change them too. */
    twostate predicate NewAreFresh()
      reads this, disks.Values
    {
      forall r | r in disks && r !in old(disks) :: fresh(disks[r]) && fresh(disks[r].disk)
    }

    constructor (config: seq<Ref>)
      ensures Valid() && this.config == config && disks == map[] && Model() == map[]
    {
      this.config := config;
      disks := map[];
    }

    method Ensure(ref: Ref, made: Option<Driver>) returns (r: Option<SwappableDisk>, failure: Option<Failure>)
      requires Valid()
      modifies this
      ensures Valid() && SameObjects() && NewAreFresh()
      ensures failure == EnsureFailure(config, old(Model()), ref, made)
      ensures Model() == AfterEnsure(config, old(Model()), ref, made)
      ensures r.Some? <==> failure == None
      ensures r.Some? ==> ref in disks && r.value == disks[ref]
    {
      if ref in disks {
        return Some(disks[ref]), None;
      }
      if ref !in config {
        return None, Some(NotRegistered);
      }
      match made {
        case None =>
          return None, Some(FactoryThrew);
        case Some(driver) =>
          var swappable := new SwappableDisk(driver);
          disks := disks[ref := swappable];
          return Some(swappable), None;
      }
    }

    /** The proxy of the reference: always the same object, with the current driver behind it. */
    method Resolve(ref: Ref, made: Option<Driver>) returns (disk: DiskProxy?, failure: Option<Failure>)
      requires Valid()
      modifies this
      ensures Valid() && SameObjects() && NewAreFresh()
      ensures failure == EnsureFailure(config, old(Model()), ref, made)
      ensures Model() == AfterCall(config, old(Model()), Call(ref, made, Operation.Resolve))
      ensures failure == None ==> disk != null && ref in disks && disk == disks[ref].disk
      ensures failure == None ==> disk != null && disk.owner == disks[ref] && disk.CurrentDriver() == Model()[ref].current
      ensures failure == None && ref in old(disks) ==> disk == old(disks[ref].disk)
    {
      var entry;
      entry, failure := Ensure(ref, made);
      disk := if entry.Some? then entry.value.disk else null;
    }

    method Swap(ref: Ref, driver: Driver, made: Option<Driver>) returns (failure: Option<Failure>)
      requires Valid()
      modifies this, disks.Values
      ensures Valid() && SameObjects() && NewAreFresh()
      ensures failure == EnsureFailure(config, old(Model()), ref, made)
      ensures Model() == AfterCall(config, old(Model()), Call(ref, made, Operation.Swap(driver)))
    {
      var entry;
      entry, failure := Ensure(ref, made);
      if entry.Some? {
        entry.value.Swap(driver);
      }
    }

    method Restore(ref: Ref, made: Option<Driver>) returns (failure: Option<Failure>)
      requires Valid()
      modifies this, disks.Values
      ensures Valid() && SameObjects() && NewAreFresh()
      ensures failure == EnsureFailure(config, old(Model()), ref, made)
      ensures Model() == AfterCall(config, old(Model()), Call(ref, made, Operation.Restore))
    {
      var entry;
      entry, failure := Ensure(ref, made);
      if entry.Some? {
        entry.value.Restore();
      }
    }

    /** Builds every disk at start-up; the first factory that throws ends it and what was built stays. */
    method OnModuleInit(made: Factories) returns (failure: Option<Failure>)
      requires Valid()
      modifies this
      ensures Valid() && SameObjects() && NewAreFresh()
      ensures var stop := InitStop(config, old(Model()), made, 0);
        && Model() == EnsureAll(config, old(Model()), made, stop)
        && failure == if stop < |config| then Some(FactoryThrew) else None
    {
      ghost var before := Model();
      ghost var stop := InitStop(config, before, made, 0);
      failure := None;
      for i := 0 to |config|
        invariant Valid() && SameObjects() && NewAreFresh()
        invariant Model() == EnsureAll(config, before, made, i)
        invariant i <= stop && failure == None
      {
        InitStep(config, before, made, i, stop);
        var entry;
        entry, failure := Ensure(config[i], made(i));
        if failure.Some? {
          return failure;
        }
      }
    }
  }
}
