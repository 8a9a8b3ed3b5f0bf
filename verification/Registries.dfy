/** The two service registries: 16 slots in init, 32 slots with unregister in the kernel. */
module Registries {
  import opened Options
  import opened Bytes
  import opened SlotTable

  const MAX_NAME: nat := 32

  datatype RegistryError = InvalidName | InvalidHandle | NotFound | RegistryFull
  datatype Result<T> = Ok(value: T) | Err(error: RegistryError)

  function Find(dir: map<Name, Entry>, name: Name): Option<nat> {
    if name in dir then Some(dir[name].handle) else None
  }

  predicate ValidName(name: Name) {
    0 < |name| <= MAX_NAME
  }

  // ----- the finite map of at most `capacity` names that a registry is meant to be -----

  datatype Op = RegisterOp(name: Name, owner: nat, handle: nat) | LookupOp(name: Name) | UnregisterOp(name: Name)

  function MapStep(capacity: nat, dir: map<Name, Entry>, op: Op): (map<Name, Entry>, Result<nat>) {
    match op
    case RegisterOp(name, owner, handle) =>
      if !ValidName(name) then (dir, Err(InvalidName))
      else if handle == 0 then (dir, Err(InvalidHandle))
      else if name in dir || |dir| < capacity then (dir[name := Entry(owner, handle)], Ok(0))
      else (dir, Err(RegistryFull))
    case LookupOp(name) => (dir, match Find(dir, name) case Some(h) => Ok(h) case None => Err(NotFound))
    case UnregisterOp(name) => if name in dir then (dir - {name}, Ok(0)) else (dir, Err(NotFound))
  }

  function MapRun(capacity: nat, dir: map<Name, Entry>, ops: seq<Op>): (map<Name, Entry>, seq<Result<nat>>) {
    if ops == [] then (dir, [])
    else
      var (dir1, outs) := MapRun(capacity, dir, ops[..|ops| - 1]);
      var (dir2, out) := MapStep(capacity, dir1, ops[|ops| - 1]);
      (dir2, outs + [out])
  }

  /** `apps/init`'s registry. */
  class InitRegistry {
    const slots: array<Slot>

    ghost predicate Valid()
      reads this, slots
    {
      slots.Length == 16 && Unique(slots[..])
    }

    ghost function Dir(): map<Name, Entry>
      reads this, slots
    {
      Directory(slots[..])
    }

    constructor ()
      ensures Valid() && fresh(slots) && Dir() == map[]
    {
      slots := new Slot[16](_ => EMPTY_SLOT);
      new;
      AllFree(slots[..]);
    }

    method Register(name: Name, owner: nat, handle: nat) returns (ok: bool)
      requires Valid()
      modifies slots
      ensures Valid()
      ensures Dir() == InitRegistered(old(Dir()), name, owner, handle)
      ensures ok <==> ValidName(name) && handle != 0 && (name in old(Dir()) || |old(Dir())| < 16)
      ensures ok <==> MapStep(16, old(Dir()), RegisterOp(name, owner, handle)).1.Ok?
      ensures ok ==> name in Dir() && Dir()[name].owner == owner && Dir()[name].handle == handle
    {
      if |name| == 0 || |name| > MAX_NAME || handle == 0 {
        return false;
      }
      ok := Store(slots, name, Entry(owner, handle));
    }

    method Lookup(name: Name) returns (handle: Option<nat>)
      requires Valid()
      ensures handle == Find(Dir(), name)
    {
      DirectoryMember(slots[..], name);
      var i := FindName(slots, name);
      if i < slots.Length {
        DirectoryAt(slots[..], i);
        return Some(slots[i].entry.handle);
      }
      return None;
    }

    /** Every sequence of registrations and lookups answers as the map of at most 16 names does. A registration yields
        Some(0) if it was accepted. */
    method Perform(ops: seq<Op>) returns (outs: seq<Option<nat>>)
      requires Valid() && forall op | op in ops :: !op.UnregisterOp?
      modifies slots
      ensures Valid() && |outs| == |ops| == |MapRun(16, old(Dir()), ops).1|
      ensures Dir() == MapRun(16, old(Dir()), ops).0
      ensures forall k | 0 <= k < |ops| :: outs[k] == Value(MapRun(16, old(Dir()), ops).1[k])
    {
      hide Directory, MapRun, Unique;
      ghost var dir := Dir();
      outs := [];
      var k := 0;
      RunNone(16, dir, ops);
      while k < |ops|
        invariant 0 <= k <= |ops| && Valid() && |outs| == k == |MapRun(16, dir, ops[..k]).1|
        invariant Dir() == MapRun(16, dir, ops[..k]).0
        invariant forall j | 0 <= j < k :: outs[j] == Value(MapRun(16, dir, ops[..k]).1[j])
      {
        RunStep(16, dir, ops, k);
        assert ops[k] in ops;
        var out;
        match ops[k] {
          case RegisterOp(name, owner, handle) =>
            var ok := Register(name, owner, handle);
            out := if ok then Some(0) else None;
          case LookupOp(name) => out := Lookup(name);
        }
        outs := outs + [out];
        k := k + 1;
      }
      assert ops[..k] == ops;
    }
  }

  function Value<T>(r: Result<T>): Option<T> {
    match r case Ok(v) => Some(v) case Err(_) => None
  }

  /** One more operation is one more step. */
  lemma RunStep(capacity: nat, dir: map<Name, Entry>, ops: seq<Op>, k: nat)
    requires k < |ops|
    ensures var (d, outs) := MapRun(capacity, dir, ops[..k]);
            MapRun(capacity, dir, ops[..k + 1]) == (MapStep(capacity, d, ops[k]).0, outs + [MapStep(capacity, d, ops[k]).1])
  {
    hide MapStep;
    assert ops[..k + 1][..k] == ops[..k];
  }

  /** The answers given so far do not depend on what is asked later. */
  lemma {:induction false} RunPrefix(capacity: nat, dir: map<Name, Entry>, ops: seq<Op>, k: nat, n: nat)
    requires k <= n <= |ops|
    ensures |MapRun(capacity, dir, ops[..n]).1| == n
    ensures |MapRun(capacity, dir, ops[..k]).1| == k
    ensures MapRun(capacity, dir, ops[..n]).1[..k] == MapRun(capacity, dir, ops[..k]).1
    ensures MapRun(capacity, dir, ops[..0]) == (dir, [])
    decreases n
  {
    hide MapRun, MapStep;
    RunNone(capacity, dir, ops);
    if n > 0 {
      RunStep(capacity, dir, ops, n - 1);
      if k < n {
        RunPrefix(capacity, dir, ops, k, n - 1);
      } else {
        RunPrefix(capacity, dir, ops, n - 1, n - 1);
      }
    }
  }

  lemma RunNone(capacity: nat, dir: map<Name, Entry>, ops: seq<Op>)
    ensures MapRun(capacity, dir, ops[..0]) == (dir, [])
  {}

  lemma {:induction false} AllFree(slots: seq<Slot>)
    requires forall i | 0 <= i < |slots| :: !slots[i].inUse
    ensures Unique(slots) && Directory(slots) == map[]
  {
    if slots != [] { AllFree(slots[..|slots| - 1]); }
  }

  /** What registering means for init's directory. */
  function InitRegistered(dir: map<Name, Entry>, name: Name, owner: nat, handle: nat): map<Name, Entry> {
    MapStep(16, dir, RegisterOp(name, owner, handle)).0
  }

  // ----- the kernel's registry -----

  class KernelRegistry {
    const entries: array<Slot>

    ghost predicate Valid()
      reads this, entries
    {
      entries.Length == 32 && Unique(entries[..])
    }

    ghost function Dir(): map<Name, Entry>
      reads this, entries
    {
      Directory(entries[..])
    }

    constructor ()
      ensures Valid() && fresh(entries) && Dir() == map[]
    {
      entries := new Slot[32](_ => EMPTY_SLOT);
      new;
      AllFree(entries[..]);
    }

    method Register(name: Name, owner: nat, handle: nat) returns (r: Result<nat>)
      requires Valid()
      modifies entries
      ensures Valid() && (Dir(), r) == MapStep(32, old(Dir()), RegisterOp(name, owner, handle))
      ensures r.Ok? ==> name in Dir() && Dir()[name].owner == owner && Dir()[name].handle == handle
    {
      if |name| == 0 || |name| > MAX_NAME {
        return Err(InvalidName);
      }
      if handle == 0 {
        return Err(InvalidHandle);
      }
      var ok := Store(entries, name, Entry(owner, handle));
      return if ok then Ok(0) else Err(RegistryFull);
    }

    method Lookup(name: Name) returns (r: Result<nat>)
      requires Valid()
      ensures (Dir(), r) == MapStep(32, Dir(), LookupOp(name))
    {
      DirectoryMember(entries[..], name);
      var i := FindName(entries, name);
      if i < entries.Length {
        DirectoryAt(entries[..], i);
        return Ok(entries[i].entry.handle);
      }
      return Err(NotFound);
    }

    method Unregister(name: Name) returns (r: Result<nat>)
      requires Valid()
      modifies entries
      ensures Valid() && (Dir(), r) == MapStep(32, old(Dir()), UnregisterOp(name))
    {
      hide Directory;
      ghost var before := entries[..];
      DirectoryMember(before, name);
      var i := FindName(entries, name);
      if i < entries.Length {
        Unbind(before, i);
        entries[i] := EMPTY_SLOT;
        assert entries[..] == before[i := EMPTY_SLOT];
        return Ok(0);
      }
      return Err(NotFound);
    }

    /** Every sequence of operations answers as the bounded map does, and leaves what the map leaves. */
    method Perform(ops: seq<Op>) returns (outs: seq<Result<nat>>)
      requires Valid()
      modifies entries
      ensures Valid() && (Dir(), outs) == MapRun(32, old(Dir()), ops)
    {
      hide Directory, MapStep;
      outs := [];
      var k := 0;
      assert ops[..0] == [];
      while k < |ops|
        invariant 0 <= k <= |ops| && Valid() && (Dir(), outs) == MapRun(32, old(Dir()), ops[..k])
      {
        var r;
        match ops[k] {
          case RegisterOp(name, owner, handle) => r := Register(name, owner, handle);
          case LookupOp(name) => r := Lookup(name);
          case UnregisterOp(name) => r := Unregister(name);
        }
        assert ops[..k + 1][..k] == ops[..k];
        outs := outs + [r];
        k := k + 1;
      }
      assert ops[..k] == ops;
    }
  }

  /** The map never outgrows the table, whatever is done to it. */
  lemma {:induction false} MapRunBounded(capacity: nat, dir: map<Name, Entry>, ops: seq<Op>)
    requires |dir| <= capacity
    ensures |MapRun(capacity, dir, ops).0| <= capacity
  {
    hide MapStep;
    if ops != [] {
      MapRunBounded(capacity, dir, ops[..|ops| - 1]);
      MapStepBounded(capacity, MapRun(capacity, dir, ops[..|ops| - 1]).0, ops[|ops| - 1]);
    }
  }

  lemma MapStepBounded(capacity: nat, dir: map<Name, Entry>, op: Op)
    requires |dir| <= capacity
    ensures |MapStep(capacity, dir, op).0| <= capacity
  {
    match op
    case RegisterOp(name, owner, handle) => InsertSize(dir, name, Entry(owner, handle));
    case LookupOp(_) =>
    case UnregisterOp(name) => RemoveSize(dir, name);
  }

  lemma InsertSize(dir: map<Name, Entry>, name: Name, entry: Entry)
    ensures |dir[name := entry]| == |dir| + if name in dir then 0 else 1
  {
    assert dir[name := entry].Keys == dir.Keys + {name};
    assert |dir[name := entry].Keys| == |dir.Keys| + if name in dir then 0 else 1;
  }

  lemma RemoveSize(dir: map<Name, Entry>, name: Name)
    ensures |dir - {name}| == |dir| - if name in dir then 1 else 0
  {
    assert (dir - {name}).Keys == dir.Keys - {name};
    assert |(dir - {name}).Keys| == |dir.Keys| - if name in dir then 1 else 0;
  }

  /** Unregistering makes room: after it, any valid new name is accepted. */
  lemma HoleIsReused(dir: map<Name, Entry>, name: Name, newName: Name, owner: nat, handle: nat)
    requires |dir| <= 32 && name in dir && ValidName(newName) && handle != 0
    ensures var (dir', out) := MapStep(32, MapStep(32, dir, UnregisterOp(name)).0, RegisterOp(newName, owner, handle));
            out == Ok(0) && dir' == (dir - {name})[newName := Entry(owner, handle)]
  {
    RemoveSize(dir, name);
  }

  // ----- answers told from the history alone -----

  /** What an accepted operation did: gave a name a handle, or took the name away. */
  datatype Deed = Gave(name: Name, handle: nat) | Took(name: Name)

  ghost function DeedOf(op: Op, out: Result<nat>): seq<Deed> {
    if out.Err? then []
    else
      match op
      case RegisterOp(name, _, handle) => [Gave(name, handle)]
      case LookupOp(_) => []
      case UnregisterOp(name) => [Took(name)]
  }

  ghost function Deeds(ops: seq<Op>, outs: seq<Result<nat>>): seq<Deed>
    requires |ops| == |outs|
  {
    if ops == [] then []
    else
      var n := |ops| - 1;
      Deeds(ops[..n], outs[..n]) + DeedOf(ops[n], outs[n])
  }

  /** The handle of the last deed about a name, if that deed gave one. */
  ghost function Held(deeds: seq<Deed>, name: Name): Option<nat> {
    if deeds == [] then None
    else
      var last := deeds[|deeds| - 1];
      if last.name != name then Held(deeds[..|deeds| - 1], name)
      else if last.Gave? then Some(last.handle) else None
  }

  /** The names that have a handle. */
  ghost function Names(deeds: seq<Deed>): set<Name> {
    set d | d in deeds && Held(deeds, d.name).Some? :: d.name
  }

  lemma {:induction false} HeldAmong(deeds: seq<Deed>, name: Name) returns (d: Deed)
    requires Held(deeds, name).Some?
    ensures d in deeds && d.name == name
  {
    d := deeds[|deeds| - 1];
    if d.name != name { d := HeldAmong(deeds[..|deeds| - 1], name); }
  }

  /** A step of the map is a step of the deeds. */
  lemma StepIsDeed(capacity: nat, dir: map<Name, Entry>, op: Op, deeds: seq<Deed>, name: Name)
    requires Find(dir, name) == Held(deeds, name)
    ensures var (dir', out) := MapStep(capacity, dir, op); Find(dir', name) == Held(deeds + DeedOf(op, out), name)
  {
    var out := MapStep(capacity, dir, op).1;
    if DeedOf(op, out) == [] {
      assert deeds + DeedOf(op, out) == deeds;
    } else {
      assert (deeds + DeedOf(op, out))[..|deeds|] == deeds;
    }
  }

  /** The map is what the deeds say. */
  lemma {:induction false} MapIsDeeds(capacity: nat, ops: seq<Op>, name: Name)
    ensures var (dir, outs) := MapRun(capacity, map[], ops);
            && |outs| == |ops| && Find(dir, name) == Held(Deeds(ops, outs), name)
  {
    hide MapStep, Find, DeedOf;
    if ops == [] {
      NothingFound(name);
    } else {
      var n := |ops| - 1;
      MapIsDeeds(capacity, ops[..n], name);
      var (dir, outs) := MapRun(capacity, map[], ops[..n]);
      StepIsDeed(capacity, dir, ops[n], Deeds(ops[..n], outs), name);
      assert MapRun(capacity, map[], ops).1[..n] == outs;
    }
  }

  lemma NothingFound(name: Name)
    ensures Find(map[], name) == None
  {}

  lemma NamesAreKeys(capacity: nat, ops: seq<Op>)
    ensures var (dir, outs) := MapRun(capacity, map[], ops);
            |outs| == |ops| && Names(Deeds(ops, outs)) == dir.Keys
  {
    hide MapRun, Deeds, Held;
    MapIsDeeds(capacity, ops, []);
    var (dir, outs) := MapRun(capacity, map[], ops);
    forall name
      ensures name in Names(Deeds(ops, outs)) <==> name in dir.Keys
    {
      MapIsDeeds(capacity, ops, name);
      if name in dir { var d := HeldAmong(Deeds(ops, outs), name); }
    }
  }

  /** Every answer of every run, by what happened before it: a lookup finds the handle of the last accepted registration
      of that name unless the name was unregistered since, an unregistration succeeds exactly for such names, and a
      registration is refused exactly for a bad name, a null handle, or a new name when `capacity` names are held. */
  lemma AnswersFollowHistory(capacity: nat, ops: seq<Op>, k: nat)
    requires k < |ops|
    ensures var outs := MapRun(capacity, map[], ops).1;
            && |outs| == |ops|
            && var deeds := Deeds(ops[..k], outs[..k]);
               match ops[k]
               case LookupOp(name) =>
                 outs[k] == (match Held(deeds, name) case Some(h) => Ok(h) case None => Err(NotFound))
               case UnregisterOp(name) => outs[k] == if Held(deeds, name).Some? then Ok(0) else Err(NotFound)
               case RegisterOp(name, _, handle) =>
                 outs[k] == if |name| == 0 || |name| > 32 then Err(InvalidName)
                            else if handle == 0 then Err(InvalidHandle)
                            else if Held(deeds, name).None? && |Names(deeds)| >= capacity then Err(RegistryFull)
                            else Ok(0)
  {
    hide MapRun, Deeds, Held, Names;
    RunPrefix(capacity, map[], ops, k + 1, |ops|);
    RunPrefix(capacity, map[], ops, k, |ops|);
    RunStep(capacity, map[], ops, k);
    assert ops[..|ops|] == ops;
    assert MapRun(capacity, map[], ops).1[..k + 1][k] == MapRun(capacity, map[], ops).1[k];
    MapIsDeeds(capacity, ops[..k], ops[k].name);
    NamesAreKeys(capacity, ops[..k]);
    assert |MapRun(capacity, map[], ops[..k]).0| == |MapRun(capacity, map[], ops[..k]).0.Keys|;
  }

  /** What is done to one name leaves the handles of the others alone. */
  lemma OthersUntouched(deeds: seq<Deed>, d: Deed, name: Name)
    requires d.name != name
    ensures Held(deeds + [d], name) == Held(deeds, name)
  {
    assert (deeds + [d])[..|deeds|] == deeds;
  }
}
