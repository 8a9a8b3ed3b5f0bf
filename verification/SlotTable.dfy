/** A fixed array of named slots, and the finite map of bounded size that it implements. */
module SlotTable {
  import opened Bytes

  type Name = seq<byte>

  datatype Entry = Entry(owner: nat, handle: nat)

  datatype Slot = Slot(inUse: bool, entry: Entry, name: Name)

  const EMPTY_SLOT := Slot(false, Entry(0, 0), [])

  predicate Holds(slot: Slot, name: Name) {
    slot.inUse && slot.name == name
  }

  /** No two slots in use carry the same name. */
  ghost predicate Unique(slots: seq<Slot>) {
    forall i, j | 0 <= i < j < |slots| && slots[i].inUse && slots[j].inUse :: slots[i].name != slots[j].name
  }

  /** The names in use and what they are bound to. */
  ghost function Directory(slots: seq<Slot>): map<Name, Entry> {
    if slots == [] then map[]
    else
      var last, rest := slots[|slots| - 1], Directory(slots[..|slots| - 1]);
      if last.inUse then rest[last.name := last.entry] else rest
  }

  lemma {:induction false} DirectoryAt(slots: seq<Slot>, i: nat)
    requires Unique(slots) && i < |slots| && slots[i].inUse
    ensures slots[i].name in Directory(slots) && Directory(slots)[slots[i].name] == slots[i].entry
    decreases |slots|
  {
    if i < |slots| - 1 { DirectoryAt(slots[..|slots| - 1], i); }
  }

  lemma {:induction false} DirectoryMember(slots: seq<Slot>, name: Name)
    requires Unique(slots)
    ensures name in Directory(slots) <==> exists i :: 0 <= i < |slots| && Holds(slots[i], name)
  {
    if i :| 0 <= i < |slots| && Holds(slots[i], name) {
      DirectoryAt(slots, i);
    } else if name in Directory(slots) {
      assert !Holds(slots[|slots| - 1], name);
      DirectoryMember(slots[..|slots| - 1], name);
    }
  }

  /** Binding a slot that is free, or already carries the name, binds the name and nothing else. */
  lemma Bind(slots: seq<Slot>, i: nat, name: Name, entry: Entry)
    requires Unique(slots) && i < |slots|
    requires Holds(slots[i], name) || (!slots[i].inUse && name !in Directory(slots))
    ensures Unique(slots[i := Slot(true, entry, name)])
    ensures Directory(slots[i := Slot(true, entry, name)]) == Directory(slots)[name := entry]
  {
    hide Directory;
    var slots' := slots[i := Slot(true, entry, name)];
    assert forall j | 0 <= j < |slots| && j != i && slots[j].inUse :: slots[j].name != name by {
      forall j | 0 <= j < |slots| && j != i && slots[j].inUse ensures slots[j].name != name { DirectoryAt(slots, j); }
    }
    var d, d' := Directory(slots), Directory(slots');
    forall n | n in d[name := entry]
      ensures n in d' && d'[n] == d[name := entry][n]
    {
      if n == name {
        DirectoryAt(slots', i);
      } else {
        DirectoryMember(slots, n);
        var j :| 0 <= j < |slots| && Holds(slots[j], n);
        DirectoryAt(slots, j);
        DirectoryAt(slots', j);
      }
    }
    forall n | n in d'
      ensures n in d[name := entry]
    {
      DirectoryMember(slots', n);
      var j :| 0 <= j < |slots'| && Holds(slots'[j], n);
      if j != i { DirectoryAt(slots, j); }
    }
  }

  /** Emptying the slot that carries a name unbinds that name and nothing else. */
  lemma Unbind(slots: seq<Slot>, i: nat)
    requires Unique(slots) && i < |slots| && slots[i].inUse
    ensures Unique(slots[i := EMPTY_SLOT])
    ensures Directory(slots[i := EMPTY_SLOT]) == Directory(slots) - {slots[i].name}
  {
    hide Directory;
    var slots' := slots[i := EMPTY_SLOT];
    var d, d' := Directory(slots), Directory(slots');
    forall n | n in d && n != slots[i].name
      ensures n in d' && d'[n] == d[n]
    {
      DirectoryMember(slots, n);
      var j :| 0 <= j < |slots| && Holds(slots[j], n);
      DirectoryAt(slots, j);
      DirectoryAt(slots', j);
    }
    forall n | n in d'
      ensures n in d && n != slots[i].name
    {
      DirectoryMember(slots', n);
      var j :| 0 <= j < |slots'| && Holds(slots'[j], n);
      DirectoryAt(slots, j);
    }
  }

  /** The directory is full exactly when every slot is in use. */
  lemma {:induction false} FullIff(slots: seq<Slot>)
    requires Unique(slots)
    ensures |Directory(slots)| <= |slots|
    ensures |Directory(slots)| == |slots| <==> forall i | 0 <= i < |slots| :: slots[i].inUse
  {
    if slots != [] {
      var rest := slots[..|slots| - 1];
      FullIff(rest);
      DirectoryMember(rest, slots[|rest|].name);
    }
  }

  /** First slot carrying the name, or the table's length. */
  method FindName(slots: array<Slot>, name: Name) returns (i: nat)
    ensures i <= slots.Length && forall j | 0 <= j < i :: !Holds(slots[j], name)
    ensures i < slots.Length ==> Holds(slots[i], name)
  {
    i := 0;
    while i < slots.Length
      invariant i <= slots.Length && forall j | 0 <= j < i :: !Holds(slots[j], name)
    {
      if Holds(slots[i], name) {
        return;
      }
      i := i + 1;
    }
  }

  /** First slot not in use, or the table's length. */
  method FindFree(slots: array<Slot>) returns (i: nat)
    ensures i <= slots.Length && forall j | 0 <= j < i :: slots[j].inUse
    ensures i < slots.Length ==> !slots[i].inUse
  {
    i := 0;
    while i < slots.Length
      invariant i <= slots.Length && forall j | 0 <= j < i :: slots[j].inUse
    {
      if !slots[i].inUse {
        return;
      }
      i := i + 1;
    }
  }

  // ----- the bounded finite map -----

  /** Registering in a map of bounded size: a known name is rebound, a new one needs room. */
  function Registered(dir: map<Name, Entry>, capacity: nat, name: Name, entry: Entry): map<Name, Entry> {
    if name in dir || |dir| < capacity then dir[name := entry] else dir
  }

  /** The two search loops shared by both registries' `register`: rebind in place, else take the first hole. */
  method Store(slots: array<Slot>, name: Name, entry: Entry) returns (ok: bool)
    requires Unique(slots[..])
    modifies slots
    ensures Unique(slots[..])
    ensures Directory(slots[..]) == Registered(old(Directory(slots[..])), slots.Length, name, entry)
    ensures ok <==> name in old(Directory(slots[..])) || |old(Directory(slots[..]))| < slots.Length
    ensures !ok ==> slots[..] == old(slots[..])
  {
    hide Directory, Unique;
    ghost var before := slots[..];
    DirectoryMember(before, name);
    FullIff(before);
    var i := FindName(slots, name);
    if i < slots.Length {
      Bind(before, i, name, entry);
      slots[i] := slots[i].(entry := entry);
      assert slots[..] == before[i := Slot(true, entry, name)];
      return true;
    }
    i := FindFree(slots);
    if i < slots.Length {
      Bind(before, i, name, entry);
      slots[i] := Slot(true, entry, name);
      assert slots[..] == before[i := Slot(true, entry, name)];
      return true;
    }
    return false;
  }
}
