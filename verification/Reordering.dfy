/** What becomes of the dependency graph when the services of a configuration are listed in another order. */
module Reordering {
  import opened Bytes
  import opened Services
  import opened Masks
  import opened BootConfig
  import opened Graph
  import opened Launch

  /** specs2 lists the same services, service i at position p[i]; masks are still to be resolved. */
  ghost predicate Permuted(specs: seq<ServiceSpec>, p: seq<nat>, specs2: seq<ServiceSpec>) {
    && IsRenaming(p) && |p| == |specs| == |specs2|
    && forall i | 0 <= i < |p| :: specs2[p[i]].(depMask := 0) == specs[i].(depMask := 0)
  }

  /** Resolving the names again gives every service the same dependencies, at their new positions. */
  ghost predicate SameGraph(specs: seq<ServiceSpec>, p: seq<nat>, specs2: seq<ServiceSpec>)
    requires Permuted(specs, p, specs2)
  {
    forall i | 0 <= i < |p| :: DepsOf(Resolved(specs2))[p[i]] == Image(p, DepsOf(Resolved(specs))[i])
  }

  ghost predicate NamesOne(specs: seq<ServiceSpec>, d: seq<byte>) {
    forall a, b | 0 <= a < b < |specs| && specs[a].name == d :: specs[b].name != d
  }

  /** No name that is depended on is carried by two services. */
  ghost predicate Unambiguous(specs: seq<ServiceSpec>) {
    forall i, d | 0 <= i < |specs| && d in specs[i].depNames :: NamesOne(specs, d)
  }

  lemma MovedTo(specs: seq<ServiceSpec>, p: seq<nat>, specs2: seq<ServiceSpec>, i: nat)
    requires Permuted(specs, p, specs2) && i < |specs|
    ensures |p| == |specs2| == |specs| && p[i] < |p|
    ensures specs2[p[i]].name == specs[i].name && specs2[p[i]].depNames == specs[i].depNames
  {
    var a, b := specs2[p[i]].(depMask := 0), specs[i].(depMask := 0);
    assert a == b && a.name == b.name && a.depNames == b.depNames;
  }

  lemma MovedFrom(specs: seq<ServiceSpec>, p: seq<nat>, specs2: seq<ServiceSpec>, k: nat) returns (i: nat)
    requires Permuted(specs, p, specs2) && k < |specs|
    ensures |p| == |specs2| == |specs| && i < |p| && p[i] == k
    ensures specs2[k].name == specs[i].name
  {
    assert k in p;
    i :| 0 <= i < |p| && p[i] == k;
    MovedTo(specs, p, specs2, i);
  }

  lemma LowestMoves(specs: seq<ServiceSpec>, p: seq<nat>, specs2: seq<ServiceSpec>, d: seq<byte>)
    requires Permuted(specs, p, specs2) && NamesOne(specs, d)
    ensures |p| == |specs2| == |specs|
    ensures var j := LowestIndex(specs, d); LowestIndex(specs2, d) == if j < |specs| then p[j] else |specs|
  {
    hide LowestIndex, Permuted;
    var j := LowestIndex(specs, d);
    if j < |specs| {
      MovedTo(specs, p, specs2, j);
      forall k | 0 <= k < p[j]
        ensures specs2[k].name != d
      {
        var i := MovedFrom(specs, p, specs2, k);
      }
      LowestIs(specs2, d, p[j]);
    } else {
      SameLength(specs, p, specs2);
      forall k | 0 <= k < |specs|
        ensures specs2[k].name != d
      {
        var i := MovedFrom(specs, p, specs2, k);
      }
      LowestIs(specs2, d, |specs|);
    }
  }

  lemma SameLength(specs: seq<ServiceSpec>, p: seq<nat>, specs2: seq<ServiceSpec>)
    requires Permuted(specs, p, specs2)
    ensures |p| == |specs2| == |specs|
  {}

  lemma MaskMoves(specs: seq<ServiceSpec>, p: seq<nat>, specs2: seq<ServiceSpec>, deps: seq<seq<byte>>)
    requires Permuted(specs, p, specs2) && forall d | d in deps :: NamesOne(specs, d)
    ensures Bits(MaskOf(specs2, deps)) == Image(p, Bits(MaskOf(specs, deps)))
  {
    hide MaskOf, Bits, LowestIndex, NamesOne, Bit, Pow2, Permuted;
    MaskDenotes(specs, deps);
    MaskDenotes(specs2, deps);
    var x, y := Bits(MaskOf(specs, deps)), Bits(MaskOf(specs2, deps));
    SameLength(specs, p, specs2);
    forall m: nat | m in y
      ensures m in Image(p, x)
    {
      var d :| d in deps && LowestIndex(specs2, d) == m;
      LowestMoves(specs, p, specs2, d);
      assert LowestIndex(specs, d) in x;
    }
    forall j: nat | j in x
      ensures j < |p| && p[j] in y
    {
      var d :| d in deps && LowestIndex(specs, d) == j;
      LowestMoves(specs, p, specs2, d);
      MovedTo(specs, p, specs2, j);
    }
  }

  lemma UnambiguousMoves(specs: seq<ServiceSpec>, p: seq<nat>, specs2: seq<ServiceSpec>)
    requires Permuted(specs, p, specs2) && Unambiguous(specs)
    ensures SameGraph(specs, p, specs2)
  {
    hide MaskOf, Bits, NamesOne, Image, Resolved, DepsOf;
    forall i | 0 <= i < |p|
      ensures DepsOf(Resolved(specs2))[p[i]] == Image(p, DepsOf(Resolved(specs))[i])
    {
      MovedTo(specs, p, specs2, i);
      MaskMoves(specs, p, specs2, specs[i].depNames);
    }
  }

  /** Exchange positions a and b. */
  function Swap(n: nat, a: nat, b: nat): (p: seq<nat>) {
    seq(n, k requires 0 <= k < n => if k == a then b else if k == b then a else k)
  }

  lemma SwapRenames(n: nat, a: nat, b: nat)
    requires a < n && b < n
    ensures IsRenaming(Swap(n, a, b))
  {
    var p := Swap(n, a, b);
    forall m: nat | m < n ensures m in p { assert p[p[m]] == m; }
  }

  /** If a name that service i depends on is carried by a first service a and by b, then listing a and b in each
      other's place makes i depend on another service. */
  lemma AmbiguousDoesNotMove(specs: seq<ServiceSpec>, i: nat, d: seq<byte>, a: nat, b: nat)
    requires i < |specs| && d in specs[i].depNames
    requires LowestIndex(specs, d) == a < b < |specs| && specs[b].name == d
    ensures exists p, specs2 :: Permuted(specs, p, specs2) && !SameGraph(specs, p, specs2)
  {
    hide MaskOf, Bits, LowestIndex, Resolved, DepsOf, Permuted, Swap;
    var p, specs2 := Swapped(specs, a, b);
    MovedTo(specs, p, specs2, i);
    LowestIs(specs2, d, a);
    MaskDenotes(specs, specs[i].depNames);
    MaskDenotes(specs2, specs[i].depNames);
    assert a in Bits(MaskOf(specs, specs[i].depNames));
    assert p[a] in Image(p, DepsOf(Resolved(specs))[i]);
    assert b !in DepsOf(Resolved(specs2))[p[i]];
    assert !SameGraph(specs, p, specs2);
  }

  lemma Swapped(specs: seq<ServiceSpec>, a: nat, b: nat) returns (p: seq<nat>, specs2: seq<ServiceSpec>)
    requires a < b < |specs|
    ensures Permuted(specs, p, specs2) && |specs| == |specs2| == |p|
    ensures p[a] == b && specs2[a] == specs[b] && specs2[b] == specs[a]
    ensures forall k | 0 <= k < |specs| && k != a && k != b :: specs2[k] == specs[k]
  {
    p := Swap(|specs|, a, b);
    specs2 := seq(|specs|, k requires 0 <= k < |specs| => specs[p[k]]);
    SwapRenames(|specs|, a, b);
  }

  /** The order in which services are listed is irrelevant to their dependencies exactly when no name that is depended
      on is carried by two services. */
  lemma OrderIrrelevantIff(specs: seq<ServiceSpec>)
    ensures Unambiguous(specs) <==>
            forall p, specs2 | Permuted(specs, p, specs2) :: SameGraph(specs, p, specs2)
  {
    hide Permuted, SameGraph, LowestIndex;
    if Unambiguous(specs) {
      forall p, specs2 | Permuted(specs, p, specs2)
        ensures SameGraph(specs, p, specs2)
      {
        UnambiguousMoves(specs, p, specs2);
      }
    } else {
      var i, d :| 0 <= i < |specs| && d in specs[i].depNames && !NamesOne(specs, d);
      var x, b :| 0 <= x < b < |specs| && specs[x].name == d && specs[b].name == d;
      var a := LowestIndex(specs, d);
      assert a <= x;
      AmbiguousDoesNotMove(specs, i, d, a, b);
    }
  }

  /** Two launches that list the same services in different orders, with the same fixed outcome for each service, start
      the same services. */
  lemma LaunchOrderIrrelevant(specs: seq<ServiceSpec>, p: seq<nat>, specs2: seq<ServiceSpec>,
                              spawn: (nat, nat) -> bool, spawn2: (nat, nat) -> bool, ok: nat -> bool, ok2: nat -> bool,
                              log: seq<Attempt>, log2: seq<Attempt>, starts: seq<nat>, starts2: seq<nat>)
    requires Permuted(specs, p, specs2) && Unambiguous(specs)
    requires forall i | 0 <= i < |p| :: ok2(p[i]) == ok(i)
    requires IsLaunch(DepsOf(Resolved(specs)), spawn, ok, log, starts)
    requires IsLaunch(DepsOf(Resolved(specs2)), spawn2, ok2, log2, starts2)
    ensures Started(log2) == Image(p, Started(log))
  {
    hide Orderly, Answered, InPasses, Exhausted, IsLeast, Resolved, Unambiguous, Image, Bits, MaskOf, Started;
    var deps, deps2 := DepsOf(Resolved(specs)), DepsOf(Resolved(specs2));
    UnambiguousMoves(specs, p, specs2);
    ResolvedInRange(specs);
    LaunchReachesLeast(deps, spawn, ok, log, starts);
    LaunchReachesLeast(deps2, spawn2, ok2, log2, starts2);
    LeastReordered(deps, ok, Started(log), p, deps2, ok2, Started(log2));
  }

  /** What `launch_graph` guarantees, for spawns of which each service's always have the same outcome. */
  ghost predicate IsLaunch(deps: Deps, spawn: (nat, nat) -> bool, ok: nat -> bool, log: seq<Attempt>, starts: seq<nat>) {
    && Orderly(deps, log) && Answered(spawn, log)
    && InPasses(log, starts) && Exhausted(deps, log, LastPass(log, starts))
    && forall k, i :: spawn(k, i) == ok(i)
  }

  lemma ResolvedInRange(specs: seq<ServiceSpec>)
    ensures InRange(DepsOf(Resolved(specs)))
  {
    hide Bits, Bit, MaskOf, LowestIndex, Pow2;
    forall i | 0 <= i < |specs|
      ensures forall d | d in Bits(Resolved(specs)[i].depMask) :: d < |specs|
    {
      MaskDenotes(specs, specs[i].depNames);
    }
  }
}
