/** `launch_graph`: repeated passes over the service table, starting whatever has its
    dependencies up, until a pass makes no progress or everything is up. */
module Launch {
  import opened Masks
  import opened Services
  import opened Graph

  /** The dependency sets that the masks of a service table denote. */
  ghost function DepsOf(specs: seq<ServiceSpec>): (deps: Deps)
    ensures |deps| == |specs| && forall i | 0 <= i < |specs| :: deps[i] == Bits(specs[i].depMask)
  {
    seq(|specs|, i requires 0 <= i < |specs| => Bits(specs[i].depMask))
  }

  /** What a launch leaves in the runtime table: only `attempted` and `started` flags are raised. */
  ghost function Launched(rt: ServiceRuntime, i: nat, log: seq<Attempt>): ServiceRuntime {
    var started := Attempt(i, true) in log;
    rt.(started := rt.started || started, attempted := rt.attempted || started || Attempt(i, false) in log)
  }

  ghost predicate TableIs(now: seq<ServiceRuntime>, before: seq<ServiceRuntime>, log: seq<Attempt>) {
    |now| == |before| && forall i | 0 <= i < |now| :: now[i] == Launched(before[i], i, log)
  }

  /** The k-th spawn request of a launch got the oracle's k-th answer. */
  ghost predicate Answered(spawn: (nat, nat) -> bool, log: seq<Attempt>) {
    forall k | 0 <= k < |log| :: log[k].ok == spawn(k, log[k].service)
  }

  lemma StartedExtend(log: seq<Attempt>, a: Attempt)
    ensures Started(log + [a]) == Started(log) + if a.ok then {a.service} else {}
  {
    assert forall x :: x in log + [a] <==> x in log || x == a;
  }

  lemma OrderlyExtend(deps: Deps, log: seq<Attempt>, a: Attempt)
    requires Orderly(deps, log) && a.service < |deps|
    requires deps[a.service] <= Started(log) && a.service !in Started(log)
    ensures Orderly(deps, log + [a])
  {
    var log' := log + [a];
    forall k | 0 <= k < |log'|
      ensures OrderlyAt(deps, log', k)
    {
      assert log'[..k] == log[..k];
      if k < |log| { assert OrderlyAt(deps, log, k); } else { assert log[..k] == log; }
    }
  }

  /** The indices below n. */
  ghost function Below(n: nat): (s: set<nat>)
    ensures |s| == n && forall j: nat :: j in s <==> j < n
  {
    if n == 0 then {} else Below(n - 1) + {n - 1}
  }

  lemma {:induction false} SubsetSize(a: set<nat>, b: set<nat>)
    requires a <= b
    ensures |a| <= |b| && (|a| == |b| ==> a == b)
  {
    assert b == a + (b - a) && |b| == |a| + |b - a|;
  }

  lemma StartedBelow(deps: Deps, log: seq<Attempt>)
    requires Orderly(deps, log)
    ensures Started(log) <= Below(|deps|) && |Started(log)| <= |deps|
  {
    forall i | i in Started(log)
      ensures i in Below(|deps|)
    {
      var k :| 0 <= k < |log| && log[k] == Attempt(i, true);
      assert OrderlyAt(deps, log, k);
    }
    SubsetSize(Started(log), Below(|deps|));
  }

  /** 1 + 2 + ... + n */
  ghost function Triangle(n: nat): nat {
    if n == 0 then 0 else n + Triangle(n - 1)
  }

  lemma {:induction false} TriangleClosed(n: nat)
    ensures 2 * Triangle(n) == n * (n + 1)
  {
    if n > 0 {
      TriangleClosed(n - 1);
      assert n * (n + 1) == (n - 1) * n + 2 * n;
    }
  }

  lemma {:induction false} TriangleStep(n: nat, m: nat)
    requires m <= n
    ensures m < n ==> n + Triangle(m) <= Triangle(n)
    ensures n <= Triangle(n)
    decreases n - m
  {
    if m < n { TriangleStep(n, m + 1); }
    TriangleClosed(n);
  }

  /** What a launch has done so far: its log, the mask of started services, and the runtime table agree. */
  ghost predicate Consistent(deps: Deps, spawn: (nat, nat) -> bool, before: seq<ServiceRuntime>,
                             log: seq<Attempt>, mask: nat, now: seq<ServiceRuntime>)
  {
    && mask < Pow2(64) && Bits(mask) == Started(log)
    && Orderly(deps, log) && Answered(spawn, log)
    && TableIs(now, before, log)
  }

  /** One call of `spawn_service` keeps log, mask and table in agreement. */
  lemma ConsistentStep(deps: Deps, spawn: (nat, nat) -> bool, before: seq<ServiceRuntime>,
                       log: seq<Attempt>, mask: nat, now: seq<ServiceRuntime>, i: nat)
    requires Consistent(deps, spawn, before, log, mask, now)
    requires i < |deps| <= |now| && i < MAX_SERVICES && deps[i] <= Started(log) && i !in Started(log)
    ensures var ok := spawn(|log|, i);
            Consistent(deps, spawn, before, log + [Attempt(i, ok)],
                       if ok then Or(mask, Pow2(i)) else mask,
                       now[i := now[i].(attempted := true, started := now[i].started || ok)])
  {
    hide Orderly, Started, TableIs, Or, Pow2, Bit, Bits;
    var a := Attempt(i, spawn(|log|, i));
    OrderlyExtend(deps, log, a);
    StartedExtend(log, a);
    SetBit(64, mask, i);
    TableExtend(before, now, log, a);
  }

  lemma TableExtend(before: seq<ServiceRuntime>, now: seq<ServiceRuntime>, log: seq<Attempt>, a: Attempt)
    requires TableIs(now, before, log) && a.service < |now|
    ensures var rt := now[a.service];
            TableIs(now[a.service := rt.(attempted := true, started := rt.started || a.ok)], before, log + [a])
  {
    assert forall x :: x in log + [a] <==> x in log || x == a;
  }

  lemma ConsistentIsOrderly(deps: Deps, spawn: (nat, nat) -> bool, before: seq<ServiceRuntime>,
                            log: seq<Attempt>, mask: nat, now: seq<ServiceRuntime>)
    requires Consistent(deps, spawn, before, log, mask, now)
    ensures Orderly(deps, log)
  {}

  /** The launcher's two mask tests, in terms of the services that are up. */
  lemma MaskTests(deps: Deps, spawn: (nat, nat) -> bool, before: seq<ServiceRuntime>,
                  log: seq<Attempt>, mask: nat, now: seq<ServiceRuntime>, i: nat, depMask: nat)
    requires Consistent(deps, spawn, before, log, mask, now)
    requires i < |deps| && deps[i] == Bits(depMask) && depMask < Pow2(64)
    ensures mask < Pow2(64)
    ensures And(mask, Pow2(i)) != 0 <==> i in Started(log)
    ensures And(depMask, Not(64, mask)) == 0 <==> deps[i] <= Started(log)
  {
    TestBit(mask, i);
    SubsetTest(64, depMask, mask);
  }

  /** A pass that starts nothing leaves nothing startable, one attempt at a time. */
  ghost predicate PassedOver(deps: Deps, up: set<nat>, tail: seq<Attempt>, i: nat) {
    forall j | 0 <= j < i && j < |deps| && j !in up && deps[j] <= up :: Attempt(j, false) in tail
  }

  /** How many services are up. */
  ghost function NumUp(log: seq<Attempt>): nat {
    |Started(log)|
  }

  /** Attempts from..to-1 are in table order, so no service is attempted twice among them. */
  ghost predicate Ascending(log: seq<Attempt>, from: nat, to: nat)
    requires to <= |log|
  {
    forall a, b | from <= a < b < to :: log[a].service < log[b].service
  }

  ghost predicate Succeeds(log: seq<Attempt>, from: nat, to: nat)
    requires to <= |log|
  {
    exists k :: from <= k < to && log[k].ok
  }

  /** Pass p goes through the table once and, unless it is the last, starts something. */
  ghost predicate PassAt(log: seq<Attempt>, starts: seq<nat>, p: nat)
    requires p < |starts|
  {
    var to := if p + 1 < |starts| then starts[p + 1] else |log|;
    && starts[p] <= to <= |log| && Ascending(log, starts[p], to)
    && (p + 1 < |starts| ==> Succeeds(log, starts[p], to))
  }

  /** `starts` cuts the log into passes. */
  ghost predicate InPasses(log: seq<Attempt>, starts: seq<nat>) {
    && |starts| > 0 && starts[0] == 0
    && forall p | 0 <= p < |starts| :: PassAt(log, starts, p)
  }

  lemma InPassesExtend(log: seq<Attempt>, starts: seq<nat>, log': seq<Attempt>)
    requires log <= log' && Ascending(log', |log|, |log'|)
    requires starts == [] ==> log == []
    requires starts != [] ==> InPasses(log, starts) && Succeeds(log, starts[|starts| - 1], |log|)
    ensures InPasses(log', starts + [|log|])
  {
    var starts' := starts + [|log|];
    forall p | 0 <= p < |starts'|
      ensures PassAt(log', starts', p)
    {
      if p < |starts| {
        assert PassAt(log, starts, p);
        var k :| starts[p] <= k < starts'[p + 1] && log[k].ok;
        assert log'[k].ok;
      }
    }
  }

  /** What one pass achieves: attempts only services that were down, and without progress exhausts the table. */
  ghost predicate PassDone(deps: Deps, log: seq<Attempt>, log': seq<Attempt>, progress: bool) {
    && log <= log'
    && |log'| - |log| <= |deps| - NumUp(log)
    && NumUp(log) <= NumUp(log') <= |deps|
    && (progress <==> NumUp(log) < NumUp(log'))
    && Ascending(log', |log|, |log'|) && (progress <==> Succeeds(log', |log|, |log'|))
    && (!progress ==> Exhausted(deps, log', log'[|log|..]))
  }

  ghost function Tried(log: seq<Attempt>): set<nat> {
    set a | a in log :: a.service
  }

  /** A pass that has considered services 0..i-1. */
  ghost predicate PassSoFar(deps: Deps, log: seq<Attempt>, log': seq<Attempt>, progress: bool, i: nat) {
    && log <= log' && i <= |deps|
    && var tried := Tried(log'[|log|..]);
    && tried <= Below(i) && tried !! Started(log) && |tried| == |log'| - |log|
    && Started(log) <= Started(log') && (progress <==> Started(log) != Started(log'))
    && (!progress ==> PassedOver(deps, Started(log), log'[|log|..], i))
    && InOrder(log', |log|, progress, i)
  }

  /** The attempts of the pass so far are in table order, all below i, and `progress` tells whether one succeeded. */
  ghost predicate InOrder(log: seq<Attempt>, from: nat, progress: bool, i: nat) {
    && Ascending(log, from, |log|) && (forall k | from <= k < |log| :: log[k].service < i)
    && (progress <==> Succeeds(log, from, |log|))
  }

  lemma InOrderTry(log: seq<Attempt>, from: nat, progress: bool, a: Attempt)
    requires from <= |log| && InOrder(log, from, progress, a.service)
    ensures InOrder(log + [a], from, progress || a.ok, a.service + 1)
  {
    var log' := log + [a];
    if progress {
      var k :| from <= k < |log| && log[k].ok;
      assert log'[k].ok;
    }
    if a.ok { assert log'[|log|].ok; }
    if k :| from <= k < |log'| && log'[k].ok {
      if k < |log| { assert log[k].ok; }
    }
  }

  lemma PassBegin(deps: Deps, log: seq<Attempt>)
    ensures PassSoFar(deps, log, log, false, 0)
  {
    assert Tried([]) == {} && log[|log|..] == [];
  }

  lemma PassSkip(deps: Deps, log: seq<Attempt>, log': seq<Attempt>, progress: bool, i: nat)
    requires PassSoFar(deps, log, log', progress, i) && i < |deps|
    requires i in Started(log') || !(deps[i] <= Started(log'))
    ensures PassSoFar(deps, log, log', progress, i + 1)
  {}

  lemma PassTry(deps: Deps, log: seq<Attempt>, log': seq<Attempt>, progress: bool, a: Attempt)
    requires PassSoFar(deps, log, log', progress, a.service) && a.service < |deps|
    requires a.service !in Started(log')
    ensures PassSoFar(deps, log, log' + [a], progress || a.ok, a.service + 1)
  {
    hide Tried, Started, Below, InOrder;
    var tail := log'[|log|..];
    assert (log' + [a])[|log|..] == tail + [a];
    StartedExtend(log', a);
    TriedExtend(tail, a);
    InOrderTry(log', |log|, progress, a);
  }

  lemma TriedExtend(tail: seq<Attempt>, a: Attempt)
    requires Tried(tail) <= Below(a.service)
    ensures Tried(tail + [a]) == Tried(tail) + {a.service} && Tried(tail + [a]) <= Below(a.service + 1)
    ensures |Tried(tail + [a])| == |Tried(tail)| + 1
  {
    assert forall x :: x in tail + [a] <==> x in tail || x == a;
    forall i | i in Tried(tail) + {a.service}
      ensures i in Tried(tail + [a])
    {
      if i in Tried(tail) {
        var x :| x in tail && x.service == i;
        assert x in tail + [a];
      } else {
        assert a in tail + [a];
      }
    }
  }

  lemma PassAccounting(deps: Deps, log: seq<Attempt>, log': seq<Attempt>, progress: bool)
    requires Orderly(deps, log) && Orderly(deps, log')
    requires PassSoFar(deps, log, log', progress, |deps|)
    ensures PassDone(deps, log, log', progress)
  {
    StartedBelow(deps, log);
    StartedBelow(deps, log');
    SubsetSize(Started(log), Started(log'));
    SubsetSize(Tried(log'[|log|..]) + Started(log), Below(|deps|));
  }

  /** The launcher's stop test `started_mask == all_mask` says that everything is up. */
  lemma AllUp(deps: Deps, log: seq<Attempt>, mask: nat, tail: seq<Attempt>)
    requires Orderly(deps, log) && Bits(mask) == Started(log)
    ensures mask == Pow2(|deps|) - 1 <==> NumUp(log) == |deps|
    ensures NumUp(log) == |deps| ==> Exhausted(deps, log, tail)
  {
    var full := Pow2(|deps|) - 1;
    FullMask(|deps|, full);
    assert Bits(full) == Below(|deps|);
    StartedBelow(deps, log);
    SubsetSize(Started(log), Below(|deps|));
    if Bits(mask) == Bits(full) {
      BitsInjective(mask, full);
    }
  }

  /** One pass over the table. `calls` counts the calls of `spawn_service` made so far. */
  method LaunchPass(specs: array<ServiceSpec>, count: nat, runtime: array<ServiceRuntime>,
                    spawn: (nat, nat) -> bool, mask: nat, calls: nat,
                    ghost before: seq<ServiceRuntime>, ghost log: seq<Attempt>)
    returns (mask': nat, calls': nat, progress: bool, ghost log': seq<Attempt>)
    requires specs.Length == runtime.Length == MAX_SERVICES && count <= MAX_SERVICES
    requires forall i | 0 <= i < count :: specs[i].depMask < Pow2(32)
    requires calls == |log| && Consistent(DepsOf(specs[..count]), spawn, before, log, mask, runtime[..])
    modifies runtime
    ensures calls' == |log'| && Consistent(DepsOf(specs[..count]), spawn, before, log', mask', runtime[..])
    ensures PassDone(DepsOf(specs[..count]), log, log', progress)
  {
    hide *;
    ghost var deps := DepsOf(specs[..count]);
    mask', calls', progress, log' := mask, calls, false, log;
    Pow2Monotone(32, 64);
    PassBegin(deps, log);
    ConsistentIsOrderly(deps, spawn, before, log, mask, runtime[..]);
    var i := 0;
    while i < count
      invariant 0 <= i <= count && calls' == |log'|
      invariant Consistent(deps, spawn, before, log', mask', runtime[..])
      invariant PassSoFar(deps, log, log', progress, i)
    {
      ghost var table := runtime[..];
      MaskTests(deps, spawn, before, log', mask', table, i, specs[i].depMask);
      if And(mask', Pow2(i)) != 0 {
        PassSkip(deps, log, log', progress, i);
        i := i + 1;
        continue;
      }
      if And(specs[i].depMask, Not(64, mask')) != 0 {
        PassSkip(deps, log, log', progress, i);
        i := i + 1;
        continue;
      }
      ConsistentStep(deps, spawn, before, log', mask', table, i);
      runtime[i] := runtime[i].(attempted := true);
      var ok := spawn(calls', i);
      PassTry(deps, log, log', progress, Attempt(i, ok));
      if ok {
        runtime[i] := runtime[i].(started := true);
        mask' := Or(mask', Pow2(i));
        progress := true;
      }
      assert runtime[..] == table[i := table[i].(attempted := true, started := table[i].started || ok)];
      log', calls' := log' + [Attempt(i, ok)], calls' + 1;
      i := i + 1;
    }
    ConsistentIsOrderly(deps, spawn, before, log', mask', runtime[..]);
    PassAccounting(deps, log, log', progress);
  }

  /** The attempts of the last pass. */
  ghost function LastPass(log: seq<Attempt>, starts: seq<nat>): seq<Attempt>
    requires InPasses(log, starts)
  {
    assert PassAt(log, starts, |starts| - 1);
    log[starts[|starts| - 1]..]
  }

  lemma LaunchBegin(deps: Deps, spawn: (nat, nat) -> bool, before: seq<ServiceRuntime>)
    ensures NumUp([]) == 0 && Consistent(deps, spawn, before, [], 0, before)
  {
    EmptyMask(0);
    assert Started([]) == {};
  }

  /** `specs` and `runtime` are the fixed tables of 16 entries; `spawn(k, i)` is the outcome of the
      k-th call of `spawn_service` if that call is for service i. */
  method LaunchGraph(specs: array<ServiceSpec>, count: nat, runtime: array<ServiceRuntime>, spawn: (nat, nat) -> bool)
    returns (ghost log: seq<Attempt>, ghost starts: seq<nat>)
    requires specs.Length == runtime.Length == MAX_SERVICES && count <= MAX_SERVICES
    requires forall i | 0 <= i < count :: specs[i].depMask < Pow2(32)
    modifies runtime
    ensures TableIs(runtime[..], old(runtime[..]), log) && Answered(spawn, log)
    ensures Orderly(DepsOf(specs[..count]), log)
    ensures InPasses(log, starts) && Exhausted(DepsOf(specs[..count]), log, LastPass(log, starts))
    ensures |starts| <= count || |starts| == 1
    ensures |log| <= Triangle(count)
  {
    hide Bit, Bits, Pow2, Started, NumUp, Orderly, Answered, TableIs, Exhausted, Triangle, InPasses, Ascending, Succeeds;
    var allMask := if count == 32 then USIZE_MAX else Pow2(count) - 1;
    var startedMask, calls := 0, 0;
    ghost var deps := DepsOf(specs[..count]);
    ghost var initial := runtime[..];
    log, starts := [], [];
    LaunchBegin(deps, spawn, initial);
    while true
      invariant calls == |log| && Consistent(deps, spawn, initial, log, startedMask, runtime[..])
      invariant |starts| <= NumUp(log) <= count && (starts == [] || NumUp(log) < count)
      invariant |log| + Triangle(count - NumUp(log)) <= Triangle(count)
      invariant starts == [] ==> log == []
      invariant starts != [] ==> InPasses(log, starts) && Succeeds(log, starts[|starts| - 1], |log|)
      decreases count - NumUp(log)
    {
      var progress;
      ghost var before := log;
      startedMask, calls, progress, log := LaunchPass(specs, count, runtime, spawn, startedMask, calls, initial, log);
      TriangleStep(count - NumUp(before), count - NumUp(log));
      AllUp(deps, log, startedMask, log[|before|..]);
      InPassesExtend(before, starts, log);
      starts := starts + [|before|];
      if startedMask == allMask || !progress {
        break;
      }
    }
  }

  /** What a finished launch means when every service's spawn always has the same outcome: exactly the least
      set closed under "spawns and has its dependencies" is up, and that is everything iff nothing blocks it. */
  lemma LaunchReachesLeast(deps: Deps, spawn: (nat, nat) -> bool, ok: nat -> bool, log: seq<Attempt>, starts: seq<nat>)
    requires Orderly(deps, log) && Answered(spawn, log)
    requires InPasses(log, starts) && Exhausted(deps, log, LastPass(log, starts))
    requires forall k, i :: spawn(k, i) == ok(i)
    ensures IsLeast(deps, ok, Started(log))
    ensures (forall i | 0 <= i < |deps| :: i in Started(log)) <==>
            InRange(deps) && Acyclic(deps) && forall i | 0 <= i < |deps| :: ok(i)
  {
    ExhaustedIsLeast(deps, ok, log, LastPass(log, starts));
    AllStartIff(deps, ok, log, LastPass(log, starts));
  }
}
