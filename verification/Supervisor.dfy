/** The tick-driven supervisor: retries services that are down, probes those that are up, and
    restarts a service whose probes keep failing. `spawn(t, i)` and `probe(t, i)` are the outcomes
    of the one spawn or probe that service i can get at tick t. */
module Supervisor {
  import opened Masks
  import opened Services

  const INTERVAL: nat := 10

  datatype Event = Spawned(tick: nat, ok: bool) | Probed(tick: nat, ok: bool) | Restarted(tick: nat)

  function SaturatingAdd(max: nat, a: nat, b: nat): nat {
    if a + b > max then max else a + b
  }

  /** One service's share of `supervisor_tick`: its new runtime entry and what happened to it. */
  function Step(spec: ServiceSpec, rt: ServiceRuntime, tick: nat, depsUp: bool, spawnOk: bool, probeOk: bool)
    : (ServiceRuntime, seq<Event>)
  {
    if !rt.started then
      if (spec.policy == OneShot && rt.attempted) || !depsUp || tick < rt.nextRetry then (rt, [])
      else (rt.(attempted := true, started := spawnOk), [Spawned(tick, spawnOk)])
    else if spec.policy == OneShot || spec.probe == NoProbe || tick < rt.nextProbe then (rt, [])
    else
      var rt := rt.(nextProbe := SaturatingAdd(USIZE_MAX, tick, INTERVAL));
      if probeOk then (rt.(healthyOnce := true, failStreak := 0), [Probed(tick, true)])
      else
        var streak := SaturatingAdd(U8_MAX, rt.failStreak, 1);
        if streak >= 3 && (spec.policy == Always || rt.healthyOnce) then
          (rt.(started := false, healthyOnce := false, failStreak := 0, nextRetry := tick + INTERVAL),
           [Probed(tick, false), Restarted(tick)])
        else (rt.(failStreak := streak), [Probed(tick, false)])
  }

  /** The mask of started services that a tick takes as its snapshot. */
  ghost predicate IsSnapshot(mask: nat, runtime: seq<ServiceRuntime>) {
    mask < Pow2(32) && forall i: nat :: i in Bits(mask) <==> i < |runtime| && runtime[i].started
  }

  ghost predicate DepsUp(spec: ServiceSpec, runtime: seq<ServiceRuntime>) {
    forall d: nat | d in Bits(spec.depMask) :: d < |runtime| && runtime[d].started
  }

  /** Service i's step at a tick whose snapshot is that of `before`. */
  ghost function StepAt(spec: ServiceSpec, rt: ServiceRuntime, before: seq<ServiceRuntime>, tick: nat,
                        spawn: (nat, nat) -> bool, probe: (nat, nat) -> bool, i: nat): (ServiceRuntime, seq<Event>)
  {
    Step(spec, rt, tick, DepsUp(spec, before), spawn(tick, i), probe(tick, i))
  }

  /** The first loop of `supervisor_tick`. */
  method TakeSnapshot(count: nat, runtime: array<ServiceRuntime>) returns (mask: nat)
    requires count <= runtime.Length <= 32
    ensures IsSnapshot(mask, runtime[..count])
  {
    hide Bit, Bits, Or, Pow2;
    mask := 0;
    SnapshotBegin();
    var i := 0;
    while i < count
      invariant 0 <= i <= count && IsSnapshot(mask, runtime[..i])
    {
      if runtime[i].started {
        SetBit(32, mask, i);
        mask := Or(mask, Pow2(i));
      }
      i := i + 1;
    }
  }

  lemma SnapshotBegin()
    ensures IsSnapshot(0, [])
  {
    EmptyMask(0);
  }

  lemma SnapshotTest(spec: ServiceSpec, mask: nat, runtime: seq<ServiceRuntime>)
    requires spec.depMask < Pow2(32) && IsSnapshot(mask, runtime)
    ensures And(spec.depMask, Not(32, mask)) == 0 <==> DepsUp(spec, runtime)
  {
    SubsetTest(32, spec.depMask, mask);
  }

  /** One round of the second loop of `supervisor_tick`, against the snapshot `startedMask`. */
  method StepService(tick: nat, specs: array<ServiceSpec>, i: nat, runtime: array<ServiceRuntime>, startedMask: nat,
                     spawn: (nat, nat) -> bool, probe: (nat, nat) -> bool, ghost before: seq<ServiceRuntime>)
    returns (events: seq<Event>)
    requires i < specs.Length && i < runtime.Length
    requires specs[i].depMask < Pow2(32) && IsSnapshot(startedMask, before)
    requires tick + INTERVAL <= USIZE_MAX
    modifies runtime
    ensures (runtime[i], events) == StepAt(specs[i], old(runtime[i]), before, tick, spawn, probe, i)
    ensures forall j | 0 <= j < runtime.Length && j != i :: runtime[j] == old(runtime[j])
  {
    hide Bit, And, Not, Pow2, DepsUp;
    events := [];
    if !runtime[i].started {
      if specs[i].policy == OneShot && runtime[i].attempted {
        return;
      }
      SnapshotTest(specs[i], startedMask, before);
      if And(specs[i].depMask, Not(32, startedMask)) == 0 && tick >= runtime[i].nextRetry {
        runtime[i] := runtime[i].(attempted := true);
        var ok := spawn(tick, i);
        if ok {
          runtime[i] := runtime[i].(started := true);
        }
        events := [Spawned(tick, ok)];
      }
      return;
    }
    if specs[i].policy == OneShot || specs[i].probe == NoProbe {
      return;
    }
    if tick < runtime[i].nextProbe {
      return;
    }
    runtime[i] := runtime[i].(nextProbe := SaturatingAdd(USIZE_MAX, tick, INTERVAL));
    var ok := probe(tick, i);
    events := [Probed(tick, ok)];
    if !ok {
      runtime[i] := runtime[i].(failStreak := SaturatingAdd(U8_MAX, runtime[i].failStreak, 1));
      var restart := match specs[i].policy
        case Always => runtime[i].failStreak >= 3
        case OnFailure => runtime[i].healthyOnce && runtime[i].failStreak >= 3
        case OneShot => false;
      if restart {
        runtime[i] := runtime[i].(started := false);
        runtime[i] := runtime[i].(healthyOnce := false);
        runtime[i] := runtime[i].(failStreak := 0);
        runtime[i] := runtime[i].(nextProbe := SaturatingAdd(USIZE_MAX, tick, INTERVAL));
        runtime[i] := runtime[i].(nextRetry := tick + 10);
        events := [Probed(tick, ok), Restarted(tick)];
      }
    } else {
      runtime[i] := runtime[i].(healthyOnce := true);
      runtime[i] := runtime[i].(failStreak := 0);
    }
  }

  /** `supervisor_tick`: every service in the table takes its step against one snapshot. */
  method SupervisorTick(tick: nat, specs: array<ServiceSpec>, count: nat, runtime: array<ServiceRuntime>,
                        spawn: (nat, nat) -> bool, probe: (nat, nat) -> bool)
    returns (events: seq<seq<Event>>)
    requires specs.Length == runtime.Length == MAX_SERVICES && count <= MAX_SERVICES
    requires forall i | 0 <= i < count :: specs[i].depMask < Pow2(32)
    requires tick + INTERVAL <= USIZE_MAX
    modifies runtime
    ensures |events| == count
    ensures forall i | 0 <= i < count ::
              (runtime[i], events[i]) == StepAt(specs[i], old(runtime[i]), old(runtime[..count]), tick, spawn, probe, i)
    ensures forall i | count <= i < MAX_SERVICES :: runtime[i] == old(runtime[i])
  {
    hide StepAt, IsSnapshot, Pow2, Stepped;
    ghost var before := runtime[..];
    var startedMask := TakeSnapshot(count, runtime);
    events := [];
    var i := 0;
    assert before[..count] == runtime[..count];
    SteppedNone(specs[..], before, count, tick, spawn, probe);
    while i < count
      invariant 0 <= i <= count && Stepped(specs[..], before, count, runtime[..], events, tick, spawn, probe, i)
    {
      ghost var now := runtime[..];
      SteppedNext(specs[..], before, count, now, events, tick, spawn, probe, i);
      var happened := StepService(tick, specs, i, runtime, startedMask, spawn, probe, before[..count]);
      assert runtime[..] == now[i := runtime[i]];
      i, events := i + 1, events + [happened];
    }
    SteppedAll(specs[..], before, count, runtime[..], events, tick, spawn, probe);
  }

  /** The first i services have taken their step, the others have not. */
  ghost predicate Stepped(specs: seq<ServiceSpec>, before: seq<ServiceRuntime>, count: nat, now: seq<ServiceRuntime>,
                          events: seq<seq<Event>>, tick: nat, spawn: (nat, nat) -> bool, probe: (nat, nat) -> bool, i: nat)
    requires i <= count <= |specs| == |before|
  {
    && |now| == |before| && |events| == i
    && (forall j | 0 <= j < i ::
          (now[j], events[j]) == StepAt(specs[j], before[j], before[..count], tick, spawn, probe, j))
    && (forall j | i <= j < |now| :: now[j] == before[j])
  }

  lemma SteppedNone(specs: seq<ServiceSpec>, before: seq<ServiceRuntime>, count: nat,
                    tick: nat, spawn: (nat, nat) -> bool, probe: (nat, nat) -> bool)
    requires count <= |specs| == |before|
    ensures Stepped(specs, before, count, before, [], tick, spawn, probe, 0)
  {}

  lemma SteppedNext(specs: seq<ServiceSpec>, before: seq<ServiceRuntime>, count: nat, now: seq<ServiceRuntime>,
                    events: seq<seq<Event>>, tick: nat, spawn: (nat, nat) -> bool, probe: (nat, nat) -> bool, i: nat)
    requires i < count <= |specs| == |before| && Stepped(specs, before, count, now, events, tick, spawn, probe, i)
    ensures |now| == |before| && now[i] == before[i]
    ensures var (rt, es) := StepAt(specs[i], before[i], before[..count], tick, spawn, probe, i);
            Stepped(specs, before, count, now[i := rt], events + [es], tick, spawn, probe, i + 1)
  {
    hide StepAt;
  }

  lemma SteppedAll(specs: seq<ServiceSpec>, before: seq<ServiceRuntime>, count: nat, now: seq<ServiceRuntime>,
                   events: seq<seq<Event>>, tick: nat, spawn: (nat, nat) -> bool, probe: (nat, nat) -> bool)
    requires count <= |specs| == |before| && Stepped(specs, before, count, now, events, tick, spawn, probe, count)
    ensures |now| == |before| && |events| == count
    ensures forall j | 0 <= j < count ::
              (now[j], events[j]) == StepAt(specs[j], before[j], before[..count], tick, spawn, probe, j)
    ensures forall j | count <= j < |now| :: now[j] == before[j]
  {}

  // ----- whole runs -----

  /** Failed probes since the last success or restart. */
  ghost function Fails(h: seq<Event>): nat {
    if h == [] then 0
    else
      var rest := h[..|h| - 1];
      match h[|h| - 1]
      case Spawned(_, _) => Fails(rest)
      case Probed(_, ok) => if ok then 0 else Fails(rest) + 1
      case Restarted(_) => 0
  }

  /** Some probe succeeded since the last restart. */
  ghost predicate Healthy(h: seq<Event>) {
    h != [] &&
    match h[|h| - 1]
    case Spawned(_, _) => Healthy(h[..|h| - 1])
    case Probed(_, ok) => ok || Healthy(h[..|h| - 1])
    case Restarted(_) => false
  }

  ghost function Probes(h: seq<Event>): nat {
    if h == [] then 0 else Probes(h[..|h| - 1]) + if h[|h| - 1].Probed? then 1 else 0
  }

  ghost predicate FailedProbe(e: Event) {
    e.Probed? && !e.ok
  }

  /** After k events: a failed probe is answered by a restart, at once, exactly when it is the third failure
      in a row and the policy is Always or a probe had succeeded since the last restart. */
  ghost predicate RestartRuleAt(policy: RestartPolicy, h: seq<Event>, k: nat)
    requires k <= |h|
  {
    var restarted := k < |h| && h[k].Restarted?;
    if k > 0 && FailedProbe(h[k - 1])
    then (restarted <==> Fails(h[..k]) == 3 && (policy == Always || Healthy(h[..k])))
         && (restarted ==> h[k].tick == h[k - 1].tick)
    else !restarted
  }

  ghost predicate RestartRule(policy: RestartPolicy, h: seq<Event>) {
    forall k {:trigger RestartRuleAt(policy, h, k)} | 0 <= k <= |h| :: RestartRuleAt(policy, h, k)
  }

  /** Least number of ticks from event e to a later event f of the same service. */
  ghost function MinGap(policy: RestartPolicy, e: Event, f: Event): nat {
    if e.Probed? && f.Probed? then 10
    else if e.Restarted? && f.Spawned? then 10
    else if e.Restarted? && f.Restarted? then (if policy == Always then 31 else 41)
    else 0
  }

  ghost predicate Spaced(policy: RestartPolicy, h: seq<Event>) {
    forall a, b | 0 <= a < b < |h| :: h[b].tick >= h[a].tick + MinGap(policy, h[a], h[b])
  }

  /** What the runtime entry promises about the next event, given event a of the history. */
  ghost predicate Pending(rt: ServiceRuntime, h: seq<Event>, now: nat, a: nat)
    requires a < |h|
  {
    && h[a].tick <= now
    && (h[a].Probed? ==> h[a].tick + 10 <= rt.nextProbe)
    && (h[a].Restarted? ==>
          var n := Probes(h[a + 1..]);
          && h[a].tick + 10 <= rt.nextRetry
          && h[a].tick + 10 + (if n == 0 then 0 else 1 + 10 * n) <= rt.nextProbe
          && (n == 0 && rt.started ==> h[a].tick + 10 <= now))
  }

  /** The runtime entry summarises the history exactly. */
  ghost predicate Summary(policy: RestartPolicy, rt: ServiceRuntime, h: seq<Event>) {
    && rt.failStreak == (if Fails(h) > U8_MAX then U8_MAX else Fails(h))
    && (rt.healthyOnce <==> Healthy(h))
    && (policy == Always || Healthy(h) ==> Fails(h) <= 2)
  }

  ghost predicate Inv(policy: RestartPolicy, rt: ServiceRuntime, h: seq<Event>, now: nat) {
    && Summary(policy, rt, h)
    && RestartRule(policy, h)
    && Spaced(policy, h)
    && (forall a | 0 <= a < |h| :: Pending(rt, h, now, a))
    && rt.nextProbe <= now + 10 && rt.nextRetry <= now + 10
  }

  lemma RestartRuleExtend(policy: RestartPolicy, h: seq<Event>, e: Event)
    requires RestartRule(policy, h) && !e.Restarted?
    requires FailedProbe(e) ==> !(Fails(h) + 1 == 3 && (policy == Always || Healthy(h)))
    ensures RestartRule(policy, h + [e])
  {
    var h' := h + [e];
    forall k | 0 <= k <= |h'|
      ensures RestartRuleAt(policy, h', k)
    {
      if k <= |h| {
        assert h'[..k] == h[..k];
        assert RestartRuleAt(policy, h, k);
      } else {
        assert h'[..k] == h' && h'[..k - 1] == h;
      }
    }
  }

  lemma RestartRuleRestart(policy: RestartPolicy, h: seq<Event>, t: nat)
    requires RestartRule(policy, h)
    requires Fails(h) + 1 == 3 && (policy == Always || Healthy(h))
    ensures RestartRule(policy, h + [Probed(t, false), Restarted(t)])
  {
    var n := |h|;
    var h' := h + [Probed(t, false), Restarted(t)];
    assert h'[..n + 1][..n] == h && h'[..n + 1] == h + [Probed(t, false)];
    forall k | 0 <= k <= |h'|
      ensures RestartRuleAt(policy, h', k)
    {
      if k <= n {
        assert h'[..k] == h[..k];
        assert RestartRuleAt(policy, h, k);
      }
    }
  }

  /** Since any restart there were at least as many probes as the streak needs. */
  lemma {:induction false} ProbesCoverStreak(h: seq<Event>, a: nat)
    requires a < |h| && h[a].Restarted?
    ensures Probes(h[a + 1..]) >= Fails(h) + if Healthy(h) then 1 else 0
    decreases |h|
  {
    var n := |h| - 1;
    if a < n {
      var rest := h[..n];
      assert h[a + 1..][..n - a - 1] == rest[a + 1..];
      ProbesCoverStreak(rest, a);
    }
  }

  lemma PendingExtend(rt: ServiceRuntime, h: seq<Event>, now: nat, rt': ServiceRuntime, e: Event, a: nat)
    requires a < |h| && Pending(rt, h, now, a) && now < e.tick && !e.Restarted?
    requires e.Probed? ==> rt.started && rt.nextProbe <= e.tick && rt'.nextProbe == e.tick + 10
    requires !e.Probed? ==> rt'.nextProbe == rt.nextProbe
    requires e.Spawned? ==> rt.nextRetry <= e.tick
    requires rt'.nextRetry >= rt.nextRetry
    ensures Pending(rt', h + [e], e.tick, a)
  {
    assert (h + [e])[a + 1..] == h[a + 1..] + [e];
    assert (h[a + 1..] + [e])[..|h| - a - 1] == h[a + 1..];
  }

  lemma PendingIdle(rt: ServiceRuntime, h: seq<Event>, now: nat, a: nat)
    requires a < |h| && Pending(rt, h, now, a)
    ensures Pending(rt, h, now + 1, a)
  {}

  lemma PendingRestart(rt: ServiceRuntime, h: seq<Event>, t: nat, rt': ServiceRuntime, a: nat)
    requires a < |h| && Pending(rt, h, t, a)
    requires rt'.nextProbe == rt.nextProbe && !rt'.started && rt'.nextRetry >= t + 10
    ensures Pending(rt', h + [Restarted(t)], t, a)
  {
    assert (h + [Restarted(t)])[a + 1..] == h[a + 1..] + [Restarted(t)];
    assert (h[a + 1..] + [Restarted(t)])[..|h| - a - 1] == h[a + 1..];
  }

  lemma SpacedExtend(policy: RestartPolicy, h: seq<Event>, e: Event)
    requires Spaced(policy, h)
    requires forall a | 0 <= a < |h| :: e.tick >= h[a].tick + MinGap(policy, h[a], e)
    ensures Spaced(policy, h + [e])
  {}

  lemma GapKept(policy: RestartPolicy, rt: ServiceRuntime, h: seq<Event>, tick: nat, e: Event, a: nat)
    requires tick > 0 && a < |h| && Pending(rt, h, tick - 1, a) && !e.Restarted?
    requires (e.Probed? ==> rt.nextProbe <= tick) && (e.Spawned? ==> rt.nextRetry <= tick)
    ensures tick >= h[a].tick + MinGap(policy, h[a], e)
  {}

  lemma PendingLast(rt: ServiceRuntime, h: seq<Event>, e: Event)
    requires e.Probed? || e.Restarted? ==> rt.nextProbe == e.tick + 10
    requires e.Restarted? ==> rt.nextRetry == e.tick + 10 && !rt.started
    ensures Pending(rt, h + [e], e.tick, |h|)
  {
    assert (h + [e])[|h| + 1..] == [];
  }

  lemma IdleKeepsInv(policy: RestartPolicy, rt: ServiceRuntime, h: seq<Event>, tick: nat)
    requires tick > 0 && Inv(policy, rt, h, tick - 1)
    ensures Inv(policy, rt, h, tick)
  {
    hide Summary, Spaced, RestartRule, Pending;
    forall a | 0 <= a < |h| ensures Pending(rt, h, tick, a) { PendingIdle(rt, h, tick - 1, a); }
  }

  /** A spawn, or a probe that leads to no restart, keeps the invariant if the counters follow. */
  lemma EventKeepsInv(policy: RestartPolicy, rt: ServiceRuntime, h: seq<Event>, rt': ServiceRuntime, e: Event)
    requires e.tick > 0 && Inv(policy, rt, h, e.tick - 1) && !e.Restarted?
    requires if e.Probed? then rt.started && rt.nextProbe <= e.tick && rt'.nextProbe == e.tick + 10
             else rt.nextRetry <= e.tick && rt'.nextProbe == rt.nextProbe
    requires rt'.nextRetry == rt.nextRetry && Summary(policy, rt', h + [e])
    requires FailedProbe(e) ==> !(Fails(h) + 1 == 3 && (policy == Always || Healthy(h)))
    ensures Inv(policy, rt', h + [e], e.tick)
  {
    hide Summary, Spaced, RestartRule, Pending;
    RestartRuleExtend(policy, h, e);
    forall a | 0 <= a < |h|
      ensures e.tick >= h[a].tick + MinGap(policy, h[a], e) && Pending(rt', h + [e], e.tick, a)
    {
      GapKept(policy, rt, h, e.tick, e, a);
      PendingExtend(rt, h, e.tick - 1, rt', e, a);
    }
    SpacedExtend(policy, h, e);
    PendingLast(rt', h, e);
  }

  /** What each event does to the two summaries of a history. */
  lemma SummaryOf(h: seq<Event>, e: Event)
    ensures Fails(h + [e]) == if e.Spawned? then Fails(h) else if FailedProbe(e) then Fails(h) + 1 else 0
    ensures Healthy(h + [e]) <==> !e.Restarted? && (Healthy(h) || (e.Probed? && e.ok))
  {
    assert (h + [e])[..|h|] == h;
  }

  /** A tick keeps everything the runtime entry says about the service's history. */
  lemma StepKeepsInv(spec: ServiceSpec, rt: ServiceRuntime, h: seq<Event>, tick: nat,
                     depsUp: bool, spawnOk: bool, probeOk: bool)
    requires tick > 0 && tick + INTERVAL <= USIZE_MAX && Inv(spec.policy, rt, h, tick - 1)
    ensures var (rt', es) := Step(spec, rt, tick, depsUp, spawnOk, probeOk);
            Inv(spec.policy, rt', h + es, tick)
  {
    hide Spaced, RestartRule, Pending, Fails, Healthy;
    var (rt', es) := Step(spec, rt, tick, depsUp, spawnOk, probeOk);
    if es == [] {
      assert h + es == h;
      IdleKeepsInv(spec.policy, rt, h, tick);
    } else if |es| == 1 {
      assert es == [es[0]];
      SummaryOf(h, es[0]);
      EventKeepsInv(spec.policy, rt, h, rt', es[0]);
    } else {
      RestartKeepsInv(spec.policy, rt, h, tick, rt');
    }
  }

  /** Enough probes fit between two restarts only if the restarts are far enough apart. */
  lemma RestartGap(policy: RestartPolicy, rt: ServiceRuntime, h: seq<Event>, tick: nat, a: nat)
    requires tick > 0 && a < |h| && Pending(rt, h, tick - 1, a) && rt.started && rt.nextProbe <= tick
    requires Fails(h) == 2 && (policy == Always || Healthy(h))
    ensures tick >= h[a].tick + MinGap(policy, h[a], Probed(tick, false))
    ensures tick >= h[a].tick + MinGap(policy, h[a], Restarted(tick))
  {
    if h[a].Restarted? { ProbesCoverStreak(h, a); }
  }

  lemma RestartKeepsInv(policy: RestartPolicy, rt: ServiceRuntime, h: seq<Event>, tick: nat, rt': ServiceRuntime)
    requires tick > 0 && Inv(policy, rt, h, tick - 1) && policy != OneShot
    requires rt.started && rt.nextProbe <= tick && Fails(h) == 2 && (policy == Always || Healthy(h))
    requires rt' == rt.(started := false, healthyOnce := false, failStreak := 0,
                        nextProbe := tick + 10, nextRetry := tick + 10)
    ensures Inv(policy, rt', h + [Probed(tick, false), Restarted(tick)], tick)
  {
    hide Pending, RestartRule, Spaced;
    var h1, h2 := h + [Probed(tick, false)], h + [Probed(tick, false), Restarted(tick)];
    var rt1 := rt.(nextProbe := tick + 10, nextRetry := if rt.nextRetry > tick + 10 then rt.nextRetry else tick + 10);
    assert h2 == h1 + [Restarted(tick)];
    RestartRuleRestart(policy, h, tick);
    forall a | 0 <= a < |h|
      ensures Pending(rt', h2, tick, a)
      ensures tick >= h[a].tick + MinGap(policy, h[a], Probed(tick, false))
      ensures tick >= h[a].tick + MinGap(policy, h[a], Restarted(tick))
    {
      PendingExtend(rt, h, tick - 1, rt1, Probed(tick, false), a);
      PendingRestart(rt1, h1, tick, rt', a);
      RestartGap(policy, rt, h, tick, a);
    }
    SpacedExtend(policy, h, Probed(tick, false));
    SpacedExtend(policy, h1, Restarted(tick));
    PendingLast(rt1, h, Probed(tick, false));
    PendingRestart(rt1, h1, tick, rt', |h|);
    PendingLast(rt', h1, Restarted(tick));
  }

  // ----- the whole system -----

  datatype World = World(runtime: seq<ServiceRuntime>, history: seq<seq<Event>>)

  ghost predicate Fits(specs: seq<ServiceSpec>, w: World) {
    |specs| == |w.runtime| == |w.history|
  }

  /** What tick `tick` does to service i of world w. */
  ghost function StepOf(specs: seq<ServiceSpec>, w: World, tick: nat,
                        spawn: (nat, nat) -> bool, probe: (nat, nat) -> bool, i: nat): (ServiceRuntime, seq<Event>)
    requires Fits(specs, w) && i < |specs|
  {
    StepAt(specs[i], w.runtime[i], w.runtime, tick, spawn, probe, i)
  }

  ghost function TickWorld(specs: seq<ServiceSpec>, w: World, tick: nat,
                           spawn: (nat, nat) -> bool, probe: (nat, nat) -> bool): (w': World)
    requires Fits(specs, w)
    ensures Fits(specs, w')
    ensures forall i | 0 <= i < |specs| :: w'.runtime[i] == StepOf(specs, w, tick, spawn, probe, i).0
    ensures forall i | 0 <= i < |specs| :: w'.history[i] == w.history[i] + StepOf(specs, w, tick, spawn, probe, i).1
  {
    World(seq(|specs|, i requires 0 <= i < |specs| => StepOf(specs, w, tick, spawn, probe, i).0),
          seq(|specs|, i requires 0 <= i < |specs| => w.history[i] + StepOf(specs, w, tick, spawn, probe, i).1))
  }

  /** The world after ticks 1..n. */
  ghost function Run(specs: seq<ServiceSpec>, w: World, n: nat,
                     spawn: (nat, nat) -> bool, probe: (nat, nat) -> bool): (w': World)
    requires Fits(specs, w)
    ensures Fits(specs, w')
  {
    if n == 0 then w else TickWorld(specs, Run(specs, w, n - 1, spawn, probe), n, spawn, probe)
  }

  /** The world that `launch_graph` hands over: no probe yet, no retry pending. */
  ghost predicate JustLaunched(specs: seq<ServiceSpec>, w: World) {
    Fits(specs, w) && forall i | 0 <= i < |specs| ::
      && w.history[i] == []
      && w.runtime[i] == EMPTY_RUNTIME.(started := w.runtime[i].started, attempted := w.runtime[i].attempted)
  }

  /** In every run, for every service: counters summarise the probe history, restarts follow the rule, and
      probes, respawns and restarts keep their distances. */
  lemma {:induction false} RunInv(specs: seq<ServiceSpec>, w: World, n: nat,
                                  spawn: (nat, nat) -> bool, probe: (nat, nat) -> bool, i: nat)
    requires JustLaunched(specs, w) && i < |specs| && n + INTERVAL <= USIZE_MAX
    ensures var w' := Run(specs, w, n, spawn, probe); Inv(specs[i].policy, w'.runtime[i], w'.history[i], n)
  {
    if n == 0 {
      assert RestartRuleAt(specs[i].policy, [], 0);
    } else {
      RunInv(specs, w, n - 1, spawn, probe, i);
      var v := Run(specs, w, n - 1, spawn, probe);
      StepKeepsInv(specs[i], v.runtime[i], v.history[i], n, DepsUp(specs[i], v.runtime), spawn(n, i), probe(n, i));
    }
  }

  /** Some restart of service i happened after tick n. */
  ghost predicate RestartedAfter(h: seq<Event>, n: nat) {
    exists e :: e in h && e.Restarted? && e.tick > n
  }

  ghost predicate WillRestart(spec: ServiceSpec, rt: ServiceRuntime) {
    spec.policy == Always || (spec.policy == OnFailure && rt.healthyOnce)
  }

  lemma RunFacts(specs: seq<ServiceSpec>, w: World, n: nat, spawn: (nat, nat) -> bool, probe: (nat, nat) -> bool, i: nat)
    requires JustLaunched(specs, w) && i < |specs| && n + INTERVAL <= USIZE_MAX
    ensures var rt := Run(specs, w, n, spawn, probe).runtime[i];
            rt.nextRetry <= n + 10 && rt.nextProbe <= n + 10 && (WillRestart(specs[i], rt) ==> rt.failStreak <= 2)
  {
    RunInv(specs, w, n, spawn, probe, i);
  }

  lemma RunStep(specs: seq<ServiceSpec>, w: World, m: nat, spawn: (nat, nat) -> bool, probe: (nat, nat) -> bool, i: nat)
    requires Fits(specs, w) && i < |specs| && m > 0
    ensures var u, v := Run(specs, w, m - 1, spawn, probe), Run(specs, w, m, spawn, probe);
            (v.runtime[i], v.history[i]) ==
              var (rt, es) := Step(specs[i], u.runtime[i], m, DepsUp(specs[i], u.runtime), spawn(m, i), probe(m, i));
              (rt, u.history[i] + es)
  {
    hide Step, DepsUp;
  }

  /** Latest tick at which a service whose probes all fail is taken down, as seen after tick m. */
  ghost function Deadline(rt: ServiceRuntime, m: nat): int {
    (if rt.nextProbe > m + 1 then rt.nextProbe else m + 1) + 10 * (2 - rt.failStreak)
  }

  /** A tick with a failing probe takes the service down or leaves the deadline where it is. */
  lemma DetectionStep(spec: ServiceSpec, rt: ServiceRuntime, m: nat, depsUp: bool, spawnOk: bool)
    requires rt.started && WillRestart(spec, rt) && spec.probe != NoProbe && rt.failStreak <= 2
    requires m + 1 + INTERVAL <= USIZE_MAX
    ensures var (rt', es) := Step(spec, rt, m + 1, depsUp, spawnOk, false);
            || Restarted(m + 1) in es
            || (&& rt'.started && WillRestart(spec, rt') && rt'.failStreak <= 2
                && Deadline(rt', m + 1) == Deadline(rt, m))
  {}

  lemma DeadlineBegins(specs: seq<ServiceSpec>, w: World, n: nat, spawn: (nat, nat) -> bool, probe: (nat, nat) -> bool, i: nat)
    requires JustLaunched(specs, w) && i < |specs| && n + INTERVAL <= USIZE_MAX
    ensures Deadline(Run(specs, w, n, spawn, probe).runtime[i], n) <= n + 30
  {
    hide Inv, Run;
    RunFacts(specs, w, n, spawn, probe, i);
  }

  lemma {:induction false} DetectionProgress(specs: seq<ServiceSpec>, w: World, n: nat, m: nat,
                                             spawn: (nat, nat) -> bool, probe: (nat, nat) -> bool, i: nat)
    requires JustLaunched(specs, w) && i < |specs| && n <= m <= n + 30 && m + INTERVAL <= USIZE_MAX
    requires var v := Run(specs, w, n, spawn, probe); v.runtime[i].started && WillRestart(specs[i], v.runtime[i])
    requires specs[i].probe != NoProbe && forall t | n < t <= n + 30 :: !probe(t, i)
    ensures var v := Run(specs, w, m, spawn, probe);
            || RestartedAfter(v.history[i], n)
            || (&& v.runtime[i].started && WillRestart(specs[i], v.runtime[i]) && v.runtime[i].failStreak <= 2
                && Deadline(v.runtime[i], m) <= n + 30)
    decreases m
  {
    hide Inv, DepsUp, Step, WillRestart, RestartedAfter, Deadline, Run, TickWorld;
    DeadlineBegins(specs, w, n, spawn, probe, i);
    RunFacts(specs, w, n, spawn, probe, i);
    if m > n {
      DetectionProgress(specs, w, n, m - 1, spawn, probe, i);
      RunStep(specs, w, m, spawn, probe, i);
      var u := Run(specs, w, m - 1, spawn, probe);
      var es := Step(specs[i], u.runtime[i], m, DepsUp(specs[i], u.runtime), spawn(m, i), false).1;
      assert !probe(m, i);
      if !RestartedAfter(u.history[i], n) {
        DetectionStep(specs[i], u.runtime[i], m - 1, DepsUp(specs[i], u.runtime), spawn(m, i));
      }
      if RestartedAfter(u.history[i], n) || Restarted(m) in es {
        RestartedKept(u.history[i], es, n, m);
      }
    }
  }

  lemma RestartedKept(h: seq<Event>, es: seq<Event>, n: nat, m: nat)
    requires n < m && (RestartedAfter(h, n) || Restarted(m) in es)
    ensures RestartedAfter(h + es, n)
  {
    if RestartedAfter(h, n) {
      var e :| e in h && e.Restarted? && e.tick > n;
      assert e in h + es;
    } else {
      assert Restarted(m) in h + es;
    }
  }

  /** A service that is up and, from tick n on, fails its probes is taken down for a restart within 30 ticks. */
  lemma DetectionBound(specs: seq<ServiceSpec>, w: World, n: nat,
                       spawn: (nat, nat) -> bool, probe: (nat, nat) -> bool, i: nat)
    requires JustLaunched(specs, w) && i < |specs| && n + 30 + INTERVAL <= USIZE_MAX
    requires var v := Run(specs, w, n, spawn, probe); v.runtime[i].started && WillRestart(specs[i], v.runtime[i])
    requires specs[i].probe != NoProbe && forall t | n < t <= n + 30 :: !probe(t, i)
    ensures RestartedAfter(Run(specs, w, n + 30, spawn, probe).history[i], n)
  {
    hide Run, RestartedAfter, WillRestart;
    DetectionProgress(specs, w, n, n + 30, spawn, probe, i);
  }

  /** Some spawn succeeded after tick n and no later than m. */
  ghost predicate SpawnedWithin(h: seq<Event>, n: nat, m: nat) {
    exists e :: e in h && e.Spawned? && e.ok && n < e.tick <= m
  }

  lemma SpawnedKept(h: seq<Event>, es: seq<Event>, n: nat, m: nat)
    requires n < m && (SpawnedWithin(h, n, m - 1) || Spawned(m, true) in es)
    ensures SpawnedWithin(h + es, n, m)
  {
    if SpawnedWithin(h, n, m - 1) {
      var e :| e in h && e.Spawned? && e.ok && n < e.tick <= m - 1;
      assert e in h + es;
    } else {
      assert Spawned(m, true) in h + es;
    }
  }

  lemma RecoveryStep(spec: ServiceSpec, rt: ServiceRuntime, tick: nat, probeOk: bool)
    requires !rt.started && spec.policy != OneShot
    ensures var (rt', es) := Step(spec, rt, tick, true, true, probeOk);
            if rt.nextRetry <= tick then Spawned(tick, true) in es else rt' == rt
  {}

  lemma {:induction false} RecoveryProgress(specs: seq<ServiceSpec>, w: World, n: nat, m: nat,
                                            spawn: (nat, nat) -> bool, probe: (nat, nat) -> bool, i: nat)
    requires JustLaunched(specs, w) && i < |specs| && n <= m <= n + 10 && m + INTERVAL <= USIZE_MAX
    requires !Run(specs, w, n, spawn, probe).runtime[i].started && specs[i].policy != OneShot
    requires forall t | n <= t < n + 10 :: DepsUp(specs[i], Run(specs, w, t, spawn, probe).runtime)
    requires forall t | n < t <= n + 10 :: spawn(t, i)
    ensures var v := Run(specs, w, m, spawn, probe);
            || SpawnedWithin(v.history[i], n, m)
            || (!v.runtime[i].started && v.runtime[i].nextRetry <= n + 10 && (m == n || m < v.runtime[i].nextRetry))
    decreases m
  {
    hide Inv, Step, DepsUp, SpawnedWithin, Run, TickWorld;
    RunFacts(specs, w, n, spawn, probe, i);
    if m > n {
      RecoveryProgress(specs, w, n, m - 1, spawn, probe, i);
      RunStep(specs, w, m, spawn, probe, i);
      var u := Run(specs, w, m - 1, spawn, probe);
      assert DepsUp(specs[i], u.runtime) && spawn(m, i);
      if !SpawnedWithin(u.history[i], n, m - 1) {
        RecoveryStep(specs[i], u.runtime[i], m, probe(m, i));
      }
      if SpawnedWithin(u.history[i], n, m - 1) || u.runtime[i].nextRetry <= m {
        SpawnedKept(u.history[i], Step(specs[i], u.runtime[i], m, true, true, probe(m, i)).1, n, m);
      }
    }
  }

  /** A service that is down, has its dependencies up and can be spawned is spawned again within 10 ticks. */
  lemma RecoveryBound(specs: seq<ServiceSpec>, w: World, n: nat,
                      spawn: (nat, nat) -> bool, probe: (nat, nat) -> bool, i: nat)
    requires JustLaunched(specs, w) && i < |specs| && n + 10 + INTERVAL <= USIZE_MAX
    requires !Run(specs, w, n, spawn, probe).runtime[i].started && specs[i].policy != OneShot
    requires forall t | n <= t < n + 10 :: DepsUp(specs[i], Run(specs, w, t, spawn, probe).runtime)
    requires forall t | n < t <= n + 10 :: spawn(t, i)
    ensures SpawnedWithin(Run(specs, w, n + 10, spawn, probe).history[i], n, n + 10)
  {
    hide Run, DepsUp, SpawnedWithin;
    RecoveryProgress(specs, w, n, n + 10, spawn, probe, i);
  }

  /** The first n rounds of the supervisor loop are the first n ticks of the run. */
  method Supervise(specs: array<ServiceSpec>, count: nat, runtime: array<ServiceRuntime>, n: nat,
                   spawn: (nat, nat) -> bool, probe: (nat, nat) -> bool)
    returns (history: seq<seq<Event>>)
    requires specs.Length == runtime.Length == MAX_SERVICES && count <= MAX_SERVICES
    requires forall i | 0 <= i < count :: specs[i].depMask < Pow2(32)
    requires n + INTERVAL <= USIZE_MAX
    modifies runtime
    ensures |history| == count
    ensures var w := World(old(runtime[..count]), seq(count, _ => []));
            World(runtime[..count], history) == Run(specs[..count], w, n, spawn, probe)
  {
    hide StepAt, Pow2, TickWorld, Appended;
    history := seq(count, _ => []);
    ghost var w := World(runtime[..count], history);
    var tick := 0;
    while tick < n
      invariant 0 <= tick <= n && |history| == count
      invariant World(runtime[..count], history) == Run(specs[..count], w, tick, spawn, probe)
    {
      tick := tick + 1;
      ghost var v := World(runtime[..count], history);
      var events := SupervisorTick(tick, specs, count, runtime, spawn, probe);
      history := Appended(history, events);
      TickAgrees(specs[..count], v, tick, spawn, probe, runtime[..count], events);
    }
  }

  function Appended(history: seq<seq<Event>>, events: seq<seq<Event>>): (h: seq<seq<Event>>)
    requires |history| == |events|
    ensures |h| == |history|
  {
    seq(|history|, i requires 0 <= i < |history| => history[i] + events[i])
  }

  lemma TickAgrees(specs: seq<ServiceSpec>, w: World, tick: nat, spawn: (nat, nat) -> bool, probe: (nat, nat) -> bool,
                   runtime: seq<ServiceRuntime>, events: seq<seq<Event>>)
    requires Fits(specs, w) && |runtime| == |events| == |specs|
    requires forall i | 0 <= i < |specs| ::
               (runtime[i], events[i]) == StepAt(specs[i], w.runtime[i], w.runtime, tick, spawn, probe, i)
    ensures World(runtime, Appended(w.history, events)) == TickWorld(specs, w, tick, spawn, probe)
  {
    hide StepAt;
    var w' := TickWorld(specs, w, tick, spawn, probe);
    assert runtime == w'.runtime;
    assert Appended(w.history, events) == w'.history;
  }
}
