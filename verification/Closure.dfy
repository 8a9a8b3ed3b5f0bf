/** Dependency closure of the started set under supervision: the launcher establishes it, ticks may break it. */
module Closure {
  import opened Masks
  import opened Services
  import opened Supervisor

  /** Every started service has its dependencies started. */
  ghost predicate DependencyClosed(specs: seq<ServiceSpec>, w: World)
    requires Fits(specs, w)
  {
    forall i | 0 <= i < |specs| && w.runtime[i].started :: DepsUp(specs[i], w.runtime)
  }

  /** The guards, before the tick, under which the tick takes a service down. */
  predicate GoesDown(spec: ServiceSpec, rt: ServiceRuntime, tick: nat, probeOk: bool) {
    && rt.started && spec.policy != OneShot && spec.probe != NoProbe
    && tick >= rt.nextProbe && !probeOk
    && rt.failStreak >= 2 && (spec.policy == Always || rt.healthyOnce)
  }

  /** The guards, before the tick, under which the tick brings a service up. */
  predicate ComesUp(spec: ServiceSpec, rt: ServiceRuntime, tick: nat, depsUp: bool, spawnOk: bool) {
    && !rt.started && !(spec.policy == OneShot && rt.attempted)
    && depsUp && tick >= rt.nextRetry && spawnOk
  }

  lemma StartedAfter(spec: ServiceSpec, rt: ServiceRuntime, tick: nat, depsUp: bool, spawnOk: bool, probeOk: bool)
    ensures Step(spec, rt, tick, depsUp, spawnOk, probeOk).0.started <==>
            if rt.started then !GoesDown(spec, rt, tick, probeOk) else ComesUp(spec, rt, tick, depsUp, spawnOk)
  {}

  /** Service i will be up after the tick, judged before it. */
  ghost predicate UpNext(specs: seq<ServiceSpec>, w: World, tick: nat,
                         spawn: (nat, nat) -> bool, probe: (nat, nat) -> bool, i: nat)
    requires Fits(specs, w) && i < |specs|
  {
    var spec, rt := specs[i], w.runtime[i];
    (rt.started && !GoesDown(spec, rt, tick, probe(tick, i)))
    || ComesUp(spec, rt, tick, DepsUp(spec, w.runtime), spawn(tick, i))
  }

  /** Some service that stays or comes up depends on one that goes down. */
  ghost predicate Orphans(specs: seq<ServiceSpec>, w: World, tick: nat,
                          spawn: (nat, nat) -> bool, probe: (nat, nat) -> bool)
    requires Fits(specs, w)
  {
    exists i, d :: 0 <= i < |specs| && 0 <= d < |specs| && d in Bits(specs[i].depMask)
                   && UpNext(specs, w, tick, spawn, probe, i)
                   && GoesDown(specs[d], w.runtime[d], tick, probe(tick, d))
  }

  /** A tick keeps the started set closed under dependencies exactly when, by the guards that hold before it, no
      service that will be up depends on one that goes down. */
  lemma ClosedAfterTickIff(specs: seq<ServiceSpec>, w: World, tick: nat,
                           spawn: (nat, nat) -> bool, probe: (nat, nat) -> bool)
    requires Fits(specs, w) && DependencyClosed(specs, w)
    ensures DependencyClosed(specs, TickWorld(specs, w, tick, spawn, probe)) <==> !Orphans(specs, w, tick, spawn, probe)
  {
    hide Bits, Bit, Step, GoesDown, ComesUp, TickWorld;
    var w' := TickWorld(specs, w, tick, spawn, probe);
    forall i | 0 <= i < |specs|
      ensures w'.runtime[i].started <==> UpNext(specs, w, tick, spawn, probe, i)
      ensures w.runtime[i].started ==>
              (w'.runtime[i].started <==> !GoesDown(specs[i], w.runtime[i], tick, probe(tick, i)))
      ensures w'.runtime[i].started ==> DepsUp(specs[i], w.runtime)
    {
      StartedIs(specs, w, tick, spawn, probe, i);
    }
    if !DependencyClosed(specs, w') {
      var i :| 0 <= i < |specs| && w'.runtime[i].started && !DepsUp(specs[i], w'.runtime);
      var d :| d in Bits(specs[i].depMask) && !(d < |specs| && w'.runtime[d].started);
      assert d < |specs| && w.runtime[d].started;
    }
  }

  lemma StartedIs(specs: seq<ServiceSpec>, w: World, tick: nat,
                  spawn: (nat, nat) -> bool, probe: (nat, nat) -> bool, i: nat)
    requires Fits(specs, w) && i < |specs|
    ensures var started := TickWorld(specs, w, tick, spawn, probe).runtime[i].started;
            && (started <==> UpNext(specs, w, tick, spawn, probe, i))
            && (w.runtime[i].started ==> (started <==> !GoesDown(specs[i], w.runtime[i], tick, probe(tick, i))))
            && (started && DependencyClosed(specs, w) ==> DepsUp(specs[i], w.runtime))
  {
    hide Step, TickWorld, DepsUp;
    StartedAfter(specs[i], w.runtime[i], tick, DepsUp(specs[i], w.runtime), spawn(tick, i), probe(tick, i));
  }

  // ----- closure breaks in a real run -----

  /** A service that was restarted was down after some tick of the run. */
  lemma {:induction false} RestartMeansDown(specs: seq<ServiceSpec>, w: World, n: nat,
                                            spawn: (nat, nat) -> bool, probe: (nat, nat) -> bool, i: nat)
      returns (m: nat)
    requires JustLaunched(specs, w) && i < |specs| && RestartedAfter(Run(specs, w, n, spawn, probe).history[i], 0)
    ensures m <= n && !Run(specs, w, m, spawn, probe).runtime[i].started
  {
    var v := Run(specs, w, n - 1, spawn, probe);
    var es := StepOf(specs, v, n, spawn, probe, i).1;
    if Restarted(n) in es {
      m := n;
    } else {
      var e :| e in Run(specs, w, n, spawn, probe).history[i] && e.Restarted? && e.tick > 0;
      assert e in v.history[i];
      m := RestartMeansDown(specs, w, n - 1, spawn, probe, i);
    }
  }

  /** A one-shot service that is up stays up. */
  lemma {:induction false} OneShotStaysUp(specs: seq<ServiceSpec>, w: World, n: nat,
                                          spawn: (nat, nat) -> bool, probe: (nat, nat) -> bool, i: nat)
    requires Fits(specs, w) && i < |specs| && specs[i].policy == OneShot && w.runtime[i].started
    ensures Run(specs, w, n, spawn, probe).runtime[i].started
  {
    hide TickWorld, DepsUp, Bits;
    if n > 0 {
      OneShotStaysUp(specs, w, n - 1, spawn, probe, i);
      RunStep(specs, w, n, spawn, probe, i);
    }
  }

  lemma BitsOfOne()
    ensures Bits(1) == {0}
  {
    assert Bit(1, 0);
    forall d: nat | d in Bits(1) ensures d == 0 { BitBelow(1, d); }
  }

  /** Closure is not an invariant of supervised runs: from a launched, closed world, a run whose probes fail reaches a
      closed world and then, one tick later, one that is not. */
  lemma RestartBreaksClosure()
    ensures exists specs, w, n: nat, spawn, probe ::
              && JustLaunched(specs, w) && n + 1 + INTERVAL <= USIZE_MAX
              && DependencyClosed(specs, Run(specs, w, n, spawn, probe))
              && !DependencyClosed(specs, Run(specs, w, n + 1, spawn, probe))
  {
    hide Bits, Bit, Inv, Run, Step;
    var specs := [EMPTY_SPEC.(policy := Always, probe := BlkPing), EMPTY_SPEC.(depMask := 1)];
    var up := EMPTY_RUNTIME.(started := true, attempted := true);
    var w := World([up, up], [[], []]);
    var no := (t: nat, i: nat) => false;
    RunZero(specs, w, no, no);
    DetectionBound(specs, w, 0, no, no, 0);
    var m := RestartMeansDown(specs, w, 30, no, no, 0);
    BitsOfOne();
    EmptyMask(0);
    var k := FirstDown(specs, w, m, no, no, 0);
    OneShotStaysUp(specs, w, k, no, no, 1);
    OneShotStaysUp(specs, w, k + 1, no, no, 1);
    assert DependencyClosed(specs, Run(specs, w, k, no, no));
    assert 0 in Bits(specs[1].depMask) && !DepsUp(specs[1], Run(specs, w, k + 1, no, no).runtime);
    assert !DependencyClosed(specs, Run(specs, w, k + 1, no, no));
  }

  lemma RunZero(specs: seq<ServiceSpec>, w: World, spawn: (nat, nat) -> bool, probe: (nat, nat) -> bool)
    requires Fits(specs, w)
    ensures Run(specs, w, 0, spawn, probe) == w
  {}

  /** The last tick before a service first goes down. */
  lemma {:induction false} FirstDown(specs: seq<ServiceSpec>, w: World, m: nat,
                                     spawn: (nat, nat) -> bool, probe: (nat, nat) -> bool, i: nat) returns (k: nat)
    requires Fits(specs, w) && i < |specs| && w.runtime[i].started && !Run(specs, w, m, spawn, probe).runtime[i].started
    ensures k < m && Run(specs, w, k, spawn, probe).runtime[i].started && !Run(specs, w, k + 1, spawn, probe).runtime[i].started
  {
    hide TickWorld, Run;
    RunZero(specs, w, spawn, probe);
    if Run(specs, w, m - 1, spawn, probe).runtime[i].started {
      k := m - 1;
    } else {
      k := FirstDown(specs, w, m - 1, spawn, probe, i);
    }
  }
}
