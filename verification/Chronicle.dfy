/** Supervised runs told from event histories alone, without the runtime table: what happens at a tick follows from what
    happened before. The table of `supervisor_tick` is shown to be a summary of those histories. */
module Chronicle {
  import opened Masks
  import opened Services
  import opened Supervisor

  // ----- reading a history -----

  /** Up after h: the last spawn or restart decides, else how the launch left the service. */
  ghost predicate Up(was: bool, h: seq<Event>) {
    if h == [] then was
    else
      match h[|h| - 1]
      case Spawned(_, ok) => ok
      case Probed(_, _) => Up(was, h[..|h| - 1])
      case Restarted(_) => false
  }

  ghost function Spawns(h: seq<Event>): nat {
    if h == [] then 0 else Spawns(h[..|h| - 1]) + if h[|h| - 1].Spawned? then 1 else 0
  }

  /** Ten ticks after the last probe, or at once if there was none. */
  ghost function ProbeDue(h: seq<Event>): nat {
    if h == [] then 0 else if h[|h| - 1].Probed? then h[|h| - 1].tick + 10 else ProbeDue(h[..|h| - 1])
  }

  /** Ten ticks after the last restart, or at once if there was none. */
  ghost function RetryDue(h: seq<Event>): nat {
    if h == [] then 0 else if h[|h| - 1].Restarted? then h[|h| - 1].tick + 10 else RetryDue(h[..|h| - 1])
  }

  /** The rule of supervision. A service that is down is spawned when its dependencies are up and its retry is due,
      but a one-shot service only if it never was. A service that is up, may be restarted and has a probe is probed
      when its probe is due; the third failure in a row restarts it if its policy is Always or a probe succeeded since
      the last restart. */
  ghost function Rule(spec: ServiceSpec, launch: ServiceRuntime, h: seq<Event>, t: nat,
                      depsUp: bool, spawnOk: bool, probeOk: bool): seq<Event>
  {
    if !Up(launch.started, h) then
      var once := spec.policy == OneShot && (launch.attempted || Spawns(h) > 0);
      if depsUp && t >= RetryDue(h) && !once then [Spawned(t, spawnOk)] else []
    else if spec.policy != OneShot && spec.probe != NoProbe && t >= ProbeDue(h) then
      [Probed(t, probeOk)]
      + if !probeOk && Fails(h) == 2 && (spec.policy == Always || Healthy(h)) then [Restarted(t)] else []
    else []
  }

  // ----- the table summarises the history -----

  ghost predicate Reflects(launch: ServiceRuntime, rt: ServiceRuntime, h: seq<Event>) {
    && (rt.started <==> Up(launch.started, h))
    && (rt.attempted <==> launch.attempted || Spawns(h) > 0)
    && rt.nextProbe == ProbeDue(h) && rt.nextRetry == RetryDue(h)
  }

  lemma ReflectsEvent(launch: ServiceRuntime, h: seq<Event>, e: Event)
    ensures Up(launch.started, h + [e]) <==> if e.Spawned? then e.ok else e.Probed? && Up(launch.started, h)
    ensures Spawns(h + [e]) == Spawns(h) + if e.Spawned? then 1 else 0
    ensures ProbeDue(h + [e]) == if e.Probed? then e.tick + 10 else ProbeDue(h)
    ensures RetryDue(h + [e]) == if e.Restarted? then e.tick + 10 else RetryDue(h)
  {
    assert (h + [e])[..|h|] == h;
  }

  /** A step against the table is the rule applied to the history, and the table stays its summary. */
  lemma StepIsRule(spec: ServiceSpec, launch: ServiceRuntime, rt: ServiceRuntime, h: seq<Event>, t: nat,
                   depsUp: bool, spawnOk: bool, probeOk: bool)
    requires t + INTERVAL <= USIZE_MAX && Reflects(launch, rt, h) && Summary(spec.policy, rt, h)
    ensures var (rt', es) := Step(spec, rt, t, depsUp, spawnOk, probeOk);
            && es == Rule(spec, launch, h, t, depsUp, spawnOk, probeOk)
            && Reflects(launch, rt', h + es)
  {
    hide Up, Spawns, ProbeDue, RetryDue, Fails, Healthy;
    var (rt', es) := Step(spec, rt, t, depsUp, spawnOk, probeOk);
    if es == [] {
      assert h + es == h;
    } else {
      ReflectsEvent(launch, h, es[0]);
      if |es| == 1 {
        assert h + es == h + [es[0]];
      } else {
        ReflectsEvent(launch, h + [es[0]], es[1]);
        assert h + es == h + [es[0]] + [es[1]];
      }
    }
  }

  /** In every run the table is the summary of the history. */
  lemma {:induction false} RunReflects(specs: seq<ServiceSpec>, w: World, n: nat,
                                       spawn: (nat, nat) -> bool, probe: (nat, nat) -> bool, i: nat)
    requires JustLaunched(specs, w) && i < |specs| && n + INTERVAL <= USIZE_MAX
    ensures var v := Run(specs, w, n, spawn, probe); Reflects(w.runtime[i], v.runtime[i], v.history[i])
  {
    hide Step, Run, TickWorld, Inv, Reflects;
    if n == 0 {
      LaunchReflects(specs, w, spawn, probe, i);
    } else {
      RunReflects(specs, w, n - 1, spawn, probe, i);
      TickByRule(specs, w, n - 1, spawn, probe, i);
    }
  }

  lemma LaunchReflects(specs: seq<ServiceSpec>, w: World, spawn: (nat, nat) -> bool, probe: (nat, nat) -> bool, i: nat)
    requires JustLaunched(specs, w) && i < |specs|
    ensures var v := Run(specs, w, 0, spawn, probe); Reflects(w.runtime[i], v.runtime[i], v.history[i])
  {}

  lemma TickByRule(specs: seq<ServiceSpec>, w: World, n: nat, spawn: (nat, nat) -> bool, probe: (nat, nat) -> bool, i: nat)
    requires JustLaunched(specs, w) && i < |specs| && n + 1 + INTERVAL <= USIZE_MAX
    requires var v := Run(specs, w, n, spawn, probe); Reflects(w.runtime[i], v.runtime[i], v.history[i])
    ensures var u, v := Run(specs, w, n, spawn, probe), Run(specs, w, n + 1, spawn, probe);
            && v.history[i] == u.history[i] + Rule(specs[i], w.runtime[i], u.history[i], n + 1, DepsUp(specs[i], u.runtime),
                                                   spawn(n + 1, i), probe(n + 1, i))
            && Reflects(w.runtime[i], v.runtime[i], v.history[i])
  {
    hide Step, Run, TickWorld, Rule, Reflects, Summary, RestartRule, Spaced, Pending, DepsUp;
    RunInv(specs, w, n, spawn, probe, i);
    RunStep(specs, w, n + 1, spawn, probe, i);
    var u := Run(specs, w, n, spawn, probe);
    StepIsRule(specs[i], w.runtime[i], u.runtime[i], u.history[i], n + 1, DepsUp(specs[i], u.runtime),
               spawn(n + 1, i), probe(n + 1, i));
  }

  // ----- whole runs from histories -----

  /** All dependencies of a service are up, judged by their histories. */
  ghost predicate DepsUpBy(spec: ServiceSpec, launch: seq<ServiceRuntime>, hs: seq<seq<Event>>)
    requires |launch| == |hs|
  {
    forall d: nat | d in Bits(spec.depMask) :: d < |hs| && Up(launch[d].started, hs[d])
  }

  /** The histories after ticks 1..n of a system that keeps nothing but its histories. */
  ghost function Chronicles(specs: seq<ServiceSpec>, launch: seq<ServiceRuntime>, n: nat,
                            spawn: (nat, nat) -> bool, probe: (nat, nat) -> bool): (hs: seq<seq<Event>>)
    requires |specs| == |launch|
    ensures |hs| == |specs|
  {
    if n == 0 then seq(|specs|, _ => [])
    else
      var hs := Chronicles(specs, launch, n - 1, spawn, probe);
      seq(|specs|, i requires 0 <= i < |specs| =>
        hs[i] + Rule(specs[i], launch[i], hs[i], n, DepsUpBy(specs[i], launch, hs), spawn(n, i), probe(n, i)))
  }

  /** The supervisor with its counters, flags and due ticks does exactly what the rule of supervision says of the
      histories, for every service at every tick. */
  lemma {:induction false} RunIsChronicle(specs: seq<ServiceSpec>, w: World, n: nat,
                                          spawn: (nat, nat) -> bool, probe: (nat, nat) -> bool)
    requires JustLaunched(specs, w) && n + INTERVAL <= USIZE_MAX
    ensures Run(specs, w, n, spawn, probe).history == Chronicles(specs, w.runtime, n, spawn, probe)
    ensures forall i | 0 <= i < |specs| ::
              Run(specs, w, n, spawn, probe).runtime[i].started <==>
              Up(w.runtime[i].started, Chronicles(specs, w.runtime, n, spawn, probe)[i])
  {
    hide Step, Run, TickWorld, Rule, DepsUp, DepsUpBy, Up;
    var hs, v := Chronicles(specs, w.runtime, n, spawn, probe), Run(specs, w, n, spawn, probe);
    if n > 0 { RunIsChronicle(specs, w, n - 1, spawn, probe); }
    forall i | 0 <= i < |specs|
      ensures v.history[i] == hs[i]
    {
      if n == 0 {
        NothingYet(specs, w, spawn, probe, i);
      } else {
        var u := Run(specs, w, n - 1, spawn, probe);
        RunReflects(specs, w, n - 1, spawn, probe, i);
        TickByRule(specs, w, n - 1, spawn, probe, i);
        SameDeps(specs[i], w.runtime, u);
      }
    }
    forall i | 0 <= i < |specs|
      ensures v.runtime[i].started <==> Up(w.runtime[i].started, hs[i])
    {
      RunReflects(specs, w, n, spawn, probe, i);
    }
  }

  lemma NothingYet(specs: seq<ServiceSpec>, w: World, spawn: (nat, nat) -> bool, probe: (nat, nat) -> bool, i: nat)
    requires JustLaunched(specs, w) && i < |specs|
    ensures Run(specs, w, 0, spawn, probe).history[i] == []
  {}

  lemma SameDeps(spec: ServiceSpec, launch: seq<ServiceRuntime>, u: World)
    requires |launch| == |u.runtime| == |u.history|
    requires forall i | 0 <= i < |launch| :: u.runtime[i].started <==> Up(launch[i].started, u.history[i])
    ensures DepsUp(spec, u.runtime) <==> DepsUpBy(spec, launch, u.history)
  {
    hide Up, Bits;
  }

  // ----- what must happen -----

  /** A probe happened after tick n, no later than m, with the outcome it met. */
  ghost predicate ProbedWithin(h: seq<Event>, probe: (nat, nat) -> bool, i: nat, n: nat, m: nat) {
    exists t :: n < t <= m && Probed(t, probe(t, i)) in h
  }

  lemma ProbedKept(h: seq<Event>, es: seq<Event>, probe: (nat, nat) -> bool, i: nat, n: nat, m: nat)
    requires n < m && (ProbedWithin(h, probe, i, n, m - 1) || Probed(m, probe(m, i)) in es)
    ensures ProbedWithin(h + es, probe, i, n, m)
  {
    if ProbedWithin(h, probe, i, n, m - 1) {
      var t :| n < t <= m - 1 && Probed(t, probe(t, i)) in h;
      assert Probed(t, probe(t, i)) in h + es;
    } else {
      assert Probed(m, probe(m, i)) in h + es;
    }
  }

  ghost predicate Probeable(spec: ServiceSpec) {
    spec.policy != OneShot && spec.probe != NoProbe
  }

  /** A tick probes a service that is up as soon as its probe is due, and not before. */
  lemma ProbeWhenDue(spec: ServiceSpec, rt: ServiceRuntime, t: nat, depsUp: bool, spawnOk: bool, probeOk: bool)
    requires rt.started && Probeable(spec)
    ensures var (rt', es) := Step(spec, rt, t, depsUp, spawnOk, probeOk);
            if rt.nextProbe <= t then Probed(t, probeOk) in es else es == [] && rt' == rt
  {}

  lemma {:induction false} ProbeProgress(specs: seq<ServiceSpec>, w: World, n: nat, m: nat,
                                         spawn: (nat, nat) -> bool, probe: (nat, nat) -> bool, i: nat)
    requires JustLaunched(specs, w) && i < |specs| && n <= m <= n + 10 && m + INTERVAL <= USIZE_MAX
    requires Probeable(specs[i]) && forall t | n <= t < m :: Run(specs, w, t, spawn, probe).runtime[i].started
    ensures var v := Run(specs, w, m, spawn, probe);
            || ProbedWithin(v.history[i], probe, i, n, m)
            || (v.runtime[i].nextProbe <= n + 10 && (m == n || m < v.runtime[i].nextProbe))
    decreases m
  {
    hide Inv, Step, DepsUp, ProbedWithin, Run, TickWorld, Probeable;
    RunFacts(specs, w, n, spawn, probe, i);
    if m > n {
      ProbeProgress(specs, w, n, m - 1, spawn, probe, i);
      RunStep(specs, w, m, spawn, probe, i);
      var u := Run(specs, w, m - 1, spawn, probe);
      assert u.runtime[i].started;
      ProbeWhenDue(specs[i], u.runtime[i], m, DepsUp(specs[i], u.runtime), spawn(m, i), probe(m, i));
      var es := Step(specs[i], u.runtime[i], m, DepsUp(specs[i], u.runtime), spawn(m, i), probe(m, i)).1;
      if ProbedWithin(u.history[i], probe, i, n, m - 1) || u.runtime[i].nextProbe <= m {
        ProbedKept(u.history[i], es, probe, i, n, m);
      }
    }
  }

  /** A service that can be restarted and has a probe is probed at least once in any ten ticks that it is up. */
  lemma ProbedEveryTen(specs: seq<ServiceSpec>, w: World, n: nat,
                       spawn: (nat, nat) -> bool, probe: (nat, nat) -> bool, i: nat)
    requires JustLaunched(specs, w) && i < |specs| && n + 10 + INTERVAL <= USIZE_MAX && Probeable(specs[i])
    requires forall t | n <= t < n + 10 :: Run(specs, w, t, spawn, probe).runtime[i].started
    ensures ProbedWithin(Run(specs, w, n + 10, spawn, probe).history[i], probe, i, n, n + 10)
  {
    hide Run, ProbedWithin;
    ProbeProgress(specs, w, n, n + 10, spawn, probe, i);
  }

  /** While its probes succeed, a service stays up and, once probed, counts as healthy. */
  lemma {:induction false} GoodProbesKeepUp(specs: seq<ServiceSpec>, w: World, n: nat, m: nat,
                                            spawn: (nat, nat) -> bool, probe: (nat, nat) -> bool, i: nat)
    requires JustLaunched(specs, w) && i < |specs| && n <= m && m + INTERVAL <= USIZE_MAX
    requires Run(specs, w, n, spawn, probe).runtime[i].started && forall t | n < t <= m :: probe(t, i)
    ensures var v := Run(specs, w, m, spawn, probe);
            && v.runtime[i].started
            && (ProbedWithin(v.history[i], probe, i, n, m) ==> v.runtime[i].healthyOnce)
    decreases m
  {
    hide Step, DepsUp, ProbedWithin, Run, TickWorld, Inv;
    if m == n {
      NotProbedYet(Run(specs, w, n, spawn, probe).history[i], probe, i, n);
    } else {
      GoodProbesKeepUp(specs, w, n, m - 1, spawn, probe, i);
      RunStep(specs, w, m, spawn, probe, i);
      var u := Run(specs, w, m - 1, spawn, probe);
      assert probe(m, i);
      EventsArePast(specs, w, m - 1, spawn, probe, i);
      GoodProbe(specs[i], u.runtime[i], u.history[i], m, DepsUp(specs[i], u.runtime), spawn(m, i), probe, i, n);
    }
  }

  lemma EventsArePast(specs: seq<ServiceSpec>, w: World, n: nat,
                      spawn: (nat, nat) -> bool, probe: (nat, nat) -> bool, i: nat)
    requires JustLaunched(specs, w) && i < |specs| && n + INTERVAL <= USIZE_MAX
    ensures forall e | e in Run(specs, w, n, spawn, probe).history[i] :: e.tick <= n
  {
    hide Run, Summary, RestartRule, Spaced;
    RunInv(specs, w, n, spawn, probe, i);
    var v := Run(specs, w, n, spawn, probe);
    forall e | e in v.history[i]
      ensures e.tick <= n
    {
      var a :| 0 <= a < |v.history[i]| && v.history[i][a] == e;
      assert Pending(v.runtime[i], v.history[i], n, a);
    }
  }

  lemma NotProbedYet(h: seq<Event>, probe: (nat, nat) -> bool, i: nat, n: nat)
    ensures !ProbedWithin(h, probe, i, n, n)
  {}

  lemma GoodProbe(spec: ServiceSpec, rt: ServiceRuntime, h: seq<Event>, m: nat, depsUp: bool, spawnOk: bool,
                  probe: (nat, nat) -> bool, i: nat, n: nat)
    requires rt.started && n < m && probe(m, i) && (forall e | e in h :: e.tick < m)
    requires ProbedWithin(h, probe, i, n, m - 1) ==> rt.healthyOnce
    ensures var (rt', es) := Step(spec, rt, m, depsUp, spawnOk, true);
            rt'.started && (ProbedWithin(h + es, probe, i, n, m) ==> rt'.healthyOnce)
  {
    var (rt', es) := Step(spec, rt, m, depsUp, spawnOk, true);
    if ProbedWithin(h + es, probe, i, n, m) {
      var t :| n < t <= m && Probed(t, probe(t, i)) in h + es;
      if Probed(t, probe(t, i)) in h { assert ProbedWithin(h, probe, i, n, m - 1); }
    }
  }

  /** Detection without any assumption on the supervisor's own state: a service that is up at tick n, answers its probes
      for ten ticks and then fails them is taken down for a restart within the next thirty. */
  lemma FailureAfterHealth(specs: seq<ServiceSpec>, w: World, n: nat,
                           spawn: (nat, nat) -> bool, probe: (nat, nat) -> bool, i: nat)
    requires JustLaunched(specs, w) && i < |specs| && n + 40 + INTERVAL <= USIZE_MAX && Probeable(specs[i])
    requires Run(specs, w, n, spawn, probe).runtime[i].started
    requires forall t | n < t <= n + 10 :: probe(t, i)
    requires forall t | n + 10 < t <= n + 40 :: !probe(t, i)
    ensures RestartedAfter(Run(specs, w, n + 40, spawn, probe).history[i], n + 10)
  {
    hide Run, ProbedWithin, RestartedAfter;
    forall t | n <= t <= n + 10
      ensures Run(specs, w, t, spawn, probe).runtime[i].started
    {
      GoodProbesKeepUp(specs, w, n, t, spawn, probe, i);
    }
    ProbedEveryTen(specs, w, n, spawn, probe, i);
    GoodProbesKeepUp(specs, w, n, n + 10, spawn, probe, i);
    DetectionBound(specs, w, n + 10, spawn, probe, i);
  }

  /** A one-shot service is spawned at most once in a run, and never if the launch had already tried it. */
  lemma {:induction false} OneShotOnce(specs: seq<ServiceSpec>, w: World, n: nat,
                                       spawn: (nat, nat) -> bool, probe: (nat, nat) -> bool, i: nat)
    requires JustLaunched(specs, w) && i < |specs| && n + INTERVAL <= USIZE_MAX && specs[i].policy == OneShot
    ensures var h := Run(specs, w, n, spawn, probe).history[i];
            Spawns(h) <= (if w.runtime[i].attempted then 0 else 1) && |h| == Spawns(h)
  {
    hide Run, Up, TickWorld, DepsUp, Reflects;
    if n == 0 {
      NothingYet(specs, w, spawn, probe, i);
    } else {
      OneShotOnce(specs, w, n - 1, spawn, probe, i);
      RunReflects(specs, w, n - 1, spawn, probe, i);
      TickByRule(specs, w, n - 1, spawn, probe, i);
      var h, h' := Run(specs, w, n - 1, spawn, probe).history[i], Run(specs, w, n, spawn, probe).history[i];
      if |h'| == |h| {
        assert h' == h;
      } else {
        assert h'[..|h|] == h;
      }
    }
  }

  lemma {:induction false} OnlySpawns(h: seq<Event>)
    ensures Spawns(h) <= |h| && (Spawns(h) == |h| ==> forall e | e in h :: e.Spawned?)
  {
    if h != [] { OnlySpawns(h[..|h| - 1]); }
  }
}
