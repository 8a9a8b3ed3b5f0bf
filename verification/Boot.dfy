/** Init from configuration text to the supervised system. */
module Boot {
  import opened Services
  import opened Masks
  import opened BootConfig
  import opened Graph
  import L = Launch
  import S = Supervisor
  import C = Closure
  import R = Reordering
  import H = Chronicle

  /** Resolved masks fit the 32-bit field and name only services of the table. */
  lemma ResolvedFits(specs: seq<ServiceSpec>)
    requires |specs| <= MAX_SERVICES
    ensures forall i | 0 <= i < |specs| :: Resolved(specs)[i].depMask < Pow2(32)
    ensures InRange(L.DepsOf(Resolved(specs)))
  {
    hide Bits, Bit, MaskOf, LowestIndex, Pow2;
    R.ResolvedInRange(specs);
    forall i | 0 <= i < |specs|
      ensures Resolved(specs)[i].depMask < Pow2(32)
    {
      MaskDenotes(specs, specs[i].depNames);
      Pow2Monotone(|specs|, 32);
    }
  }

  /** For a parsed configuration whose spawns always have the same outcome, everything comes up exactly when every
      spawn succeeds and the named dependencies form no cycle. */
  lemma EverythingUpIff(config: string, spawn: (nat, nat) -> bool, ok: nat -> bool, log: seq<Attempt>, starts: seq<nat>)
    requires var deps := L.DepsOf(Resolved(Parsed(config)));
             && Orderly(deps, log) && L.Answered(spawn, log)
             && L.InPasses(log, starts) && Exhausted(deps, log, L.LastPass(log, starts))
    requires forall k, i :: spawn(k, i) == ok(i)
    ensures var deps := L.DepsOf(Resolved(Parsed(config)));
            (forall i | 0 <= i < |deps| :: i in Started(log)) <==> Acyclic(deps) && forall i | 0 <= i < |deps| :: ok(i)
  {
    hide Parsed, Orderly, Exhausted, Acyclic, IsLeast, Resolved;
    R.ResolvedInRange(Parsed(config));
    L.LaunchReachesLeast(L.DepsOf(Resolved(Parsed(config))), spawn, ok, log, starts);
  }

  /** The world that a launch leaves: the table with the launch's marks, and nothing observed yet. */
  ghost function LaunchedWorld(n: nat, log: seq<Attempt>): (w: S.World)
    ensures |w.runtime| == |w.history| == n
    ensures forall i | 0 <= i < n :: w.runtime[i] == L.Launched(EMPTY_RUNTIME, i, log) && w.history[i] == []
  {
    S.World(seq(n, i requires 0 <= i < n => L.Launched(EMPTY_RUNTIME, i, log)), seq(n, _ => []))
  }

  /** Whatever the outcomes of the spawns, the launched world is one a supervised run can begin in, and every started
      service has its dependencies started. */
  lemma LaunchedIsClosed(specs: seq<ServiceSpec>, log: seq<Attempt>)
    requires Orderly(L.DepsOf(specs), log) && InRange(L.DepsOf(specs))
    ensures var w := LaunchedWorld(|specs|, log);
            && S.JustLaunched(specs, w) && C.DependencyClosed(specs, w)
            && (forall i | 0 <= i < |specs| :: w.runtime[i].started <==> i in Started(log))
            && (forall i | 0 <= i < |specs| :: w.runtime[i].attempted <==> Tried(log, i))
  {
    hide Orderly, Bits, LaunchedWorld;
    var deps, w := L.DepsOf(specs), LaunchedWorld(|specs|, log);
    forall i, d | 0 <= i < |specs| && w.runtime[i].started && d in Bits(specs[i].depMask)
      ensures d < |specs| && w.runtime[d].started
    {
      StartedAfterDeps(deps, log, i);
      assert d in deps[i];
    }
  }

  /** The launch attempted service i, with whatever outcome. */
  ghost predicate Tried(log: seq<Attempt>, i: nat) {
    Attempt(i, true) in log || Attempt(i, false) in log
  }

  /** A one-shot service that the launch attempted is left alone by the supervisor for good; one that it did not attempt
      is spawned at most once. */
  lemma OneShotAfterLaunch(specs: seq<ServiceSpec>, log: seq<Attempt>, n: nat,
                           spawn: (nat, nat) -> bool, probe: (nat, nat) -> bool, i: nat)
    requires Orderly(L.DepsOf(specs), log) && InRange(L.DepsOf(specs))
    requires n + S.INTERVAL <= USIZE_MAX && i < |specs| && specs[i].policy == OneShot
    ensures S.JustLaunched(specs, LaunchedWorld(|specs|, log))
    ensures var h := S.Run(specs, LaunchedWorld(|specs|, log), n, spawn, probe).history[i];
            |h| <= (if Tried(log, i) then 0 else 1) && forall e | e in h :: e.Spawned?
  {
    hide Orderly, InRange, LaunchedWorld, S.Run, H.Spawns, Tried;
    LaunchedIsClosed(specs, log);
    H.OneShotOnce(specs, LaunchedWorld(|specs|, log), n, spawn, probe, i);
    H.OnlySpawns(S.Run(specs, LaunchedWorld(|specs|, log), n, spawn, probe).history[i]);
  }

  lemma StartedAfterDeps(deps: Deps, log: seq<Attempt>, i: nat)
    requires Orderly(deps, log) && i in Started(log)
    ensures i < |deps| && deps[i] <= Started(log)
  {
    var k :| 0 <= k < |log| && log[k] == Attempt(i, true);
    assert OrderlyAt(deps, log, k);
    assert Started(log[..k]) <= Started(log);
  }

  lemma TableIsLaunched(runtime: seq<ServiceRuntime>, log: seq<Attempt>, count: nat)
    requires count <= |runtime| && L.TableIs(runtime, seq(|runtime|, _ => EMPTY_RUNTIME), log)
    ensures S.World(runtime[..count], seq(count, _ => [])) == LaunchedWorld(count, log)
  {
    var w := LaunchedWorld(count, log);
    assert runtime[..count] == w.runtime;
    assert seq(count, _ => []) == w.history;
  }

  /** `_start` and the first n rounds of the supervisor loop: the configuration is parsed and resolved, launched in
      dependency order, and the launched world is run for n ticks. `launch` answers the spawns of the launch, `spawn`
      and `probe` those of the supervisor. */
  method Start(config: string, launch: (nat, nat) -> bool, n: nat, spawn: (nat, nat) -> bool, probe: (nat, nat) -> bool)
    returns (specs: array<ServiceSpec>, count: nat, runtime: array<ServiceRuntime>,
             history: seq<seq<S.Event>>, ghost log: seq<Attempt>, ghost starts: seq<nat>)
    requires n + S.INTERVAL <= USIZE_MAX
    ensures count <= specs.Length == runtime.Length == MAX_SERVICES && |history| == count
    ensures specs[..count] == Resolved(Parsed(config))
    ensures Orderly(L.DepsOf(specs[..count]), log) && L.Answered(launch, log)
    ensures L.InPasses(log, starts) && Exhausted(L.DepsOf(specs[..count]), log, L.LastPass(log, starts))
    ensures S.JustLaunched(specs[..count], LaunchedWorld(count, log))
    ensures C.DependencyClosed(specs[..count], LaunchedWorld(count, log))
    ensures forall i | 0 <= i < count :: LaunchedWorld(count, log).runtime[i].started <==> i in Started(log)
    ensures S.World(runtime[..count], history) == S.Run(specs[..count], LaunchedWorld(count, log), n, spawn, probe)
    ensures forall i | 0 <= i < count :: S.Inv(specs[i].policy, runtime[i], history[i], n)
  {
    hide Parsed, Orderly, Exhausted, S.Inv, L.DepsOf, Pow2, MaskOf, S.TickWorld, L.Answered, LaunchedWorld, L.TableIs,
         S.JustLaunched, C.DependencyClosed, S.Run, InRange, Resolved, L.InPasses;
    specs := new ServiceSpec[MAX_SERVICES](_ => EMPTY_SPEC);
    runtime := new ServiceRuntime[MAX_SERVICES](_ => EMPTY_RUNTIME);
    count := ParseBootGraph(config, specs);
    ResolvedFits(Parsed(config));
    ghost var table := specs[..count];
    assert forall i | 0 <= i < count :: specs[i] == table[i];
    assert runtime[..] == seq(MAX_SERVICES, _ => EMPTY_RUNTIME);
    log, starts := L.LaunchGraph(specs, count, runtime, launch);
    TableIsLaunched(runtime[..], log, count);
    ghost var w := LaunchedWorld(count, log);
    LaunchedIsClosed(table, log);
    assert runtime[..][..count] == runtime[..count];
    history := S.Supervise(specs, count, runtime, n, spawn, probe);
    forall i | 0 <= i < count
      ensures S.Inv(specs[i].policy, runtime[i], history[i], n)
    {
      S.RunInv(table, w, n, spawn, probe, i);
    }
  }
}
