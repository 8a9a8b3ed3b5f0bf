/** The kernel's dependency graph of services. */
module Scheduler {
  import opened Bytes
  import opened Graph
  import Launch

  datatype ServiceState = Pending | Starting | Running | Failed

  datatype ServiceNode = ServiceNode(id: nat, name: seq<byte>, deps: seq<nat>, state: ServiceState)

  /** Ids are positions and every dependency is a node. */
  ghost predicate WellFormed(nodes: seq<ServiceNode>) {
    forall i | 0 <= i < |nodes| :: nodes[i].id == i && forall d | d in nodes[i].deps :: d < |nodes|
  }

  ghost function DepsOf(nodes: seq<ServiceNode>): (deps: Deps)
    ensures |deps| == |nodes|
    ensures forall i | 0 <= i < |nodes| :: deps[i] == set d | d in nodes[i].deps
  {
    seq(|nodes|, i requires 0 <= i < |nodes| => set d | d in nodes[i].deps)
  }

  predicate DepsRunning(nodes: seq<ServiceNode>, i: nat)
    requires i < |nodes|
  {
    forall d | d in nodes[i].deps :: d < |nodes| && nodes[d].state == Running
  }

  /** Pending, with every dependency running. */
  predicate IsReady(nodes: seq<ServiceNode>, i: nat)
    requires i < |nodes|
  {
    nodes[i].state == Pending && DepsRunning(nodes, i)
  }

  /** Without cycles and with nothing starting or failed, some pending service is ready. */
  lemma SomethingIsReady(nodes: seq<ServiceNode>, p: nat)
    requires WellFormed(nodes) && Acyclic(DepsOf(nodes))
    requires forall i | 0 <= i < |nodes| :: nodes[i].state == Pending || nodes[i].state == Running
    requires p < |nodes| && nodes[p].state == Pending
    ensures exists i: nat :: i < |nodes| && IsReady(nodes, i)
  {
    var u := set i: nat | i < |nodes| && nodes[i].state == Pending;
    var deps := DepsOf(nodes);
    assert p in u;
    if forall i: nat | i < |nodes| :: !IsReady(nodes, i) {
      forall i | i in u
        ensures NeedsMember(deps, u, i)
      {
        assert !IsReady(nodes, i);
        var d :| d in nodes[i].deps && nodes[d].state != Running;
        assert d in deps[i] && d in u;
      }
      StuckMeansCycle(deps, u);
    }
  }

  /** What a driver has done so far, read off the nodes: running and failed nodes are exactly the completed attempts,
      in an order that respects dependencies, and what is starting has its dependencies running. */
  ghost predicate Recorded(nodes: seq<ServiceNode>, log: seq<Attempt>) {
    && Orderly(DepsOf(nodes), log)
    && (forall i: nat | i < |nodes| ::
          && (nodes[i].state == Running <==> Attempt(i, true) in log)
          && (nodes[i].state == Failed <==> Attempt(i, false) in log))
    && (forall i: nat | i < |nodes| && nodes[i].state == Starting :: DepsRunning(nodes, i))
  }

  ghost function RunningSet(nodes: seq<ServiceNode>): set<nat> {
    set i: nat | i < |nodes| && nodes[i].state == Running
  }

  function Marked(nodes: seq<ServiceNode>, i: nat, state: ServiceState): (r: seq<ServiceNode>)
    requires i < |nodes|
    ensures |r| == |nodes| && forall k | 0 <= k < |nodes| :: r[k] == if k == i then nodes[i].(state := state) else nodes[k]
  {
    nodes[i := nodes[i].(state := state)]
  }

  /** Marking changes no edge. */
  lemma MarkedGraph(nodes: seq<ServiceNode>, i: nat, state: ServiceState)
    requires i < |nodes| && WellFormed(nodes)
    ensures DepsOf(Marked(nodes, i, state)) == DepsOf(nodes) && WellFormed(Marked(nodes, i, state))
  {
    var nodes' := Marked(nodes, i, state);
    forall k | 0 <= k < |nodes|
      ensures DepsOf(nodes')[k] == DepsOf(nodes)[k]
    {}
  }

  /** Starting a ready node keeps the record. */
  lemma BeginRecorded(nodes: seq<ServiceNode>, log: seq<Attempt>, i: nat)
    requires WellFormed(nodes) && Recorded(nodes, log) && i < |nodes| && IsReady(nodes, i)
    ensures Recorded(Marked(nodes, i, Starting), log)
  {
    hide Orderly, DepsOf;
    MarkedGraph(nodes, i, Starting);
  }

  /** Completing a starting node extends the record by that attempt. */
  lemma CompleteRecorded(nodes: seq<ServiceNode>, log: seq<Attempt>, i: nat, ok: bool)
    requires WellFormed(nodes) && Recorded(nodes, log) && i < |nodes| && nodes[i].state == Starting
    ensures Recorded(Marked(nodes, i, if ok then Running else Failed), log + [Attempt(i, ok)])
  {
    hide Orderly;
    var a := Attempt(i, ok);
    MarkedGraph(nodes, i, if ok then Running else Failed);
    assert DepsRunning(nodes, i);
    assert DepsOf(nodes)[i] <= Started(log) && i !in Started(log);
    Launch.OrderlyExtend(DepsOf(nodes), log, a);
    assert forall x :: x in log + [a] <==> x in log || x == a;
  }

  /** Nothing is ready and nothing is starting: the driver has nothing left to do. */
  ghost predicate Quiet(nodes: seq<ServiceNode>) {
    forall i: nat | i < |nodes| :: !IsReady(nodes, i) && nodes[i].state != Starting
  }

  lemma RunningIsStarted(nodes: seq<ServiceNode>, log: seq<Attempt>)
    requires Recorded(nodes, log)
    ensures Started(log) == RunningSet(nodes)
  {
    forall i | i in Started(log)
      ensures i in RunningSet(nodes)
    {
      var k :| 0 <= k < |log| && log[k] == Attempt(i, true);
      assert OrderlyAt(DepsOf(nodes), log, k);
    }
  }

  lemma QuietIsExhausted(nodes: seq<ServiceNode>, log: seq<Attempt>)
    requires WellFormed(nodes) && Recorded(nodes, log) && Quiet(nodes)
    ensures Exhausted(DepsOf(nodes), log, log)
  {
    hide Orderly;
    RunningIsStarted(nodes, log);
    var deps := DepsOf(nodes);
    forall i | 0 <= i < |deps| && i !in Started(log) && deps[i] <= Started(log)
      ensures Attempt(i, false) in log
    {
      assert !IsReady(nodes, i);
      forall d | d in nodes[i].deps
        ensures nodes[d].state == Running
      {
        assert d in deps[i];
      }
    }
  }

  /** When nothing is left to do, the running set is the least set closed under starting. */
  lemma DriverReachesLeast(nodes: seq<ServiceNode>, log: seq<Attempt>, ok: nat -> bool)
    requires WellFormed(nodes) && Recorded(nodes, log) && Fixed(ok, log) && Quiet(nodes)
    ensures IsLeast(DepsOf(nodes), ok, RunningSet(nodes))
  {
    hide Orderly, Exhausted, Recorded, Fixed, IsLeast;
    QuietIsExhausted(nodes, log);
    RunningIsStarted(nodes, log);
    RecordedIsOrderly(nodes, log);
    ExhaustedIsLeast(DepsOf(nodes), ok, log, log);
  }

  lemma RecordedIsOrderly(nodes: seq<ServiceNode>, log: seq<Attempt>)
    requires Recorded(nodes, log)
    ensures Orderly(DepsOf(nodes), log)
  {}

  // ----- arbitrary drivers -----

  /** A driver and the ids that get_ready_services has returned to it so far. */
  datatype Driver = Driver(nodes: seq<ServiceNode>, held: set<nat>)

  /** What a driver does next: ask for ready services, start one it was told about, or report one that it started. */
  datatype Move = Query | Begin(i: nat) | Complete(i: nat)

  ghost predicate Enabled(s: Driver, m: Move) {
    match m
    case Query => true
    case Begin(i) => i in s.held && i < |s.nodes| && s.nodes[i].state == Pending
    case Complete(i) => i < |s.nodes| && s.nodes[i].state == Starting
  }

  ghost function Next(s: Driver, m: Move, ok: nat -> bool): Driver
    requires Enabled(s, m)
  {
    match m
    case Query => s.(held := s.held + set i: nat | i < |s.nodes| && IsReady(s.nodes, i))
    case Begin(i) => s.(nodes := Marked(s.nodes, i, Starting))
    case Complete(i) => s.(nodes := Marked(s.nodes, i, if ok(i) then Running else Failed))
  }

  /** Any interleaving of such moves, from an untouched graph. */
  ghost predicate IsDriverRun(states: seq<Driver>, moves: seq<Move>, ok: nat -> bool) {
    && |states| == |moves| + 1
    && states[0].held == {} && (forall i | 0 <= i < |states[0].nodes| :: states[0].nodes[i].state == Pending)
    && forall k | 0 <= k < |moves| :: Enabled(states[k], moves[k]) && states[k + 1] == Next(states[k], moves[k], ok)
  }

  /** The driver's state agrees with a log of its completions, and what it holds is ready until it starts it. */
  ghost predicate Tracks(s: Driver, deps: Deps, log: seq<Attempt>, ok: nat -> bool) {
    && WellFormed(s.nodes) && DepsOf(s.nodes) == deps && Recorded(s.nodes, log) && Fixed(ok, log)
    && forall i | i in s.held :: i < |s.nodes| && (s.nodes[i].state == Pending ==> IsReady(s.nodes, i))
  }

  lemma ReadyKept(nodes: seq<ServiceNode>, i: nat, state: ServiceState, k: nat)
    requires i < |nodes| && k < |nodes| && nodes[i].state != Running && IsReady(nodes, k) && k != i
    ensures IsReady(Marked(nodes, i, state), k)
  {}

  lemma TracksNext(s: Driver, deps: Deps, log: seq<Attempt>, ok: nat -> bool, m: Move)
    requires Tracks(s, deps, log, ok) && Enabled(s, m)
    ensures exists log' :: Tracks(Next(s, m, ok), deps, log', ok)
  {
    hide Orderly, Recorded, IsReady, WellFormed, DepsOf;
    var s' := Next(s, m, ok);
    var log' := if m.Complete? then log + [Attempt(m.i, ok(m.i))] else log;
    if m.Begin? || m.Complete? {
      var state := if m.Begin? then Starting else if ok(m.i) then Running else Failed;
      MarkedGraph(s.nodes, m.i, state);
      if m.Begin? { BeginRecorded(s.nodes, log, m.i); } else { CompleteRecorded(s.nodes, log, m.i, ok(m.i)); }
      forall k | k in s.held && s'.nodes[k].state == Pending
        ensures IsReady(s'.nodes, k)
      {
        ReadyKept(s.nodes, m.i, state, k);
      }
    }
    assert Tracks(s', deps, log', ok);
  }

  lemma {:induction false} RunTracks(states: seq<Driver>, moves: seq<Move>, ok: nat -> bool, k: nat)
    requires IsDriverRun(states, moves, ok) && k <= |moves| && WellFormed(states[0].nodes)
    ensures exists log :: Tracks(states[k], DepsOf(states[0].nodes), log, ok)
  {
    hide Tracks, Next, Enabled;
    if k == 0 {
      TracksBegin(states[0], ok);
    } else {
      var j := k - 1;
      RunTracks(states, moves, ok, j);
      var log :| Tracks(states[j], DepsOf(states[0].nodes), log, ok);
      assert Enabled(states[j], moves[j]) && states[j + 1] == Next(states[j], moves[j], ok);
      TracksNext(states[j], DepsOf(states[0].nodes), log, ok, moves[j]);
    }
  }

  lemma TracksBegin(s: Driver, ok: nat -> bool)
    requires WellFormed(s.nodes) && s.held == {} && forall i | 0 <= i < |s.nodes| :: s.nodes[i].state == Pending
    ensures Tracks(s, DepsOf(s.nodes), [], ok)
  {}

  /** Every driver that starts only services it was told about, with starts and completions overlapping in any way, is
      at the least fixpoint when it has nothing left to do, and then everything has completed exactly when the graph
      has no cycle and every service that another depends on can be spawned. */
  lemma EveryDriverReachesLeast(states: seq<Driver>, moves: seq<Move>, ok: nat -> bool)
    requires IsDriverRun(states, moves, ok) && WellFormed(states[0].nodes)
    ensures var nodes := states[|moves|].nodes;
            DepsOf(nodes) == DepsOf(states[0].nodes)
    ensures var nodes := states[|moves|].nodes;
            Quiet(nodes) ==>
              && IsLeast(DepsOf(nodes), ok, RunningSet(nodes))
              && (Completed(nodes) <==> Acyclic(DepsOf(nodes)) && NeededSpawn(DepsOf(nodes), ok))
  {
    hide Next, Enabled, Quiet, Completed, Acyclic, IsLeast, Recorded, WellFormed, NeededSpawn;
    RunTracks(states, moves, ok, |moves|);
    var nodes := states[|moves|].nodes;
    var log :| Tracks(states[|moves|], DepsOf(states[0].nodes), log, ok);
    if Quiet(nodes) {
      DriverReachesLeast(nodes, log, ok);
      CompletedIff(nodes, log, ok);
    }
  }

  /** `all_completed`, as a property of the nodes. */
  predicate Completed(nodes: seq<ServiceNode>) {
    forall i | 0 <= i < |nodes| :: nodes[i].state == Running || nodes[i].state == Failed
  }

  /** Every service that another one depends on can be spawned. */
  ghost predicate NeededSpawn(deps: Deps, ok: nat -> bool) {
    forall i, d | 0 <= i < |deps| && d in deps[i] :: ok(d)
  }

  /** For a driver with nothing left to do, "all completed" says that nothing is stuck behind a failure or a cycle. */
  lemma CompletedIff(nodes: seq<ServiceNode>, log: seq<Attempt>, ok: nat -> bool)
    requires WellFormed(nodes) && Recorded(nodes, log) && Fixed(ok, log) && Quiet(nodes)
    ensures Completed(nodes) <==> Acyclic(DepsOf(nodes)) && NeededSpawn(DepsOf(nodes), ok)
  {
    var deps := DepsOf(nodes);
    if Completed(nodes) {
      AttemptedIsAcyclic(nodes, log);
      forall i, d | 0 <= i < |deps| && d in deps[i]
        ensures ok(d)
      {
        DependencyRan(nodes, log, i, d);
        var k :| 0 <= k < |log| && log[k] == Attempt(d, true);
      }
    } else if NeededSpawn(deps, ok) {
      PendingIsStuck(nodes, log, ok);
      var p :| 0 <= p < |nodes| && nodes[p].state == Pending;
      assert p in PendingSet(nodes);
      StuckMeansCycle(deps, PendingSet(nodes));
    }
  }

  ghost function PendingSet(nodes: seq<ServiceNode>): set<nat> {
    set i: nat | i < |nodes| && nodes[i].state == Pending
  }

  /** A completed service had its dependencies running. */
  lemma DependencyRan(nodes: seq<ServiceNode>, log: seq<Attempt>, i: nat, d: nat)
    requires Recorded(nodes, log) && i < |nodes| && d in DepsOf(nodes)[i]
    requires nodes[i].state == Running || nodes[i].state == Failed
    ensures Attempt(d, true) in log
  {
    var k :| 0 <= k < |log| && log[k].service == i;
    assert OrderlyAt(DepsOf(nodes), log, k);
    assert d in Started(log[..k]);
  }

  lemma AttemptedIsAcyclic(nodes: seq<ServiceNode>, log: seq<Attempt>)
    requires WellFormed(nodes) && Recorded(nodes, log) && Completed(nodes)
    ensures Acyclic(DepsOf(nodes))
  {
    hide WellFormed;
    var deps := DepsOf(nodes);
    forall w: seq<nat> | |w| > 1 && IsWalk(deps, w)
      ensures w[0] != w[|w| - 1]
    {
      if w[0] == w[|w| - 1] {
        // the last step of the walk ran, so it is up; going round again takes it strictly back in time
        var n := |w| - 1;
        assert w[n] in deps[w[n - 1]];
        DependencyRan(nodes, log, w[n - 1], w[n]);
        var a :| 0 <= a < |log| && log[a] == Attempt(w[0], true);
        assert OrderlyAt(deps, log, a);
        WalkGoesBack(deps, log, w, a);
      }
    }
  }

  lemma PendingIsStuck(nodes: seq<ServiceNode>, log: seq<Attempt>, ok: nat -> bool)
    requires WellFormed(nodes) && Recorded(nodes, log) && Fixed(ok, log) && Quiet(nodes)
    requires NeededSpawn(DepsOf(nodes), ok)
    ensures Stuck(DepsOf(nodes), PendingSet(nodes))
  {
    hide Orderly;
    var deps, u := DepsOf(nodes), PendingSet(nodes);
    forall i | i in u
      ensures NeedsMember(deps, u, i)
    {
      assert !IsReady(nodes, i);
      var d :| d in nodes[i].deps && nodes[d].state != Running;
      assert d in deps[i] && ok(d);
      assert d in u;
    }
  }

  /** With the same graph and the same outcomes, a driver of the kernel graph ends with exactly the services running
      that init's launcher starts. */
  lemma DriverAgreesWithLauncher(nodes: seq<ServiceNode>, ok: nat -> bool, spawn: (nat, nat) -> bool,
                                 log: seq<Attempt>, starts: seq<nat>)
    requires IsLeast(DepsOf(nodes), ok, RunningSet(nodes))
    requires Orderly(DepsOf(nodes), log) && Launch.Answered(spawn, log)
    requires Launch.InPasses(log, starts) && Exhausted(DepsOf(nodes), log, Launch.LastPass(log, starts))
    requires forall k, i :: spawn(k, i) == ok(i)
    ensures RunningSet(nodes) == Started(log)
  {
    Launch.LaunchReachesLeast(DepsOf(nodes), spawn, ok, log, starts);
    LeastUnique(DepsOf(nodes), ok, RunningSet(nodes), Started(log));
  }

  class DependencyGraph {
    var nodes: seq<ServiceNode>

    constructor ()
      ensures nodes == []
    {
      nodes := [];
    }

    method AddService(name: seq<byte>) returns (id: nat)
      requires WellFormed(nodes)
      modifies this
      ensures WellFormed(nodes) && id == |old(nodes)|
      ensures nodes == old(nodes) + [ServiceNode(id, name[..if |name| < 32 then |name| else 32], [], Pending)]
    {
      id := |nodes|;
      nodes := nodes + [ServiceNode(id, name[..if |name| < 32 then |name| else 32], [], Pending)];
    }

    /** Unknown ids are ignored. */
    method AddDependency(service: nat, dep: nat)
      requires WellFormed(nodes)
      modifies this
      ensures WellFormed(nodes)
      ensures nodes == if service < |old(nodes)| && dep < |old(nodes)|
                       then old(nodes)[service := old(nodes)[service].(deps := old(nodes)[service].deps + [dep])]
                       else old(nodes)
    {
      if service < |nodes| && dep < |nodes| {
        nodes := nodes[service := nodes[service].(deps := nodes[service].deps + [dep])];
      }
    }

    /** All ready services, each once, in table order. */
    method GetReadyServices() returns (ready: seq<nat>)
      requires WellFormed(nodes)
      ensures forall i: nat :: i in ready <==> i < |nodes| && IsReady(nodes, i)
      ensures forall a, b | 0 <= a < b < |ready| :: ready[a] < ready[b]
    {
      ready := [];
      var k := 0;
      while k < |nodes|
        invariant 0 <= k <= |nodes|
        invariant forall i: nat :: i in ready <==> i < k && IsReady(nodes, i)
        invariant forall a, b | 0 <= a < b < |ready| :: ready[a] < ready[b]
        invariant forall a | 0 <= a < |ready| :: ready[a] < k
      {
        var node := nodes[k];
        if node.state == Pending && forall d | d in node.deps :: d < |nodes| && nodes[d].state == Running {
          ready := ready + [node.id];
        }
        k := k + 1;
      }
    }

    /** `mark_starting`, `mark_running` and `mark_failed`. */
    method Mark(id: nat, state: ServiceState)
      requires WellFormed(nodes)
      modifies this
      ensures WellFormed(nodes) && |nodes| == |old(nodes)|
      ensures nodes == if id < |old(nodes)| then Marked(old(nodes), id, state) else old(nodes)
    {
      if id < |nodes| {
        nodes := nodes[id := nodes[id].(state := state)];
      }
    }

    method AllCompleted() returns (done: bool)
      ensures done <==> Completed(nodes)
    {
      done := forall i | 0 <= i < |nodes| :: nodes[i].state == Running || nodes[i].state == Failed;
    }

    /** A driver that, as `choose` decides, starts a ready service or completes one of those it has started, so that
        starts overlap in any order. It ends at the least fixpoint, and `all_completed` then tells whether the graph
        has no cycle and every service that another depends on can be spawned. */
    method Drive(ok: nat -> bool, choose: nat -> (bool, nat)) returns (done: bool)
      requires WellFormed(nodes) && forall i | 0 <= i < |nodes| :: nodes[i].state == Pending
      modifies this
      ensures WellFormed(nodes) && DepsOf(nodes) == old(DepsOf(nodes)) && Quiet(nodes)
      ensures IsLeast(DepsOf(nodes), ok, RunningSet(nodes))
      ensures done <==> Acyclic(DepsOf(nodes)) && NeededSpawn(DepsOf(nodes), ok)
    {
      hide Acyclic, Orderly, IsLeast, IsReady, Recorded, DepsOf, Work, RunningSet, WellFormed, NeededSpawn, Completed,
           ListsStarting, Marked;
      ghost var log: seq<Attempt> := [];
      RecordedNone(nodes);
      ListsNone(nodes);
      var starting: seq<nat> := [];
      var ready := GetReadyServices();
      var turn := 0;
      while ready != [] || starting != []
        invariant WellFormed(nodes) && DepsOf(nodes) == old(DepsOf(nodes))
        invariant Recorded(nodes, log) && Fixed(ok, log)
        invariant forall i: nat :: i in ready <==> i < |nodes| && IsReady(nodes, i)
        invariant ListsStarting(starting, nodes)
        decreases Work(nodes)
      {
        var (begin, j) := choose(turn);
        turn := turn + 1;
        if ready != [] && (begin || starting == []) {
          var i := ready[j % |ready|];
          assert i in ready;
          ReadyIsPending(nodes, i);
          BeginRecorded(nodes, log, i);
          MarkedGraph(nodes, i, Starting);
          WorkDrops(nodes, i, Starting);
          ListsBegin(starting, nodes, i);
          Mark(i, Starting);
          starting := starting + [i];
        } else {
          var at := j % |starting|;
          var i := starting[at];
          var state := if ok(i) then Running else Failed;
          ListsComplete(starting, nodes, at, state);
          CompleteRecorded(nodes, log, i, ok(i));
          MarkedGraph(nodes, i, state);
          WorkDrops(nodes, i, state);
          Mark(i, state);
          log := log + [Attempt(i, ok(i))];
          starting := starting[..at] + starting[at + 1..];
        }
        ready := GetReadyServices();
      }
      ListsNothing(nodes);
      DriverReachesLeast(nodes, log, ok);
      CompletedIff(nodes, log, ok);
      done := AllCompleted();
    }
  }

  lemma ReadyIsPending(nodes: seq<ServiceNode>, i: nat)
    requires i < |nodes| && IsReady(nodes, i)
    ensures nodes[i].state == Pending
  {}

  /** s lists the nodes being started, each once. */
  ghost predicate ListsStarting(s: seq<nat>, nodes: seq<ServiceNode>) {
    && (forall i: nat :: i in s <==> i < |nodes| && nodes[i].state == Starting)
    && (forall a, b | 0 <= a < b < |s| :: s[a] != s[b])
  }

  lemma ListsNone(nodes: seq<ServiceNode>)
    requires forall i | 0 <= i < |nodes| :: nodes[i].state == Pending
    ensures ListsStarting([], nodes)
  {}

  lemma ListsBegin(s: seq<nat>, nodes: seq<ServiceNode>, i: nat)
    requires ListsStarting(s, nodes) && i < |nodes| && nodes[i].state != Starting
    ensures ListsStarting(s + [i], Marked(nodes, i, Starting))
  {
    assert forall x :: x in s + [i] <==> x in s || x == i;
  }

  lemma ListsComplete(s: seq<nat>, nodes: seq<ServiceNode>, at: nat, state: ServiceState)
    requires ListsStarting(s, nodes) && at < |s| && state != Starting
    ensures s[at] < |nodes| && nodes[s[at]].state == Starting
    ensures ListsStarting(s[..at] + s[at + 1..], Marked(nodes, s[at], state))
  {
    assert s[at] in s;
    Removed(s, at);
  }

  lemma ListsNothing(nodes: seq<ServiceNode>)
    requires ListsStarting([], nodes) && forall i: nat | i < |nodes| :: !IsReady(nodes, i)
    ensures Quiet(nodes)
  {
    hide IsReady;
    forall i: nat | i < |nodes| ensures nodes[i].state != Starting { assert i !in []; }
  }

  lemma Removed(s: seq<nat>, at: nat)
    requires at < |s| && forall a, b | 0 <= a < b < |s| :: s[a] != s[b]
    ensures var r := s[..at] + s[at + 1..];
            && (forall x :: x in r <==> x in s && x != s[at])
            && (forall a, b | 0 <= a < b < |r| :: r[a] != r[b])
  {
    var r := s[..at] + s[at + 1..];
    assert forall a | 0 <= a < |r| :: r[a] == if a < at then s[a] else s[a + 1];
    forall x | x in s && x != s[at]
      ensures x in r
    {
      var a :| 0 <= a < |s| && s[a] == x;
      assert r[if a < at then a else a - 1] == x;
    }
  }

  lemma RecordedNone(nodes: seq<ServiceNode>)
    requires forall i | 0 <= i < |nodes| :: nodes[i].state == Pending
    ensures Recorded(nodes, [])
  {}

  /** Marks still to come: two for a pending node, one for a starting one. */
  ghost function Work(nodes: seq<ServiceNode>): nat {
    if nodes == [] then 0
    else
      var state := nodes[|nodes| - 1].state;
      Work(nodes[..|nodes| - 1]) + if state == Pending then 2 else if state == Starting then 1 else 0
  }

  lemma {:induction false} WorkDrops(nodes: seq<ServiceNode>, i: nat, state: ServiceState)
    requires i < |nodes|
    requires (nodes[i].state == Pending && state == Starting) ||
             (nodes[i].state == Starting && (state == Running || state == Failed))
    ensures Work(Marked(nodes, i, state)) == Work(nodes) - 1
  {
    var n := |nodes| - 1;
    if i < n {
      assert Marked(nodes, i, state)[..n] == Marked(nodes[..n], i, state);
      WorkDrops(nodes[..n], i, state);
    } else {
      assert Marked(nodes, i, state)[..n] == nodes[..n];
    }
  }

  /** A driver makes at most two marks per service. */
  lemma {:induction false} MarksBounded(states: seq<Driver>, moves: seq<Move>, ok: nat -> bool, k: nat)
    requires IsDriverRun(states, moves, ok) && k <= |moves|
    ensures Marks(moves[..k]) + Work(states[k].nodes) == Work(states[0].nodes) <= 2 * |states[0].nodes|
  {
    hide Work, Marked;
    WorkBound(states[0].nodes);
    if k > 0 {
      var s, m := states[k - 1], moves[k - 1];
      MarksBounded(states, moves, ok, k - 1);
      assert moves[..k][..k - 1] == moves[..k - 1];
      match m
      case Query =>
      case Begin(i) => WorkDrops(s.nodes, i, Starting);
      case Complete(i) => WorkDrops(s.nodes, i, if ok(i) then Running else Failed);
    }
  }

  ghost function Marks(moves: seq<Move>): nat {
    if moves == [] then 0 else Marks(moves[..|moves| - 1]) + if moves[|moves| - 1].Query? then 0 else 1
  }

  lemma {:induction false} WorkBound(nodes: seq<ServiceNode>)
    ensures Work(nodes) <= 2 * |nodes|
  {
    if nodes != [] { WorkBound(nodes[..|nodes| - 1]); }
  }
}
