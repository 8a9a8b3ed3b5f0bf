/** Process creation and exit: the pid counter, the lifecycle table, the endpoint table and the process table. */
module Processes {
  import opened Bytes
  import Ipc

  datatype ProcessState = Created | Ready | Running | Exited | Faulted

  datatype Kernel = Kernel(nextPid: nat, life: map<nat, ProcessState>, endpoints: Ipc.Table, procs: set<nat>)

  const BOOT := Kernel(1, map[], map[], {})

  /** `Spawn(ok)` is spawn_app or spawn_app_from_elf, `ok` telling whether the task could be created. */
  datatype Op =
    | Spawn(ok: bool)
    | Exit(pid: nat)
    | Send(from: nat, to: nat, data: seq<byte>)
    | Recv(pid: nat)

  function Step(k: Kernel, op: Op): Kernel {
    match op
    case Spawn(ok) =>
      var pid := k.nextPid;
      Kernel((pid + 1) % U64,
             k.life[pid := if ok then Ready else Created],
             Ipc.Step(k.endpoints, Ipc.Init(pid)).0,
             if ok then k.procs + {pid} else k.procs)
    case Exit(pid) => Kernel(k.nextPid, k.life - {pid}, Ipc.Step(k.endpoints, Ipc.Cleanup(pid)).0, k.procs - {pid})
    case Send(from, to, data) => k.(endpoints := Ipc.Step(k.endpoints, Ipc.Send(from, to, data)).0)
    case Recv(pid) => k.(endpoints := Ipc.Step(k.endpoints, Ipc.Recv(pid)).0)
  }

  function Run(ops: seq<Op>): Kernel {
    if ops == [] then BOOT else Step(Run(ops[..|ops| - 1]), ops[|ops| - 1])
  }

  /** Spawns attempted so far. */
  function Spawns(ops: seq<Op>): nat {
    if ops == [] then 0 else Spawns(ops[..|ops| - 1]) + if ops[|ops| - 1].Spawn? then 1 else 0
  }

  datatype Fate = Unborn | Up | Stillborn | Gone

  /** What became of the p-th spawn (pids are handed out 1, 2, 3, ...), read off the operations alone. */
  ghost function FateOf(p: nat, ops: seq<Op>): Fate {
    if ops == [] then Unborn
    else
      var before := FateOf(p, ops[..|ops| - 1]);
      match ops[|ops| - 1]
      case Spawn(ok) =>
        if p == 1 + Spawns(ops[..|ops| - 1]) then (if ok then Up else Stillborn) else before
      case Exit(pid) => if pid == p && before != Unborn then Gone else before
      case _ => before
  }

  /** How the three tables show a fate: a running process is Ready and listed, a failed spawn stays Created and
      unlisted but keeps its endpoint, and what is unborn or gone is nowhere. */
  ghost predicate Shows(k: Kernel, p: nat, fate: Fate) {
    && (p in k.life <==> fate.Up? || fate.Stillborn?)
    && (p in k.endpoints <==> p in k.life)
    && (p in k.procs <==> fate.Up?)
    && (p in k.life ==> k.life[p] == if fate.Up? then Ready else Created)
  }

  /** In every run below pid overflow the tables agree with each other and with what happened. */
  lemma {:induction false} TablesAgree(ops: seq<Op>, p: nat)
    requires 1 + Spawns(ops) < U64
    ensures Run(ops).nextPid == 1 + Spawns(ops)
    ensures Shows(Run(ops), p, FateOf(p, ops))
    ensures FateOf(p, ops) == Unborn <==> !(1 <= p <= Spawns(ops))
  {
    if ops != [] {
      TablesAgree(ops[..|ops| - 1], p);
    }
  }

  /** Pids are never reused: the next pid handed out is new, and a pid that was handed out stays taken. */
  lemma {:induction false} NeverReused(ops: seq<Op>, more: seq<Op>, p: nat)
    requires 1 + Spawns(ops + more) < U64
    ensures Spawns(ops) <= Spawns(ops + more)
    ensures FateOf(p, ops) != Unborn ==> FateOf(p, ops + more) != Unborn && Run(ops + more).nextPid != p
    ensures FateOf(p, ops) == Gone ==> FateOf(p, ops + more) == Gone
  {
    TablesAgree(ops + more, p);
    if more == [] {
      assert ops + more == ops;
    } else {
      var n := |more| - 1;
      assert (ops + more)[..|ops| + n] == ops + more[..n];
      NeverReused(ops, more[..n], p);
      TablesAgree(ops + more[..n], p);
    }
  }

  /** Whatever happens after a process exited, a send to its pid fails. */
  lemma ExitedIsUnreachable(ops: seq<Op>, p: nat, more: seq<Op>, from: nat, data: seq<byte>)
    requires FateOf(p, ops) != Unborn && 1 + Spawns(ops + [Exit(p)] + more) < U64
    ensures Ipc.Step(Run(ops + [Exit(p)] + more).endpoints, Ipc.Send(from, p, data)).1 == Ipc.Refused
  {
    var exited := ops + [Exit(p)];
    assert exited[..|ops|] == ops;
    NeverReused(exited, more, p);
    TablesAgree(exited + more, p);
  }

  // ----- message queues within process runs -----

  /** The endpoint operations that process operations perform. */
  ghost function Project(ops: seq<Op>): seq<Ipc.Op> {
    if ops == [] then []
    else
      var rest := ops[..|ops| - 1];
      Project(rest) + [match ops[|ops| - 1]
                       case Spawn(_) => Ipc.Init(1 + Spawns(rest))
                       case Exit(pid) => Ipc.Cleanup(pid)
                       case Send(from, to, data) => Ipc.Send(from, to, data)
                       case Recv(pid) => Ipc.Recv(pid)]
  }

  /** Process runs are endpoint runs, so queue conservation holds for every process from spawn to exit. */
  lemma {:induction false} QueuesConserved(ops: seq<Op>, p: nat)
    requires 1 + Spawns(ops) < U64
    ensures Run(ops).endpoints == Ipc.Run(map[], Project(ops)).0
    ensures var outs := Ipc.Run(map[], Project(ops)).1;
            p in Run(ops).endpoints ==>
              Ipc.Accepted(p, Project(ops), outs) == Ipc.Delivered(p, Project(ops), outs) + Run(ops).endpoints[p]
  {
    hide Ipc.Accepted, Ipc.Delivered, Ipc.Step, FateOf, Shows;
    if ops != [] {
      var rest := ops[..|ops| - 1];
      QueuesConserved(rest, p);
      TablesAgree(rest, p);
      assert Project(ops)[..|Project(ops)| - 1] == Project(rest);
    }
    Ipc.Conservation(Project(ops), p);
  }

  // ----- the kernel's own code -----

  /** The kernel's globals: NEXT_PID, LIFECYCLE_TABLE, PROCESS_TABLE and the endpoint table. */
  class ProcessTables {
    var nextPid: nat
    var lifecycle: map<nat, ProcessState>
    var processTable: set<nat>
    const ipc: Ipc.IpcManager

    ghost function View(): Kernel
      reads this, ipc
    {
      Kernel(nextPid, lifecycle, ipc.View(), processTable)
    }

    constructor ()
      ensures fresh(ipc) && View() == BOOT
    {
      nextPid, lifecycle, processTable := 1, map[], {};
      ipc := new Ipc.IpcManager();
    }

    method AllocatePid() returns (pid: nat)
      modifies this`nextPid
      ensures pid == old(nextPid) && nextPid == (pid + 1) % U64
    {
      pid := nextPid;
      nextPid := (nextPid + 1) % U64;
    }

    method TransitionState(pid: nat, state: ProcessState)
      modifies this`lifecycle
      ensures lifecycle == if pid in old(lifecycle) then old(lifecycle)[pid := state] else old(lifecycle)
    {
      if pid in lifecycle {
        lifecycle := lifecycle[pid := state];
      }
    }

    /** `spawn_app`: reports pid 0 when no task could be created. */
    method SpawnApp(taskCreated: bool) returns (spawned: nat)
      modifies this, ipc
      ensures View() == Step(old(View()), Spawn(taskCreated))
      ensures spawned == if taskCreated then old(nextPid) else 0
    {
      var pid := AllocatePid();
      lifecycle := lifecycle[pid := Created];
      ipc.InitProcess(pid);
      spawned := if taskCreated then pid else 0;
      if taskCreated {
        processTable := processTable + {spawned};
        TransitionState(spawned, Ready);
      }
    }

    /** The exit system call of process `pid`. */
    method ExitProcess(pid: nat)
      modifies this, ipc
      ensures View() == Step(old(View()), Exit(pid))
    {
      TransitionState(pid, Exited);
      ipc.CleanupProcess(pid);
      processTable := processTable - {pid};
      lifecycle := lifecycle - {pid};
    }
  }
}
