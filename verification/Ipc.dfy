/** The kernel's message queues: one endpoint per process in a global table. */
module Ipc {
  import opened Options
  import opened Bytes

  datatype Payload = Payload(message: seq<byte>, sender: nat)
  type Table = map<nat, seq<Payload>>

  /** An atomic operation on the table (each holds the table's lock throughout), and its result. */
  datatype Op =
    | Init(pid: nat)
    | Send(from: nat, to: nat, data: seq<byte>)
    | Recv(pid: nat)
    | Cleanup(pid: nat)

  datatype Outcome = Done | Refused | Received(payload: Payload)

  function Step(t: Table, op: Op): (Table, Outcome) {
    match op
    case Init(pid) => (t[pid := []], Done)
    case Send(from, to, data) =>
      if to in t then (t[to := t[to] + [Payload(data, from)]], Done) else (t, Refused)
    case Recv(pid) =>
      if pid in t && t[pid] != [] then (t[pid := t[pid][1..]], Received(t[pid][0])) else (t, Refused)
    case Cleanup(pid) => (t - {pid}, Done)
  }

  /** The table and the outcomes after a sequence of operations, in any interleaving of processes. */
  function Run(t: Table, ops: seq<Op>): (r: (Table, seq<Outcome>))
    ensures |r.1| == |ops|
  {
    if ops == [] then (t, [])
    else
      var (t1, outs) := Run(t, ops[..|ops| - 1]);
      var (t2, out) := Step(t1, ops[|ops| - 1]);
      (t2, outs + [out])
  }

  // ----- what an observer of the operations expects of one endpoint -----

  /** Payloads accepted for p since its last Init, oldest first; none while p has no endpoint. */
  ghost function Accepted(p: nat, ops: seq<Op>, outs: seq<Outcome>): seq<Payload>
    requires |ops| == |outs|
  {
    if ops == [] then []
    else
      var n := |ops| - 1;
      var rest := Accepted(p, ops[..n], outs[..n]);
      match ops[n]
      case Init(pid) => if pid == p then [] else rest
      case Cleanup(pid) => if pid == p then [] else rest
      case Send(from, to, data) => if to == p && outs[n].Done? then rest + [Payload(data, from)] else rest
      case Recv(_) => rest
  }

  /** Payloads handed to p since its last Init, oldest first. */
  ghost function Delivered(p: nat, ops: seq<Op>, outs: seq<Outcome>): seq<Payload>
    requires |ops| == |outs|
  {
    if ops == [] then []
    else
      var n := |ops| - 1;
      var rest := Delivered(p, ops[..n], outs[..n]);
      match ops[n]
      case Init(pid) => if pid == p then [] else rest
      case Cleanup(pid) => if pid == p then [] else rest
      case Recv(pid) => if pid == p && outs[n].Received? then rest + [outs[n].payload] else rest
      case Send(_, _, _) => rest
  }

  /** p's endpoint exists: it was initialised and not cleaned up since. */
  ghost predicate Live(p: nat, ops: seq<Op>) {
    ops != [] &&
    var op := ops[|ops| - 1];
    if op.Init? && op.pid == p then true
    else if op.Cleanup? && op.pid == p then false
    else Live(p, ops[..|ops| - 1])
  }

  /** In every interleaving, an endpoint exists exactly between its Init and its Cleanup, and what was accepted for
      it equals what it handed out followed by what it still holds: nothing lost, duplicated, reordered or altered,
      and nothing from any other endpoint. */
  lemma {:induction false} Conservation(ops: seq<Op>, p: nat)
    ensures var (t, outs) := Run(map[], ops);
            && (p in t <==> Live(p, ops))
            && (p in t ==> Accepted(p, ops, outs) == Delivered(p, ops, outs) + t[p])
  {
    if ops != [] {
      var n := |ops| - 1;
      var (t, outs) := Run(map[], ops[..n]);
      Conservation(ops[..n], p);
      var outs' := Run(map[], ops).1;
      assert outs'[..n] == outs;
      match ops[n]
      case Recv(pid) =>
        if pid == p && p in t && t[p] != [] {
          assert t[p] == [t[p][0]] + t[p][1..];
        }
      case _ =>
    }
  }

  /** A send succeeds exactly when its target's endpoint exists, a receive exactly when something accepted is
      still undelivered. */
  lemma OutcomesExact(ops: seq<Op>, op: Op)
    ensures var (t, outs) := Run(map[], ops);
            var out := Step(t, op).1;
            && (op.Send? ==> (out.Done? <==> Live(op.to, ops)))
            && (op.Recv? ==> (out.Received? <==> Live(op.pid, ops) && Delivered(op.pid, ops, outs) != Accepted(op.pid, ops, outs)))
            && (op.Recv? && out.Received? ==>
                  Delivered(op.pid, ops, outs) + [out.payload] <= Accepted(op.pid, ops, outs))
  {
    hide Accepted, Delivered, Live, Run;
    if op.Send? { Conservation(ops, op.to); }
    if op.Recv? { Conservation(ops, op.pid); }
  }

  // ----- the manager -----

  class IpcManager {
    var endpoints: Option<Table>

    ghost function View(): Table
      reads this
    {
      if endpoints.None? then map[] else endpoints.value
    }

    constructor ()
      ensures View() == map[]
    {
      endpoints := None;
    }

    method InitProcess(pid: nat)
      modifies this
      ensures View() == Step(old(View()), Init(pid)).0
    {
      if endpoints.None? {
        endpoints := Some(map[]);
      }
      endpoints := Some(endpoints.value[pid := []]);
    }

    /** The capability argument is ignored, as in the kernel. */
    method SendMsg(fromPid: nat, to: nat, data: seq<byte>) returns (ok: bool)
      modifies this
      ensures (View(), if ok then Done else Refused) == Step(old(View()), Send(fromPid, to, data))
    {
      var payload := Payload(data, fromPid);
      if endpoints.Some? && to in endpoints.value {
        endpoints := Some(endpoints.value[to := endpoints.value[to] + [payload]]);
        return true;
      }
      return false;
    }

    /** Copies as much of the oldest payload as fits; the rest of that payload is gone. */
    method RecvMsg(pid: nat, buf: array<byte>) returns (len: Option<nat>, sender: nat)
      modifies this, buf
      ensures var (t, out) := Step(old(View()), Recv(pid));
              && View() == t && (len.Some? <==> out.Received?)
              && (len.Some? ==>
                    && len.value == (if |out.payload.message| < buf.Length then |out.payload.message| else buf.Length)
                    && buf[..len.value] == out.payload.message[..len.value] && sender == out.payload.sender)
      ensures forall i | 0 <= i < buf.Length && (len.Some? ==> len.value <= i) :: buf[i] == old(buf[i])
    {
      if endpoints.Some? && pid in endpoints.value && endpoints.value[pid] != [] {
        var payload := endpoints.value[pid][0];
        endpoints := Some(endpoints.value[pid := endpoints.value[pid][1..]]);
        var n := if |payload.message| < buf.Length then |payload.message| else buf.Length;
        forall i | 0 <= i < n {
          buf[i] := payload.message[i];
        }
        return Some(n), payload.sender;
      }
      return None, 0;
    }

    method CleanupProcess(pid: nat)
      modifies this
      ensures View() == Step(old(View()), Cleanup(pid)).0
    {
      if endpoints.Some? {
        endpoints := Some(endpoints.value - {pid});
      }
    }
  }
}
