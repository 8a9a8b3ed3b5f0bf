/** The file service's side of the block protocol: tagged calls over an endpoint that is shared with other
    clients' requests, against a block service that answers in order but arbitrarily late. */
module BlkClient {
  import opened Options
  import opened Bytes
  import opened BlkServer

  const MAX_TRIES: nat := 250
  const TAGGED_BUF_LEN: nat := MAX_IO_BYTES + 32

  /** What one `sys_ipc_recv_timeout` runs into: nothing, another client's request (it carries a reply
      capability), a message too short for a tag, or the oldest undelivered reply of the block service. */
  datatype Arrival = Quiet | Request(cap: nat) | Short(len: nat) | Delivery

  /** Before the k-th receive the block service completes `served` of its queued requests. */
  datatype Moment = Moment(served: nat, arrival: Arrival)

  datatype Received = Timeout | WithCap(cap: nat) | Plain(bytes: seq<byte>)

  /** The id `next_blk_req_id` hands to the call with this index: a 32-bit counter starting at 1. */
  function IdOf(call: nat): nat {
    (1 + call) % U32
  }

  /** Ids repeat exactly every 2^32 calls. */
  lemma IdsCollideIff(a: nat, b: nat)
    requires a <= b
    ensures IdOf(a) == IdOf(b) <==> (b - a) % U32 == 0
  {}

  /** The disk once the service has worked off its queue. */
  ghost function Drain(geo: Geometry, disk: seq<byte>, pending: seq<seq<byte>>): (d: seq<byte>)
    requires DiskOf(geo, disk)
    ensures DiskOf(geo, d)
    decreases |pending|
  {
    if pending == [] then disk else Drain(geo, Serve(geo, disk, pending[0]).0, pending[1..])
  }

  lemma {:induction false} DrainAppend(geo: Geometry, disk: seq<byte>, pending: seq<seq<byte>>, m: seq<byte>)
    requires DiskOf(geo, disk)
    ensures Drain(geo, disk, pending + [m]) == Serve(geo, Drain(geo, disk, pending), m).0
    decreases |pending|
  {
    hide Serve;
    if pending == [] {
      assert [m][1..] == [];
    } else {
      assert (pending + [m])[1..] == pending[1..] + [m];
      DrainAppend(geo, Serve(geo, disk, pending[0]).0, pending[1..], m);
    }
  }

  /** Every reply to a tagged request starts with that request's tag. */
  lemma ReplyEchoesTag(geo: Geometry, disk: seq<byte>, m: seq<byte>)
    requires DiskOf(geo, disk) && |m| >= TAGGED_HDR_LEN
    ensures var r := Serve(geo, disk, m).1; r.Some? && |r.value| >= TAG_LEN && r.value[..4] == m[2..6]
  {
    hide Le, FromLe, ServeRw;
  }

  /** No call from index `calls` on will be given this tag. */
  ghost predicate OldTag(tag: seq<byte>, calls: nat) {
    forall k | calls <= k < U32 :: tag != Le(IdOf(k), 4)
  }

  ghost predicate OnlyOldTags(pending: seq<seq<byte>>, inbox: seq<seq<byte>>, calls: nat) {
    && (forall m | m in pending :: |m| >= TAGGED_HDR_LEN && OldTag(m[2..6], calls))
    && (forall m | m in inbox :: |m| >= TAG_LEN && OldTag(m[..4], calls))
  }

  /** Whatever carries tag `tag`, queued or already answered, leads to the reply `want`. */
  ghost predicate Awaiting(geo: Geometry, disk: seq<byte>, pending: seq<seq<byte>>, inbox: seq<seq<byte>>,
                           tag: seq<byte>, want: seq<byte>)
    requires DiskOf(geo, disk)
  {
    && (forall j | 0 <= j < |pending| :: AwaitingAt(geo, disk, pending, j, tag, want))
    && (forall m | m in inbox :: |m| >= TAG_LEN && (m[..4] == tag ==> m == want))
  }

  ghost predicate AwaitingAt(geo: Geometry, disk: seq<byte>, pending: seq<seq<byte>>, j: nat,
                             tag: seq<byte>, want: seq<byte>)
    requires DiskOf(geo, disk) && j < |pending|
  {
    && |pending[j]| >= TAGGED_HDR_LEN
    && (pending[j][2..6] == tag ==> Serve(geo, Drain(geo, disk, pending[..j]), pending[j]).1 == Some(want))
  }

  lemma AwaitingServe(geo: Geometry, disk: seq<byte>, pending: seq<seq<byte>>, inbox: seq<seq<byte>>,
                      tag: seq<byte>, want: seq<byte>)
    requires DiskOf(geo, disk) && pending != [] && Awaiting(geo, disk, pending, inbox, tag, want)
    ensures var (disk', reply) := Serve(geo, disk, pending[0]);
            reply.Some? && Awaiting(geo, disk', pending[1..], inbox + [reply.value], tag, want)
  {
    hide Serve;
    var (disk', reply) := Serve(geo, disk, pending[0]);
    var rest := pending[1..];
    assert AwaitingAt(geo, disk, pending, 0, tag, want) && pending[..0] == [];
    ReplyEchoesTag(geo, disk, pending[0]);
    forall j | 0 <= j < |rest|
      ensures AwaitingAt(geo, disk', rest, j, tag, want)
    {
      assert AwaitingAt(geo, disk, pending, j + 1, tag, want);
      assert pending[..j + 1][0] == pending[0] && pending[..j + 1][1..] == rest[..j];
    }
  }

  /** A request sent with a tag not in use is the only thing that tag can lead to. */
  lemma AwaitingBegin(geo: Geometry, disk: seq<byte>, pending: seq<seq<byte>>, inbox: seq<seq<byte>>, calls: nat,
                      msg: seq<byte>)
    requires DiskOf(geo, disk) && calls < U32 && OnlyOldTags(pending, inbox, calls)
    requires |msg| >= TAGGED_HDR_LEN && msg[2..6] == Le(IdOf(calls), 4)
    ensures var reply := Serve(geo, Drain(geo, disk, pending), msg).1;
            reply.Some? && Awaiting(geo, disk, pending + [msg], inbox, msg[2..6], reply.value)
  {
    hide Serve, Le, IdOf, Drain;
    var tag, reply := msg[2..6], Serve(geo, Drain(geo, disk, pending), msg).1;
    ReplyEchoesTag(geo, Drain(geo, disk, pending), msg);
    var all := pending + [msg];
    forall j | 0 <= j < |all|
      ensures AwaitingAt(geo, disk, all, j, tag, reply.value)
    {
      if j < |pending| {
        assert pending[j] in pending && all[j] == pending[j];
      } else {
        assert all[..j] == pending;
      }
    }
  }

  lemma NewTagIsOld(calls: nat)
    requires calls < U32
    ensures OldTag(Le(IdOf(calls), 4), calls + 1)
  {
    forall k | calls + 1 <= k < U32
      ensures Le(IdOf(calls), 4) != Le(IdOf(k), 4)
    {
      IdsCollideIff(calls, k);
      Le32RoundTrip(IdOf(calls));
      Le32RoundTrip(IdOf(k));
    }
  }

  /** Capabilities of the other clients' requests that receives a..b-1 run into. */
  ghost function RequestCaps(env: nat -> Moment, a: nat, b: nat): seq<nat>
    requires a <= b
    decreases b - a
  {
    if a == b then []
    else
      var rest := RequestCaps(env, a, b - 1);
      if env(b - 1).arrival.Request? then rest + [env(b - 1).arrival.cap] else rest
  }

  /** Among receives c..d-1, the service gets to run and later (or at once) a reply is let through. */
  ghost predicate Answers(env: nat -> Moment, c: nat, d: nat) {
    exists a | c <= a < d :: env(a).served > 0 && Delivers(env, a, d)
  }

  /** Among receives c..d-1, a reply is let through. */
  ghost predicate Delivers(env: nat -> Moment, c: nat, d: nat) {
    exists b | c <= b < d :: env(b).arrival.Delivery?
  }

  /** A call is answered within n receives from number c on, given that p requests are queued (its own last) and
      r replies are on their way before those. Replies come in order, so its own comes when all others have. */
  ghost predicate WillAnswer(env: nat -> Moment, c: nat, n: nat, p: nat, r: nat)
    decreases n
  {
    n > 0 &&
    var now := env(c);
    var served := if now.served < p then now.served else p;
    var p', r' := p - served, r + served;
    if now.arrival.Delivery? && r' > 0
    then (p' == 0 && r' == 1) || WillAnswer(env, c + 1, n - 1, p', r' - 1)
    else WillAnswer(env, c + 1, n - 1, p', r')
  }

  /** On an idle link, a call is answered exactly when the service runs and a reply gets through in time. */
  lemma {:induction false} IdleAnswers(env: nat -> Moment, c: nat, n: nat)
    ensures WillAnswer(env, c, n, 1, 0) <==> Answers(env, c, c + n)
    decreases n
  {
    hide Answers, Delivers;
    AnswersStep(env, c, c + n);
    DeliversStep(env, c, c + n);
    if n > 0 {
      IdleAnswers(env, c + 1, n - 1);
      ReplyGetsThrough(env, c + 1, n - 1);
    }
  }

  lemma {:induction false} ReplyGetsThrough(env: nat -> Moment, c: nat, n: nat)
    ensures WillAnswer(env, c, n, 0, 1) <==> Delivers(env, c, c + n)
    decreases n
  {
    hide Delivers;
    DeliversStep(env, c, c + n);
    if n > 0 { ReplyGetsThrough(env, c + 1, n - 1); }
  }

  lemma AnswersStep(env: nat -> Moment, c: nat, d: nat)
    ensures Answers(env, c, d) <==> c < d && ((env(c).served > 0 && Delivers(env, c, d)) || Answers(env, c + 1, d))
    ensures Answers(env, c + 1, d) ==> Delivers(env, c + 1, d)
  {
    if c < d && env(c).served > 0 && Delivers(env, c, d) {
      assert c <= c < d;
    }
  }

  lemma DeliversStep(env: nat -> Moment, c: nat, d: nat)
    ensures Delivers(env, c, d) <==> c < d && (env(c).arrival.Delivery? || Delivers(env, c + 1, d))
  {
    if c < d && env(c).arrival.Delivery? {
      assert c <= c < d;
    }
  }

  /** The traffic's newest item is the request with this tag, or its reply; nothing else carries the tag. */
  ghost predicate Newest(pending: seq<seq<byte>>, inbox: seq<seq<byte>>, tag: seq<byte>, want: seq<byte>) {
    && (forall j | 0 <= j < |pending| :: |pending[j]| >= TAGGED_HDR_LEN && (pending[j][2..6] == tag <==> j == |pending| - 1))
    && (forall j | 0 <= j < |inbox| ::
          |inbox[j]| >= TAG_LEN && (inbox[j][..4] == tag <==> pending == [] && j == |inbox| - 1))
    && (pending == [] ==> inbox != [] && inbox[|inbox| - 1] == want)
  }

  lemma NewestServe(geo: Geometry, disk: seq<byte>, pending: seq<seq<byte>>, inbox: seq<seq<byte>>,
                    tag: seq<byte>, want: seq<byte>)
    requires DiskOf(geo, disk) && pending != [] && Awaiting(geo, disk, pending, inbox, tag, want)
    requires Newest(pending, inbox, tag, want)
    ensures var reply := Serve(geo, disk, pending[0]).1;
            reply.Some? && Newest(pending[1..], inbox + [reply.value], tag, want)
  {
    hide Serve;
    assert AwaitingAt(geo, disk, pending, 0, tag, want) && pending[..0] == [];
    ReplyEchoesTag(geo, disk, pending[0]);
  }

  /** Delivering the oldest reply: it is the awaited one exactly when it is all that is left. */
  lemma Popped(geo: Geometry, disk: seq<byte>, pending: seq<seq<byte>>, inbox: seq<seq<byte>>, calls: nat,
               tag: seq<byte>, want: seq<byte>)
    requires DiskOf(geo, disk) && OnlyOldTags(pending, inbox, calls) && inbox != []
    requires Awaiting(geo, disk, pending, inbox, tag, want) && Newest(pending, inbox, tag, want)
    ensures OnlyOldTags(pending, inbox[1..], calls) && Awaiting(geo, disk, pending, inbox[1..], tag, want)
    ensures |inbox[0]| >= TAG_LEN
    ensures if pending == [] && |inbox| == 1 then inbox[0] == want
            else Newest(pending, inbox[1..], tag, want) && inbox[0][..4] != tag
  {
    hide OldTag, AwaitingAt;
  }

  lemma WillAnswerStep(env: nat -> Moment, c: nat, n: nat, p: nat, r: nat, p': nat, r': nat)
    requires n > 0 && p' == p - (if env(c).served < p then env(c).served else p) && r' == r + p - p'
    ensures WillAnswer(env, c, n, p, r) <==>
            if env(c).arrival.Delivery? && r' > 0
            then (p' == 0 && r' == 1) || WillAnswer(env, c + 1, n - 1, p', r' - 1)
            else WillAnswer(env, c + 1, n - 1, p', r')
  {}

  lemma WillAnswerNever(env: nat -> Moment, c: nat, p: nat, r: nat)
    ensures !WillAnswer(env, c, 0, p, r)
  {}

  /** The endpoint of the file service together with the block service it talks to. `env` and `sendOk` are
      the environment's choices for each receive and each call. */
  class BlkLink {
    const geo: Geometry
    const env: nat -> Moment
    const sendOk: nat -> bool
    var disk: seq<byte>            // the service's disk
    var pending: seq<seq<byte>>    // requests the service has not handled yet
    var inbox: seq<seq<byte>>      // replies on their way to the file service
    var reqId: nat                 // BLK_REQ_ID
    var calls: nat                 // calls of blk_call so far
    var clock: nat                 // receives so far
    var refused: seq<nat>          // capabilities answered EAGAIN

    ghost predicate Valid()
      reads this
    {
      && DiskOf(geo, disk)
      && calls <= U32 && reqId == IdOf(calls)
      && OnlyOldTags(pending, inbox, calls)
    }

    /** What the disk holds once everything already sent has been handled. */
    ghost function Contents(): (d: seq<byte>)
      requires DiskOf(geo, disk)
      reads this
      ensures DiskOf(geo, d)
    {
      Drain(geo, disk, pending)
    }

    /** Nothing is in flight. */
    ghost predicate Idle()
      reads this
    {
      pending == [] && inbox == []
    }

    /** Sends succeed, and in any 250 receives the service runs and its reply gets through. */
    ghost predicate Responsive() {
      (forall k :: sendOk(k)) && forall c: nat, d: nat | d == c + MAX_TRIES :: Answers(env, c, d)
    }

    constructor (geo: Geometry, disk: seq<byte>, env: nat -> Moment, sendOk: nat -> bool)
      requires DiskOf(geo, disk)
      ensures Valid() && calls == 0 && Contents() == disk && this.geo == geo
    {
      this.geo, this.env, this.sendOk, this.disk := geo, env, sendOk, disk;
      pending, inbox, reqId, calls, clock, refused := [], [], 1, 0, 0, [];
    }

    /** The service handles up to n queued requests, oldest first. */
    method Progress(n: nat, ghost tag: seq<byte>, ghost want: seq<byte>)
      requires DiskOf(geo, disk) && OnlyOldTags(pending, inbox, calls)
      requires Awaiting(geo, disk, pending, inbox, tag, want) && Newest(pending, inbox, tag, want)
      modifies this`disk, this`pending, this`inbox
      ensures DiskOf(geo, disk) && Contents() == old(Contents()) && OnlyOldTags(pending, inbox, calls)
      ensures Awaiting(geo, disk, pending, inbox, tag, want) && Newest(pending, inbox, tag, want)
      ensures var served := if n < |old(pending)| then n else |old(pending)|;
              |pending| == |old(pending)| - served && |inbox| == |old(inbox)| + served
    {
      hide Serve, OldTag, Awaiting, Newest, DiskOf, OnlyOldTags;
      var k := 0;
      while k < n && pending != []
        invariant 0 <= k <= n && |pending| == |old(pending)| - k && |inbox| == |old(inbox)| + k
        invariant DiskOf(geo, disk) && Contents() == old(Contents()) && OnlyOldTags(pending, inbox, calls)
        invariant Awaiting(geo, disk, pending, inbox, tag, want) && Newest(pending, inbox, tag, want)
      {
        var (disk', reply) := Serve(geo, disk, pending[0]);
        AwaitingServe(geo, disk, pending, inbox, tag, want);
        NewestServe(geo, disk, pending, inbox, tag, want);
        OldTagsServe(geo, disk, pending, inbox, calls);
        disk, pending, inbox := disk', pending[1..], inbox + [reply.value];
        k := k + 1;
      }
    }

    /** `sys_ipc_recv_timeout` on the shared endpoint. */
    method Receive(ghost tag: seq<byte>, ghost want: seq<byte>) returns (m: Received)
      requires DiskOf(geo, disk) && OnlyOldTags(pending, inbox, calls)
      requires Awaiting(geo, disk, pending, inbox, tag, want) && Newest(pending, inbox, tag, want)
      modifies this`disk, this`pending, this`inbox, this`clock
      ensures DiskOf(geo, disk) && Contents() == old(Contents()) && OnlyOldTags(pending, inbox, calls)
      ensures Awaiting(geo, disk, pending, inbox, tag, want)
      ensures clock == old(clock) + 1
      ensures m.WithCap? <==> env(old(clock)).arrival.Request?
      ensures m.WithCap? ==> m.cap == env(old(clock)).arrival.cap
      ensures var now := env(old(clock));
              var served := if now.served < |old(pending)| then now.served else |old(pending)|;
              var replies := |old(inbox)| + served;
              && |pending| == |old(pending)| - served
              && if now.arrival.Delivery? && pending == [] && replies == 1
                 then m == Plain(want) && inbox == []
                 else && Newest(pending, inbox, tag, want)
                      && |inbox| == (if now.arrival.Delivery? && replies > 0 then replies - 1 else replies)
                      && !(m.Plain? && |m.bytes| >= TAG_LEN && m.bytes[..4] == tag)
    {
      hide Serve, OnlyOldTags, Awaiting, Newest, Drain;
      var now := env(clock);
      clock := clock + 1;
      Progress(now.served, tag, want);
      match now.arrival
      case Quiet => m := Timeout;
      case Request(cap) => m := WithCap(cap);
      case Short(len) => m := Plain(seq(len % TAG_LEN, _ => 0));
      case Delivery =>
        if inbox == [] {
          m := Timeout;
        } else {
          Popped(geo, disk, pending, inbox, calls, tag, want);
          m := Plain(inbox[0]);
          inbox := inbox[1..];
        }
    }

    /** The waiting loop of `blk_call`: discard what is late, short or foreign until the reply tagged `id` arrives. */
    method AwaitReply(id: nat, respLen: nat, ghost want: seq<byte>) returns (resp: seq<byte>, ghost answered: bool)
      requires DiskOf(geo, disk) && OnlyOldTags(pending, inbox, calls) && id < U32
      requires |want| >= TAG_LEN && want[..4] == Le(id, 4)
      requires Awaiting(geo, disk, pending, inbox, Le(id, 4), want) && Newest(pending, inbox, Le(id, 4), want)
      modifies this`disk, this`pending, this`inbox, this`clock, this`refused
      ensures DiskOf(geo, disk) && OnlyOldTags(pending, inbox, calls) && Contents() == old(Contents())
      ensures resp == if answered then Prefix(want[TAG_LEN..], respLen) else []
      ensures old(clock) <= clock <= old(clock) + 250
      ensures refused == old(refused) + RequestCaps(env, old(clock), clock)
      ensures answered <==> WillAnswer(env, old(clock), MAX_TRIES, |old(pending)|, |old(inbox)|)
      ensures answered ==> Idle()
    {
      hide Serve, Le, FromLe, OldTag, Awaiting, OnlyOldTags, Drain, Newest, WillAnswer, RequestCaps, Prefix, DiskOf;
      CapsStep(env, clock, clock);
      resp, answered := [], false;
      var tries := 0;
      while tries < MAX_TRIES
        invariant 0 <= tries <= MAX_TRIES && clock == old(clock) + tries
        invariant DiskOf(geo, disk) && Contents() == old(Contents()) && OnlyOldTags(pending, inbox, calls)
        invariant Awaiting(geo, disk, pending, inbox, Le(id, 4), want) && Newest(pending, inbox, Le(id, 4), want)
        invariant refused == old(refused) + RequestCaps(env, old(clock), clock)
        invariant WillAnswer(env, old(clock), MAX_TRIES, |old(pending)|, |old(inbox)|) <==>
                  WillAnswer(env, clock, MAX_TRIES - tries, |pending|, |inbox|)
      {
        CapsStep(env, old(clock), clock);
        ghost var p, r := |pending|, |inbox|;
        var m := Receive(Le(id, 4), want);
        WillAnswerStep(env, clock - 1, MAX_TRIES - tries, p, r, |pending|, r + p - |pending|);
        if m.WithCap? {
          refused := refused + [m.cap];
        }
        if m.Plain? && |m.bytes| >= TAG_LEN { TagRoundTrip(m.bytes[..4], id); }
        if m.Timeout? || m.WithCap? || |m.bytes| < TAG_LEN || FromLe(m.bytes[..4]) != id {
          tries := tries + 1;
          continue;
        }
        answered := true;
        resp := Prefix(m.bytes[TAG_LEN..], respLen);
        return;
      }
      WillAnswerNever(env, clock, |pending|, |inbox|);
    }

    /** `blk_call`: tag the request, send it, and wait for the reply with that tag. `sent` and `answered` tell
        whether the request reached the service and whether its reply was accepted. */
    method BlkCall(req: seq<byte>, respLen: nat) returns (resp: seq<byte>, ghost sent: bool, ghost answered: bool)
      requires Valid() && calls < U32 && |req| >= 2
      modifies this
      ensures Valid() && calls == old(calls) + 1
      ensures sent <==> |req| + 4 <= 4128 && sendOk(old(calls))
      ensures Contents() == if sent then Serve(geo, old(Contents()), Tagged(req, old(reqId))).0 else old(Contents())
      ensures answered ==> sent
      ensures answered ==>
                var reply := Serve(geo, old(Contents()), Tagged(req, old(reqId))).1;
                && reply.Some? && |reply.value| >= TAG_LEN
                && resp == Prefix(reply.value[TAG_LEN..], respLen)
      ensures !answered ==> resp == []
      ensures old(clock) <= clock <= old(clock) + 250
      ensures refused == old(refused) + RequestCaps(env, old(clock), clock)
      ensures sent ==> (answered <==> WillAnswer(env, old(clock), MAX_TRIES, |old(pending)| + 1, |old(inbox)|))
      ensures answered || (!sent && old(Idle())) ==> Idle()
    {
      hide Serve, Le, FromLe, OldTag, Awaiting, IdOf, OnlyOldTags, Drain, WillAnswer, Newest, RequestCaps, Tagged, Prefix;
      resp, sent, answered := [], false, false;
      CapsStep(env, clock, clock);
      OldTagsAge(pending, inbox, calls);
      NextId(calls);
      var id := reqId;
      reqId := (reqId + 1) % U32;
      calls := calls + 1;
      if |req| + TAG_LEN > TAGGED_BUF_LEN {
        return;
      }
      var tagged := req[..2] + Le(id, 4) + req[2..];
      TaggedFrame(req, id);
      if !sendOk(calls - 1) {
        return;
      }
      sent := true;
      CallBegin(geo, disk, pending, inbox, calls - 1, tagged);
      ghost var want := Serve(geo, Contents(), tagged).1.value;
      pending := pending + [tagged];
      resp, answered := AwaitReply(id, respLen, want);
    }

    /** `VirtioBlkDisk::read_sector`. An error code of the service is never as long as a sector, so a true result
        means exactly the sector's bytes as they stood when the call was made. */
    method ReadSector(sector: nat, n: nat) returns (ok: bool, data: seq<byte>)
      requires Valid() && calls < U32 && sector < U64 && 6 < n <= MAX_IO_BYTES
      modifies this
      ensures Valid() && calls == old(calls) + 1 && Contents() == old(Contents())
      ensures ok ==> n % geo.sector == 0 && StartOf(geo, sector) + n <= |Contents()|
      ensures ok ==> data == Contents()[StartOf(geo, sector)..StartOf(geo, sector) + n]
      ensures old(Idle()) && Responsive() ==>
                Idle() && (ok <==> n % geo.sector == 0 && StartOf(geo, sector) + n <= |Contents()|)
    {
      hide Serve, Le, FromLe, Drain, OnlyOldTags, Tagged, ReadReq, WillAnswer, Answers, RequestCaps;
      data := [];
      IdleAnswers(env, clock, MAX_TRIES);
      ReadServed(geo, Contents(), reqId, sector, n);
      ghost var reply := Serve(geo, Contents(), Tagged(ReadReq(sector, n), reqId)).1.value;
      var resp, _, _ := BlkCall(ReadReq(sector, n), MAX_IO_BYTES);
      ok := |resp| == n;
      if ok {
        assert reply[TAG_LEN..] == resp;
        data := resp;
      }
    }

    /** `VirtioBlkDisk::write_sector`. A true result means the sectors were written; after a false one they hold
        either the old bytes or, if the answer was lost, the new ones. Nothing else changes either way. */
    method WriteSector(sector: nat, data: seq<byte>) returns (ok: bool)
      requires Valid() && calls < U32 && sector < U64 && |data| <= MAX_IO_BYTES
      modifies this
      ensures Valid() && calls == old(calls) + 1
      ensures var start := StartOf(geo, sector);
              || (!ok && Contents() == old(Contents()))
              || (&& |data| % geo.sector == 0 && start + |data| <= |old(Contents())|
                  && Contents() == Patch(old(Contents()), start, data))
      ensures |data| > REQ_BUF_LEN - RW_TAGGED_HDR_LEN ==> !ok && Contents() == old(Contents())
      ensures old(Idle()) && Responsive() ==>
                && Idle()
                && (ok <==> && 0 < |data| <= REQ_BUF_LEN - RW_TAGGED_HDR_LEN && |data| % geo.sector == 0
                            && StartOf(geo, sector) + |data| <= |old(Contents())|)
    {
      hide Serve, Le, FromLe, Drain, OnlyOldTags, Tagged, WriteReq, Patch, WillAnswer, Answers, RequestCaps;
      IdleAnswers(env, clock, MAX_TRIES);
      WriteServed(geo, Contents(), reqId, sector, data);
      ghost var reply := Serve(geo, Contents(), Tagged(WriteReq(sector, data), reqId)).1.value;
      var resp, _, _ := BlkCall(WriteReq(sector, data), 8);
      ok := |resp| == 2 && resp[..2] == OK;
      if ok {
        assert reply[TAG_LEN..] == resp;
      }
    }
  }

  function Prefix(s: seq<byte>, n: nat): (r: seq<byte>)
    ensures r <= s && |r| == if |s| <= n then |s| else n
  {
    if |s| <= n then s else s[..n]
  }

  lemma TaggedFrame(req: seq<byte>, id: nat)
    requires |req| >= 2
    ensures Tagged(req, id) == req[..2] + Le(id, 4) + req[2..] && Tagged(req, id)[2..6] == Le(id, 4)
  {
    hide Le;
  }

  lemma CapsStep(env: nat -> Moment, a: nat, b: nat)
    requires a <= b
    ensures RequestCaps(env, a, b + 1) ==
            RequestCaps(env, a, b) + if env(b).arrival.Request? then [env(b).arrival.cap] else []
    ensures RequestCaps(env, a, a) == []
  {}

  lemma OldTagsServe(geo: Geometry, disk: seq<byte>, pending: seq<seq<byte>>, inbox: seq<seq<byte>>, calls: nat)
    requires DiskOf(geo, disk) && pending != [] && OnlyOldTags(pending, inbox, calls)
    ensures var reply := Serve(geo, disk, pending[0]).1;
            reply.Some? && OnlyOldTags(pending[1..], inbox + [reply.value], calls)
  {
    hide Serve, OldTag, DiskOf;
    assert pending[0] in pending;
    ReplyEchoesTag(geo, disk, pending[0]);
  }

  lemma OldTagsAge(pending: seq<seq<byte>>, inbox: seq<seq<byte>>, calls: nat)
    requires OnlyOldTags(pending, inbox, calls)
    ensures OnlyOldTags(pending, inbox, calls + 1)
  {
    hide Le, IdOf;
  }

  lemma NextId(calls: nat)
    ensures IdOf(calls + 1) == (IdOf(calls) + 1) % U32 && IdOf(calls) < U32
  {}

  lemma NewestBegin(pending: seq<seq<byte>>, inbox: seq<seq<byte>>, calls: nat, msg: seq<byte>, reply: Option<seq<byte>>)
    requires calls < U32 && OnlyOldTags(pending, inbox, calls)
    requires |msg| >= TAGGED_HDR_LEN && msg[2..6] == Le(IdOf(calls), 4)
    ensures reply.Some? ==> Newest(pending + [msg], inbox, msg[2..6], reply.value)
  {
    hide Le, IdOf;
    var all := pending + [msg];
    forall j | 0 <= j < |all| - 1
      ensures |all[j]| >= TAGGED_HDR_LEN && all[j][2..6] != msg[2..6]
    {
      assert all[j] in pending;
    }
  }

  lemma CallBegin(geo: Geometry, disk: seq<byte>, pending: seq<seq<byte>>, inbox: seq<seq<byte>>, calls: nat, msg: seq<byte>)
    requires DiskOf(geo, disk) && calls < U32 && OnlyOldTags(pending, inbox, calls)
    requires |msg| >= TAGGED_HDR_LEN && msg[2..6] == Le(IdOf(calls), 4)
    ensures OnlyOldTags(pending + [msg], inbox, calls + 1)
    ensures var (disk', reply) := Serve(geo, Drain(geo, disk, pending), msg);
            && Drain(geo, disk, pending + [msg]) == disk'
            && reply.Some? && |reply.value| >= TAG_LEN && reply.value[..4] == msg[2..6]
            && Awaiting(geo, disk, pending + [msg], inbox, msg[2..6], reply.value)
            && Newest(pending + [msg], inbox, msg[2..6], reply.value)
  {
    hide Serve, Le, IdOf, Awaiting, Drain, OldTag, Newest;
    NewestBegin(pending, inbox, calls, msg, Serve(geo, Drain(geo, disk, pending), msg).1);
    OldTagsAge(pending, inbox, calls);
    NewTagIsOld(calls);
    DrainAppend(geo, disk, pending, msg);
    AwaitingBegin(geo, disk, pending, inbox, calls, msg);
    ReplyEchoesTag(geo, Drain(geo, disk, pending), msg);
  }

  lemma {:induction false} FromLeInjective(a: seq<byte>, n: nat)
    requires n < Pow256(|a|) && FromLe(a) == n
    ensures a == Le(n, |a|)
  {
    if a != [] {
      FromLeBound(a[1..]);
      FromLeInjective(a[1..], n / 256);
    }
  }

  lemma {:induction false} FromLeBound(a: seq<byte>)
    ensures FromLe(a) < Pow256(|a|)
  {
    if a != [] { FromLeBound(a[1..]); }
  }

  lemma TagRoundTrip(tag: seq<byte>, id: nat)
    requires |tag| == 4 && id < U32
    ensures FromLe(tag) == id <==> tag == Le(id, 4)
  {
    Widths();
    Le32RoundTrip(id);
    if FromLe(tag) == id { FromLeInjective(tag, id); }
  }
}
