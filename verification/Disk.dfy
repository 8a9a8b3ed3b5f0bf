/** `VirtioBlkDisk`: a byte cursor over a sector device, by read-modify-write of whole sectors. */
module Disk {
  import opened Options
  import opened Bytes
  import opened BlkServer
  import opened BlkClient
  import opened Sectors

  datatype SeekFrom = Start(p: nat) | Current(off: int) | End(off: int)

  function Min(a: nat, b: nat): nat {
    if a < b then a else b
  }

  /** Writing back a sector patched in memory patches only the bytes of the chunk. */
  lemma PatchSector(c: seq<byte>, at: nat, bs: nat, off: nat, chunk: seq<byte>)
    requires at + bs <= |c| && off + |chunk| <= bs
    ensures Patch(c, at, Patch(c[at..at + bs], off, chunk)) == Patch(c, at + off, chunk)
  {}

  /** Two adjacent patches are one. */
  lemma PatchAppend(c: seq<byte>, at: nat, data: seq<byte>, done: nat, n: nat)
    requires done + n <= |data| && at + done + n <= |c|
    ensures Patch(Patch(c, at, data[..done]), at + done, data[done..done + n]) == Patch(c, at, data[..done + n])
  {}

  lemma PatchNothing(c: seq<byte>, at: nat)
    requires at <= |c|
    ensures Patch(c, at, []) == c
  {}

  lemma LinkGeometry(link: BlkLink, pos: nat)
    requires link.Valid() && pos < |link.Contents()|
    ensures var bs := link.geo.sector;
            && 6 < bs <= MAX_IO_BYTES && |link.Contents()| < U64 && bs % bs == 0
            && Off(pos, bs) < bs && Lba(pos, bs) < U64
            && StartOf(link.geo, Lba(pos, bs)) + Off(pos, bs) == pos
            && StartOf(link.geo, Lba(pos, bs)) + bs <= |link.Contents()|
  {
    hide Lba, Off, Drain, StartOf;
    SectorOf(link.geo, link.Contents(), pos);
  }

  lemma BlockSizePositive(d: VirtioBlkDisk)
    requires d.Valid()
    ensures d.blockSize > 0
  {}

  lemma SizeFits(d: VirtioBlkDisk)
    requires d.Valid()
    ensures d.size < U64
  {}

  class VirtioBlkDisk {
    const link: BlkLink
    var pos: nat
    const size: nat
    const blockSize: nat

    /** Cursor and geometry agree with the device behind the link. */
    ghost predicate Valid()
      reads this, link
    {
      && link.Valid()
      && blockSize == link.geo.sector && size == |link.Contents()|
      && pos <= size
    }

    ghost function Contents(): seq<byte>
      requires Valid()
      reads this, link
    {
      link.Contents()
    }

    constructor (link: BlkLink, size: nat, blockSize: nat)
      ensures this.link == link && this.size == size && this.blockSize == blockSize && pos == 0
    {
      this.link, this.size, this.blockSize, pos := link, size, blockSize, 0;
    }

    /** `read`: on success the next min(len, size - pos) bytes; on a failed sector a true prefix of them. One block
        call per sector touched. */
    method Read(buf: array<byte>) returns (r: Option<nat>)
      requires Valid() && link.calls + Touched(pos, Min(buf.Length, size - pos), blockSize) <= U32
      modifies this`pos, link, buf
      ensures Valid() && Contents() == old(Contents())
      ensures var want := Min(buf.Length, size - old(pos));
              && old(pos) <= pos <= old(pos) + want
              && (r.Some? ==> r.value == want && pos == old(pos) + want)
              && (old(link.Idle()) && link.Responsive() ==> r.Some? && link.Idle())
              && link.calls <= old(link.calls) + Touched(old(pos), want, blockSize)
      ensures forall i | 0 <= i < buf.Length ::
                buf[i] == if i < pos - old(pos) then Contents()[old(pos) + i] else old(buf[i])
    {
      hide BlkLink.Valid, Drain, BlkLink.Responsive, BlkLink.Idle, DiskOf, StartOf, Lba, Off, Touched;
      ghost var c := Contents();
      ghost var from := pos;
      ghost var want := Min(buf.Length, size - pos);
      BlockSizePositive(this);
      var done := 0;
      while done < buf.Length && pos < size
        invariant Valid() && Contents() == c && done <= want && pos == from + done
        invariant link.calls <= old(link.calls) + if done < want then Lba(pos, blockSize) - Lba(from, blockSize)
                                                  else Touched(from, want, blockSize)
        invariant old(link.Idle()) && link.Responsive() ==> link.Idle()
        invariant forall i | 0 <= i < buf.Length :: buf[i] == if i < done then c[from + i] else old(buf[i])
      {
        LinkGeometry(link, pos);
        var n := Min(Min(blockSize - Off(pos, blockSize), buf.Length - done), size - pos);
        ChunkStep(from, done, n, want, blockSize);
        var ok := ReadChunk(buf, done, n);
        if !ok {
          return None;
        }
        pos := pos + n;
        done := done + n;
      }
      return Some(done);
    }

    /** One round of the loop of `read`: read the sector at `pos` and copy the chunk out. */
    method ReadChunk(buf: array<byte>, done: nat, n: nat) returns (ok: bool)
      requires Valid() && pos < size && link.calls < U32
      requires 0 < n <= blockSize - Off(pos, blockSize) && pos + n <= size && done + n <= buf.Length
      modifies link, buf
      ensures Valid() && Contents() == old(Contents()) && link.calls == old(link.calls) + 1
      ensures old(link.Idle()) && link.Responsive() ==> ok && link.Idle()
      ensures forall i | 0 <= i < buf.Length ::
                buf[i] == if ok && done <= i < done + n then Contents()[pos + i - done] else old(buf[i])
    {
      hide BlkLink.Valid, Drain, BlkLink.Responsive, BlkLink.Idle, DiskOf, StartOf, Lba, Off;
      LinkGeometry(link, pos);
      var lba, off := Lba(pos, blockSize), Off(pos, blockSize);
      var sector;
      ok, sector := link.ReadSector(lba, blockSize);
      if ok {
        forall i | done <= i < done + n {
          buf[i] := sector[off + i - done];
        }
      }
    }

    /** One round of the loop of `write`: read the sector at `pos`, patch the chunk in, write the sector back. */
    method WriteChunk(chunk: seq<byte>) returns (ok: bool)
      requires Valid() && pos < size && link.calls + 2 <= U32
      requires 0 < |chunk| <= blockSize - Off(pos, blockSize) && pos + |chunk| <= size
      modifies link
      ensures Valid() && link.calls <= old(link.calls) + 2
      ensures Contents() == Patch(old(Contents()), pos, chunk) || (!ok && Contents() == old(Contents()))
      ensures old(link.Idle()) && link.Responsive() && blockSize <= REQ_BUF_LEN - RW_TAGGED_HDR_LEN ==> ok && link.Idle()
    {
      hide OnlyOldTags, Drain, Answers, IdOf, BlkLink.Responsive, BlkLink.Idle, DiskOf, StartOf, Lba, Off, Patch;
      ghost var before := Contents();
      SectorOf(link.geo, before, pos);
      var lba, off := Lba(pos, blockSize), Off(pos, blockSize);
      var sector;
      ok, sector := link.ReadSector(lba, blockSize);
      if ok {
        PatchSector(before, StartOf(link.geo, lba), blockSize, off, chunk);
        ok := link.WriteSector(lba, Patch(sector, off, chunk));
      }
    }

    /** `write`: on success the next min(len, size - pos) bytes are replaced. On a failed sector `pos` stands after
        the bytes known to be written; of the rest, at most the part that falls into pos's own sector may have
        landed too. Nothing outside those bytes changes. */
    method Write(buf: seq<byte>) returns (r: Option<nat>, ghost landed: nat)
      requires Valid() && link.calls + 2 * Touched(pos, Min(|buf|, size - pos), blockSize) <= U32
      modifies this`pos, link
      ensures Valid()
      ensures var want := Min(|buf|, size - old(pos));
              && old(pos) <= pos <= old(pos) + landed <= old(pos) + want
              && (r.Some? ==> r.value == landed == want && pos == old(pos) + want)
              && (old(pos) + landed != pos ==> Lba(old(pos) + landed - 1, blockSize) == Lba(pos, blockSize))
              && (old(link.Idle()) && link.Responsive() && blockSize <= REQ_BUF_LEN - RW_TAGGED_HDR_LEN ==>
                    r.Some? && link.Idle())
              && link.calls <= old(link.calls) + 2 * Touched(old(pos), want, blockSize)
      ensures Contents() == Patch(old(Contents()), old(pos), buf[..landed])
    {
      hide BlkLink.Valid, Drain, BlkLink.Responsive, BlkLink.Idle, DiskOf, Lba, Off, Patch, Touched;
      ghost var c := Contents();
      ghost var from := pos;
      ghost var want := Min(|buf|, size - pos);
      BlockSizePositive(this);
      landed := 0;
      var done := 0;
      assert buf[..0] == [];
      PatchNothing(c, from);
      while done < |buf| && pos < size
        invariant Valid() && landed == done <= want && pos == from + done
        invariant link.calls <= old(link.calls) + 2 * if done < want then Lba(pos, blockSize) - Lba(from, blockSize)
                                                      else Touched(from, want, blockSize)
        invariant Contents() == Patch(c, from, buf[..done])
        invariant old(link.Idle()) && link.Responsive() && blockSize <= REQ_BUF_LEN - RW_TAGGED_HDR_LEN ==> link.Idle()
      {
        ghost var before := Contents();
        LinkGeometry(link, pos);
        var n := Min(Min(blockSize - Off(pos, blockSize), |buf| - done), size - pos);
        PatchAppend(c, from, buf, done, n);
        ChunkStep(from, done, n, want, blockSize);
        var ok := WriteChunk(buf[done..done + n]);
        landed := if Contents() == before then done else done + n;
        if !ok {
          return None, landed;
        }
        landed := done + n;
        pos := pos + n;
        done := done + n;
      }
      return Some(done), done;
    }

    /** `flush`: changes nothing; on a responsive idle link it succeeds. */
    method Flush() returns (ok: bool)
      requires Valid() && link.calls < U32
      modifies link
      ensures Valid() && Contents() == old(Contents()) && link.calls == old(link.calls) + 1
      ensures old(link.Idle()) && link.Responsive() ==> ok && link.Idle()
    {
      hide Serve, Drain, OnlyOldTags, Tagged, Le, FromLe, WillAnswer, Answers, RequestCaps, IdOf, DiskOf;
      IdleAnswers(link.env, link.clock, MAX_TRIES);
      FlushServed(link.geo, link.Contents(), link.reqId);
      var resp, sent, answered := link.BlkCall(Le(REQ_FLUSH, 2), 8);
      ok := |resp| == 2 && resp[..2] == OK;
      assert answered ==> resp == OK by { assert (Le(old(link.reqId), 4) + OK)[TAG_LEN..] == OK; }
    }

    /** `seek`: lands within the disk, or fails without moving when the target is not a u64. */
    method Seek(to: SeekFrom) returns (r: Option<nat>)
      requires Valid() && (to.Start? ==> to.p < U64)
      modifies this`pos
      ensures Valid() && Contents() == old(Contents())
      ensures var target := Target(to, old(pos), size);
              if 0 <= target < U64 then pos == Min(target, size) && r == Some(pos) else pos == old(pos) && r == None
      ensures to.Start? && to.p <= size ==> r == Some(to.p) && pos == to.p
      ensures to.Current? && 0 <= old(pos) + to.off <= size ==> r == Some(pos) && pos == old(pos) + to.off
      ensures to.End? && 0 <= size + to.off <= size ==> r == Some(pos) && pos == size + to.off
    {
      SizeFits(this);
      var newPos := match to
        case Start(p) => p
        case Current(off) => pos + off
        case End(off) => size + off;
      if newPos < 0 || newPos >= U64 {
        return None;
      }
      pos := Min(newPos, size);
      return Some(pos);
    }
  }

  function Target(to: SeekFrom, pos: nat, size: nat): int {
    match to
    case Start(p) => p
    case Current(off) => pos + off
    case End(off) => size + off
  }

  /** `VirtioBlkDisk::new`: ask the service for its geometry. What it returns agrees with the device. */
  method Open(link: BlkLink) returns (d: Option<VirtioBlkDisk>)
    requires link.Valid() && link.calls < U32
    modifies link
    ensures link.Valid() && link.calls == old(link.calls) + 1 && link.Contents() == old(link.Contents())
    ensures d.Some? ==> fresh(d.value) && d.value.link == link && d.value.Valid() && d.value.pos == 0
    ensures old(link.Idle()) && link.Responsive() ==> d.Some? && link.Idle()
  {
    hide Serve, Drain, OnlyOldTags, Tagged, Le, FromLe, WillAnswer, Answers, RequestCaps, IdOf;
    IdleAnswers(link.env, link.clock, MAX_TRIES);
    ghost var info := Le(link.geo.sector, 8) + Le(link.geo.blocks, 8);
    InfoServed(link.geo, link.Contents(), link.reqId);
    var resp, sent, answered := link.BlkCall(Le(REQ_GET_INFO, 2), 16);
    if |resp| != 16 {
      return None;
    }
    assert resp == info by { assert (Le(old(link.reqId), 4) + info)[TAG_LEN..] == info; }
    assert resp[0..8] == Le(link.geo.sector, 8) && resp[8..16] == Le(link.geo.blocks, 8);
    Le64RoundTrip(link.geo.sector);
    Le64RoundTrip(link.geo.blocks);
    var blockSize, blockCount := FromLe(resp[0..8]), FromLe(resp[8..16]);
    if blockSize == 0 || blockSize > MAX_IO_BYTES {
      return None;
    }
    var disk := new VirtioBlkDisk(link, Saturate(blockSize * blockCount), blockSize);
    return Some(disk);
  }

  // ----- whole sessions refine a flat byte array with a cursor -----

  datatype Op = SeekTo(to: SeekFrom) | ReadBytes(n: nat) | WriteBytes(data: seq<byte>)
  datatype Outcome = Sought(at: Option<nat>) | Got(ok: bool, data: seq<byte>) | Put(ok: bool, landed: nat)
  datatype Flat = Flat(bytes: seq<byte>, pos: nat)

  /** One operation on the flat array, including how far a failed transfer may have come. */
  ghost predicate FlatStep(bs: nat, s: Flat, op: Op, out: Outcome, s': Flat)
    requires bs > 0
  {
    && s.pos <= |s.bytes| == |s'.bytes| && s'.pos <= |s'.bytes|
    && match op
       case SeekTo(to) =>
         && s'.bytes == s.bytes
         && var target := Target(to, s.pos, |s.bytes|);
            if 0 <= target < U64 then s'.pos == Min(target, |s.bytes|) && out == Sought(Some(s'.pos))
            else s'.pos == s.pos && out == Sought(None)
       case ReadBytes(n) =>
         && s'.bytes == s.bytes && s.pos <= s'.pos && out.Got? && out.data == s.bytes[s.pos..s'.pos]
         && |out.data| <= Min(n, |s.bytes| - s.pos)
         && (out.ok ==> |out.data| == Min(n, |s.bytes| - s.pos))
       case WriteBytes(data) =>
         && out.Put? && s.pos <= s'.pos <= s.pos + out.landed
         && out.landed <= Min(|data|, |s.bytes| - s.pos)
         && s'.bytes == Patch(s.bytes, s.pos, data[..out.landed])
         && (out.ok ==> out.landed == Min(|data|, |s.bytes| - s.pos) && s'.pos == s.pos + out.landed)
         && (s.pos + out.landed != s'.pos ==> Lba(s.pos + out.landed - 1, bs) == Lba(s'.pos, bs))
  }

  predicate Succeeded(out: Outcome) {
    out.Sought? || out.ok
  }

  /** Upper bound on the block calls that one operation makes, wherever the cursor is. */
  function OpCost(op: Op, bs: nat): nat
    requires bs > 0
  {
    match op
    case SeekTo(_) => 0
    case ReadBytes(n) => MaxTouched(n, bs)
    case WriteBytes(data) => 2 * MaxTouched(|data|, bs)
  }

  function Cost(ops: seq<Op>, bs: nat): nat
    requires bs > 0
  {
    if ops == [] then 0 else Cost(ops[..|ops| - 1], bs) + OpCost(ops[|ops| - 1], bs)
  }

  ghost function View(d: VirtioBlkDisk): Flat
    requires d.Valid()
    reads d, d.link
  {
    Flat(d.Contents(), d.pos)
  }

  ghost predicate IsRun(bs: nat, states: seq<Flat>, ops: seq<Op>, outs: seq<Outcome>)
    requires bs > 0
  {
    |states| == |ops| + 1 == |outs| + 1 &&
    forall k | 0 <= k < |ops| :: FlatStep(bs, states[k], ops[k], outs[k], states[k + 1])
  }

  /** One operation of a session on the running disk. */
  method Perform(d: VirtioBlkDisk, op: Op) returns (ghost out: Outcome)
    requires d.Valid() && d.link.calls + OpCost(op, d.blockSize) <= U32
    requires op.SeekTo? && op.to.Start? ==> op.to.p < U64
    modifies d, d.link
    ensures d.Valid() && d.blockSize > 0 && d.link.calls <= old(d.link.calls) + OpCost(op, d.blockSize)
    ensures FlatStep(d.blockSize, old(View(d)), op, out, View(d))
    ensures old(d.link.Idle()) && d.link.Responsive() && d.blockSize <= REQ_BUF_LEN - RW_TAGGED_HDR_LEN ==>
              Succeeded(out) && d.link.Idle()
  {
    hide Drain, OnlyOldTags, Answers, IdOf, BlkLink.Responsive, BlkLink.Idle, Lba, Patch, Touched, MaxTouched, DiskOf;
    BlockSizePositive(d);
    match op
    case SeekTo(to) =>
      var at := d.Seek(to);
      out := Sought(at);
    case ReadBytes(n) =>
      TouchedBound(d.pos, Min(n, d.size - d.pos), d.blockSize);
      MaxTouchedMonotone(Min(n, d.size - d.pos), n, d.blockSize);
      var buf := new byte[n];
      var r := d.Read(buf);
      out := Got(r.Some?, buf[..d.pos - old(d.pos)]);
    case WriteBytes(data) =>
      TouchedBound(d.pos, Min(|data|, d.size - d.pos), d.blockSize);
      MaxTouchedMonotone(Min(|data|, d.size - d.pos), |data|, d.blockSize);
      var r, landed := d.Write(data);
      out := Put(r.Some?, landed);
  }

  /** Every session, whatever the block service and the channel do, is a run of the flat array. */
  method Session(d: VirtioBlkDisk, ops: seq<Op>) returns (ghost outs: seq<Outcome>, ghost states: seq<Flat>)
    requires d.Valid() && d.link.calls + Cost(ops, d.blockSize) <= U32
    requires forall op | op in ops && op.SeekTo? && op.to.Start? :: op.to.p < U64
    modifies d, d.link
    ensures d.Valid() && d.blockSize > 0
    ensures |states| == |ops| + 1 && states[0] == old(View(d)) && states[|ops|] == View(d)
    ensures IsRun(d.blockSize, states, ops, outs)
    ensures old(d.link.Idle()) && d.link.Responsive() && d.blockSize <= REQ_BUF_LEN - RW_TAGGED_HDR_LEN ==>
              forall out | out in outs :: Succeeded(out)
  {
    hide FlatStep, Cost, OpCost, BlkLink.Valid, BlkLink.Responsive, BlkLink.Idle, Drain, DiskOf;
    outs, states := [], [View(d)];
    var k := 0;
    BlockSizePositive(d);
    CostPrefix(ops, 0, d.blockSize);
    assert ops[..0] == [];
    CostEmpty(d.blockSize);
    while k < |ops|
      invariant 0 <= k <= |ops| && |outs| == k && |states| == k + 1
      invariant d.Valid() && d.link.calls <= old(d.link.calls) + Cost(ops[..k], d.blockSize)
      invariant states[0] == old(View(d)) && states[k] == View(d)
      invariant forall j | 0 <= j < k :: FlatStep(d.blockSize, states[j], ops[j], outs[j], states[j + 1])
      invariant old(d.link.Idle()) && d.link.Responsive() && d.blockSize <= REQ_BUF_LEN - RW_TAGGED_HDR_LEN ==>
                  d.link.Idle() && forall out | out in outs :: Succeeded(out)
    {
      CostPrefix(ops, k, d.blockSize);
      ghost var out := Perform(d, ops[k]);
      outs, states := outs + [out], states + [View(d)];
      k := k + 1;
    }
  }

  lemma CostEmpty(bs: nat)
    requires bs > 0
    ensures Cost([], bs) == 0
  {}

  lemma {:induction false} CostPrefix(ops: seq<Op>, k: nat, bs: nat)
    requires k <= |ops| && bs > 0
    ensures Cost(ops[..k], bs) <= Cost(ops, bs)
    ensures k < |ops| ==> Cost(ops[..k + 1], bs) == Cost(ops[..k], bs) + OpCost(ops[k], bs) <= Cost(ops, bs)
    decreases |ops| - k
  {
    hide OpCost;
    if k < |ops| {
      CostPrefix(ops, k + 1, bs);
      assert ops[..k + 1][..k] == ops[..k];
    } else {
      assert ops[..k] == ops;
    }
  }

  /** Operation k changed byte i of the disk. */
  ghost predicate Covers(s: Flat, op: Op, out: Outcome, i: nat) {
    op.WriteBytes? && out.Put? && s.pos <= i < s.pos + out.landed
  }

  /** None of the operations a..b-1 changed byte i. */
  ghost predicate Untouched(states: seq<Flat>, ops: seq<Op>, outs: seq<Outcome>, a: nat, b: nat, i: nat)
    requires b <= |ops| == |outs| <= |states|
  {
    forall k | a <= k < b :: !Covers(states[k], ops[k], outs[k], i)
  }

  /** Operation k wrote v to byte i. */
  ghost predicate Wrote(s: Flat, op: Op, out: Outcome, i: nat, v: byte) {
    Covers(s, op, out, i) && i - s.pos < |op.data| && op.data[i - s.pos] == v
  }

  /** In every run each byte holds what the last write covering it put there, or its initial value. */
  lemma LastWriteWins(bs: nat, states: seq<Flat>, ops: seq<Op>, outs: seq<Outcome>, i: nat)
    requires bs > 0 && IsRun(bs, states, ops, outs) && i < |states[0].bytes|
    ensures |states[|ops|].bytes| == |states[0].bytes|
    ensures var last := states[|ops|].bytes[i];
            || (last == states[0].bytes[i] && Untouched(states, ops, outs, 0, |ops|, i))
            || exists k :: 0 <= k < |ops| && Wrote(states[k], ops[k], outs[k], i, last)
                           && Untouched(states, ops, outs, k + 1, |ops|, i)
  {
    LastWriteBefore(bs, states, ops, outs, i, |ops|);
  }

  lemma {:induction false} LastWriteBefore(bs: nat, states: seq<Flat>, ops: seq<Op>, outs: seq<Outcome>, i: nat, n: nat)
    requires bs > 0 && IsRun(bs, states, ops, outs) && i < |states[0].bytes| && n <= |ops|
    ensures |states[n].bytes| == |states[0].bytes|
    ensures var last := states[n].bytes[i];
            || (last == states[0].bytes[i] && Untouched(states, ops, outs, 0, n, i))
            || exists k :: 0 <= k < n && Wrote(states[k], ops[k], outs[k], i, last)
                           && Untouched(states, ops, outs, k + 1, n, i)
    decreases n
  {
    hide FlatStep, Covers, Wrote;
    if n > 0 {
      var m := n - 1;
      LastWriteBefore(bs, states, ops, outs, i, m);
      ByteStep(bs, states[m], ops[m], outs[m], states[m + 1], i);
      var last := states[n].bytes[i];
      if Covers(states[m], ops[m], outs[m], i) {
        assert 0 <= m < n && Wrote(states[m], ops[m], outs[m], i, last) && Untouched(states, ops, outs, m + 1, n, i);
      } else if k :| 0 <= k < m && Wrote(states[k], ops[k], outs[k], i, last) && Untouched(states, ops, outs, k + 1, m, i) {
        assert Untouched(states, ops, outs, k + 1, n, i);
      }
    }
  }

  /** A step writes the bytes it covers and keeps the others. */
  lemma ByteStep(bs: nat, s: Flat, op: Op, out: Outcome, s': Flat, i: nat)
    requires bs > 0 && FlatStep(bs, s, op, out, s') && i < |s.bytes|
    ensures |s'.bytes| == |s.bytes|
    ensures if Covers(s, op, out, i) then Wrote(s, op, out, i, s'.bytes[i]) else s'.bytes[i] == s.bytes[i]
  {}

  /** A successful write, a seek back and a successful read return the written bytes. */
  lemma ReadBack(bs: nat, s0: Flat, data: seq<byte>, o1: Outcome, s1: Flat, o2: Outcome, s2: Flat, o3: Outcome, s3: Flat)
    requires bs > 0 && s0.pos < U64
    requires FlatStep(bs, s0, WriteBytes(data), o1, s1) && FlatStep(bs, s1, SeekTo(Start(s0.pos)), o2, s2)
    requires FlatStep(bs, s2, ReadBytes(|data|), o3, s3) && Succeeded(o1) && Succeeded(o3)
    ensures o3.data == data[..Min(|data|, |s0.bytes| - s0.pos)]
  {
    assert o3.data == s1.bytes[s0.pos..s3.pos];
  }

  // ----- what the cursor means to a caller -----

  /** Moving by a and then by -a within the disk returns to where the cursor was. */
  lemma SeekThereAndBack(bs: nat, s0: Flat, a: int, o1: Outcome, s1: Flat, o2: Outcome, s2: Flat)
    requires bs > 0 && |s0.bytes| < U64 && 0 <= s0.pos + a <= |s0.bytes|
    requires FlatStep(bs, s0, SeekTo(Current(a)), o1, s1) && FlatStep(bs, s1, SeekTo(Current(-a)), o2, s2)
    ensures s1.pos - s0.pos == a && o1 == Sought(Some(s1.pos)) && o2 == Sought(Some(s0.pos)) && s2 == s0
  {}

  /** The end is as far from the start as the disk is long, and positions count from the end as they do from the
      start. */
  lemma SeekSpan(bs: nat, s0: Flat, k: nat, o1: Outcome, s1: Flat, o2: Outcome, s2: Flat)
    requires bs > 0 && |s0.bytes| < U64 && k <= |s0.bytes|
    requires FlatStep(bs, s0, SeekTo(Start(k)), o1, s1) && FlatStep(bs, s1, SeekTo(End(k - |s0.bytes|)), o2, s2)
    ensures o1 == o2 == Sought(Some(k)) && s1.pos == s2.pos == k
  {}

  /** Reading after a seek from the end yields the tail of the disk. */
  lemma ReadTail(bs: nat, s0: Flat, n: nat, k: nat, o1: Outcome, s1: Flat, o2: Outcome, s2: Flat)
    requires bs > 0 && |s0.bytes| < U64 && n <= k <= |s0.bytes|
    requires FlatStep(bs, s0, SeekTo(End(0 - k)), o1, s1) && FlatStep(bs, s1, ReadBytes(n), o2, s2) && Succeeded(o2)
    ensures o2.data == s0.bytes[|s0.bytes| - k..|s0.bytes| - k + n]
  {}

  /** Skipping k bytes between two reads skips exactly those. */
  lemma ReadSkipRead(bs: nat, s0: Flat, n: nat, k: nat, m: nat,
                     o1: Outcome, s1: Flat, o2: Outcome, s2: Flat, o3: Outcome, s3: Flat)
    requires bs > 0 && |s0.bytes| < U64 && s0.pos + n + k + m <= |s0.bytes|
    requires FlatStep(bs, s0, ReadBytes(n), o1, s1) && FlatStep(bs, s1, SeekTo(Current(k)), o2, s2)
    requires FlatStep(bs, s2, ReadBytes(m), o3, s3) && Succeeded(o1) && Succeeded(o3)
    ensures o1.data + s0.bytes[s0.pos + n..s0.pos + n + k] + o3.data == s0.bytes[s0.pos..s0.pos + n + k + m]
  {
    hide FlatStep;
    ReadMoves(bs, s0, n, o1, s1);
    SkipMoves(bs, s1, k, o2, s2);
    ReadMoves(bs, s2, m, o3, s3);
    ThreeSlices(s0.bytes, s0.pos, s0.pos + n, s0.pos + n + k, s0.pos + n + k + m);
  }

  lemma ThreeSlices(b: seq<byte>, i: nat, j: nat, k: nat, l: nat)
    requires i <= j <= k <= l <= |b|
    ensures b[i..j] + b[j..k] + b[k..l] == b[i..l]
  {}

  lemma ReadMoves(bs: nat, s: Flat, n: nat, o: Outcome, s': Flat)
    requires bs > 0 && s.pos + n <= |s.bytes| && FlatStep(bs, s, ReadBytes(n), o, s') && Succeeded(o)
    ensures s' == Flat(s.bytes, s.pos + n) && o == Got(true, s.bytes[s.pos..s.pos + n])
  {}

  lemma SkipMoves(bs: nat, s: Flat, k: nat, o: Outcome, s': Flat)
    requires bs > 0 && s.pos + k <= |s.bytes| < U64 && FlatStep(bs, s, SeekTo(Current(k)), o, s')
    ensures s' == Flat(s.bytes, s.pos + k)
  {}
}
