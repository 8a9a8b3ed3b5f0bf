/** The block service: request decoding, the mock sector store and reply framing. `sector` stands for SECTOR_SIZE
    (512) and `blocks` for MOCK_BLOCK_COUNT (256); here the sector size is any up to MAX_IO_BYTES that is longer than
    the error codes, as every positive multiple of 512 is. */
module BlkServer {
  import opened Options
  import opened Bytes

  const REQ_PING: nat := 1
  const REQ_GET_INFO: nat := 2
  const REQ_READ: nat := 3
  const REQ_WRITE: nat := 4
  const REQ_FLUSH: nat := 5
  const RW_HDR_LEN: nat := 14
  const TAG_LEN: nat := 4
  const TAGGED_HDR_LEN: nat := 6
  const RW_TAGGED_HDR_LEN: nat := 18
  const MAX_IO_BYTES: nat := 4096
  const REQ_BUF_LEN: nat := 2 + 8 + 4 + MAX_IO_BYTES

  const PONG: seq<byte> := [80, 79, 78, 71]
  const OK: seq<byte> := [79, 75]
  const EINVAL: seq<byte> := [69, 73, 78, 86, 65, 76]
  const EIO: seq<byte> := [69, 73, 79]

  datatype Geometry = Geometry(sector: nat, blocks: nat) {
    predicate Valid() {
      6 < sector <= MAX_IO_BYTES && blocks < U64 && sector * blocks < U64 - 1
    }
  }

  predicate DiskOf(geo: Geometry, disk: seq<byte>) {
    geo.Valid() && |disk| == geo.sector * geo.blocks
  }

  /** Byte offset of a sector. */
  function StartOf(geo: Geometry, sector: nat): nat {
    sector * geo.sector
  }

  function Saturate(x: nat): nat {
    if x < U64 then x else U64 - 1
  }

  /** Overwrite part of a byte array. */
  function Patch(s: seq<byte>, at: nat, data: seq<byte>): (r: seq<byte>)
    requires at + |data| <= |s|
    ensures |r| == |s|
    ensures forall i | 0 <= i < |s| :: r[i] == if at <= i < at + |data| then data[i - at] else s[i]
  {
    s[..at] + data + s[at + |data|..]
  }

  /** `Backend::Mock`: the end of an access, or none if it is empty, unaligned or past the disk. */
  function Extent(geo: Geometry, disk: seq<byte>, sector: nat, len: nat): Option<(nat, nat)>
    requires geo.Valid()
  {
    if len == 0 || len % geo.sector != 0 then None
    else
      var start := Saturate(sector * geo.sector);
      var end := Saturate(start + len);
      if end > |disk| then None else Some((start, end))
  }

  /** Payload answered to a request, and the disk after it. `hdr` is the header length before the data. */
  function ServeRw(geo: Geometry, disk: seq<byte>, req: seq<byte>, write: bool, off: nat, hdr: nat): (seq<byte>, seq<byte>)
    requires DiskOf(geo, disk) && off + 12 <= hdr
  {
    if |req| < hdr then (disk, EINVAL)
    else
      var sector := FromLe(req[off..off + 8]);
      var bytes := FromLe(req[off + 8..off + 12]);
      if bytes == 0 || bytes > MAX_IO_BYTES || bytes % geo.sector != 0 || (write && |req| < hdr + bytes) then
        (disk, EINVAL)
      else
        match Extent(geo, disk, sector, bytes)
        case None => (disk, EIO)
        case Some((start, end)) =>
          ExtentFits(geo, disk, sector, bytes);
          if write then (Patch(disk, start, req[hdr..hdr + bytes]), OK) else (disk, disk[start..end])
  }

  lemma ExtentFits(geo: Geometry, disk: seq<byte>, sector: nat, len: nat)
    requires DiskOf(geo, disk)
    ensures Extent(geo, disk, sector, len).Some? <==>
            len != 0 && len % geo.sector == 0 && sector * geo.sector + len <= |disk|
    ensures Extent(geo, disk, sector, len).Some? ==>
            Extent(geo, disk, sector, len).value == (sector * geo.sector, sector * geo.sector + len)
  {}

  /** The receive buffer keeps the first 4110 bytes of a message. */
  function Received(msg: seq<byte>): seq<byte> {
    if |msg| <= REQ_BUF_LEN then msg else msg[..REQ_BUF_LEN]
  }

  /** One round of the service loop for a message that carries a reply capability: the new disk and the reply. */
  function Serve(geo: Geometry, disk: seq<byte>, msg: seq<byte>): (r: (seq<byte>, Option<seq<byte>>))
    requires DiskOf(geo, disk)
    ensures DiskOf(geo, r.0)
  {
    var req := Received(msg);
    if |req| < 2 then (disk, None)
    else
      var opcode := FromLe(req[..2]);
      var tagged := |req| >= TAGGED_HDR_LEN;
      var hdr := if tagged then RW_TAGGED_HDR_LEN else RW_HDR_LEN;
      var off := if tagged then TAGGED_HDR_LEN else 2;
      var (disk', payload) :=
        if opcode == REQ_PING then (disk, PONG)
        else if opcode == REQ_GET_INFO then (disk, Le(geo.sector, 8) + Le(geo.blocks, 8))
        else if opcode == REQ_READ then ServeRw(geo, disk, req, false, off, hdr)
        else if opcode == REQ_WRITE then ServeRw(geo, disk, req, true, off, hdr)
        else if opcode == REQ_FLUSH then (disk, OK)
        else (disk, EINVAL);
      (disk', Some((if tagged then req[2..6] else []) + payload))
  }

  // ----- what a client's requests mean -----

  function ReadReq(sector: nat, bytes: nat): (r: seq<byte>)
    ensures |r| == RW_HDR_LEN
  {
    Le(REQ_READ, 2) + Le(sector, 8) + Le(bytes, 4)
  }

  function WriteReq(sector: nat, data: seq<byte>): (r: seq<byte>)
    ensures |r| == RW_HDR_LEN + |data|
  {
    Le(REQ_WRITE, 2) + Le(sector, 8) + Le(|data|, 4) + data
  }

  /** The tag goes between the opcode and the rest of the request. */
  function Tagged(req: seq<byte>, id: nat): (t: seq<byte>)
    requires |req| >= 2
    ensures |t| == |req| + TAG_LEN
  {
    req[..2] + Le(id, 4) + req[2..]
  }

  lemma Opcodes()
    ensures forall op: nat | op < 256 :: FromLe(Le(op, 2)) == op
  {
    Widths();
    forall op: nat | op < 256 ensures FromLe(Le(op, 2)) == op { LeRoundTrip(op, 2); }
  }

  /** A tagged GET_INFO is answered with the geometry. */
  lemma InfoServed(geo: Geometry, disk: seq<byte>, id: nat)
    requires DiskOf(geo, disk)
    ensures Serve(geo, disk, Tagged(Le(REQ_GET_INFO, 2), id)) ==
            (disk, Some(Le(id, 4) + (Le(geo.sector, 8) + Le(geo.blocks, 8))))
  {
    hide Le, FromLe, ServeRw;
    var req := Tagged(Le(REQ_GET_INFO, 2), id);
    Opcodes();
    assert req[..2] == Le(REQ_GET_INFO, 2) && req[2..6] == Le(id, 4);
  }

  /** The tag of a message: the four bytes behind the opcode, if the message is that long. */
  function TagOf(msg: seq<byte>): seq<byte> {
    if |msg| >= 6 then msg[2..6] else []
  }

  /** Requests by their bytes, tagged or not. Opcode 1 is answered "PONG", 2 the geometry, 5 "OK", and opcodes beyond 5 and 0 "EINVAL";
      so are reads and writes too short for their header. The disk stays, and a message too short for an opcode gets
      no answer. */
  lemma ControlServed(geo: Geometry, disk: seq<byte>, msg: seq<byte>)
    requires DiskOf(geo, disk)
    ensures |msg| < 2 ==> Serve(geo, disk, msg) == (disk, None)
    ensures |msg| >= 2 && msg[..2] == [1, 0] ==> Serve(geo, disk, msg) == (disk, Some(TagOf(msg) + [80, 79, 78, 71]))
    ensures |msg| >= 2 && msg[..2] == [2, 0] ==>
              Serve(geo, disk, msg) == (disk, Some(TagOf(msg) + (Le(geo.sector, 8) + Le(geo.blocks, 8))))
    ensures |msg| >= 2 && msg[..2] == [5, 0] ==> Serve(geo, disk, msg) == (disk, Some(TagOf(msg) + [79, 75]))
    ensures |msg| >= 2 && (msg[1] != 0 || msg[0] == 0 || msg[0] > 5) ==>
              Serve(geo, disk, msg) == (disk, Some(TagOf(msg) + [69, 73, 78, 86, 65, 76]))
    ensures 2 <= |msg| < 18 && msg[..2] in {[3, 0], [4, 0]} ==>
              Serve(geo, disk, msg) == (disk, Some(TagOf(msg) + [69, 73, 78, 86, 65, 76]))
  {
    hide Le, FromLe, DiskOf, Extent, Patch;
    if |msg| >= 2 {
      ReceivedHead(msg);
      FromLeTwo(msg[..2]);
    }
  }

  lemma ReceivedHead(msg: seq<byte>)
    requires |msg| >= 2
    ensures |Received(msg)| >= 2 && Received(msg)[..2] == msg[..2] && TagOf(Received(msg)) == TagOf(msg)
    ensures (|Received(msg)| < 6 <==> |msg| < 6) && (|Received(msg)| < 18 <==> |msg| < 18)
  {}

  lemma FromLeTwo(s: seq<byte>)
    requires |s| == 2
    ensures FromLe(s) == s[0] as nat + 256 * s[1] as nat
  {
    assert s[1..][1..] == [] && FromLe(s[1..]) == s[1] as nat;
  }

  /** The untagged ping of init's block probe is answered with exactly "PONG". */
  lemma PingServed(geo: Geometry, disk: seq<byte>)
    requires DiskOf(geo, disk)
    ensures Serve(geo, disk, Le(REQ_PING, 2)) == (disk, Some([80, 79, 78, 71]))
  {
    hide Serve, DiskOf;
    SmallLe();
    ControlServed(geo, disk, [1, 0]);
    assert TagOf([1, 0]) + PONG == PONG;
  }

  /** A tagged flush is answered "OK" under its tag. */
  lemma FlushServed(geo: Geometry, disk: seq<byte>, id: nat)
    requires DiskOf(geo, disk)
    ensures Serve(geo, disk, Tagged(Le(REQ_FLUSH, 2), id)) == (disk, Some(Le(id, 4) + OK))
  {
    hide Serve, DiskOf;
    var msg := Tagged(Le(REQ_FLUSH, 2), id);
    SmallLe();
    assert msg[..2] == [5, 0] && TagOf(msg) == Le(id, 4);
    ControlServed(geo, disk, msg);
  }

  lemma SmallLe()
    ensures Le(REQ_PING, 2) == [1, 0] && Le(REQ_READ, 2) == [3, 0] && Le(REQ_WRITE, 2) == [4, 0] && Le(REQ_FLUSH, 2) == [5, 0]
  {
    assert Le(0, 1) == [0];
  }

  /** A tagged read is answered, under its own tag, with the requested bytes or an error code; the disk stays. */
  lemma ReadServed(geo: Geometry, disk: seq<byte>, id: nat, sector: nat, bytes: nat)
    requires DiskOf(geo, disk) && sector < U64 && bytes < U32
    ensures var fits := 0 < bytes <= MAX_IO_BYTES && bytes % geo.sector == 0;
            var start := StartOf(geo, sector);
            Serve(geo, disk, Tagged(ReadReq(sector, bytes), id)) ==
              (disk, Some(Le(id, 4) + if !fits then EINVAL
                                      else if start + bytes > |disk| then EIO
                                      else disk[start..start + bytes]))
  {
    hide Le, DiskOf, ReadReq, Tagged, Serve, Patch;
    SmallLe();
    ReadFrame(id, sector, bytes);
    RwServed(geo, disk, Tagged(ReadReq(sector, bytes), id), false, sector, bytes);
  }

  /** Any tagged read or write, by its fields: little-endian sector and byte count behind the tag. It is refused when
      the count is zero, over 4096, no multiple of the sector size or, for a write, more than what the message still
      has within the first 4110 bytes; it fails when it reaches past the disk; else it is done. */
  lemma RwServed(geo: Geometry, disk: seq<byte>, msg: seq<byte>, write: bool, sector: nat, bytes: nat)
    requires DiskOf(geo, disk) && sector < U64 && bytes < U32 && |msg| >= RW_TAGGED_HDR_LEN
    requires msg[..2] == if write then [4, 0] else [3, 0]
    requires msg[6..14] == Le(sector, 8) && msg[14..18] == Le(bytes, 4)
    ensures var start := StartOf(geo, sector);
            var fits := && 0 < bytes <= MAX_IO_BYTES && bytes % geo.sector == 0
                        && (write ==> 18 + bytes <= |msg| && 18 + bytes <= 4110);
            Serve(geo, disk, msg) ==
              if !fits then (disk, Some(msg[2..6] + EINVAL))
              else if start + bytes > |disk| then (disk, Some(msg[2..6] + EIO))
              else if write then (Patch(disk, start, msg[18..18 + bytes]), Some(msg[2..6] + OK))
              else (disk, Some(msg[2..6] + disk[start..start + bytes]))
  {
    hide Le, FromLe, Pow256, Extent, Saturate, Patch, Serve, Received, DiskOf, ServeRw;
    SmallLe();
    FrameServed(geo, disk, msg, write, sector, bytes);
    ReceivedHeader(msg);
    var req := Received(msg);
    DecodedServed(geo, disk, req, write, sector, bytes);
    if |req| >= 18 + bytes { assert req[18..18 + bytes] == msg[18..18 + bytes]; }
  }

  lemma DecodedServed(geo: Geometry, disk: seq<byte>, req: seq<byte>, write: bool, sector: nat, bytes: nat)
    requires DiskOf(geo, disk) && |req| >= 18 && FromLe(req[6..14]) == sector && FromLe(req[14..18]) == bytes
    ensures ServeRw(geo, disk, req, write, 6, 18) ==
            if bytes == 0 || bytes > MAX_IO_BYTES || bytes % geo.sector != 0 || (write && |req| < 18 + bytes) then (disk, EINVAL)
            else if StartOf(geo, sector) + bytes > |disk| then (disk, EIO)
            else if write then (Patch(disk, StartOf(geo, sector), req[18..18 + bytes]), OK)
            else (disk, disk[StartOf(geo, sector)..StartOf(geo, sector) + bytes])
  {
    hide FromLe, Extent, Patch, DiskOf;
    ExtentFits(geo, disk, sector, bytes);
  }

  /** A tagged read or write request is decoded to its fields and answered under its tag. */
  lemma FrameServed(geo: Geometry, disk: seq<byte>, msg: seq<byte>, write: bool, sector: nat, bytes: nat)
    requires DiskOf(geo, disk) && sector < U64 && bytes < U32 && |msg| >= RW_TAGGED_HDR_LEN
    requires msg[..2] == Le(if write then REQ_WRITE else REQ_READ, 2)
    requires msg[6..14] == Le(sector, 8) && msg[14..18] == Le(bytes, 4)
    ensures var rw := ServeRw(geo, disk, Received(msg), write, TAGGED_HDR_LEN, RW_TAGGED_HDR_LEN);
            Serve(geo, disk, msg) == (rw.0, Some(msg[2..6] + rw.1))
    ensures |Received(msg)| >= RW_TAGGED_HDR_LEN
    ensures FromLe(Received(msg)[6..14]) == sector && FromLe(Received(msg)[14..18]) == bytes
  {
    hide Le, FromLe, Pow256, ServeRw, Received;
    Opcodes();
    Le64RoundTrip(sector);
    Le32RoundTrip(bytes);
    ReceivedHeader(msg);
  }

  /** Truncation to the receive buffer keeps the header, and the data if the whole message fits. */
  lemma ReceivedHeader(msg: seq<byte>)
    requires |msg| >= RW_TAGGED_HDR_LEN
    ensures |Received(msg)| == if |msg| <= REQ_BUF_LEN then |msg| else REQ_BUF_LEN
    ensures var req := Received(msg);
            req[..2] == msg[..2] && req[2..6] == msg[2..6] && req[6..14] == msg[6..14] && req[14..18] == msg[14..18]
    ensures forall n | 18 <= n <= |Received(msg)| :: Received(msg)[18..n] == msg[18..n]
  {}

  lemma ReadFrame(id: nat, sector: nat, bytes: nat)
    ensures var req := Tagged(ReadReq(sector, bytes), id);
            && req[..2] == Le(REQ_READ, 2) && req[2..6] == Le(id, 4)
            && req[6..14] == Le(sector, 8) && req[14..18] == Le(bytes, 4)
  {
    hide Le;
    var req := Tagged(ReadReq(sector, bytes), id);
    var op, tag, sec, len := Le(REQ_READ, 2), Le(id, 4), Le(sector, 8), Le(bytes, 4);
    assert ReadReq(sector, bytes)[..2] == op && ReadReq(sector, bytes)[2..] == sec + len;
    assert req == op + tag + sec + len;
    assert req[..2] == op;
    assert req[2..6] == tag;
    assert req[6..14] == sec;
    assert req[14..18] == len;
  }

  /** A tagged write of whole sectors that fits the 4110-byte buffer and the disk is applied and answered OK;
      every other write is refused and changes nothing. */
  lemma WriteServed(geo: Geometry, disk: seq<byte>, id: nat, sector: nat, data: seq<byte>)
    requires DiskOf(geo, disk) && sector < U64 && |data| < U32
    ensures var fits := 0 < |data| <= REQ_BUF_LEN - RW_TAGGED_HDR_LEN && |data| % geo.sector == 0;
            var start := StartOf(geo, sector);
            Serve(geo, disk, Tagged(WriteReq(sector, data), id)) ==
              if !fits then (disk, Some(Le(id, 4) + EINVAL))
              else if start + |data| > |disk| then (disk, Some(Le(id, 4) + EIO))
              else (Patch(disk, start, data), Some(Le(id, 4) + OK))
  {
    hide Le, DiskOf, Patch, WriteReq, Tagged, Serve;
    SmallLe();
    WriteFrame(id, sector, data);
    RwServed(geo, disk, Tagged(WriteReq(sector, data), id), true, sector, |data|);
  }

  /** Through framing, decoding and the store: a read after an accepted write returns the written bytes, and a
      read of a disjoint range returns what it would have returned before the write. */
  lemma WriteThenRead(geo: Geometry, disk: seq<byte>, id: nat, id2: nat, sector: nat, data: seq<byte>, other: nat, bytes: nat)
    requires DiskOf(geo, disk) && sector < U64 && other < U64 && bytes < U32
    requires 0 < |data| <= REQ_BUF_LEN - RW_TAGGED_HDR_LEN && |data| % geo.sector == 0
    requires StartOf(geo, sector) + |data| <= |disk|
    requires StartOf(geo, other) + bytes <= StartOf(geo, sector) || StartOf(geo, sector) + |data| <= StartOf(geo, other)
    ensures var (disk', reply) := Serve(geo, disk, Tagged(WriteReq(sector, data), id));
            && reply == Some(Le(id, 4) + OK)
            && Serve(geo, disk', Tagged(ReadReq(sector, |data|), id2)) == (disk', Some(Le(id2, 4) + data))
            && Serve(geo, disk', Tagged(ReadReq(other, bytes), id2)).1 == Serve(geo, disk, Tagged(ReadReq(other, bytes), id2)).1
  {
    hide Le, FromLe, Serve, WriteReq, ReadReq, Tagged, Patch;
    WriteServed(geo, disk, id, sector, data);
    var disk' := Patch(disk, StartOf(geo, sector), data);
    ReadServed(geo, disk', id2, sector, |data|);
    ReadServed(geo, disk', id2, other, bytes);
    ReadServed(geo, disk, id2, other, bytes);
    assert disk'[StartOf(geo, sector)..StartOf(geo, sector) + |data|] == data;
    if StartOf(geo, other) + bytes <= |disk| {
      assert disk'[StartOf(geo, other)..StartOf(geo, other) + bytes] == disk[StartOf(geo, other)..StartOf(geo, other) + bytes];
    }
  }

  lemma WriteFrame(id: nat, sector: nat, data: seq<byte>)
    ensures var req := Tagged(WriteReq(sector, data), id);
            && req[..2] == Le(REQ_WRITE, 2) && req[2..6] == Le(id, 4)
            && req[6..14] == Le(sector, 8) && req[14..18] == Le(|data|, 4) && req[18..18 + |data|] == data
  {
    hide Le;
    var req := Tagged(WriteReq(sector, data), id);
    var op, tag, sec, len := Le(REQ_WRITE, 2), Le(id, 4), Le(sector, 8), Le(|data|, 4);
    assert WriteReq(sector, data)[..2] == op && WriteReq(sector, data)[2..] == sec + len + data;
    assert req == op + tag + sec + len + data;
    assert req[..2] == op;
    assert req[2..6] == tag;
    assert req[6..14] == sec;
    assert req[14..18] == len;
    assert req[18..18 + |data|] == data;
  }

  /** The running service: the static mock disk and the request loop over it. */
  class BlkService {
    const geo: Geometry
    const disk: array<byte>

    constructor (geo: Geometry)
      requires geo.Valid()
      ensures this.geo == geo && fresh(disk) && DiskOf(geo, disk[..]) && forall i | 0 <= i < disk.Length :: disk[i] == 0
    {
      this.geo := geo;
      disk := new byte[geo.sector * geo.blocks](_ => 0);
    }

    /** `Backend::read_blocks`, Mock arm. */
    method ReadBlocks(sector: nat, len: nat) returns (out: Option<seq<byte>>)
      requires DiskOf(geo, disk[..])
      ensures out.Some? <==> len != 0 && len % geo.sector == 0 && sector * geo.sector + len <= disk.Length
      ensures out.Some? ==> out.value == disk[sector * geo.sector..sector * geo.sector + len]
    {
      if len == 0 || len % geo.sector != 0 {
        return None;
      }
      var start := Saturate(sector * geo.sector);
      var end := Saturate(start + len);
      if end > disk.Length {
        return None;
      }
      return Some(disk[start..end]);
    }

    /** `Backend::write_blocks`, Mock arm. */
    method WriteBlocks(sector: nat, data: seq<byte>) returns (ok: bool)
      requires DiskOf(geo, disk[..])
      modifies disk
      ensures ok <==> |data| != 0 && |data| % geo.sector == 0 && sector * geo.sector + |data| <= disk.Length
      ensures disk[..] == if ok then Patch(old(disk[..]), sector * geo.sector, data) else old(disk[..])
    {
      if |data| == 0 || |data| % geo.sector != 0 {
        return false;
      }
      var start := Saturate(sector * geo.sector);
      var end := Saturate(start + |data|);
      if end > disk.Length {
        return false;
      }
      forall i | 0 <= i < |data| {
        disk[start + i] := data[i];
      }
      return true;
    }

    /** One round of the service loop. Without a reply capability nothing is done and nothing is sent. */
    method Round(msg: seq<byte>, hasCap: bool) returns (reply: Option<seq<byte>>)
      requires DiskOf(geo, disk[..])
      modifies disk
      ensures (disk[..], reply) == if hasCap then Serve(geo, old(disk[..]), msg) else (old(disk[..]), None)
    {
      hide Le, FromLe, Patch, Saturate;
      ghost var before := disk[..];
      var reqBuf := Received(msg);
      if |reqBuf| < 2 || !hasCap {
        return None;
      }
      var opcode := FromLe(reqBuf[..2]);
      var tagged := |reqBuf| >= TAGGED_HDR_LEN;
      var tag := if tagged then reqBuf[2..6] else [];
      var hdr := if tagged then RW_TAGGED_HDR_LEN else RW_HDR_LEN;
      var off := if tagged then TAGGED_HDR_LEN else 2;
      if opcode == REQ_PING {
        return Some(tag + PONG);
      } else if opcode == REQ_GET_INFO {
        return Some(tag + (Le(geo.sector, 8) + Le(geo.blocks, 8)));
      } else if opcode == REQ_READ || opcode == REQ_WRITE {
        if |reqBuf| < hdr {
          return Some(tag + EINVAL);
        }
        var sector := FromLe(reqBuf[off..off + 8]);
        var bytes := FromLe(reqBuf[off + 8..off + 12]);
        if bytes == 0 || bytes > MAX_IO_BYTES || bytes % geo.sector != 0 || (opcode == REQ_WRITE && |reqBuf| < hdr + bytes) {
          return Some(tag + EINVAL);
        }
        ExtentFits(geo, before, sector, bytes);
        if opcode == REQ_READ {
          var out := ReadBlocks(sector, bytes);
          return Some(tag + if out.Some? then out.value else EIO);
        } else {
          var ok := WriteBlocks(sector, reqBuf[hdr..hdr + bytes]);
          return Some(tag + if ok then OK else EIO);
        }
      } else if opcode == REQ_FLUSH {
        return Some(tag + OK);
      } else {
        return Some(tag + EINVAL);
      }
    }
  }
}
