/** Which sectors a range of bytes touches. */
module Sectors {
  import opened Arithmetic
  import opened Bytes
  import opened BlkServer

  function Lba(pos: nat, bs: nat): nat
    requires bs > 0
  {
    pos / bs
  }

  function Off(pos: nat, bs: nat): nat
    requires bs > 0
  {
    pos % bs
  }

  /** A position on the disk lies in a whole sector of the disk. */
  lemma SectorOf(geo: Geometry, disk: seq<byte>, pos: nat)
    requires DiskOf(geo, disk) && pos < |disk|
    ensures var bs := geo.sector;
            && 6 < bs <= MAX_IO_BYTES && |disk| < U64 && bs % bs == 0
            && Off(pos, bs) < bs && Lba(pos, bs) < U64
            && StartOf(geo, Lba(pos, bs)) + Off(pos, bs) == pos
            && StartOf(geo, Lba(pos, bs)) + bs <= |disk|
  {
    SectorArithmetic(pos, geo.sector, geo.blocks);
  }

  lemma SectorArithmetic(pos: nat, bs: nat, blocks: nat)
    requires bs > 0 && pos < bs * blocks
    ensures pos / bs * bs + pos % bs == pos && pos / bs * bs + bs <= bs * blocks
    ensures pos % bs < bs && bs % bs == 0 && 0 <= pos / bs <= pos
  {
    var lba := pos / bs;
    assert lba * bs + pos % bs == pos;
    MulMonotone(blocks, lba, bs);
    MulMonotone(lba + 1, blocks, bs);
    assert (lba + 1) * bs == lba * bs + bs;
    assert bs == 1 * bs + 0;
    MulMonotone(pos + 1, lba, bs);
    assert (pos + 1) * bs == pos * bs + bs;
    MulMonotone(1, bs, pos);
  }

  /** The last byte of a chunk that ends within its first byte's sector lies in that sector. */
  lemma SameSector(pos: nat, n: nat, bs: nat)
    requires bs > 0 && 0 < n <= bs - Off(pos, bs)
    ensures Lba(pos + n - 1, bs) == Lba(pos, bs)
  {
    var lba := pos / bs;
    assert pos + n - 1 == lba * bs + (pos % bs + n - 1);
    DivUnique(pos + n - 1, bs, lba, pos % bs + n - 1);
  }

  lemma LbaMonotone(a: nat, b: nat, bs: nat)
    requires bs > 0 && a <= b
    ensures Lba(a, bs) <= Lba(b, bs)
  {
    var qa, qb := a / bs, b / bs;
    assert a == qa * bs + a % bs && b == qb * bs + b % bs;
    MulMonotone(qb + 1, qa, bs);
    assert (qb + 1) * bs == qb * bs + bs;
  }

  /** Number of sectors that n bytes from `from` on lie in. */
  function Touched(from: nat, n: nat, bs: nat): nat
    requires bs > 0
  {
    if n == 0 then 0 else LbaMonotone(from, from + n - 1, bs); Lba(from + n - 1, bs) - Lba(from, bs) + 1
  }

  /** Most sectors that n bytes can lie in, wherever they start. */
  function MaxTouched(n: nat, bs: nat): nat
    requires bs > 0
  {
    if n == 0 then 0 else Lba(n + bs - 2, bs) + 1
  }

  lemma TouchedBound(from: nat, n: nat, bs: nat)
    requires bs > 0
    ensures Touched(from, n, bs) <= MaxTouched(n, bs)
  {
    hide Lba, Off;
    if n > 0 {
      var q, r := Lba(from, bs), Off(from, bs);
      Divided(from, bs);
      LbaShift(q, r + n - 1, bs);
      LbaMonotone(r + n - 1, n + bs - 2, bs);
    }
  }

  lemma Divided(pos: nat, bs: nat)
    requires bs > 0
    ensures pos == Lba(pos, bs) * bs + Off(pos, bs) && Off(pos, bs) < bs
  {}

  lemma LbaShift(q: nat, x: nat, bs: nat)
    requires bs > 0
    ensures q * bs + x >= 0 && Lba(q * bs + x, bs) == q + Lba(x, bs)
  {
    var y := x / bs;
    MulMonotone(0, q, bs);
    assert x == y * bs + x % bs;
    assert q * bs + x == (q + y) * bs + x % bs;
    DivUnique(q * bs + x, bs, q + y, x % bs);
  }

  lemma MaxTouchedMonotone(n: nat, m: nat, bs: nat)
    requires bs > 0 && n <= m
    ensures MaxTouched(n, bs) <= MaxTouched(m, bs)
  {
    if n > 0 { LbaMonotone(n + bs - 2, m + bs - 2, bs); }
  }

  /** A transfer of `want` bytes from `from` on, at byte `done`, moves a chunk of n bytes that ends with the transfer or
      with its sector: it needs one more sector, and the next chunk starts in the sector after it. */
  lemma ChunkStep(from: nat, done: nat, n: nat, want: nat, bs: nat)
    requires bs > 0 && 0 < n <= bs - Off(from + done, bs) && done + n <= want
    requires done + n < want ==> n == bs - Off(from + done, bs)
    ensures var pos := from + done;
            && Lba(from, bs) <= Lba(pos, bs)
            && Lba(pos, bs) - Lba(from, bs) < Touched(from, want, bs)
            && (done + n < want ==> Lba(pos + n, bs) == Lba(pos, bs) + 1)
            && Lba(pos + n - 1, bs) == Lba(pos, bs)
  {
    hide Lba, Off;
    var pos := from + done;
    LbaMonotone(from, pos, bs);
    LbaMonotone(pos, from + want - 1, bs);
    SameSector(pos, n, bs);
    NextSector(pos, bs);
  }

  lemma NextSector(pos: nat, bs: nat)
    requires bs > 0
    ensures Off(pos, bs) < bs && Lba(pos + (bs - Off(pos, bs)), bs) == Lba(pos, bs) + 1
  {
    var q := pos / bs;
    assert pos == q * bs + pos % bs;
    assert (q + 1) * bs == q * bs + bs;
    DivUnique(pos + (bs - pos % bs), bs, q + 1, 0);
  }
}
