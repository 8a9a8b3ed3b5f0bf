/** Bytes and little-endian integers, as the wire formats and the process stack use them. */
module Bytes {
  import opened Arithmetic

  newtype byte = x: int | 0 <= x < 256

  const U32: nat := 0x1_0000_0000
  const U64: nat := 0x1_0000_0000_0000_0000

  function Pow256(width: nat): (p: nat)
    ensures p > 0
  {
    if width == 0 then 1 else 256 * Pow256(width - 1)
  }

  /** The low `width` bytes of n, least significant first. */
  function Le(n: nat, width: nat): (s: seq<byte>)
    ensures |s| == width
  {
    if width == 0 then [] else [(n % 256) as byte] + Le(n / 256, width - 1)
  }

  function FromLe(s: seq<byte>): nat {
    if s == [] then 0 else s[0] as nat + 256 * FromLe(s[1..])
  }

  lemma {:induction false} LeRoundTrip(n: nat, width: nat)
    requires n < Pow256(width)
    ensures FromLe(Le(n, width)) == n
  {
    if width > 0 {
      LeRoundTrip(n / 256, width - 1);
      assert Le(n, width)[1..] == Le(n / 256, width - 1);
    }
  }

  /** Little-endian: byte i carries the i-th base-256 digit. */
  lemma {:induction false} LeDigit(n: nat, width: nat, i: nat)
    requires i < width
    ensures Le(n, width)[i] as nat == n / Pow256(i) % 256
    decreases i
  {
    if i > 0 {
      LeDigit(n / 256, width - 1, i - 1);
      DivDiv(n, Pow256(i - 1));
    }
  }

  lemma DivDiv(n: nat, p: nat)
    requires p > 0
    ensures n / 256 / p == n / (256 * p)
  {
    var q := n / 256 / p;
    var r := n / 256 % p;
    assert n == 256 * (q * p + r) + n % 256;
    assert n == q * (256 * p) + (256 * r + n % 256);
    assert 256 * r + n % 256 < 256 * p;
    DivUnique(n, 256 * p, q, 256 * r + n % 256);
  }

  lemma Widths()
    ensures Pow256(2) == 0x1_0000 && Pow256(4) == U32 && Pow256(8) == U64
  {
    assert Pow256(4) == U32;
    assert Pow256(8) == U32 * Pow256(4);
  }

  lemma Le32RoundTrip(n: nat)
    requires n < U32
    ensures FromLe(Le(n, 4)) == n
  {
    Widths();
    LeRoundTrip(n, 4);
  }

  lemma Le64RoundTrip(n: nat)
    requires n < U64
    ensures FromLe(Le(n, 8)) == n
  {
    Widths();
    LeRoundTrip(n, 8);
  }

  /** ASCII text as bytes. */
  function Ascii(s: string): (b: seq<byte>)
    requires forall c | c in s :: c < 128 as char
    ensures |b| == |s| && forall i | 0 <= i < |s| :: b[i] as int == s[i] as int
  {
    seq(|s|, i requires 0 <= i < |s| => assert s[i] in s; s[i] as int as byte)
  }
}
