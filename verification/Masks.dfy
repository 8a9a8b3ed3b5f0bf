/** Unsigned machine words as bit masks, and the index sets those masks denote.
    `Or`, `And` and `Not` are the machine operators written out bit by bit; a word of
    width w is a natural number below 2^w. */
module Masks {

  function Pow2(k: nat): (p: nat)
    ensures p > 0
  {
    if k == 0 then 1 else 2 * Pow2(k - 1)
  }

  /** Bit j of word m. */
  predicate Bit(m: nat, j: nat) {
    if j == 0 then m % 2 == 1 else Bit(m / 2, j - 1)
  }

  function Or(a: nat, b: nat): nat {
    if a == 0 && b == 0 then 0
    else (if a % 2 == 1 || b % 2 == 1 then 1 else 0) + 2 * Or(a / 2, b / 2)
  }

  function And(a: nat, b: nat): nat {
    if a == 0 || b == 0 then 0
    else (if a % 2 == 1 && b % 2 == 1 then 1 else 0) + 2 * And(a / 2, b / 2)
  }

  /** Complement of a word of the given width. */
  function Not(width: nat, x: nat): nat
    requires x < Pow2(width)
  {
    Pow2(width) - 1 - x
  }

  /** A set bit's index is below the word. */
  lemma {:induction false} BitBelow(m: nat, j: nat)
    requires Bit(m, j)
    ensures j < m
  {
    if j > 0 { BitBelow(m / 2, j - 1); }
  }

  /** The indices whose bits are set. */
  function Bits(m: nat): (s: set<nat>)
    ensures forall j: nat :: j in s <==> Bit(m, j)
  {
    assert forall j: nat :: Bit(m, j) ==> j < m by {
      forall j: nat | Bit(m, j)
        ensures j < m
      {
        BitBelow(m, j);
      }
    }
    set j: nat | j < m && Bit(m, j)
  }

  lemma {:induction false} ZeroBits(j: nat)
    ensures !Bit(0, j)
  {
    if j > 0 { ZeroBits(j - 1); }
  }

  lemma {:induction false} OrBit(a: nat, b: nat, j: nat)
    ensures Bit(Or(a, b), j) <==> Bit(a, j) || Bit(b, j)
  {
    if a == 0 && b == 0 {
      ZeroBits(j);
    } else if j > 0 {
      OrBit(a / 2, b / 2, j - 1);
    }
  }

  lemma {:induction false} AndBit(a: nat, b: nat, j: nat)
    ensures Bit(And(a, b), j) <==> Bit(a, j) && Bit(b, j)
  {
    if a == 0 || b == 0 {
      ZeroBits(j);
    } else if j > 0 {
      AndBit(a / 2, b / 2, j - 1);
    }
  }

  lemma {:induction false} NotBit(width: nat, x: nat, j: nat)
    requires x < Pow2(width) && j < width
    ensures Bit(Not(width, x), j) <==> !Bit(x, j)
  {
    if j > 0 {
      NotBit(width - 1, x / 2, j - 1);
    }
  }

  lemma {:induction false} OneBit(k: nat, j: nat)
    ensures Bit(Pow2(k), j) <==> j == k
  {
    if j == 0 {
    } else if k == 0 {
      ZeroBits(j - 1);
    } else {
      OneBit(k - 1, j - 1);
    }
  }

  lemma {:induction false} OrBound(width: nat, a: nat, b: nat)
    requires a < Pow2(width) && b < Pow2(width)
    ensures Or(a, b) < Pow2(width)
  {
    if width > 0 && (a > 0 || b > 0) { OrBound(width - 1, a / 2, b / 2); }
  }

  lemma {:induction false} Pow2Monotone(k: nat, n: nat)
    requires k < n
    ensures Pow2(k) < Pow2(n)
  {
    if k > 0 { Pow2Monotone(k - 1, n - 1); }
  }

  lemma {:induction false} HighBits(width: nat, m: nat, j: nat)
    requires m < Pow2(width) && j >= width
    ensures !Bit(m, j)
  {
    if width == 0 {
      ZeroBits(j);
    } else {
      HighBits(width - 1, m / 2, j - 1);
    }
  }

  /** Distinct words denote distinct sets. */
  lemma {:induction false} BitsInjective(a: nat, b: nat)
    requires Bits(a) == Bits(b)
    ensures a == b
    decreases a + b
  {
    if a + b > 0 {
      assert 0 in Bits(a) <==> 0 in Bits(b);
      forall j: nat
        ensures j in Bits(a / 2) <==> j in Bits(b / 2)
      {
        assert j + 1 in Bits(a) <==> j + 1 in Bits(b);
      }
      BitsInjective(a / 2, b / 2);
    }
  }

  /** `m |= 1 << k` adds k and stays within the width. */
  lemma SetBit(width: nat, m: nat, k: nat)
    requires k < width && m < Pow2(width)
    ensures Bits(Or(m, Pow2(k))) == Bits(m) + {k}
    ensures Or(m, Pow2(k)) < Pow2(width)
  {
    Pow2Monotone(k, width);
    OrBound(width, m, Pow2(k));
    forall j: nat
      ensures Bit(Or(m, Pow2(k)), j) <==> Bit(m, j) || j == k
    {
      OrBit(m, Pow2(k), j);
      OneBit(k, j);
    }
  }

  /** `m & (1 << k) != 0` reads bit k. */
  lemma TestBit(m: nat, k: nat)
    ensures And(m, Pow2(k)) != 0 <==> k in Bits(m)
  {
    forall j: nat
      ensures Bit(And(m, Pow2(k)), j) <==> Bit(m, k) && j == k
    {
      AndBit(m, Pow2(k), j);
      OneBit(k, j);
    }
    EmptyMask(And(m, Pow2(k)));
  }

  lemma EmptyMask(m: nat)
    ensures m == 0 <==> Bits(m) == {}
  {
    forall j: nat ensures !Bit(0, j) { ZeroBits(j); }
    assert Bits(0) == {};
    if Bits(m) == {} {
      BitsInjective(m, 0);
    }
  }

  /** The launcher's and the supervisor's test `deps & !started == 0` is set inclusion. */
  lemma SubsetTest(width: nat, d: nat, s: nat)
    requires d < Pow2(width) && s < Pow2(width)
    ensures And(d, Not(width, s)) == 0 <==> Bits(d) <= Bits(s)
  {
    var rest := And(d, Not(width, s));
    forall j: nat
      ensures Bit(rest, j) <==> Bit(d, j) && !Bit(s, j)
    {
      AndBit(d, Not(width, s), j);
      if j < width { NotBit(width, s, j); } else { HighBits(width, d, j); }
    }
    assert Bits(rest) == Bits(d) - Bits(s);
    EmptyMask(rest);
  }

  /** `(1 << n) - 1` denotes exactly the first n indices. */
  lemma FullMask(n: nat, full: nat)
    requires full == Pow2(n) - 1
    ensures forall j: nat :: j in Bits(full) <==> j < n
  {
    forall j: nat
      ensures Bit(full, j) <==> j < n
    {
      if j < n { NotBit(n, 0, j); ZeroBits(j); } else { HighBits(n, full, j); }
    }
  }
}
