/** Facts about multiplication and division that the solver does not find by itself. */
module Arithmetic {
  lemma {:induction false} MulMonotone(a: int, b: int, c: nat)
    ensures a <= b ==> a * c <= b * c
  {
    assert b * c == a * c + (b - a) * c;
  }

  lemma DivUnique(x: nat, bs: nat, q: nat, r: nat)
    requires bs > 0 && x == q * bs + r && r < bs
    ensures x / bs == q
  {
    var q', r' := x / bs, x % bs;
    assert x == q' * bs + r';
    assert (q - q') * bs == r' - r;
    MulMonotone(1, q - q', bs);
    MulMonotone(1, q' - q, bs);
    assert (q' - q) * bs == r - r';
  }
}
