/** Euclidean division. */
module Arithmetic {

  lemma MultipleIsLarge(x: int, d: int)
    requires d >= 0
    ensures x >= 1 ==> x * d >= d
    ensures x <= -1 ==> x * d <= -d
  {
    assert x * d == (x - 1) * d + d == (x + 1) * d - d;
  }

  lemma SmallMultiple(x: int, d: int)
    requires -d < x * d < d
    ensures x == 0
  {
    MultipleIsLarge(x, d);
  }

  /** Quotient and remainder are the only way to write a number as q d + r with r below d. */
  lemma DivModUnique(a: nat, d: nat, q: nat, r: nat)
    requires r < d && a == q * d + r
    ensures a / d == q && a % d == r
  {
    var x: int := a / d - q;
    assert a == a / d * d + a % d;
    assert x * d == r - a % d;
    SmallMultiple(x, d);
  }
}
