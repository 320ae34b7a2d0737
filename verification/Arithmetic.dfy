// The few facts on integers that the proofs rest on, most of them non-linear.
module Arithmetic {

  function Min(a: int, b: int): int { if a < b then a else b }

  lemma Distrib(x: int, y: int, p: int)
    ensures (x + y) * p == x * p + y * p
  {
  }

  // Distributivity for a sum that already has a name: keeps the non-linear terms of a proof few.
  lemma Split(z: int, x: int, y: int, p: int)
    requires z == x + y
    ensures z * p == x * p + y * p && p * z == p * x + p * y
  {
  }

  lemma Commute(x: int, y: int)
    ensures x * y == y * x
  {
  }

  lemma Assoc(x: int, y: int, z: int)
    ensures x * (y * z) == (x * y) * z
  {
  }

  lemma MulMono(a: nat, x: int, y: int)
    requires x <= y
    ensures a * x <= a * y
  {
  }

  lemma MulStrict(a: int, x: int, y: int)
    requires 0 < a && x < y
    ensures a * x < a * y
  {
  }

  // Cancelling a positive factor.
  lemma MulCancelLt(a: nat, x: int, y: int)
    requires a * x < a * y
    ensures x < y
  {
    if y <= x { MulMono(a, y, x); }
  }

  lemma MulSwap(a: int, b: int, x: int, y: int)
    ensures (a * b) * (x * y) == (a * x) * (b * y)
  {
    calc {
      (a * b) * (x * y);
      a * (b * (x * y));
      { assert b * (x * y) == x * (b * y); }
      a * (x * (b * y));
      (a * x) * (b * y);
    }
  }
}
