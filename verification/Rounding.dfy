// Rounding a quotient to the nearest integer, ties to even.
module Rounding {
  import opened Arithmetic

  // z is a/d rounded to nearest, and even when a/d is half-way between integers.
  ghost predicate RoundsTo(a: nat, d: nat, z: int)
  {
    && 0 - d <= 2 * (a - z * d) <= d
    && (2 * (a - z * d) == d || 2 * (a - z * d) == 0 - d ==> z % 2 == 0)
  }

  // Any multiple of d is at least as far from a, so the rounding is unique.
  lemma RoundUnique(a: nat, d: nat, z: int, y: int)
    requires d > 0 && RoundsTo(a, d, z) && RoundsTo(a, d, y)
    ensures z == y
  {
    if z < y {
      RoundOrdered(a, d, z, y);
    } else if y < z {
      RoundOrdered(a, d, y, z);
    }
  }

  lemma RoundOrdered(a: nat, d: nat, z: int, y: int)
    requires d > 0 && z < y && RoundsTo(a, d, z)
    ensures !RoundsTo(a, d, y)
  {
    Distrib(z, y - z, d);
    MulMono(d, 1, y - z);
    if y > z + 1 { MulMono(d, 2, y - z); }
  }

  // No integer is nearer to a/d than the rounded one.
  lemma RoundNearest(a: nat, d: nat, z: int, y: int)
    requires d > 0 && RoundsTo(a, d, z)
    ensures a - z * d <= (if a < y * d then y * d - a else a - y * d)
    ensures z * d - a <= (if a < y * d then y * d - a else a - y * d)
  {
    Distrib(z, y - z, d);
    if y > z { MulMono(d, 1, y - z); }
    if y < z { MulMono(d, y - z, -1); }
  }

  lemma ScaleOrder(k: nat, x: int, y: int)
    requires k > 0
    ensures k * x <= k * y <==> x <= y
    ensures k * x == k * y <==> x == y
  {
    if x < y { MulStrict(k, x, y); }
    if y < x { MulStrict(k, y, x); }
  }

  // A common factor does not change the rounding.
  lemma RoundScale(a: nat, d: nat, k: nat, z: int)
    requires k > 0
    ensures RoundsTo(k * a, k * d, z) <==> RoundsTo(a, d, z)
  {
    var t, m: int := 2 * (a - z * d), 0 - d;
    assert z * (k * d) == k * (z * d);
    assert k * (a - z * d) == k * a - k * (z * d);
    assert 2 * (k * a - z * (k * d)) == k * t;
    assert k * m == 0 - k * d;
    ScaleOrder(k, t, d);
    ScaleOrder(k, m, t);
  }

  // Rounding a == q*d + r.
  lemma RoundQuotient(a: nat, d: nat, q: nat, r: nat)
    requires a == q * d + r && r < d
    ensures 2 * r < d || (2 * r == d && q % 2 == 0) ==> RoundsTo(a, d, q)
    ensures 2 * r > d || (2 * r == d && q % 2 == 1) ==> RoundsTo(a, d, q + 1)
  {
    Distrib(q, 1, d);
  }
}
