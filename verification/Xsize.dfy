// Size arithmetic that saturates: SIZE_MAX stands for overflow.
module Xsize {
  import opened Arithmetic

  const SIZE_MAX: int := 0xFFFF_FFFF_FFFF_FFFF

  type Size = x: int | 0 <= x <= SIZE_MAX

  function Saturated(x: nat): Size { if x <= SIZE_MAX then x else SIZE_MAX }

  // The sum wraps around; the test finds out.
  function Xsum(size1: Size, size2: Size): (r: Size)
    ensures r == Saturated(size1 + size2)
  {
    var sum := (size1 + size2) % (SIZE_MAX + 1);
    if sum >= size1 then sum else SIZE_MAX
  }

  function Xsum3(size1: Size, size2: Size, size3: Size): (r: Size)
    ensures r == Saturated(size1 + size2 + size3)
  {
    Xsum(Xsum(size1, size2), size3)
  }

  function Xsum4(size1: Size, size2: Size, size3: Size, size4: Size): (r: Size)
    ensures r == Saturated(size1 + size2 + size3 + size4)
  {
    Xsum(Xsum(Xsum(size1, size2), size3), size4)
  }

  // Overflow in an operand is overflow in the maximum.
  function Xmax(size1: Size, size2: Size): (r: Size)
    ensures forall x: nat, y: nat {:trigger Saturated(x), Saturated(y)} ::
              size1 == Saturated(x) && size2 == Saturated(y) ==> r == Saturated(if x >= y then x else y)
  {
    if size1 >= size2 then size1 else size2
  }

  lemma QuotientBounds(m: nat, d: nat, q: nat)
    requires d > 0 && q == m / d
    ensures q * d <= m < (q + 1) * d
  {
  }

  lemma TimesFits(n: nat, elsize: nat)
    requires elsize > 0
    ensures n <= SIZE_MAX / elsize <==> n * elsize <= SIZE_MAX
  {
    var m, q := SIZE_MAX, SIZE_MAX / elsize;
    QuotientBounds(m, elsize, q);
    if n <= q { MulMono(elsize, n, q); } else { MulMono(elsize, q + 1, n); }
  }

  function Xtimes(n: nat, elsize: nat): (r: Size)
    requires elsize > 0
    ensures r == Saturated(n * elsize)
  {
    TimesFits(n, elsize);
    if n <= SIZE_MAX / elsize then n * elsize else SIZE_MAX
  }

  predicate SizeOverflow(size: Size) { size == SIZE_MAX }
}
