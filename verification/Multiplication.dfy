// Schoolbook multiplication of two bignums.
module Multiplication {
  import opened Wrappers
  import opened Arithmetic
  import opened Limbs

  lemma RowArith(x: int, carry: int, d: int, y: int, w: int, v: int, q: int, v': int)
    requires x == carry + d * y + w && v' == v + y * q
    ensures x * q + d * v == carry * q + w * q + d * v'
  {
    Distrib(carry + d * y, w, q);
    Distrib(carry, d * y, q);
    Assoc(d, y, q);
    assert d * (v + y * q) == d * v + d * (y * q);
  }

  // done, carried over by carry, is was + d * p.
  ghost predicate RowDone(done: seq<Limb>, was: seq<Limb>, p: seq<Limb>, d: Limb, carry: int)
  {
    |done| == |was| == |p| && Val(done) + carry * B(|p|) == Val(was) + d * Val(p)
  }

  lemma RowStep(done: seq<Limb>, was: seq<Limb>, p: seq<Limb>, d: Limb, carry: int, w: Limb, y: Limb,
                x: int, lo: Limb, hi: int)
    requires RowDone(done, was, p, d, carry)
    requires x == carry + d * y + w && x == lo + BETA * hi
    ensures RowDone(done + [lo], was + [w], p + [y], d, hi)
  {
    hide Val, B;
    ValCarry(done, lo, hi, x);
    ValSnoc(was, w);
    ValSnoc(p, y);
    RowArith(x, carry, d, y, w, Val(p), B(|p|), Val(p + [y]));
  }

  // One limb of a multiply-accumulate; the 64-bit accumulator cannot overflow.
  method MulAdd(digit1: Limb, digit2: Limb, w: Limb, carry0: Limb) returns (lo: Limb, carry: Limb)
    ensures lo + BETA * carry == carry0 + digit1 * digit2 + w
  {
    var acc: TwoLimb := carry0;
    ProductFits(digit1, digit2, carry0, w);
    acc := acc + digit1 * digit2;
    acc := acc + w;
    lo := acc % BETA;
    carry := acc / BETA;
  }

  // dp[i..] += digit * p, one limb longer than p; the top limb is overwritten.
  method AddRow(dp: array<Limb>, i: nat, digit: Limb, p: seq<Limb>)
    requires i + |p| < dp.Length
    modifies dp
    ensures Val(dp[i..i + |p| + 1]) == Val(old(dp[i..i + |p|])) + digit * Val(p)
    ensures forall k :: 0 <= k < dp.Length && !(i <= k <= i + |p|) ==> dp[k] == old(dp[k])
  {
    hide Val, B;
    var carry: Limb := 0;
    var j := 0;
    ValEmpty();
    while j < |p|
      invariant 0 <= j <= |p|
      invariant forall k :: 0 <= k < dp.Length && !(i <= k < i + j) ==> dp[k] == old(dp[k])
      invariant RowDone(dp[i..i + j], old(dp[i..i + j]), p[..j], digit, carry)
    {
      ghost var done, c0, w := dp[i..i + j], carry, dp[i + j];
      var lo, hi := MulAdd(digit, p[j], dp[i + j], carry);
      RowStep(done, old(dp[i..i + j]), p[..j], digit, c0, w, p[j], lo + BETA * hi, lo, hi);
      dp[i + j], carry := lo, hi;
      assert dp[i..i + j + 1] == done + [lo];
      assert old(dp[i..i + j + 1]) == old(dp[i..i + j]) + [w];
      assert p[..j + 1] == p[..j] + [p[j]];
      j := j + 1;
    }
    dp[i + |p|] := carry;
    assert p[..|p|] == p;
    ghost var low := dp[i..i + |p|];
    assert dp[i..i + |p| + 1] == low + [carry];
    ValSnoc(low, carry);
  }

  lemma RowsArith(q: int, mid: int, d: int, v1: int, v2: int, row: int, v1': int)
    requires row == mid + d * v2 && v1' == v1 + d * q
    ensures q * row - q * mid == v1' * v2 - v1 * v2
  {
    Distrib(v1, d * q, v2);
    assert q * (mid + d * v2) == q * mid + q * (d * v2);
    assert q * (d * v2) == (d * q) * v2;
  }

  ghost predicate IsProduct(dest: seq<Limb>, p1: seq<Limb>, p2: seq<Limb>)
  {
    Val(dest) == Val(p1) * Val(p2)
  }

  lemma RowsStep(low: seq<Limb>, mid: seq<Limb>, row: seq<Limb>, p1: seq<Limb>, d: Limb, p2: seq<Limb>)
    requires |low| == |p1|
    requires IsProduct(low + mid, p1, p2)
    requires Val(row) == Val(mid) + d * Val(p2)
    ensures IsProduct(low + row, p1 + [d], p2)
  {
    hide Val, B;
    ValConcat(low, mid);
    ValConcat(low, row);
    ValSnoc(p1, d);
    RowsArith(B(|low|), Val(mid), d, Val(p1), Val(p2), Val(row), Val(p1 + [d]));
  }

  lemma ProductSym(dest: seq<Limb>, p1: seq<Limb>, p2: seq<Limb>)
    requires IsProduct(dest, p1, p2)
    ensures IsProduct(dest, p2, p1)
  {
    hide Val;
    Commute(Val(p1), Val(p2));
  }

  // Fills dp, whose contents are arbitrary, with the product of p1 and p2.
  method FillProduct(dp: array<Limb>, p1: seq<Limb>, p2: seq<Limb>)
    requires dp.Length == |p1| + |p2|
    modifies dp
    ensures IsProduct(dp[..], p1, p2)
  {
    hide Val, B;
    var len1, len2 := |p1|, |p2|;
    var k := len2;
    while k > 0
      invariant 0 <= k <= len2
      invariant forall x :: k <= x < len2 ==> dp[x] == 0
    {
      k := k - 1;
      dp[k] := 0;
    }
    ValZeros(dp[..len2]);
    var i := 0;
    ValEmpty();
    while i < len1
      invariant 0 <= i <= len1
      invariant IsProduct(dp[..i + len2], p1[..i], p2)
    {
      ghost var low, mid := dp[..i], dp[i..i + len2];
      assert dp[..i + len2] == low + mid;
      AddRow(dp, i, p1[i], p2);
      ghost var row := dp[i..i + len2 + 1];
      assert low == dp[..i];
      RowsStep(low, mid, row, p1[..i], p1[i], p2);
      assert dp[..i + 1 + len2] == low + row;
      assert p1[..i + 1] == p1[..i] + [p1[i]];
      i := i + 1;
    }
    assert p1[..len1] == p1;
    assert dp[..] == dp[..len1 + len2];
  }

  // The product of the bignums src1 and src2, in new memory; None when memory is refused.
  method Multiply(al: Allocator, src1: seq<Limb>, src2: seq<Limb>) returns (dest: Option<Mpn>)
    requires !al.refused
    modifies al
    ensures dest.None? <==> al.refused
    ensures dest.Some? ==> dest.value.Valid() && fresh(dest.value.room)
    ensures dest.Some? ==> Normalised(dest.value.Limbs()) && IsProduct(dest.value.Limbs(), src1, src2)
  {
    var p1, p2 := src2, src1;
    if |src1| <= |src2| {
      p1, p2 := src1, src2;
    }
    if |p1| == 0 {
      var empty := al.NewLimbs(1);
      if empty == null { return None; }
      return Some(Mpn(empty, 0, 0));
    }
    var dp := al.NewLimbs(|p1| + |p2|);
    if dp == null { return None; }
    FillProduct(dp, p1, p2);
    assert dp[0..dp.Length] == dp[..];
    var dlen := Normalise(dp, 0, dp.Length);
    if p1 != src1 { ProductSym(dp[0..dlen], p1, p2); }
    return Some(Mpn(dp, 0, dlen));
  }
}
