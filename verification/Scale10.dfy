// The decimal digits of round(2^e * m * 10^n), exactly.
module Scale10 {
  import opened Wrappers
  import opened Arithmetic
  import opened Powers
  import opened Rounding
  import opened Limbs
  import opened LimbTimes
  import opened Multiplication
  import opened LongDivision
  import opened Decimal

  function Pos(x: int): nat { if x > 0 then x else 0 }
  function Neg(x: int): nat { if x < 0 then -x else 0 }

  // 2^e * m * 10^n as a fraction of natural numbers.
  ghost function Num(e: int, m: nat, n: int): nat { (m * Pow(2, Pos(e))) * Pow(10, Pos(n)) }
  ghost function Den(e: int, n: int): nat { Pow(2, Neg(e)) * Pow(10, Neg(n)) }

  // The same with the powers of ten split into powers of two and five, s = e + n.
  ghost function Num25(s: int, m: nat, n: int): nat { (m * Pow(2, Pos(s))) * Pow(5, Pos(n)) }
  ghost function Den25(s: int, n: int): nat { Pow(2, Neg(s)) * Pow(5, Neg(n)) }

  lemma DenPositive(e: int, n: int)
    ensures Den(e, n) > 0
  {
    PowPos(2, Neg(e));
    PowPos(10, Neg(n));
    MulStrict(Pow(2, Neg(e)), 0, Pow(10, Neg(n)));
  }

  lemma Den25Positive(s: int, n: int)
    ensures Den25(s, n) > 0
  {
    PowPos(2, Neg(s));
    PowPos(5, Neg(n));
    MulStrict(Pow(2, Neg(s)), 0, Pow(5, Neg(n)));
  }

  lemma RoundCross(a: nat, d: nat, a': nat, d': nat, z: int)
    requires d > 0 && d' > 0 && d' * a == d * a'
    ensures RoundsTo(a, d, z) <==> RoundsTo(a', d', z)
  {
    RoundScale(a, d, d', z);
    RoundScale(a', d', d, z);
    Commute(d, d');
  }

  lemma Product4(m: nat, a: nat, b: nat, c: nat, d: nat)
    ensures (c * d) * ((m * a) * b) == m * ((a * c) * (b * d))
  {
    calc {
      (c * d) * ((m * a) * b);
      { Assoc(m, a, b); }
      (c * d) * (m * (a * b));
      { Assoc(c * d, m, a * b); Commute(c * d, m); Assoc(m, c * d, a * b); }
      m * ((c * d) * (a * b));
      { MulSwap(c, d, a, b); Commute(c, a); Commute(d, b); }
      m * ((a * c) * (b * d));
    }
  }

  // The two fractions are equal.
  lemma SameFraction(e: int, m: nat, n: int)
    ensures Den(e, n) * Num25(e + n, m, n) == Den25(e + n, n) * Num(e, m, n)
  {
    hide Pow;
    var s := e + n;
    PowBase(2, 5, Pos(n));
    PowBase(2, 5, Neg(n));
    Assoc(Pow(2, Neg(e)), Pow(2, Neg(n)), Pow(5, Neg(n)));
    PowAdd(2, Neg(e), Neg(n));
    Product4(m, Pow(2, Pos(s)), Pow(5, Pos(n)), Pow(2, Neg(e) + Neg(n)), Pow(5, Neg(n)));
    PowAdd(2, Pos(s), Neg(e) + Neg(n));

    Assoc(m * Pow(2, Pos(e)), Pow(2, Pos(n)), Pow(5, Pos(n)));
    Assoc(m, Pow(2, Pos(e)), Pow(2, Pos(n)));
    PowAdd(2, Pos(e), Pos(n));
    Product4(m, Pow(2, Pos(e) + Pos(n)), Pow(5, Pos(n)), Pow(2, Neg(s)), Pow(5, Neg(n)));
    PowAdd(2, Pos(e) + Pos(n), Neg(s));
    assert Pos(s) + (Neg(e) + Neg(n)) == Pos(e) + Pos(n) + Neg(s);
  }

  // Rounding 2^s * 5^n * m rounds 2^e * m * 10^n.
  lemma RoundScaled(e: int, m: nat, n: int, z: int)
    requires RoundsTo(Num25(e + n, m, n), Den25(e + n, n), z)
    ensures RoundsTo(Num(e, m, n), Den(e, n), z)
  {
    hide Num, Den, Num25, Den25, RoundsTo;
    DenPositive(e, n);
    Den25Positive(e + n, n);
    SameFraction(e, m, n);
    RoundCross(Num25(e + n, m, n), Den25(e + n, n), Num(e, m, n), Den(e, n), z);
  }

  // Factoring out a common power of ten, when both exponents are positive, commutes with the rounding.
  lemma FactorTen(s: nat, m: nat, n: nat, x: nat, z: int)
    requires x <= s && x <= n && RoundsTo(Num25(s - x, m, n - x), Den25(s - x, n - x), z)
    ensures RoundsTo(Num25(s, m, n), Den25(s, n), Pow(10, x) * z)
  {
    assert Den25(s - x, n - x) == 1 && Den25(s, n) == 1 by { assert Pow(2, 0) == 1 && Pow(5, 0) == 1; }
    var y := Num25(s - x, m, n - x);
    assert z == y;
    PowBase(2, 5, x);
    Product4(m, Pow(2, s - x), Pow(5, n - x), Pow(2, x), Pow(5, x));
    PowAdd(2, s - x, x);
    PowAdd(5, n - x, x);
    Assoc(m, Pow(2, s), Pow(5, n));
    assert Pow(10, x) * y == Num25(s, m, n);
  }

  // ----------------------------------------------------------------------- powers of five and two

  lemma FiveTo41()
    ensures Pow(5, 41) == 45_474_735_088_646_411_895_751_953_125
  {
    assert Pow(5, 1) == 5 && Pow(5, 5) == 3125;
    PowAdd(5, 5, 5); PowAdd(5, 10, 10); PowAdd(5, 20, 20); PowAdd(5, 40, 1);
  }

  lemma FiveTo205()
    ensures Pow(5, 205) < Pow(2, 476)
  {
    hide Pow;
    FiveTo41();
    PowAdd(5, 41, 41); PowAdd(5, 82, 82); PowAdd(5, 164, 41);
    TwoTo97();
    PowAdd(2, 96, 96); PowAdd(2, 192, 192); PowAdd(2, 384, 92);
    assert Pow(2, 92) == 0x100000000000000000000000 by { TwoTo92(); }
  }

  lemma TwoTo92()
    ensures Pow(2, 92) == 0x100000000000000000000000
  {
    HalfIsPower();
    PowAdd(2, 16, 16); PowAdd(2, 32, 31); PowAdd(2, 63, 16); PowAdd(2, 79, 8); PowAdd(2, 87, 4); PowAdd(2, 91, 1);
  }

  // 2.322 is slightly larger than log(5)/log(2), as an exact fraction per limb: 2.322 / 32 = 2322/32000.
  function FiveCapacity(n: nat): nat { n * 2322 / 32000 + 1 }

  lemma FiveFits(n: nat)
    ensures Pow(5, n) < B(FiveCapacity(n))
  {
    var c := FiveCapacity(n);
    BetaIsPower();
    PowMul(2, 32, c);
    PowPos(2, 32 * c);
    if n == 0 {
      BStep(0);
    } else {
      assert 32000 * c > 2322 * n;
      PowMul(5, n, 205);
      PowMul(5, 205, n);
      assert n * 205 == 205 * n;
      FiveTo205();
      PowStrictBase(Pow(5, 205), Pow(2, 476), n);
      PowMul(2, 476, n);
      PowMul(2, 32 * c, 205);
      PowMonoExp(2, 476 * n, (32 * c) * 205);
      PowRootLt(Pow(5, n), Pow(2, 32 * c), 205);
    }
  }

  const SMALL_POW5: seq<Limb> :=
    [1, 5, 25, 125, 625, 3125, 15625, 78125, 390625, 1953125, 9765625, 48828125, 244140625, 1220703125]

  lemma SmallPow5(k: nat)
    requires k <= 13
    ensures SMALL_POW5[k] == Pow(5, k)
  {
    assert Pow(5, 0) == 1;
    if k > 0 { SmallPow5(k - 1); }
  }

  // The bignum p[..len] is the positive number v.
  ghost predicate Holds(p: array<Limb>, len: nat, v: nat)
    reads p
  {
    len <= p.Length && 0 < len && p[len - 1] != 0 && Val(p[..len]) == v
  }

  lemma Carried(s: seq<Limb>, src: seq<Limb>, f: nat, carry: Limb)
    requires TimesDone(s, src, f, carry)
    ensures carry == 0 ==> Val(s) == f * Val(src)
    ensures carry > 0 ==> Val(s + [carry]) == f * Val(src) && B(|s|) <= f * Val(src)
  {
    hide Val, B;
    ValSnoc(s, carry);
    if carry > 0 { MulMono(B(|s|), 1, carry); }
  }

  lemma FitsBelow(len: nat, cap: nat, v: nat)
    requires B(len) <= v < B(cap)
    ensures len < cap
  {
    if cap <= len { PowMonoExp(BETA, cap, len); }
  }

  lemma TopStays(s: seq<Limb>, src: seq<Limb>, f: nat)
    requires src != [] && src[|src| - 1] != 0 && f > 0 && |s| == |src| && Val(s) == f * Val(src)
    ensures s[|s| - 1] != 0
  {
    hide Val, B;
    ValTop(src);
    MulMono(Val(src), 1, f);
    if s[|s| - 1] == 0 {
      ValDropTopZero(s);
      ValBound(s[..|s| - 1]);
    }
  }

  // p *= f, growing by a limb if the product needs one; cap bounds what the product needs.
  method TimesGrow(p: array<Limb>, len: nat, f: nat, ghost v: nat, ghost cap: nat) returns (n: nat)
    requires Holds(p, len, v) && 0 < f <= BETA && cap <= p.Length && f * v < B(cap)
    modifies p
    ensures len <= n <= len + 1 && Holds(p, n, f * v)
  {
    hide Val, B;
    ghost var src := p[..len];
    var carry := TimesInPlace(p, len, f);
    ghost var s := p[..len];
    Carried(s, src, f, carry);
    n := len;
    if carry > 0 {
      FitsBelow(len, cap, f * v);
      p[len] := carry;
      n := len + 1;
      assert p[..n] == s + [carry];
    } else {
      TopStays(s, src, f);
    }
  }

  // p := 5^absN, thirteen factors of five at a time.
  method PowerOfFive(p: array<Limb>, absN: nat) returns (len: nat)
    requires FiveCapacity(absN) <= p.Length
    modifies p
    ensures Holds(p, len, Pow(5, absN)) && len <= FiveCapacity(absN)
  {
    hide Val, B, Pow;
    p[0] := 1;
    len := 1;
    assert p[..1] == [1];
    ValSingle(1);
    assert Pow(5, 0) == 1 by { PowZero(); }
    if absN > 0 {
      var n13 := 0;
      while n13 <= absN
        invariant Holds(p, len, Pow(5, if n13 <= absN then n13 else absN))
      {
        var k := if n13 + 13 <= absN then 13 else absN - n13;
        SmallPow5(k);
        PowAdd(5, k, n13);
        FiveFits(absN);
        PowMonoExp(5, k + n13, absN);
        PowPos(5, k);
        len := TimesGrow(p, len, SMALL_POW5[k], Pow(5, n13), FiveCapacity(absN));
        n13 := n13 + 13;
      }
    }
    FiveLength(p[..len], absN);
  }

  lemma PowZero()
    ensures Pow(5, 0) == 1 && Pow(2, 0) == 1
  {
  }

  lemma FiveLength(s: seq<Limb>, n: nat)
    requires s != [] && s[|s| - 1] != 0 && Val(s) == Pow(5, n)
    ensures |s| <= FiveCapacity(n)
  {
    ValTop(s);
    FiveFits(n);
    FitsBelow(|s| - 1, FiveCapacity(n), Val(s));
  }

  lemma PowLimbs(s: nat)
    ensures Pow(2, s) == Pow(2, s % 32) * B(s / 32)
  {
    BetaIsPower();
    PowMul(2, 32, s / 32);
    PowAdd(2, s % 32, 32 * (s / 32));
  }

  lemma ZerosBelow(zeros: seq<Limb>, s: seq<Limb>)
    requires forall i :: 0 <= i < |zeros| ==> zeros[i] == 0
    ensures Val(zeros + s) == B(|zeros|) * Val(s)
  {
    ValZeros(zeros);
    ValConcat(zeros, s);
  }

  // p[k..k+len] := p[..len], from the top down because the ranges may overlap.
  method MoveUp(p: array<Limb>, len: nat, k: nat)
    requires len + k <= p.Length
    modifies p
    ensures p[k..k + len] == old(p[..len])
  {
    var count := len;
    while count > 0
      invariant 0 <= count <= len
      invariant forall j :: 0 <= j < count ==> p[j] == old(p[j])
      invariant forall j :: k + count <= j < k + len ==> p[j] == old(p[j - k])
    {
      count := count - 1;
      p[k + count] := p[count];
    }
  }

  // p[..n] := 0.
  method ClearLimbs(p: array<Limb>, n: nat)
    requires n <= p.Length
    modifies p
    ensures forall i :: 0 <= i < n ==> p[i] == 0
    ensures forall i :: n <= i < p.Length ==> p[i] == old(p[i])
  {
    var count := n;
    while count > 0
      invariant 0 <= count <= n
      invariant forall i :: count <= i < n ==> p[i] == 0
      invariant forall i :: 0 <= i < p.Length && !(count <= i < n) ==> p[i] == old(p[i])
    {
      count := count - 1;
      p[count] := 0;
    }
  }

  // A left shift of p[..len] by k whole limbs.
  method ShiftLimbs(p: array<Limb>, len: nat, k: nat, ghost v: nat) returns (n: nat)
    requires Holds(p, len, v) && len + k <= p.Length
    modifies p
    ensures n == len + k && Holds(p, n, B(k) * v)
  {
    hide Val, B;
    ghost var s := p[..len];
    MoveUp(p, len, k);
    ClearLimbs(p, k);
    n := len + k;
    assert p[k..k + len] == s;
    assert p[..n] == p[..k] + p[k..k + len];
    ZerosBelow(p[..k], s);
    assert p[n - 1] == p[k..k + len][len - 1];
  }

  lemma BitsFit(f: nat, v: nat, cap: nat)
    requires f < BETA && v < B(cap)
    ensures f * v < B(cap + 1)
  {
    BStep(cap);
    MulMono(v, f, BETA);
    MulStrict(BETA, v, B(cap));
  }

  // p *= 2^absS: a shift by the odd bits, then by whole limbs.
  method TimesPowerOfTwo(p: array<Limb>, len0: nat, absS: nat, ghost v: nat, ghost cap: nat) returns (len: nat)
    requires Holds(p, len0, v) && v < B(cap) && len0 <= cap && cap + absS / 32 + 1 <= p.Length
    modifies p
    ensures Holds(p, len, Pow(2, absS) * v)
  {
    hide Val, B, Pow;
    var sLimbs, sBits := absS / 32, absS % 32;
    len := len0;
    PowLimbs(absS);
    PowTwo31(sBits);
    BitsFit(Pow(2, sBits), v, cap);
    Commute(Pow(2, sBits), B(sLimbs));
    Assoc(B(sLimbs), Pow(2, sBits), v);
    if sBits > 0 {
      len := TimesGrow(p, len, Pow(2, sBits), v, cap + 1);
    } else {
      PowZero();
    }
    if sLimbs > 0 {
      len := ShiftLimbs(p, len, sLimbs, Pow(2, sBits) * v);
    } else {
      BZero();
    }
  }

  lemma BZero()
    ensures B(0) == 1
  {
  }

  // p[off..off+n] := 2^absS, with p[..off] untouched.
  method PowerOfTwoAt(p: array<Limb>, off: nat, absS: nat) returns (n: nat)
    requires off + absS / 32 + 1 <= p.Length
    modifies p
    ensures off + n <= p.Length && p[..off] == old(p[..off]) && Val(p[off..off + n]) == Pow(2, absS)
  {
    hide Val, B, Pow;
    var sLimbs, sBits := absS / 32, absS % 32;
    PowTwo31(sBits);
    PowLimbs(absS);
    for i := 0 to sLimbs
      invariant p[..off] == old(p[..off])
      invariant forall k :: off <= k < off + i ==> p[k] == 0
    {
      p[off + i] := 0;
    }
    p[off + sLimbs] := Pow(2, sBits);
    n := sLimbs + 1;
    ghost var zeros := p[off..off + sLimbs];
    assert p[off..off + n] == zeros + [Pow(2, sBits)];
    ZerosBelow(zeros, [Pow(2, sBits)]);
    ValSingle(Pow(2, sBits));
    Commute(Pow(2, sBits), B(sLimbs));
  }

  // The limbs of m, shifted by less than a limb, are put at place off of p.
  method ShiftInto(p: array<Limb>, m: seq<Limb>, off: nat, sBits: nat) returns (len: nat)
    requires sBits < 32 && off + |m| + 1 <= p.Length
    modifies p
    ensures off <= len <= p.Length && Val(p[off..len]) == Pow(2, sBits) * Val(m)
    ensures p[..off] == old(p[..off])
  {
    hide Val, B, Pow;
    ghost var low := p[..off];
    len := off + |m|;
    if sBits > 0 {
      var carry := ShiftLeft(m, sBits, p, off);
      ghost var hi := p[off..len];
      Carried(hi, m, Pow(2, sBits), carry);
      if carry > 0 {
        p[len] := carry;
        len := len + 1;
        assert p[off..len] == hi + [carry];
      }
    } else {
      for i := 0 to |m|
        modifies p
        invariant p[..off] == low && p[off..off + i] == m[..i]
      {
        p[off + i] := m[i];
      }
      assert p[off..len] == m;
      PowZero();
    }
  }

  // m << absS in new memory.
  method ShiftedCopy(al: Allocator, m: seq<Limb>, absS: nat) returns (num: Option<seq<Limb>>)
    requires !al.refused
    modifies al
    ensures num.None? <==> al.refused
    ensures num.Some? ==> Val(num.value) == Pow(2, absS) * Val(m)
  {
    hide Val, B, Pow;
    var sLimbs, sBits := absS / 32, absS % 32;
    PowTwo31(sBits);
    PowLimbs(absS);
    var p := al.NewLimbs(|m| + sLimbs + 1);
    if p == null { return None; }
    for i := 0 to sLimbs
      modifies p
      invariant forall k :: 0 <= k < i ==> p[k] == 0
    {
      p[i] := 0;
    }
    ghost var zeros := p[..sLimbs];
    var len := ShiftInto(p, m, sLimbs, sBits);
    assert p[..len] == zeros + p[sLimbs..len];
    ZerosBelow(zeros, p[sLimbs..len]);
    Commute(Pow(2, sBits), B(sLimbs));
    Assoc(B(sLimbs), Pow(2, sBits), Val(m));
    return Some(p[..len]);
  }

  // z rounds 2^s * 5^n * m.
  ghost predicate Scaled25(s: int, m: seq<Limb>, n: int, z: Mpn)
    reads z.room
  {
    z.Valid() && Normalised(z.Limbs()) && RoundsTo(Num25(s, Val(m), n), Den25(s, n), Val(z.Limbs()))
  }

  lemma RoundsExactly(a: nat, d: nat, z: nat)
    requires a == z && d == 1
    ensures RoundsTo(a, d, z)
  {
  }

  lemma MultiplyCase(m: nat, s: nat, n: nat, z: nat)
    requires z == m * (Pow(2, s) * Pow(5, n))
    ensures RoundsTo(Num25(s, m, n), Den25(s, n), z)
  {
    Assoc(m, Pow(2, s), Pow(5, n));
    PowZero();
    RoundsExactly(Num25(s, m, n), Den25(s, n), z);
  }

  lemma DivideCase(m: nat, s: int, n: int, z: int)
    requires s <= 0 && n <= 0 && RoundsTo(m, Pow(2, -s) * Pow(5, -n), z)
    ensures RoundsTo(Num25(s, m, n), Den25(s, n), z)
  {
    PowZero();
    UnitFactor(m, Pow(2, 0), Pow(5, 0));
  }

  lemma ShiftDownCase(m: nat, s: int, n: nat, z: int)
    requires s < 0 && RoundsTo(m * Pow(5, n), Pow(2, -s), z)
    ensures RoundsTo(Num25(s, m, n), Den25(s, n), z)
  {
    PowZero();
    UnitFactor(m, Pow(2, 0), Pow(5, n));
  }

  lemma ShiftUpCase(m: nat, s: nat, n: int, z: int)
    requires n < 0 && RoundsTo(Pow(2, s) * m, Pow(5, -n), z)
    ensures RoundsTo(Num25(s, m, n), Den25(s, n), z)
  {
    PowZero();
    Commute(m, Pow(2, s));
    UnitFactor(1, Pow(2, 0), Pow(5, -n));
  }

  // The four cases by the signs of s and n; when they agree the power of five is shifted, too.
  method ScaleBySigns(al: Allocator, s: int, m: seq<Limb>, n: int) returns (z: Option<Mpn>)
    requires !al.refused
    modifies al
    ensures z.None? <==> al.refused
    ensures z.Some? ==> fresh(z.value.room) && Scaled25(s, m, n, z.value)
  {
    hide Val, B, Pow, RoundsTo, Num25, Den25, Normalised;
    var absN, absS := if n >= 0 then n else -n, if s >= 0 then s else -s;
    var p := al.NewLimbs(FiveCapacity(absN) + absS / 32 + 1);
    if p == null { return None; }
    var len := PowerOfFive(p, absN);
    FiveFits(absN);
    PowPos(5, absN);
    PowPos(2, absS);
    if (if n >= 0 then s >= 0 else s <= 0) {
      len := TimesPowerOfTwo(p, len, absS, Pow(5, absN), FiveCapacity(absN));
      if n >= 0 {
        z := Multiply(al, m, p[..len]);
        if z.Some? { MultiplyCase(Val(m), s, n, Val(z.value.Limbs())); }
      } else {
        MulStrict(Pow(2, absS), 0, Pow(5, absN));
        z := Divide(al, m, p[..len]);
        if z.Some? { DivideCase(Val(m), s, n, Val(z.value.Limbs())); }
      }
    } else if n >= 0 {
      var numerator := Multiply(al, m, p[..len]);
      if numerator.None? { return None; }
      var num := numerator.value.Limbs();
      var dLen := PowerOfTwoAt(p, len, absS);
      z := Divide(al, num, p[len..len + dLen]);
      if z.Some? { ShiftDownCase(Val(m), s, n, Val(z.value.Limbs())); }
    } else {
      var num := ShiftedCopy(al, m, absS);
      if num.None? { return None; }
      z := Divide(al, num.value, p[..len]);
      if z.Some? { ShiftUpCase(Val(m), s, n, Val(z.value.Limbs())); }
    }
  }

  // The decimal digits, low to high, of 2^e * m * 10^n rounded to nearest with ties to even; None when
  // memory is refused. The digits are digits[..len].
  method ScaleRoundDecimal(al: Allocator, e: int, m: seq<Limb>, n0: int) returns (digits: Option<(array<char>, nat)>)
    requires !al.refused
    modifies al
    ensures digits.None? <==> al.refused
    ensures digits.Some? ==> var (c, len) := digits.value; fresh(c) && len <= c.Length
    ensures digits.Some? ==> var (c, len) := digits.value;
              Canonical(c[..len]) && RoundsTo(Num(e, Val(m), n0), Den(e, n0), DecVal(c[..len]))
  {
    hide Val, B, Pow, RoundsTo, Num, Den, Num25, Den25, Normalised, Canonical, DecVal;
    var s, n, extra := e + n0, n0, 0;
    if s > 0 && n > 0 {
      extra := if s < n then s else n;
      s, n := s - extra, n - extra;
    }
    var z := ScaleBySigns(al, s, m, n);
    if z.None? { return None; }
    ghost var v := Val(z.value.Limbs());
    if extra > 0 {
      FactorTen(e + n0, Val(m), n0, extra, v);
    } else {
      PowTenZero(v);
    }
    RoundScaled(e, Val(m), n0, Pow(10, extra) * v);
    digits := ConvertToDecimal(al, z.value.room, z.value.off, z.value.len, extra);
  }

  lemma PowTenZero(v: int)
    ensures Pow(10, 0) * v == v
  {
  }
}
