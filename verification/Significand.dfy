// The significant decimal digits of x = 2^e * m, found from a guess of its decimal exponent.
module Significand {
  import opened Wrappers
  import opened Powers
  import opened Rounding
  import opened Limbs
  import opened Decimal
  import opened Scale10

  // x * 10^k.
  ghost function Scaled(e: int, m: nat, k: int): real
  {
    DenPositive(e, k);
    Num(e, m, k) as real / Den(e, k) as real
  }

  // z is y rounded to nearest, ties to even.
  ghost predicate Rounds(y: real, z: int)
  {
    && -0.5 <= y - z as real <= 0.5
    && (y - z as real == 0.5 || y - z as real == -0.5 ==> z % 2 == 0)
  }

  lemma RoundsQuotient(a: nat, d: nat, z: int)
    requires d > 0 && RoundsTo(a, d, z)
    ensures Rounds(a as real / d as real, z)
  {
    var y, r, w := a as real / d as real, d as real, 2 * (a - z * d);
    QuotientDifference(y, z as real, r, a as real);
    CastProduct(z, d);
    HalfCompare(y - z as real, r, w as real);
  }

  lemma HalfCompare(t: real, r: real, w: real)
    requires r > 0.0 && w == 2.0 * (t * r)
    ensures (t <= 0.5 <==> w <= r) && (-0.5 <= t <==> -r <= w)
    ensures (t == 0.5 <==> w == r) && (t == -0.5 <==> w == -r)
  {
    RealCompare(t, 0.5, r);
    RealCompare(-0.5, t, r);
  }

  lemma QuotientDifference(y: real, z: real, r: real, a: real)
    requires r > 0.0 && y == a / r
    ensures (y - z) * r == a - z * r
  {
    assert y * r == a;
  }

  lemma CastProduct(z: int, d: int)
    ensures (z * d) as real == z as real * d as real
  {
  }

  lemma RealCompare(x: real, y: real, r: real)
    requires r > 0.0
    ensures x * r <= y * r <==> x <= y
    ensures x * r == y * r <==> x == y
  {
    if x < y { assert (y - x) * r > 0.0; }
    if y < x { assert (x - y) * r > 0.0; }
  }

  lemma RoundsUnique(y: real, z: int, w: int)
    requires Rounds(y, z) && Rounds(y, w)
    ensures z == w
  {
  }

  lemma ScaledStep(e: int, m: nat, k: int)
    ensures Scaled(e, m, k + 1) == 10.0 * Scaled(e, m, k)
  {
    hide Pow;
    DenPositive(e, k);
    DenPositive(e, k + 1);
    if k >= 0 {
      TStep(k);
      NumStep(m * Pow(2, Pos(e)), Pow(10, k), Pow(10, k + 1));
      RealScale(Num(e, m, k), Den(e, k), Num(e, m, k + 1));
    } else {
      TStep(-k - 1);
      NumStep(Pow(2, Neg(e)), Pow(10, -k - 1), Pow(10, -k));
      RealUnscale(Num(e, m, k), Den(e, k + 1), Den(e, k));
    }
  }

  lemma NumStep(x: nat, p: nat, p1: nat)
    requires p1 == 10 * p
    ensures x * p1 == 10 * (x * p)
  {
  }

  lemma RealScale(a: nat, d: nat, a': nat)
    requires d > 0 && a' == 10 * a
    ensures a' as real / d as real == 10.0 * (a as real / d as real)
  {
  }

  lemma RealUnscale(a: nat, d: nat, d': nat)
    requires d > 0 && d' == 10 * d
    ensures a as real / d as real == 10.0 * (a as real / d' as real)
  {
    var y := a as real / d' as real;
    assert y * d' as real == a as real;
    assert (10.0 * y) * d as real == a as real;
  }

  lemma {:induction false} ScaledShift(e: int, m: nat, k: int, j: nat)
    ensures Scaled(e, m, k + j) == T(j) as real * Scaled(e, m, k)
  {
    assert T(0) == 1;
    hide Scaled, T;
    if j > 0 {
      ScaledShift(e, m, k, j - 1);
      ScaledStep(e, m, k + j - 1);
      TStep(j - 1);
      RealAssoc(T(j - 1), T(j), Scaled(e, m, k));
    }
  }

  lemma RealAssoc(p: nat, p1: nat, y: real)
    requires p1 == 10 * p
    ensures p1 as real * y == 10.0 * (p as real * y)
  {
  }

  // The decimal exponent of x: 10^E <= x < 10^(E+1).
  ghost predicate IsExponent(e: int, m: nat, E: int)
  {
    1.0 <= Scaled(e, m, -E) < 10.0
  }

  // d * 10^(exponent - prec) is x rounded to prec + 1 significant digits. Rounding may carry into a new
  // decade, and then the exponent is one more.
  ghost predicate IsSignificand(e: int, m: nat, prec: nat, d: int, exponent: int)
  {
    exists E :: IsExponent(e, m, E) && SignificandAt(e, m, prec, d, exponent, E)
  }

  ghost predicate SignificandAt(e: int, m: nat, prec: nat, d: int, exponent: int, E: int)
  {
    || (exponent == E && T(prec) <= d < T(prec + 1) && Rounds(Scaled(e, m, prec - E), d))
    || (exponent == E + 1 && d == T(prec) && Rounds(Scaled(e, m, prec - E), T(prec + 1)))
  }

  lemma ExponentUnique(e: int, m: nat, E: int, F: int)
    requires IsExponent(e, m, E) && IsExponent(e, m, F)
    ensures E == F
  {
    if E < F {
      ScaledShift(e, m, -F, F - E);
      ExponentGap(T(F - E), F - E, Scaled(e, m, -F));
    } else if F < E {
      ScaledShift(e, m, -E, E - F);
      ExponentGap(T(E - F), E - F, Scaled(e, m, -E));
    }
  }

  lemma ExponentGap(p: nat, j: nat, y: real)
    requires j >= 1 && p == T(j) && y >= 1.0
    ensures p as real * y >= 10.0
  {
    PowMonoExp(10, 1, j);
    assert Pow(10, 1) == 10;
    assert (p as real - 10.0) * y >= 0.0;
  }

  // There is only one significand and exponent to print.
  lemma SignificandUnique(e: int, m: nat, prec: nat, d: int, x: int, d': int, x': int)
    requires IsSignificand(e, m, prec, d, x) && IsSignificand(e, m, prec, d', x')
    ensures d == d' && x == x'
  {
    var E :| IsExponent(e, m, E) && SignificandAt(e, m, prec, d, x, E);
    var F :| IsExponent(e, m, F) && SignificandAt(e, m, prec, d', x', F);
    ExponentUnique(e, m, E, F);
    var y := Scaled(e, m, prec - E);
    TStep(prec);
    RoundsUnique(y, if x == E then d else T(prec + 1), if x' == E then d' else T(prec + 1));
  }

  // How good the exponent guess is: 10^g * (1 - 10^-6) <= x < 10^(g+1) * (1 + 10^-6).
  ghost predicate GoodGuess(e: int, m: nat, g: int)
  {
    0.999999 <= Scaled(e, m, -g) < 10.00001
  }

  // ------------------------------------------------------------------- the adjustment, on numbers

  lemma RealBound(r: real, u: real, y: real, lo: real, hi: real)
    requires r > 0.0 && y == r * u && lo <= u <= hi
    ensures lo * r <= y <= hi * r
  {
    RealCompare(lo, u, r);
    RealCompare(u, hi, r);
  }

  // The rounded digits d of y = x * 10^(prec - g), t = 10^prec, for a good guess g.
  lemma FirstTry(y: real, t: int, d: int)
    requires (t == 1 || t >= 10) && 0.999999 * t as real <= y <= 10.00001 * t as real && Rounds(y, d)
    ensures t <= 10 * d && 1 <= d && d < 100 * t
    ensures d < t ==> t >= 10
  {
    var r := t as real;
    assert (100 * t) as real == 100.0 * r && y - 0.5 <= d as real <= y + 0.5;
    assert (10 * d) as real == 10.0 * d as real;
  }

  // Raising the exponent after a digit too many, or lowering it after a digit too few, gives the right count.
  lemma RaisedTry(y: real, t: int, d: int, y': real, d': int)
    requires t >= 1 && y <= 10.00001 * t as real && Rounds(y, d) && d >= 10 * t
    requires y == 10.0 * y' && Rounds(y', d')
    ensures t <= d' < 10 * t
  {
    var r := t as real;
    assert (10 * t) as real == 10.0 * r;
    assert y' <= 1.000001 * r && d' as real <= y' + 0.5;
  }

  lemma LoweredTry(y: real, t: int, d: int, y': real, d': int)
    requires t >= 10 && 0.999999 * t as real <= y && Rounds(y, d) && d < t
    requires y' == 10.0 * y && Rounds(y', d')
    ensures t <= d' < 10 * t
  {
    var r := t as real;
    assert d as real <= r - 1.0 && (10 * t) as real == 10.0 * r;
  }

  // With the right count of digits the digits are right, unless they are 10...0: then x may be just
  // below the decade, and the next smaller exponent is tried.
  lemma SettledKeep(e: int, m: nat, prec: nat, x: int, d: int, d2: int)
    requires Rounds(Scaled(e, m, prec - x), d) && T(prec) <= d < T(prec + 1)
    requires d == T(prec) ==> Rounds(Scaled(e, m, prec - x + 1), d2) && !(T(prec) <= d2 < T(prec + 1))
    ensures IsSignificand(e, m, prec, d, x)
  {
    var t, z := T(prec), Scaled(e, m, prec - x);
    var r := t as real;
    TStep(prec);
    ScaledStep(e, m, prec - x);
    if z >= r {
      ExponentFromScaled(e, m, prec, x);
      assert SignificandAt(e, m, prec, d, x, x);
    } else {
      assert d == t;
      var z2 := Scaled(e, m, prec - x + 1);
      assert z2 < 10.0 * r;
      assert d2 >= 10 * t;
      assert d2 == 10 * t;
      ExponentFromScaled(e, m, prec, x - 1);
      assert SignificandAt(e, m, prec, d, x, x - 1);
    }
  }

  lemma SettledLower(e: int, m: nat, prec: nat, x: int, d: int, d2: int)
    requires Rounds(Scaled(e, m, prec - x), d) && d == T(prec)
    requires Rounds(Scaled(e, m, prec - x + 1), d2) && T(prec) <= d2 < T(prec + 1)
    ensures IsSignificand(e, m, prec, d2, x - 1)
  {
    var t := T(prec);
    TStep(prec);
    ScaledStep(e, m, prec - x);
    assert d2 as real <= 10.0 * t as real - 1.0;
    ExponentFromScaled(e, m, prec, x - 1);
    assert SignificandAt(e, m, prec, d2, x - 1, x - 1);
  }

  lemma ExponentFromScaled(e: int, m: nat, prec: nat, x: int)
    requires T(prec) as real <= Scaled(e, m, prec - x) < 10.0 * T(prec) as real
    ensures IsExponent(e, m, x)
  {
    hide Scaled, Pow;
    ScaledShift(e, m, -x, prec);
    PowPos(10, prec);
    DecadeFromScaled(Scaled(e, m, prec - x), Scaled(e, m, -x), T(prec) as real);
  }

  lemma DecadeFromScaled(s: real, y: real, r: real)
    requires r > 0.0 && s == r * y && r <= s < 10.0 * r
    ensures 1.0 <= y < 10.0
  {
    RealCompare(1.0, y, r);
    RealCompare(10.0, y, r);
  }

  // ------------------------------------------------------------------- the adjustment, on digit strings

  lemma OneThenZeros(s: seq<char>, p: nat)
    requires |s| == p + 1 && s[p] == '1' && forall i :: 0 <= i < p ==> s[i] == '0'
    ensures AllDigits(s) && DecVal(s) == T(p)
  {
    assert s == s[..p] + ['1'];
    DecSnoc(s[..p], '1');
    AllZeros(s[..p]);
  }

  // Exactly precision zeroes and a single '1' digit on top: the number 10^precision.
  method IsBorderline(c: array<char>, n: nat, precision: nat) returns (b: bool)
    requires n <= c.Length && n == precision + 1 && AllDigits(c[..n])
    ensures b <==> DecVal(c[..n]) == T(precision)
  {
    ghost var s := c[..n];
    var i := 0;
    while i < precision
      invariant 0 <= i <= precision
      invariant forall k :: 0 <= k < i ==> c[k] == '0'
    {
      if c[i] != '0' {
        NotPower(s, precision, i);
        return false;
      }
      i := i + 1;
    }
    b := c[precision] == '1';
    if b {
      OneThenZeros(s, precision);
    } else {
      NotPower(s, precision, precision);
    }
  }

  lemma NotPower(s: seq<char>, p: nat, i: nat)
    requires |s| == p + 1 && AllDigits(s) && i <= p && s[i] != (if i < p then '0' else '1')
    ensures DecVal(s) != T(p)
  {
    var u := seq(p + 1, k requires 0 <= k <= p => if k < p then '0' else '1');
    OneThenZeros(u, p);
    if DecVal(s) == T(p) {
      DigitsUnique(s, u);
      assert false;
    }
  }

  // The digits for a decimal exponent: x * 10^(prec - exponent) rounded.
  ghost predicate DigitsAt(c: array<char>, n: nat, e: int, m: nat, k: int)
    reads c
  {
    n <= c.Length && Canonical(c[..n]) && Rounds(Scaled(e, m, k), DecVal(c[..n]))
  }

  method DigitsFor(al: Allocator, e: int, m: seq<Limb>, k: int) returns (digits: Option<(array<char>, nat)>)
    requires !al.refused
    modifies al
    ensures digits.None? <==> al.refused
    ensures digits.Some? ==> var (c, n) := digits.value; fresh(c) && DigitsAt(c, n, e, Val(m), k)
  {
    digits := ScaleRoundDecimal(al, e, m, k);
    if digits.Some? {
      var (c, n) := digits.value;
      DenPositive(e, k);
      RoundsQuotient(Num(e, Val(m), k), Den(e, k), DecVal(c[..n]));
    }
  }

  // Whether the digits count to prec + 1 tells where their value lies.
  lemma CountTells(s: seq<char>, prec: nat)
    requires Canonical(s) && 1 <= DecVal(s)
    ensures |s| == prec + 1 <==> T(prec) <= DecVal(s) < T(prec + 1)
    ensures |s| == prec ==> DecVal(s) < T(prec)
    ensures |s| == prec + 2 ==> T(prec + 1) <= DecVal(s)
    ensures T(prec) <= 10 * DecVal(s) && DecVal(s) < T(prec + 2) ==> prec <= |s| <= prec + 2
  {
    hide DecVal, Pow;
    CanonicalLength(s);
    assert |s| == 1 ==> T(0) <= DecVal(s) by { TStep(0); }
    if |s| == prec + 1 { TStep(0); }
    if T(prec) <= DecVal(s) < T(prec + 1) { CanonicalLengthUnique(s, prec); }
    if |s| < prec { PowMonoExp(10, |s| + 1, prec); TStep(|s|); }
    if |s| > prec + 2 { PowMonoExp(10, prec + 2, |s| - 1); }
  }

  lemma TenOrMore(prec: nat)
    ensures T(prec) == 1 || T(prec) >= 10
  {
    if prec > 0 { PowMonoExp(10, 1, prec); assert Pow(10, 1) == 10; }
  }

  lemma GuessBounds(e: int, m: nat, prec: nat, g: int)
    requires GoodGuess(e, m, g)
    ensures var r := T(prec) as real; 0.999999 * r <= Scaled(e, m, prec - g) <= 10.00001 * r
  {
    hide Scaled, Pow;
    PowPos(10, prec);
    ScaledShift(e, m, -g, prec);
    RealBound(T(prec) as real, Scaled(e, m, -g), Scaled(e, m, prec - g), 0.999999, 10.00001);
  }

  // What the guess guarantees about the digits before and after an adjustment of the exponent.
  lemma GuessTries(e: int, m: nat, prec: nat, g: int, s: seq<char>)
    requires GoodGuess(e, m, g) && Canonical(s) && Rounds(Scaled(e, m, prec - g), DecVal(s))
    ensures prec <= |s| <= prec + 2 && 1 <= DecVal(s)
    ensures |s| == prec ==> DecVal(s) < T(prec) && T(prec) >= 10
    ensures |s| == prec + 2 ==> DecVal(s) >= 10 * T(prec)
  {
    hide DecVal, Canonical, GoodGuess, Scaled, Rounds, Pow;
    GuessBounds(e, m, prec, g);
    TenOrMore(prec);
    FirstTry(Scaled(e, m, prec - g), T(prec), DecVal(s));
    TStep(prec);
    TStep(prec + 1);
    CountTells(s, prec);
  }

  lemma AdjustedCount(e: int, m: nat, prec: nat, g: int, s: seq<char>, x: int, s': seq<char>)
    requires GoodGuess(e, m, g) && Canonical(s) && Rounds(Scaled(e, m, prec - g), DecVal(s))
    requires (|s| == prec && x == g - 1) || (|s| == prec + 2 && x == g + 1)
    requires Canonical(s') && Rounds(Scaled(e, m, prec - x), DecVal(s'))
    ensures |s'| == prec + 1 && 1 <= DecVal(s')
  {
    hide DecVal, Canonical, GoodGuess, Scaled, Rounds, Pow;
    GuessTries(e, m, prec, g, s);
    GuessBounds(e, m, prec, g);
    TStep(prec);
    if x == g + 1 {
      ScaledStep(e, m, prec - x);
      RaisedTry(Scaled(e, m, prec - g), T(prec), DecVal(s), Scaled(e, m, prec - x), DecVal(s'));
    } else {
      ScaledStep(e, m, prec - g);
      LoweredTry(Scaled(e, m, prec - g), T(prec), DecVal(s), Scaled(e, m, prec - x), DecVal(s'));
    }
    CountTells(s', prec);
  }

  // Finds the prec + 1 significant digits of x = 2^e * m and its exponent, starting from a good guess. The
  // digits are scaled anew for each exponent tried; neither abort of the loop is reached, and it runs at
  // most twice.
  method AdjustExponent(al: Allocator, e: int, m: seq<Limb>, guess: int, prec: nat)
    returns (digits: Option<array<char>>, exponent: int, ghost tries: nat)
    requires !al.refused && GoodGuess(e, Val(m), guess)
    modifies al
    ensures digits.None? <==> al.refused
    ensures digits.Some? ==> fresh(digits.value) && tries <= 2 && guess - 1 <= exponent <= guess + 1
    ensures digits.Some? ==> prec < digits.value.Length && DigitsAt(digits.value, prec + 1, e, Val(m), prec - exponent)
    ensures digits.Some? ==> T(prec) <= DecVal(digits.value[..prec + 1]) < T(prec + 1)
  {
    hide Val, DecVal, Canonical, GoodGuess;
    exponent, tries := guess, 0;
    ghost var first: seq<char> := [];
    var adjusted := false;
    while true
      invariant !al.refused && guess - 1 <= exponent <= guess + 1
      invariant tries == if adjusted then 1 else 0
      invariant !adjusted ==> exponent == guess
      invariant adjusted ==> Canonical(first) && Rounds(Scaled(e, Val(m), prec - guess), DecVal(first))
      invariant adjusted ==>
                  (|first| == prec && exponent == guess - 1) || (|first| == prec + 2 && exponent == guess + 1)
      decreases if adjusted then 0 else 1
    {
      var r := DigitsFor(al, e, m, prec - exponent);
      if r.None? { return None, exponent, tries; }
      var (c, n) := r.value;
      tries := tries + 1;
      if adjusted {
        AdjustedCount(e, Val(m), prec, guess, first, exponent, c[..n]);
      } else {
        GuessTries(e, Val(m), prec, guess, c[..n]);
      }
      if n == prec + 1 {
        CountTells(c[..n], prec);
        return Some(c), exponent, tries;
      }
      if n < prec || n > prec + 2 {
        assert false;
      }
      if adjusted {
        assert false;
      }
      first := c[..n];
      exponent := if n == prec then exponent - 1 else exponent + 1;
      adjusted := true;
    }
  }

  lemma TopNonzero(s: seq<char>, prec: nat)
    requires Canonical(s) && |s| == prec + 1 && 1 <= DecVal(s)
    ensures s[prec] != '0'
  {
    if prec == 0 { assert s[1..] == []; }
  }

  lemma LowerPositive(e: int, m: nat, prec: nat, x: int, d: int, d2: int)
    requires Rounds(Scaled(e, m, prec - x), d) && d == T(prec) && Rounds(Scaled(e, m, prec - x + 1), d2)
    ensures 1 <= d2
  {
    hide Scaled;
    PowPos(10, prec);
    ScaledStep(e, m, prec - x);
  }

  // The digits to print for %e and %g: exactly prec + 1 of them with a nonzero leading one, the correctly
  // rounded significand of x with its exponent.
  method SignificantDigits(al: Allocator, e: int, m: seq<Limb>, guess: int, prec: nat)
    returns (digits: Option<array<char>>, exponent: int)
    requires !al.refused && GoodGuess(e, Val(m), guess)
    modifies al
    ensures digits.None? <==> al.refused
    ensures digits.Some? ==> var c := digits.value;
              fresh(c) && prec < c.Length && Canonical(c[..prec + 1]) && c[prec] != '0'
              && guess - 2 <= exponent <= guess + 1
              && IsSignificand(e, Val(m), prec, DecVal(c[..prec + 1]), exponent)
  {
    hide Val, DecVal, GoodGuess, IsSignificand, Scaled, Rounds;
    ghost var tries;
    digits, exponent, tries := AdjustExponent(al, e, m, guess, prec);
    if digits.None? { return; }
    var c := digits.value;
    PowPos(10, prec);
    TopNonzero(c[..prec + 1], prec);
    var borderline := IsBorderline(c, prec + 1, prec);
    if borderline {
      var r := DigitsFor(al, e, m, prec - exponent + 1);
      if r.None? { return None, exponent; }
      var (c2, n2) := r.value;
      ghost var d2 := DecVal(c2[..n2]);
      LowerPositive(e, Val(m), prec, exponent, DecVal(c[..prec + 1]), d2);
      CountTells(c2[..n2], prec);
      if n2 == prec + 1 {
        SettledLower(e, Val(m), prec, exponent, DecVal(c[..prec + 1]), d2);
        TopNonzero(c2[..n2], prec);
        return Some(c2), exponent - 1;
      }
      SettledKeep(e, Val(m), prec, exponent, DecVal(c[..prec + 1]), d2);
    } else {
      SettledKeep(e, Val(m), prec, exponent, DecVal(c[..prec + 1]), 0);
    }
  }
}
