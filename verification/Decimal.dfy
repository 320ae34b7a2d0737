// Conversion of a bignum to decimal digits, nine at a time.
module Decimal {
  import opened Wrappers
  import opened Arithmetic
  import opened DecimalDigit
  import opened Powers
  import opened Limbs
  import opened LimbTimes
  import opened LongDivision

  const BILLION: nat := 1_000_000_000

  function DigitChar(d: nat): char
    requires d < 10
  {
    (d + 48) as char
  }

  // Decimal digits are kept low to high, like the limbs they come from.
  ghost predicate AllDigits(s: seq<char>)
  {
    forall i :: 0 <= i < |s| ==> IsDigit(s[i])
  }

  ghost function DecVal(s: seq<char>): int
  {
    if s == [] then 0 else (s[0] as int - 48) + 10 * DecVal(s[1..])
  }

  ghost function T(e: nat): nat { Pow(10, e) }

  lemma TStep(e: nat)
    ensures T(e + 1) == 10 * T(e) && T(e) > 0 && T(0) == 1
  {
    PowPos(10, e);
  }

  lemma {:induction false} DecConcat(s: seq<char>, t: seq<char>)
    ensures DecVal(s + t) == DecVal(s) + T(|s|) * DecVal(t)
  {
    if s == [] {
      assert s + t == t;
    } else {
      assert (s + t)[1..] == s[1..] + t;
      DecConcat(s[1..], t);
      TStep(|s| - 1);
      DecConcatArith(DecVal(s[1..]), T(|s| - 1), DecVal(t), T(|s|));
    }
  }

  lemma DecConcatArith(s: int, p: nat, t: int, p1: nat)
    requires p1 == 10 * p
    ensures 10 * (s + p * t) == 10 * s + p1 * t
  {
    assert (10 * p) * t == 10 * (p * t);
  }

  lemma DecSnoc(s: seq<char>, c: char)
    ensures DecVal(s + [c]) == DecVal(s) + T(|s|) * (c as int - 48)
  {
    assert [c][1..] == [];
    DecConcat(s, [c]);
  }

  lemma {:induction false} DecBound(s: seq<char>)
    requires AllDigits(s)
    ensures 0 <= DecVal(s) < T(|s|)
  {
    if s != [] {
      DecBound(s[1..]);
      TStep(|s| - 1);
    }
  }

  // A nonzero top digit bounds the value from below.
  lemma DecTop(s: seq<char>)
    requires AllDigits(s) && s != [] && s[|s| - 1] != '0'
    ensures T(|s| - 1) <= DecVal(s)
  {
    var t := s[..|s| - 1];
    assert s == t + [s[|s| - 1]];
    DecSnoc(t, s[|s| - 1]);
    DecBound(t);
    MulMono(T(|t|), 1, s[|s| - 1] as int - 48);
  }

  lemma DecDropTopZero(s: seq<char>)
    requires s != [] && s[|s| - 1] == '0'
    ensures DecVal(s[..|s| - 1]) == DecVal(s)
  {
    assert s == s[..|s| - 1] + ['0'];
    DecSnoc(s[..|s| - 1], '0');
  }

  // At least one digit, and no superfluous leading zero.
  ghost predicate Canonical(s: seq<char>)
  {
    AllDigits(s) && s != [] && (|s| > 1 ==> s[|s| - 1] != '0')
  }

  // The number of digits of a canonical string tells the decade of its value, and conversely.
  lemma CanonicalLength(s: seq<char>)
    requires Canonical(s)
    ensures DecVal(s) < T(|s|) && (|s| > 1 ==> T(|s| - 1) <= DecVal(s))
  {
    DecBound(s);
    if |s| > 1 { DecTop(s); }
  }

  lemma CanonicalLengthUnique(s: seq<char>, n: nat)
    requires Canonical(s) && T(n) <= DecVal(s) < T(n + 1)
    ensures |s| == n + 1
  {
    CanonicalLength(s);
    if |s| <= n { PowMonoExp(10, |s|, n); }
    if |s| > n + 1 { PowMonoExp(10, n + 1, |s| - 1); }
  }

  // Strings of one length are equal when their values are.
  lemma {:induction false} DigitsUnique(s: seq<char>, t: seq<char>)
    requires AllDigits(s) && AllDigits(t) && |s| == |t| && DecVal(s) == DecVal(t)
    ensures s == t
  {
    if s != [] {
      DigitsUnique(s[1..], t[1..]);
      assert s == [s[0]] + s[1..] && t == [t[0]] + t[1..];
    }
  }

  // Canonical strings are, whatever their lengths.
  lemma CanonicalUnique(s: seq<char>, t: seq<char>)
    requires Canonical(s) && Canonical(t) && DecVal(s) == DecVal(t)
    ensures s == t
  {
    CanonicalLength(s);
    CanonicalLength(t);
    if |s| < |t| { PowMonoExp(10, |s|, |t| - 1); }
    if |t| < |s| { PowMonoExp(10, |t|, |s| - 1); }
    DigitsUnique(s, t);
  }

  // ------------------------------------------------------------------ how many digits there is room for

  lemma TenTo29()
    ensures Pow(10, 29) == 100_000_000_000_000_000_000_000_000_000
  {
    assert Pow(10, 1) == 10 && Pow(10, 7) == 10_000_000;
    PowAdd(10, 7, 7); PowAdd(10, 14, 14); PowAdd(10, 28, 1);
  }

  lemma TwoTo97()
    ensures Pow(2, 96) == 0x1_0000_0000_0000_0000_0000_0000 && Pow(2, 97) == 0x2_0000_0000_0000_0000_0000_0000
  {
    HalfIsPower();
    PowAdd(2, 16, 16); PowAdd(2, 32, 32); PowAdd(2, 64, 32); PowAdd(2, 96, 1);
  }

  lemma PowerFacts()
    ensures Pow(2, 289) < Pow(10, 87)
  {
    hide Pow;
    TenTo29();
    TwoTo97();
    PowAdd(10, 29, 29); PowAdd(10, 58, 29);
    PowAdd(2, 96, 96); PowAdd(2, 192, 97);
  }

  // 0.03345 is slightly larger than log(2) / (9 * log(10)), as an exact fraction per limb: 32 * 0.03345 = 669/625.
  function ChunkCapacity(len: nat): (c: nat)
    ensures c > 0
  {
    len * 669 / 625 + 1
  }

  // A number below beta^len that is at least 10^(9k) has k nine-digit chunks below its top one, and
  // room for them all.
  lemma ChunksFit(k: nat, len: nat)
    requires Pow(10, 9 * k) < B(len)
    ensures k < ChunkCapacity(len)
  {
    if k >= ChunkCapacity(len) {
      assert 625 * k > 669 * len;
      PowMul(2, 32, len);
      assert B(len) == Pow(2, 32 * len) by { BetaIsPower(); }
      PowMul(10, 9 * k, 87);
      PowMul(10, 87, 9 * k);
      assert (9 * k) * 87 == 87 * (9 * k);
      PowMul(2, 32 * len, 87);
      PowMul(2, 289, 9 * k);
      PowerFacts();
      PowMonoBase(Pow(2, 289), Pow(10, 87), 9 * k);
      PowMonoExp(2, (32 * len) * 87, 289 * (9 * k));
      if Pow(10, 9 * k) < Pow(2, 32 * len) {
        PowStrictBase(Pow(10, 9 * k), Pow(2, 32 * len), 87);
      }
    }
  }

  // The digits leave room for a terminating NUL exactly when the number is not within the last decade that its limbs
  // have digits for.
  lemma TerminatorFits(s: seq<char>, a: seq<Limb>, extra: nat)
    requires Canonical(s) && DecVal(s) == T(extra) * Val(a)
    ensures |s| < 9 * ChunkCapacity(|a|) + extra <==> Val(a) < T(9 * ChunkCapacity(|a|) - 1)
  {
    hide Val, DecVal, Canonical, ChunkCapacity;
    var cap := 9 * ChunkCapacity(|a|);
    CanonicalLength(s);
    PowAdd(10, extra, cap - 1);
    PowPos(10, extra);
    PowPos(10, cap - 1);
    if Val(a) < T(cap - 1) {
      MulStrict(T(extra), Val(a), T(cap - 1));
      if |s| >= cap + extra { PowMonoExp(10, extra + (cap - 1), |s| - 1); }
    } else {
      MulMono(T(extra), T(cap - 1), Val(a));
      if |s| < cap + extra { PowMonoExp(10, |s|, extra + (cap - 1)); }
    }
  }

  lemma TenTo125()
    ensures Pow(10, 125) < 0xFFFF_FFFF * Pow(2, 384)
  {
    hide Pow;
    TenTo29();
    TwoTo97();
    PowAdd(10, 29, 29); PowAdd(10, 58, 58); PowAdd(10, 116, 9);
    PowAdd(2, 96, 96); PowAdd(2, 192, 192);
    assert Pow(10, 9) == BILLION by { TenTo9(); }
  }

  lemma TenTo9()
    ensures Pow(10, 9) == BILLION
  {
    assert Pow(10, 1) == 10 && Pow(10, 4) == 10_000;
    PowAdd(10, 4, 4); PowAdd(10, 8, 1);
  }

  lemma BetaTo12()
    ensures B(12) == Pow(2, 384)
  {
    hide Pow;
    BetaIsPower();
    PowMul(2, 32, 12);
  }

  // Thirteen limbs with a large top limb: the digits fill all the space there is.
  lemma TerminatorNeedNotFit(a: seq<Limb>)
    requires |a| == 13 && a[12] == 0xFFFF_FFFF
    ensures Normalised(a) && Val(a) >= T(9 * ChunkCapacity(13) - 1)
  {
    hide Val, B, Pow;
    ValInit(a);
    BetaTo12();
    TenTo125();
    assert ChunkCapacity(13) == 14;
  }

  lemma BetaIsPower()
    ensures Pow(2, 32) == BETA
  {
    HalfIsPower();
    PowAdd(2, 31, 1);
  }

  // -------------------------------------------------------------------------- the conversion

  // r[off..off+len] := r[off..off+len] / den, in place.
  method DivideInPlace(r: array<Limb>, off: nat, len: nat, den: Limb) returns (remainder: Limb)
    requires den > 0 && off + len <= r.Length
    modifies r
    ensures Quotient(Val(old(r[off..off + len])), Val(r[off..off + len]), den, remainder) && remainder < den
    ensures forall k :: 0 <= k < r.Length && !(off <= k < off + len) ==> r[k] == old(r[k])
  {
    hide Val;
    ValEmpty();
    remainder := 0;
    var count := len;
    ghost var a := r[off..off + len];
    assert a[len..] == [] && r[off + len..off + len] == [];
    while count > 0
      invariant 0 <= count <= len && remainder < den
      invariant Quotient(Val(a[count..]), Val(r[off + count..off + len]), den, remainder)
      invariant r[off..off + count] == a[..count]
      invariant forall k :: 0 <= k < r.Length && !(off + count <= k < off + len) ==> r[k] == old(r[k])
    {
      ghost var q, r0 := r[off + count..off + len], remainder;
      count := count - 1;
      assert r[off + count] == a[count];
      var d, rem' := ShortLimb(remainder, r[off + count], den);
      ShortStep(a[count + 1..], q, den, r0, a[count], d, rem');
      r[off + count], remainder := d, rem';
      assert a[count..] == [a[count]] + a[count + 1..];
      assert r[off + count..off + len] == [d] + q;
    }
    assert a[0..] == a;
  }

  ghost predicate ChunkWritten(done: seq<char>, rem: nat, total: nat)
  {
    AllDigits(done) && |done| <= 9 && rem < T(9 - |done|) && DecVal(done) + T(|done|) * rem == total
  }

  lemma ChunkStep(done: seq<char>, rem: nat, total: nat)
    requires ChunkWritten(done, rem, total) && |done| < 9
    ensures ChunkWritten(done + [DigitChar(rem % 10)], rem / 10, total)
  {
    var n := |done|;
    DecSnoc(done, DigitChar(rem % 10));
    TStep(n);
    TStep(8 - n);
    ChunkArith(T(n), rem, T(n + 1));
  }

  lemma ChunkArith(p: nat, rem: nat, p1: nat)
    requires p1 == 10 * p
    ensures p * rem == p * (rem % 10) + p1 * (rem / 10)
  {
    Split(rem, rem % 10, 10 * (rem / 10), p);
    assert p * (10 * (rem / 10)) == (10 * p) * (rem / 10);
  }

  // Stores a number below 10^9 as nine digits.
  method WriteChunk(c: array<char>, pos: nat, number: Limb)
    requires number < BILLION && pos + 9 <= c.Length
    modifies c
    ensures AllDigits(c[pos..pos + 9]) && DecVal(c[pos..pos + 9]) == number
    ensures forall k :: 0 <= k < c.Length && !(pos <= k < pos + 9) ==> c[k] == old(c[k])
  {
    var remainder: nat := number;
    var count := 9;
    assert T(9) == BILLION && T(0) == 1;
    while count > 0
      invariant 0 <= count <= 9
      invariant ChunkWritten(c[pos..pos + 9 - count], remainder, number)
      invariant forall k :: 0 <= k < c.Length && !(pos <= k < pos + 9 - count) ==> c[k] == old(c[k])
    {
      ghost var done := c[pos..pos + 9 - count];
      ChunkStep(done, remainder, number);
      c[pos + 9 - count] := DigitChar(remainder % 10);
      assert c[pos..pos + 10 - count] == done + [DigitChar(remainder % 10)];
      remainder := remainder / 10;
      count := count - 1;
    }
  }

  // The digits so far, with what is left of the bignum above them, make up the total.
  ghost predicate Converting(done: seq<char>, rest: int, extra: nat, k: nat, a: int)
  {
    && AllDigits(done) && |done| == extra + 9 * k && 0 <= rest
    && DecVal(done) + T(|done|) * rest == T(extra) * a
    && T(9 * k) * rest <= a
  }

  lemma ConvertingStep(done: seq<char>, rest: nat, extra: nat, k: nat, a: int, chunk: seq<char>, rest': nat)
    requires Converting(done, rest, extra, k, a)
    requires AllDigits(chunk) && |chunk| == 9 && Quotient(rest, rest', BILLION, DecVal(chunk))
    ensures Converting(done + chunk, rest', extra, k + 1, a)
  {
    hide DecVal;
    DecConcat(done, chunk);
    DecBound(chunk);
    PowAdd(10, |done|, 9);
    PowAdd(10, 9 * k, 9);
    assert T(9) == BILLION;
    ConvertingArith(T(|done|), rest, rest', DecVal(chunk), T(|done| + 9));
    ConvertingArith(T(9 * k), rest, rest', DecVal(chunk), T(9 * k + 9));
  }

  lemma ConvertingArith(p: nat, rest: nat, rest': nat, c: nat, p9: nat)
    requires rest == rest' * BILLION + c && p9 == p * BILLION
    ensures p * rest == p * c + p9 * rest' && 0 <= p * c
  {
    Split(rest, rest' * BILLION, c, p);
    assert p * (rest' * BILLION) == (p * BILLION) * rest';
    MulMono(p, 0, c);
  }

  // The bignum shrinks by at most one limb per division by 10^9.
  lemma QuotientLength(a: seq<Limb>, q: seq<Limb>, r: int)
    requires a != [] && Normalised(a) && |q| == |a| && Quotient(Val(a), Val(q), BILLION, r)
    ensures q[|q| - 1] == 0 ==> Normalised(q[..|q| - 1]) && Val(q[..|q| - 1]) == Val(q)
  {
    hide Val;
    ValSingle(BILLION);
    QuotientTop(a, [BILLION], 1, q, BILLION, r);
    if q[|q| - 1] == 0 { ValDropTopZero(q); }
  }

  lemma RoomForChunk(done: seq<char>, rest: nat, extra: nat, k: nat, a: seq<Limb>)
    requires Converting(done, rest, extra, k, Val(a)) && rest > 0
    ensures |done| + 9 <= extra + 9 * ChunkCapacity(|a|)
  {
    hide Val;
    ValBound(a);
    MulMono(T(9 * k), 1, rest);
    ChunksFit(k, |a|);
  }

  // Drops high zero digits, but keeps at least one digit.
  method TrimDigits(c: array<char>, len: nat) returns (n: nat)
    requires 0 < c.Length && len <= c.Length && AllDigits(c[..len])
    modifies c
    ensures n <= c.Length && Canonical(c[..n]) && DecVal(c[..n]) == DecVal(old(c[..len]))
  {
    n := len;
    while n > 0 && c[n - 1] == '0'
      invariant n <= len && c[..] == old(c[..])
      invariant AllDigits(c[..n]) && DecVal(c[..n]) == DecVal(c[..len])
    {
      DecDropTopZero(c[..n]);
      assert c[..n][..n - 1] == c[..n - 1];
      n := n - 1;
    }
    assert c[..len] == old(c[..len]);
    if n == 0 {
      c[0] := '0';
      n := 1;
      assert c[..1] == ['0'];
      assert ['0'][1..] == [];
    }
  }

  lemma QuotientSmaller(a: seq<Limb>, q: seq<Limb>, r: int)
    requires a != [] && Normalised(a) && Quotient(Val(a), Val(q), BILLION, r)
    ensures Val(q) < Val(a)
  {
    PositiveDivisor(a);
  }

  method FillZeros(c: array<char>, n: nat)
    requires n <= c.Length
    modifies c
    ensures forall k :: 0 <= k < n ==> c[k] == '0'
  {
    var pos := 0;
    while pos < n
      invariant 0 <= pos <= n && forall k :: 0 <= k < pos ==> c[k] == '0'
    {
      c[pos] := '0';
      pos := pos + 1;
    }
  }

  // One round of the conversion: divides what is left by 10^9 and writes the remainder as nine digits.
  method NextChunk(c: array<char>, pos: nat, r: array<Limb>, off: nat, aLen: nat, ghost extra: nat, ghost k: nat,
                   ghost a: nat)
    returns (n: nat)
    requires 0 < aLen && off + aLen <= r.Length && Normalised(r[off..off + aLen]) && pos + 9 <= c.Length
    requires Converting(c[..pos], Val(r[off..off + aLen]), extra, k, a)
    modifies c, r
    ensures n <= aLen && Normalised(r[off..off + n])
    ensures Converting(c[..pos + 9], Val(r[off..off + n]), extra, k + 1, a)
    ensures Val(r[off..off + n]) < Val(old(r[off..off + aLen]))
  {
    hide Val, DecVal, Converting, T, Quotient, AllDigits;
    ghost var rest, done := r[off..off + aLen], c[..pos];
    var remainder := DivideInPlace(r, off, aLen, BILLION);
    ghost var q := r[off..off + aLen];
    WriteChunk(c, pos, remainder);
    ConvertingStep(done, Val(rest), extra, k, a, c[pos..pos + 9], Val(q));
    assert c[..pos] == done;
    assert c[..pos + 9] == done + c[pos..pos + 9];
    QuotientLength(rest, q, remainder);
    QuotientSmaller(rest, q, remainder);
    n := aLen;
    if r[off + aLen - 1] == 0 {
      n := aLen - 1;
      assert q[..aLen - 1] == r[off..off + n];
    }
  }

  // Round after round, until nothing is left: c[..pos] are then the digits of a * 10^extra.
  method WriteChunks(c: array<char>, r: array<Limb>, off: nat, len: nat, extra: nat, ghost a: seq<Limb>)
    returns (pos: nat)
    requires off + len <= r.Length && Normalised(r[off..off + len]) && a == r[off..off + len]
    requires c.Length == 9 * ChunkCapacity(len) + extra && forall k :: 0 <= k < extra ==> c[k] == '0'
    modifies c, r
    ensures pos <= c.Length && AllDigits(c[..pos]) && DecVal(c[..pos]) == T(extra) * Val(a)
  {
    hide Val, DecVal, Converting, T, AllDigits;
    ConvertingStart(c[..extra], extra, Val(a));
    pos := extra;
    var aLen := len;
    ghost var k := 0;
    while aLen > 0
      modifies c, r
      invariant 0 <= aLen <= len && Normalised(r[off..off + aLen])
      invariant pos == extra + 9 * k <= c.Length
      invariant Converting(c[..pos], Val(r[off..off + aLen]), extra, k, Val(a))
      decreases Val(r[off..off + aLen])
    {
      PositiveDivisor(r[off..off + aLen]);
      RoomForChunk(c[..pos], Val(r[off..off + aLen]), extra, k, a);
      aLen := NextChunk(c, pos, r, off, aLen, extra, k, Val(a));
      pos, k := pos + 9, k + 1;
    }
    assert r[off..off + aLen] == [];
    ConvertingEnd(c[..pos], extra, k, Val(a));
  }

  // The decimal digits of a * 10^extra, low to high, for the bignum a = r[off..off+len], which is destroyed.
  // The digits are digits[..n]; None when memory is refused.
  method ConvertToDecimal(al: Allocator, r: array<Limb>, off: nat, len: nat, extra: nat)
    returns (digits: Option<(array<char>, nat)>)
    requires !al.refused && off + len <= r.Length && Normalised(r[off..off + len])
    modifies al, r
    ensures digits.None? <==> al.refused
    ensures digits.Some? ==> var (c, n) := digits.value; fresh(c) && n <= c.Length == 9 * ChunkCapacity(len) + extra
    ensures digits.Some? ==> var (c, n) := digits.value;
              Canonical(c[..n]) && DecVal(c[..n]) == T(extra) * Val(old(r[off..off + len]))
    ensures digits.Some? ==> var (c, n) := digits.value;
              n < c.Length <==> Val(old(r[off..off + len])) < T(9 * ChunkCapacity(len) - 1)
  {
    hide Val, DecVal, Converting, T, Canonical, AllDigits, ChunkCapacity;
    ghost var a := r[off..off + len];
    var c := al.NewChars(9 * ChunkCapacity(len) + extra);
    if c == null { return None; }
    FillZeros(c, extra);
    assert r[off..off + len] == a;
    var pos := WriteChunks(c, r, off, len, extra, a);
    var n := TrimDigits(c, pos);
    TerminatorFits(c[..n], a, extra);
    return Some((c, n));
  }

  lemma {:induction false} AllZeros(s: seq<char>)
    requires forall i :: 0 <= i < |s| ==> s[i] == '0'
    ensures DecVal(s) == 0
  {
    if s != [] { AllZeros(s[1..]); }
  }

  lemma ConvertingStart(zeros: seq<char>, extra: nat, a: nat)
    requires |zeros| == extra && forall i :: 0 <= i < |zeros| ==> zeros[i] == '0'
    ensures Converting(zeros, a, extra, 0, a)
  {
    AllZeros(zeros);
    assert T(9 * 0) == 1;
  }

  lemma ConvertingEnd(done: seq<char>, extra: nat, k: nat, a: int)
    requires Converting(done, Val([]), extra, k, a)
    ensures AllDigits(done) && DecVal(done) == T(extra) * a
  {
    ValEmpty();
  }
}
