// The text of a number in %f, %e and %g notation, and a reader for it.
module NumberText {
  import opened Wrappers
  import opened Arithmetic
  import opened DecimalDigit
  import opened Powers
  import opened Decimal

  // ------------------------------------------------------------------------------------ reading

  // (-1)^neg * mant * 10^(exp - frac): frac of the digits are after the decimal point, and exp is the exponent that
  // is written, if one is.
  datatype Number = Number(neg: bool, mant: nat, frac: nat, exp: Option<int>)

  function SkipSpaces(t: string): string
  {
    if t != [] && t[0] == ' ' then SkipSpaces(t[1..]) else t
  }

  // Digits with at most one decimal point: mant and the count frac of digits after the point are accumulated.
  function ReadMantissa(t: string, mant: nat, frac: nat, point: bool): (nat, nat, string)
  {
    if t != [] && IsDigit(t[0]) then
      ReadMantissa(t[1..], 10 * mant + Digit(t[0]), if point then frac + 1 else frac, point)
    else if t != [] && t[0] == '.' && !point then
      ReadMantissa(t[1..], mant, frac, true)
    else
      (mant, frac, t)
  }

  function ReadDigits(t: string, n: nat): (nat, string)
  {
    if t != [] && IsDigit(t[0]) then ReadDigits(t[1..], 10 * n + Digit(t[0])) else (n, t)
  }

  function ReadExponent(t: string): (Option<int>, string)
  {
    if |t| >= 3 && (t[0] == 'e' || t[0] == 'E') && (t[1] == '+' || t[1] == '-') && IsDigit(t[2]) then
      var (n, rest) := ReadDigits(t[2..], 0);
      (Some(if t[1] == '-' then 0 - n else n), rest)
    else
      (None, t)
  }

  function ReadUnsigned(t: string): Option<(nat, nat, Option<int>)>
  {
    if t == [] || !IsDigit(t[0]) then None else
      var (mant, frac, rest) := ReadMantissa(t, 0, 0, false);
      var (exp, rest') := ReadExponent(rest);
      if SkipSpaces(rest') == [] then Some((mant, frac, exp)) else None
  }

  // Leading spaces, an optional sign, a decimal number, an optional exponent, trailing spaces.
  function ReadNumber(t: string): Option<Number>
  {
    var u := SkipSpaces(t);
    var signed := u != [] && (u[0] == '-' || u[0] == '+');
    match ReadUnsigned(if signed then u[1..] else u)
    case None => None
    case Some((mant, frac, exp)) => Some(Number(signed && u[0] == '-', mant, frac, exp))
  }

  // ------------------------------------------------------------------------------------ writing

  function Repeat(c: char, n: nat): string
  {
    if n == 0 then [] else [c] + Repeat(c, n - 1)
  }

  // Digits are stored low to high and written high to low.
  function Rev(s: string): string
  {
    if s == [] then [] else [s[|s| - 1]] + Rev(s[..|s| - 1])
  }

  function SignText(neg: bool, showSign: bool, space: bool): string
  {
    if neg then "-" else if showSign then "+" else if space then " " else ""
  }

  // The digits before and after the decimal point of a number with prec fractional digits.
  function WholeText(s: string, prec: nat): string
  {
    if |s| > prec then Rev(s[prec..]) else "0"
  }

  function FractionText(s: string, prec: nat, alt: bool): string
    requires |s| <= prec
  {
    if !alt && prec == 0 then "" else "." + Repeat('0', prec - |s|) + Rev(s)
  }

  // %f: digits s of x * 10^prec.
  function FixedText(s: string, prec: nat, alt: bool): string
  {
    WholeText(s, prec) + FractionText(s[..Min(|s|, prec)], prec, alt)
  }

  lemma FixedShape(s: string, prec: nat, alt: bool)
    ensures FixedText(s, prec, alt) ==
            (if |s| > prec then Rev(s[prec..]) else "0")
            + (if !alt && prec == 0 then "" else
               "." + (if |s| > prec then Rev(s[..prec]) else Repeat('0', prec - |s|) + Rev(s)))
  {
    hide Rev;
    if |s| <= prec {
      assert s[..|s|] == s;
      assert "." + Repeat('0', prec - |s|) + Rev(s) == "." + (Repeat('0', prec - |s|) + Rev(s));
    } else {
      assert Repeat('0', 0) == [];
      assert "." + Repeat('0', 0) + Rev(s[..prec]) == "." + Rev(s[..prec]);
    }
  }

  function NatText(n: nat): string
  {
    if n < 10 then [DigitChar(n)] else NatText(n / 10) + [DigitChar(n % 10)]
  }

  // The format "%+.2d".
  function ExponentText(x: int): string
  {
    var n := if x < 0 then -x else x;
    (if x < 0 then "-" else "+") + (if n < 10 then "0" else "") + NatText(n)
  }

  // The digits s from the top, with a decimal point after the first, down to digit low.
  function PointText(s: string, low: nat, alt: bool): string
    requires low < |s|
  {
    var n := |s| - 1;
    [s[n]] + (if alt || n > low then "." + Rev(s[low..n]) else "")
  }

  // %e: the significant digits s and the exponent x.
  function ScientificText(s: string, alt: bool, letter: char, x: int): string
    requires s != []
  {
    PointText(s, 0, alt) + [letter] + ExponentText(x)
  }

  function TrailingZeros(s: string): (n: nat)
    ensures n <= |s|
  {
    if s != [] && s[0] == '0' then 1 + TrailingZeros(s[1..]) else 0
  }

  // Fixed notation with the point inside or after the digits; the last zeros of them are dropped.
  function InsideText(s: string, point: nat, zeros: nat, alt: bool): string
    requires point < |s|
  {
    Rev(s[point..]) + (if alt || point > zeros then "." + Rev(s[Min(zeros, point)..point]) else "")
  }

  // Fixed notation for a number below one.
  function BelowOneText(s: string, lead: nat, zeros: nat): string
    requires zeros <= |s|
  {
    "0." + Repeat('0', lead) + Rev(s[zeros..])
  }

  // %g: fixed notation exactly when -4 <= x < |s|, with trailing zeros dropped unless alt.
  function GeneralText(s: string, alt: bool, letter: char, x: int): string
    requires s != [] && s[|s| - 1] != '0'
  {
    TrailingZerosKeepTop(s);
    var n, zeros := |s|, if alt then 0 else TrailingZeros(s);
    if 0 <= x < n then InsideText(s, n - 1 - x, zeros, alt)
    else if -4 <= x < 0 then BelowOneText(s, -x - 1, zeros)
    else PointText(s, zeros, alt) + [letter] + ExponentText(x)
  }

  lemma TrailingZerosKeepTop(s: string)
    requires s != [] && s[|s| - 1] != '0'
    ensures TrailingZeros(s) < |s|
  {
    if s[0] == '0' { TrailingZerosKeepTop(s[1..]); }
  }

  // body is the signed text without padding, signLen of it the sign.
  function Padded(body: string, signLen: nat, width: nat, left: bool, zero: bool): string
    requires signLen <= |body|
  {
    if |body| >= width then body else
      var pad := width - |body|;
      if left then body + Repeat(' ', pad)
      else if zero then body[..signLen] + Repeat('0', pad) + body[signLen..]
      else Repeat(' ', pad) + body
  }

  // ------------------------------------------------------------------------- reading what was written

  lemma {:induction false} RevLength(s: string)
    ensures |Rev(s)| == |s|
  {
    if s != [] { RevLength(s[..|s| - 1]); }
  }

  lemma {:induction false} RepeatLength(c: char, n: nat)
    ensures |Repeat(c, n)| == n && forall i :: 0 <= i < n ==> Repeat(c, n)[i] == c
  {
    if n > 0 { RepeatLength(c, n - 1); }
  }

  lemma {:induction false} ReadRev(s: string, rest: string, mant: nat, frac: nat, point: bool)
    requires AllDigits(s)
    ensures DecVal(s) >= 0 && 0 <= mant * T(|s|)
    ensures ReadMantissa(Rev(s) + rest, mant, frac, point)
         == ReadMantissa(rest, mant * T(|s|) + DecVal(s), if point then frac + |s| else frac, point)
  {
    DecBound(s);
    if s == [] {
      assert Rev(s) + rest == rest;
    } else {
      var n := |s| - 1;
      var low, d := s[..n], s[n];
      var t := Rev(low) + rest;
      assert Rev(s) + rest == [d] + t;
      assert ([d] + t)[1..] == t;
      ReadRev(low, rest, 10 * mant + Digit(d), if point then frac + 1 else frac, point);
      assert s == low + [d];
      DecSnoc(low, d);
      TStep(n);
      RevArith(mant, Digit(d), T(n), T(n + 1));
    }
    PowPos(10, |s|);
    MulMono(mant, 0, T(|s|));
  }

  lemma RevArith(mant: nat, d: nat, p: nat, p1: nat)
    requires p1 == 10 * p
    ensures (10 * mant + d) * p == mant * p1 + p * d
  {
    Split(10 * mant + d, 10 * mant, d, p);
    assert (10 * mant) * p == mant * (10 * p);
  }

  lemma {:induction false} ReadZeros(n: nat, rest: string, frac: nat, point: bool)
    ensures ReadMantissa(Repeat('0', n) + rest, 0, frac, point)
         == ReadMantissa(rest, 0, if point then frac + n else frac, point)
  {
    if n == 0 {
      assert Repeat('0', 0) + rest == rest;
    } else {
      var t := Repeat('0', n - 1) + rest;
      assert Repeat('0', n) + rest == ['0'] + t;
      assert (['0'] + t)[1..] == t;
      ReadZeros(n - 1, rest, if point then frac + 1 else frac, point);
    }
  }

  lemma ReadPoint(rest: string, mant: nat, frac: nat)
    ensures ReadMantissa("." + rest, mant, frac, false) == ReadMantissa(rest, mant, frac, true)
  {
    assert ("." + rest)[1..] == rest;
  }

  // rest cannot continue a mantissa.
  ghost predicate EndsMantissa(rest: string)
  {
    rest == [] || (!IsDigit(rest[0]) && rest[0] != '.')
  }

  // A low digit of the point text: the digits s[low..] are read, with |s|-1-low of them after the point.
  lemma DecSplit(s: string, k: nat)
    requires k <= |s| && AllDigits(s)
    ensures DecVal(s) == DecVal(s[..k]) + T(k) * DecVal(s[k..])
    ensures AllDigits(s[..k]) && AllDigits(s[k..])
  {
    assert s == s[..k] + s[k..];
    DecConcat(s[..k], s[k..]);
  }

  // High digits and low digits read one after the other make up the whole.
  lemma ReadTwice(s: string, k: nat, rest: string, point: bool)
    requires AllDigits(s) && k <= |s| && EndsMantissa(rest)
    ensures DecVal(s) >= 0
    ensures ReadMantissa(Rev(s[k..]) + ("." + (Rev(s[..k]) + rest)), 0, 0, false) == (DecVal(s), k, rest)
  {
    hide ReadMantissa, Rev, DecVal, T;
    var hi, lo := s[k..], s[..k];
    DecSplit(s, k);
    DecBound(s);
    ReadRev(hi, "." + (Rev(lo) + rest), 0, 0, false);
    ReadPoint(Rev(lo) + rest, DecVal(hi), 0);
    ReadRev(lo, rest, DecVal(hi), 0, true);
    EndReads(rest, DecVal(s), k, true);
    Commute(DecVal(hi), T(k));
  }

  lemma OneZero()
    ensures Repeat('0', 1) == "0"
  {
    assert Repeat('0', 1) == ['0'] + Repeat('0', 0);
  }

  lemma Concat4(a: string, b: string, c: string, d: string)
    ensures (a + (b + c)) + d == a + (b + (c + d))
  {
  }

  // Reading back %f gives all the digits, prec of them after the decimal point.
  lemma FixedReads(s: string, prec: nat, alt: bool, rest: string)
    requires Canonical(s) && EndsMantissa(rest)
    ensures DecVal(s) >= 0
    ensures ReadMantissa(FixedText(s, prec, alt) + rest, 0, 0, false) == (DecVal(s), prec, rest)
  {
    hide DecVal, T, Rev, ReadMantissa, Repeat, FixedText;
    DecBound(s);
    FixedShape(s, prec, alt);
    if |s| <= prec {
      FractionReads(s, prec - |s|, rest);
      assert "0" + ("." + (Repeat('0', prec - |s|) + Rev(s))) == "0." + Repeat('0', prec - |s|) + Rev(s);
    } else if !alt && prec == 0 {
      assert s[0..] == s && FixedText(s, prec, alt) == Rev(s);
      ReadRev(s, rest, 0, 0, false);
      EndReads(rest, DecVal(s), 0, false);
    } else {
      Concat4(Rev(s[prec..]), ".", Rev(s[..prec]), rest);
      ReadTwice(s, prec, rest, true);
    }
  }

  lemma EndReads(rest: string, mant: nat, frac: nat, point: bool)
    requires EndsMantissa(rest)
    ensures ReadMantissa(rest, mant, frac, point) == (mant, frac, rest)
  {
  }

  // ------------------------------------------------------------------------- exponents

  lemma {:induction false} ReadDigitsAppend(s: string, n: nat, rest: string, acc: nat)
    requires s == NatText(n)
    ensures ReadDigits(s + rest, acc) == ReadDigits(rest, acc * T(|s|) + n)
    decreases n
  {
    hide Pow, T;
    TStep(0);
    if n < 10 {
      assert s + rest == [DigitChar(n)] + rest;
      assert ([DigitChar(n)] + rest)[1..] == rest;
    } else {
      var hi, d := NatText(n / 10), DigitChar(n % 10);
      assert s + rest == hi + ([d] + rest);
      ReadDigitsAppend(hi, n / 10, [d] + rest, acc);
      assert ([d] + rest)[1..] == rest;
      TStep(|hi|);
      TenFold(acc, T(|hi|), T(|s|));
    }
  }

  lemma TenFold(x: int, p: nat, p1: nat)
    requires p1 == 10 * p
    ensures x * p1 == 10 * (x * p) && p1 * x == 10 * (p * x)
  {
  }

  lemma {:induction false} NatTextDigits(n: nat)
    ensures NatText(n) != [] && AllDigits(NatText(n))
  {
    if n >= 10 { NatTextDigits(n / 10); }
  }

  // rest cannot continue an exponent.
  lemma ExponentReads(x: int, letter: char, rest: string)
    requires (letter == 'e' || letter == 'E') && (rest == [] || !IsDigit(rest[0]))
    ensures ReadExponent([letter] + ExponentText(x) + rest) == (Some(x), rest)
  {
    hide T, NatText;
    var n := if x < 0 then -x else x;
    var digits := (if n < 10 then "0" else "") + NatText(n);
    var t := [letter] + ExponentText(x) + rest;
    NatTextDigits(n);
    assert t[2..] == digits + rest;
    assert IsDigit(t[2]) by { assert t[2] == digits[0]; }
    ReadDigitsAppend(NatText(n), n, rest, 0);
    if n < 10 {
      var u := NatText(n) + rest;
      assert digits + rest == ['0'] + u;
      assert (['0'] + u)[1..] == u;
    } else {
      assert digits + rest == NatText(n) + rest;
    }
    assert ReadDigits(rest, n) == (n, rest);
    assert 0 * T(|NatText(n)|) + n == n;
  }

  // --------------------------------------------------------------- the other mantissas

  lemma RevSingle(c: char)
    ensures Rev([c]) == [c]
  {
    assert [c][..0] == [];
    assert Rev([c]) == [c] + Rev([]);
  }

  lemma PointReads(s: string, low: nat, alt: bool, rest: string)
    requires AllDigits(s) && low < |s| && EndsMantissa(rest)
    ensures DecVal(s[low..]) >= 0
    ensures ReadMantissa(PointText(s, low, alt) + rest, 0, 0, false) == (DecVal(s[low..]), |s| - 1 - low, rest)
  {
    hide DecVal, T, ReadMantissa, Rev;
    var n, t := |s| - 1, s[low..];
    var k := n - low;
    DecBound(t);
    assert t[k..] == [s[n]] && t[..k] == s[low..n];
    RevSingle(s[n]);
    if alt || n > low {
      ReadTwice(t, k, rest, true);
      Concat4([s[n]], ".", Rev(s[low..n]), rest);
    } else {
      assert PointText(s, low, alt) == [s[n]] && t == [s[n]];
      ReadRev(t, rest, 0, 0, false);
      EndReads(rest, DecVal(t), 0, false);
    }
  }

  lemma WholeReads(s: string, point: nat, z: nat, withPoint: bool, rest: string)
    requires AllDigits(s) && z <= point < |s| && EndsMantissa(rest) && (!withPoint ==> z == point)
    ensures DecVal(s[z..]) >= 0
    ensures ReadMantissa(Rev(s[point..]) + (if withPoint then "." + Rev(s[z..point]) else "") + rest, 0, 0, false)
         == (DecVal(s[z..]), point - z, rest)
  {
    hide DecVal, T, ReadMantissa, Rev;
    var t := s[z..];
    DecBound(t);
    assert t[point - z..] == s[point..] && t[..point - z] == s[z..point];
    if withPoint {
      ReadTwice(t, point - z, rest, true);
      Concat4(Rev(s[point..]), ".", Rev(s[z..point]), rest);
    } else {
      assert Rev(s[point..]) + "" == Rev(s[point..]);
      ReadRev(t, rest, 0, 0, false);
      EndReads(rest, DecVal(t), 0, false);
    }
  }

  lemma FractionReads(s: string, zeros: nat, rest: string)
    requires AllDigits(s) && EndsMantissa(rest)
    ensures DecVal(s) >= 0
    ensures ReadMantissa("0." + Repeat('0', zeros) + Rev(s) + rest, 0, 0, false) == (DecVal(s), zeros + |s|, rest)
  {
    hide DecVal, T, ReadMantissa, Rev, Repeat;
    DecBound(s);
    var t := Repeat('0', zeros) + (Rev(s) + rest);
    OneZero();
    assert "0." + Repeat('0', zeros) + Rev(s) + rest == "0" + ("." + t);
    ReadZeros(1, "." + t, 0, false);
    ReadPoint(t, 0, 0);
    ReadZeros(zeros, Rev(s) + rest, 0, true);
    ReadRev(s, rest, 0, zeros, true);
    EndReads(rest, DecVal(s), zeros + |s|, true);
  }

  // ------------------------------------------------------------ with padding around the number

  // u reads as mant * 10^(exp - frac), also after leading zeros and before trailing spaces.
  ghost predicate Robust(u: string, mant: nat, frac: nat, exp: Option<int>)
  {
    && u != [] && IsDigit(u[0])
    && forall j: nat, k: nat :: ReadUnsigned(Repeat('0', j) + (u + Repeat(' ', k))) == Some((mant, frac, exp))
  }

  lemma {:induction false} SkipAll(k: nat)
    ensures SkipSpaces(Repeat(' ', k)) == []
  {
    if k > 0 {
      assert Repeat(' ', k)[1..] == Repeat(' ', k - 1);
      SkipAll(k - 1);
    }
  }

  lemma SpacesEnd(k: nat)
    ensures EndsMantissa(Repeat(' ', k)) && ReadExponent(Repeat(' ', k)) == (None, Repeat(' ', k))
  {
    RepeatLength(' ', k);
  }

  // A mantissa text followed by nothing or by an exponent is a number.
  ghost predicate MantissaText(um: string, mant: nat, frac: nat)
  {
    && um != [] && IsDigit(um[0])
    && forall rest :: EndsMantissa(rest) ==> ReadMantissa(um + rest, 0, 0, false) == (mant, frac, rest)
  }

  lemma RobustMantissa(um: string, mant: nat, frac: nat)
    requires MantissaText(um, mant, frac)
    ensures Robust(um, mant, frac, None)
  {
    hide ReadMantissa, Repeat, ReadExponent, SkipSpaces;
    forall j: nat, k: nat
      ensures ReadUnsigned(Repeat('0', j) + (um + Repeat(' ', k))) == Some((mant, frac, None))
    {
      SpacesEnd(k);
      SkipAll(k);
      UnsignedReads(j, um + Repeat(' ', k), mant, frac, Repeat(' ', k), None, Repeat(' ', k));
    }
  }

  lemma RobustExponent(um: string, mant: nat, frac: nat, letter: char, x: int)
    requires MantissaText(um, mant, frac) && (letter == 'e' || letter == 'E')
    ensures Robust(um + [letter] + ExponentText(x), mant, frac, Some(x))
  {
    hide ReadMantissa, Repeat, ReadExponent, SkipSpaces, ExponentText;
    var tail := [letter] + ExponentText(x);
    var u := um + [letter] + ExponentText(x);
    forall j: nat, k: nat
      ensures ReadUnsigned(Repeat('0', j) + (u + Repeat(' ', k))) == Some((mant, frac, Some(x)))
    {
      var spaces := Repeat(' ', k);
      SpacesEnd(k);
      SkipAll(k);
      assert u + spaces == um + (tail + spaces);
      ExponentReads(x, letter, spaces);
      assert EndsMantissa(tail + spaces);
      UnsignedReads(j, u + spaces, mant, frac, tail + spaces, Some(x), spaces);
    }
  }

  lemma UnsignedReads(j: nat, t: string, mant: nat, frac: nat, rest: string, x: Option<int>,
                      rest': string)
    requires t != [] && IsDigit(t[0])
    requires ReadMantissa(t, 0, 0, false) == (mant, frac, rest)
    requires ReadExponent(rest) == (x, rest') && SkipSpaces(rest') == []
    ensures ReadUnsigned(Repeat('0', j) + t) == Some((mant, frac, x))
  {
    ReadZeros(j, t, 0, false);
    RepeatLength('0', j);
    assert j == 0 ==> Repeat('0', j) + t == t;
  }

  lemma {:induction false} SkipSome(k: nat, t: string)
    requires t == [] || t[0] != ' '
    ensures SkipSpaces(Repeat(' ', k) + t) == t
  {
    if k == 0 {
      assert Repeat(' ', 0) + t == t;
    } else {
      assert (Repeat(' ', k) + t)[1..] == Repeat(' ', k - 1) + t;
      SkipSome(k - 1, t);
    }
  }

  // A padded number is spaces, the sign, zeros, the number and spaces.
  lemma PaddedShape(sign: string, u: string, width: nat, left: bool, zero: bool)
    returns (lead: nat, zeros: nat, trail: nat)
    ensures Padded(sign + u, |sign|, width, left, zero)
         == Repeat(' ', lead) + (sign + (Repeat('0', zeros) + (u + Repeat(' ', trail))))
    ensures lead + zeros + trail == if |sign + u| < width then width - |sign + u| else 0
    ensures if left then lead == zeros == 0 else if zero then lead == trail == 0 else zeros == trail == 0
  {
    hide Repeat;
    var body := sign + u;
    var pad := if |body| < width then width - |body| else 0;
    RepeatLength(' ', 0);
    RepeatLength('0', 0);
    lead, zeros, trail := 0, 0, 0;
    assert body[..|sign|] == sign && body[|sign|..] == u;
    if left {
      trail := pad;
    } else if zero {
      zeros := pad;
    } else {
      lead := pad;
    }
  }

  // However the number is signed and padded, reading it back gives the sign and the number.
  lemma PaddedReads(u: string, mant: nat, frac: nat, exp: Option<int>, neg: bool, showSign: bool, space: bool,
                    width: nat,
                    left: bool, zero: bool)
    requires Robust(u, mant, frac, exp)
    ensures var sign := SignText(neg, showSign, space);
            ReadNumber(Padded(sign + u, |sign|, width, left, zero)) == Some(Number(neg, mant, frac, exp))
  {
    hide ReadUnsigned, SkipSpaces, Repeat, Padded;
    var sign := SignText(neg, showSign, space);
    var lead, zeros, trail := PaddedShape(sign, u, width, left, zero);
    var inner := Repeat('0', zeros) + (u + Repeat(' ', trail));
    RepeatLength('0', zeros);
    assert inner[0] == if zeros > 0 then '0' else u[0];
    if sign == " " {
      SpaceMoves(lead, inner);
      SkipSome(lead + 1, inner);
    } else {
      SkipSome(lead, sign + inner);
      assert sign != "" ==> (sign + inner)[1..] == inner;
      assert sign == "" ==> sign + inner == inner;
    }
  }

  lemma {:induction false} SpaceMoves(k: nat, t: string)
    ensures Repeat(' ', k) + (" " + t) == Repeat(' ', k + 1) + t
  {
    if k == 0 {
      assert Repeat(' ', 1) == [' '] + Repeat(' ', 0);
    } else {
      SpaceMoves(k - 1, t);
      assert Repeat(' ', k) + (" " + t) == [' '] + (Repeat(' ', k - 1) + (" " + t));
      assert Repeat(' ', k + 1) + t == [' '] + (Repeat(' ', k) + t);
    }
  }

  // What the sign of a padded number looks like: v is the number without it, keep what padding zeros come after.
  lemma SignShown(v: string, keep: nat, neg: bool, showSign: bool, space: bool, width: nat, left: bool, zero: bool)
    requires v != [] && IsDigit(v[0])
    requires |SignText(neg, showSign, space)| <= keep <= |SignText(neg, showSign, space) + v|
    ensures var t := Padded(SignText(neg, showSign, space) + v, keep, width, left, zero);
            var w, plain := SkipSpaces(t), |v| + if neg || showSign || space then 1 else 0;
            && |t| == (if plain < width then width else plain) && w != []
            && (w[0] == '-' <==> neg) && (w[0] == '+' <==> !neg && showSign) && (IsDigit(w[0]) <==> !neg && !showSign)
            && (!neg && !showSign && space ==> t[0] == ' ')
  {
    hide Repeat, SkipSpaces;
    var sign := SignText(neg, showSign, space);
    var body := sign + v;
    var t := Padded(body, keep, width, left, zero);
    var pad := if |body| < width then width - |body| else 0;
    RepeatLength(' ', pad);
    RepeatLength('0', pad);
    if pad > 0 && !left && !zero {
      if sign == " " {
        SpaceMoves(pad, v);
        SkipSome(pad + 1, v);
      } else {
        SkipSome(pad, body);
      }
    } else if sign == " " {
      OneSpace(t);
    } else {
      NoSpace(t);
    }
  }

  lemma OneSpace(t: string)
    requires |t| >= 2 && t[0] == ' ' && t[1] != ' '
    ensures SkipSpaces(t) == t[1..]
  {
  }

  lemma NoSpace(t: string)
    requires t != [] && t[0] != ' '
    ensures SkipSpaces(t) == t
  {
  }

  // ------------------------------------------------------------------ what each notation denotes

  lemma RevTop(s: string)
    requires s != []
    ensures Rev(s) != [] && Rev(s)[0] == s[|s| - 1]
  {
  }

  // %f denotes the digits over 10^prec, with exactly prec digits after the point.
  lemma FixedDenotes(s: string, prec: nat, alt: bool)
    requires Canonical(s)
    ensures DecVal(s) >= 0 && MantissaText(FixedText(s, prec, alt), DecVal(s), prec)
    ensures Robust(FixedText(s, prec, alt), DecVal(s), prec, None)
  {
    hide DecVal, ReadMantissa, Robust, Rev, Repeat, FixedText;
    DecBound(s);
    FixedShape(s, prec, alt);
    var um := FixedText(s, prec, alt);
    if |s| > prec { RevTop(s[prec..]); }
    forall rest | EndsMantissa(rest)
      ensures ReadMantissa(um + rest, 0, 0, false) == (DecVal(s), prec, rest)
    {
      FixedReads(s, prec, alt, rest);
    }
    RobustMantissa(um, DecVal(s), prec);
  }

  // %e denotes s * 10^(x - (|s| - 1)).
  lemma ScientificDenotes(s: string, alt: bool, letter: char, x: int)
    requires Canonical(s) && (letter == 'e' || letter == 'E')
    ensures DecVal(s) >= 0 && Robust(ScientificText(s, alt, letter, x), DecVal(s), |s| - 1, Some(x))
  {
    hide DecVal, Robust, ExponentText, PointText;
    PointDenotes(s, 0, alt, letter, x);
    assert s[0..] == s;
  }

  lemma PointDenotes(s: string, low: nat, alt: bool, letter: char, x: int)
    requires AllDigits(s) && low < |s| && (letter == 'e' || letter == 'E')
    ensures DecVal(s[low..]) >= 0
    ensures Robust(PointText(s, low, alt) + [letter] + ExponentText(x), DecVal(s[low..]), |s| - 1 - low, Some(x))
  {
    hide DecVal, ReadMantissa, Robust, Rev;
    DecBound(s[low..]);
    var um := PointText(s, low, alt);
    forall rest | EndsMantissa(rest)
      ensures ReadMantissa(um + rest, 0, 0, false) == (DecVal(s[low..]), |s| - 1 - low, rest)
    {
      PointReads(s, low, alt, rest);
    }
    RobustExponent(um, DecVal(s[low..]), |s| - 1 - low, letter, x);
  }

  lemma TrailingZeroStep(s: string)
    requires s != [] && s[0] == '0'
    ensures DecVal(s) == 10 * DecVal(s[1..])
  {
  }

  lemma {:induction false} TrailingZerosAreZeros(s: string, k: nat)
    requires AllDigits(s) && k <= TrailingZeros(s)
    ensures DecVal(s) == T(k) * DecVal(s[k..])
    decreases k
  {
    hide DecVal, Pow, T;
    TStep(0);
    if k == 0 {
      assert s[0..] == s;
    } else {
      TrailingZerosAreZeros(s[1..], k - 1);
      assert s[1..][k - 1..] == s[k..];
      TStep(k - 1);
      TenFold(DecVal(s[k..]), T(k - 1), T(k));
      TrailingZeroStep(s);
    }
  }

  // The exponent that is written with p significant digits: none in fixed notation.
  function GeneralExponent(p: nat, x: int): Option<int>
  {
    if -4 <= x < p then None else Some(x)
  }

  // The digits after the point when z of p significant digits are not written.
  function GeneralFraction(p: nat, x: int, z: nat): int
  {
    p - 1 - z - if -4 <= x < p then x else 0
  }

  // t reads as the number with digits s and exponent x, written with z trailing zeros dropped.
  ghost predicate Denotes(t: string, s: string, x: int, z: nat)
  {
    && z < |s| && DecVal(s[z..]) >= 0 && DecVal(s) == T(z) * DecVal(s[z..]) && GeneralFraction(|s|, x, z) >= 0
    && Robust(t, DecVal(s[z..]), GeneralFraction(|s|, x, z), GeneralExponent(|s|, x))
  }

  // The number of trailing zeros that %g drops.
  function Dropped(s: string, alt: bool, x: int): nat
  {
    var zeros := if alt then 0 else TrailingZeros(s);
    if 0 <= x < |s| then Min(zeros, |s| - 1 - x) else zeros
  }

  lemma InsideDenotes(s: string, point: nat, z: nat, withPoint: bool)
    requires AllDigits(s) && z <= point < |s| && (!withPoint ==> z == point)
    ensures DecVal(s[z..]) >= 0
    ensures Robust(Rev(s[point..]) + (if withPoint then "." + Rev(s[z..point]) else ""), DecVal(s[z..]), point - z,
                   None)
  {
    hide DecVal, ReadMantissa, Robust, Rev, T;
    DecBound(s[z..]);
    var um := Rev(s[point..]) + (if withPoint then "." + Rev(s[z..point]) else "");
    RevTop(s[point..]);
    forall rest | EndsMantissa(rest)
      ensures ReadMantissa(um + rest, 0, 0, false) == (DecVal(s[z..]), point - z, rest)
    {
      WholeReads(s, point, z, withPoint, rest);
    }
    RobustMantissa(um, DecVal(s[z..]), point - z);
  }

  lemma BelowOneDenotes(s: string, lead: nat)
    requires AllDigits(s)
    ensures DecVal(s) >= 0 && Robust("0." + Repeat('0', lead) + Rev(s), DecVal(s), lead + |s|, None)
  {
    hide DecVal, ReadMantissa, Robust, Rev, T, Repeat;
    DecBound(s);
    var um := "0." + Repeat('0', lead) + Rev(s);
    forall rest | EndsMantissa(rest)
      ensures ReadMantissa(um + rest, 0, 0, false) == (DecVal(s), lead + |s|, rest)
    {
      FractionReads(s, lead, rest);
    }
    RobustMantissa(um, DecVal(s), lead + |s|);
  }

  // %g denotes s * 10^(x - (|s| - 1)) too: dropping trailing zeros preserves the value.
  lemma GeneralDenotes(s: string, alt: bool, letter: char, x: int)
    requires Canonical(s) && s[|s| - 1] != '0' && (letter == 'e' || letter == 'E')
    ensures Denotes(GeneralText(s, alt, letter, x), s, x, Dropped(s, alt, x))
  {
    hide DecVal, Robust, Rev, T, TrailingZeros, Repeat, PointText, ExponentText;
    TrailingZerosKeepTop(s);
    var n, zeros := |s|, if alt then 0 else TrailingZeros(s);
    var z := Dropped(s, alt, x);
    TrailingZerosAreZeros(s, z);
    if 0 <= x < n {
      InsideDenotes(s, n - 1 - x, z, alt || n - 1 - x > zeros);
    } else if -4 <= x < 0 {
      BelowOneDenotes(s[z..], -x - 1);
    } else {
      PointDenotes(s, zeros, alt, letter, x);
    }
  }

  lemma {:induction false} RevMembers(s: string, letter: char)
    requires AllDigits(s) && !IsDigit(letter)
    ensures letter !in Rev(s)
  {
    if s != [] { RevMembers(s[..|s| - 1], letter); }
  }

  // Exponential notation is used exactly when the exponent is below -4 or not below the precision.
  lemma GeneralNotation(s: string, alt: bool, letter: char, x: int)
    requires Canonical(s) && s[|s| - 1] != '0' && (letter == 'e' || letter == 'E')
    ensures letter in GeneralText(s, alt, letter, x) <==> x < -4 || x >= |s|
  {
    hide DecVal, Rev, TrailingZeros;
    TrailingZerosKeepTop(s);
    var n, zeros := |s|, if alt then 0 else TrailingZeros(s);
    if 0 <= x < n {
      var point := n - 1 - x;
      RevMembers(s[point..], letter);
      RevMembers(s[Min(zeros, point)..point], letter);
    } else if -4 <= x < 0 {
      RevMembers(s[zeros..], letter);
      RepeatLength('0', -x - 1);
    } else {
      assert (PointText(s, zeros, alt) + [letter])[|PointText(s, zeros, alt)|] == letter;
    }
  }

  // ------------------------------------------------------------------ how it is written

  // A mantissa without a zero in front that could be left out; with a decimal point exactly if point is set.
  ghost predicate MantissaShape(um: string, point: bool)
  {
    um != [] && (um[0] == '0' ==> |um| == 1 || um[1] == '.') && ('.' in um <==> point)
  }

  // An exponent: the letter, a sign, and at least two digits, more of them only as far as needed.
  ghost predicate ExponentShape(t: string, letter: char, exp: Option<int>)
  {
    match exp
    case None => t == ""
    case Some(x) =>
      && |t| >= 4 && t[0] == letter && t[1] == (if x < 0 then '-' else '+') && AllDigits(t[2..])
      && (t[2] == '0' ==> |t| == 4)
  }

  // u is such a mantissa and such an exponent. With what u reads as, this leaves only one text.
  ghost predicate Written(u: string, point: bool, letter: char, exp: Option<int>)
  {
    exists k :: 0 <= k <= |u| && MantissaShape(u[..k], point) && ExponentShape(u[k..], letter, exp)
  }

  lemma WrittenPlain(um: string, point: bool, letter: char)
    requires MantissaShape(um, point)
    ensures Written(um, point, letter, None)
  {
    hide MantissaShape;
    assert um[..|um|] == um && um[|um|..] == "";
  }

  lemma {:induction false} NatTextTop(n: nat)
    ensures NatText(n) != [] && (n > 0 ==> NatText(n)[0] != '0') && (n >= 10 ==> |NatText(n)| >= 2)
  {
    if n >= 10 { NatTextTop(n / 10); }
  }

  lemma WrittenExponent(um: string, point: bool, letter: char, x: int)
    requires MantissaShape(um, point)
    ensures Written(um + [letter] + ExponentText(x), point, letter, Some(x))
  {
    hide MantissaShape, NatText;
    var n := if x < 0 then -x else x;
    var t, u := [letter] + ExponentText(x), um + [letter] + ExponentText(x);
    NatTextTop(n);
    NatTextDigits(n);
    if n < 10 { NatTextOne(n); }
    assert t[2..] == (if n < 10 then "0" else "") + NatText(n);
    assert u[..|um|] == um && u[|um|..] == t;
  }

  lemma NatTextOne(n: nat)
    requires n < 10
    ensures |NatText(n)| == 1
  {
  }

  lemma FixedWritten(s: string, prec: nat, alt: bool)
    requires Canonical(s)
    ensures MantissaShape(FixedText(s, prec, alt), alt || prec > 0)
  {
    hide Rev, Repeat, FixedText;
    FixedShape(s, prec, alt);
    RepeatLength('0', prec);
    if |s| > prec {
      RevTop(s[prec..]);
      RevLength(s[prec..]);
      RevMembers(s[prec..], '.');
      RevMembers(s[..prec], '.');
    } else {
      RepeatLength('0', prec - |s|);
      RevMembers(s, '.');
    }
  }

  lemma PointWritten(s: string, low: nat, alt: bool)
    requires AllDigits(s) && low < |s| && (s[|s| - 1] != '0' || |s| == 1)
    ensures MantissaShape(PointText(s, low, alt), alt || |s| - 1 > low)
  {
    hide Rev;
    RevMembers(s[low..|s| - 1], '.');
  }

  lemma ScientificWritten(s: string, alt: bool, letter: char, x: int)
    requires Canonical(s)
    ensures Written(ScientificText(s, alt, letter, x), alt || |s| > 1, letter, Some(x))
  {
    hide PointText, ExponentText, MantissaShape;
    PointWritten(s, 0, alt);
    WrittenExponent(PointText(s, 0, alt), alt || |s| > 1, letter, x);
  }

  lemma InsideWritten(s: string, point: nat, zeros: nat, alt: bool)
    requires AllDigits(s) && point < |s| && s[|s| - 1] != '0'
    ensures MantissaShape(InsideText(s, point, zeros, alt), alt || point > zeros)
  {
    hide Rev;
    RevTop(s[point..]);
    RevMembers(s[point..], '.');
    RevMembers(s[Min(zeros, point)..point], '.');
  }

  lemma BelowOneWritten(s: string, lead: nat, zeros: nat)
    requires zeros <= |s|
    ensures MantissaShape(BelowOneText(s, lead, zeros), true)
  {
    hide Rev, Repeat;
    var t := BelowOneText(s, lead, zeros);
    assert t[0] == '0' && t[1] == '.';
  }

  // %g writes a point exactly when digits follow it or the alternate form asks for it.
  lemma GeneralWritten(s: string, alt: bool, letter: char, x: int)
    requires Canonical(s) && s[|s| - 1] != '0'
    ensures Written(GeneralText(s, alt, letter, x), alt || GeneralFraction(|s|, x, Dropped(s, alt, x)) > 0,
                    letter, GeneralExponent(|s|, x))
  {
    hide Rev, Repeat, TrailingZeros, MantissaShape, PointText, InsideText, BelowOneText, ExponentText;
    TrailingZerosKeepTop(s);
    var n, zeros := |s|, if alt then 0 else TrailingZeros(s);
    if 0 <= x < n {
      InsideWritten(s, n - 1 - x, zeros, alt);
      WrittenPlain(InsideText(s, n - 1 - x, zeros, alt), alt || n - 1 - x > zeros, letter);
    } else if -4 <= x < 0 {
      BelowOneWritten(s, -x - 1, zeros);
      WrittenPlain(BelowOneText(s, -x - 1, zeros), true, letter);
    } else {
      PointWritten(s, zeros, alt);
      WrittenExponent(PointText(s, zeros, alt), alt || n - 1 > zeros, letter, x);
    }
  }

  lemma {:induction false} TrailingZerosEnd(s: string)
    requires TrailingZeros(s) < |s|
    ensures s[TrailingZeros(s)] != '0'
  {
    if s[0] == '0' { TrailingZerosEnd(s[1..]); }
  }

  // Without the alternate form, no zero is left at the end of a fraction; with it, none is dropped.
  lemma GeneralDropsAll(s: string, alt: bool, x: int)
    requires Canonical(s) && s[|s| - 1] != '0'
    ensures var z := Dropped(s, alt, x);
            z < |s| && if alt then z == 0 else GeneralFraction(|s|, x, z) > 0 ==> DecVal(s[z..]) % 10 != 0
  {
    TrailingZerosKeepTop(s);
    var z := Dropped(s, alt, x);
    if !alt && GeneralFraction(|s|, x, z) > 0 {
      TrailingZerosEnd(s);
      assert s[z..][0] == s[z];
      UnitsDigit(s[z..]);
    }
  }

  lemma UnitsDigit(s: string)
    requires s != [] && AllDigits(s)
    ensures DecVal(s) % 10 == Digit(s[0])
  {
  }
}
