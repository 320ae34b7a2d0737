// The %f, %e and %g printers: digits to text in a temporary buffer, then padding in place.
module FloatPrint {
  import opened Wrappers
  import opened Arithmetic
  import opened Powers
  import opened Rounding
  import opened Limbs
  import opened Decimal
  import opened Scale10
  import opened Significand
  import opened NumberText

  datatype Flags = Flags(left: bool, showSign: bool, space: bool, alt: bool, zero: bool)

  // The temporary buffer with its write position.
  class TextBuffer {
    const buf: array<char>
    var p: nat

    constructor (b: array<char>)
      ensures buf == b && p == 0
    {
      buf := b;
      p := 0;
    }

    ghost predicate Valid()
      reads this
    {
      p <= buf.Length
    }

    function Text(): string
      reads this, buf
      requires Valid()
    {
      buf[..p]
    }

    method Put(c: char)
      requires Valid() && p < buf.Length
      modifies this, buf
      ensures Valid() && p == old(p) + 1 && Text() == old(Text()) + [c]
    {
      buf[p] := c;
      p := p + 1;
    }

    // p := p + |s| writing the fixed string s, as sprintf does.
    method PutString(s: string)
      requires Valid() && p + |s| <= buf.Length
      modifies this, buf
      ensures Valid() && p == old(p) + |s| && Text() == old(Text()) + s
    {
      for i := 0 to |s|
        invariant Valid() && p == old(p) + i && Text() == old(Text()) + s[..i]
      {
        Put(s[i]);
        assert s[..i + 1] == s[..i] + [s[i]];
      }
      assert s[..|s|] == s;
    }

    method PutRepeated(c: char, n: nat)
      requires Valid() && p + n <= buf.Length
      modifies this, buf
      ensures Valid() && p == old(p) + n && Text() == old(Text()) + Repeat(c, n)
    {
      var k := n;
      while k > 0
        invariant 0 <= k <= n && Valid() && p == old(p) + (n - k)
        invariant Text() + Repeat(c, k) == old(Text()) + Repeat(c, n)
      {
        ghost var t := Text();
        Put(c);
        assert t + Repeat(c, k) == (t + [c]) + Repeat(c, k - 1);
        k := k - 1;
      }
    }

    // Writes the digits digits[low..high] from the top down.
    method PutDigits(digits: array<char>, high: nat, low: nat)
      requires Valid() && low <= high <= digits.Length && digits != buf && p + (high - low) <= buf.Length
      modifies this, buf
      ensures Valid() && p == old(p) + (high - low) && Text() == old(Text()) + Rev(digits[low..high])
    {
      var n := high;
      while n > low
        invariant low <= n <= high && Valid() && p == old(p) + (high - n)
        invariant digits[..] == old(digits[..])
        invariant Text() + Rev(digits[low..n]) == old(Text()) + Rev(old(digits[low..high]))
      {
        ghost var t, s := Text(), digits[low..n];
        n := n - 1;
        assert s[|s| - 1] == digits[n] && s[..|s| - 1] == digits[low..n];
        assert t + Rev(s) == (t + [digits[n]]) + Rev(digits[low..n]);
        Put(digits[n]);
      }
    }

    // Moves the text from position start up by k places, top down because the ranges may overlap.
    method OpenGap(start: nat, k: nat)
      requires Valid() && start <= p && p + k <= buf.Length
      modifies buf
      ensures buf[..start] == old(buf[..start]) && buf[start + k..p + k] == old(buf[start..p])
    {
      ghost var was := buf[..];
      var q := p;
      while q > start
        invariant start <= q <= p
        invariant forall j :: 0 <= j < q ==> buf[j] == was[j]
        invariant forall j :: q + k <= j < p + k ==> buf[j] == was[j - k]
      {
        q := q - 1;
        buf[q + k] := buf[q];
      }
    }

    // Widens the text to the width by copies of c inserted at position start.
    method Widen(start: nat, c: char, width: nat)
      requires Valid() && start <= p < width <= buf.Length
      modifies this, buf
      ensures Valid() && p == width
      ensures Text() == old(Text())[..start] + Repeat(c, width - old(p)) + old(Text())[start..]
    {
      hide Repeat;
      var pad := width - p;
      ghost var head, tail := Text()[..start], Text()[start..];
      OpenGap(start, pad);
      p := start;
      assert Text() == head && buf[p + pad..width] == tail;
      PutRepeatedInGap(c, pad, head, tail);
      ghost var filled := Text();
      p := width;
      assert Text() == filled + tail;
    }

    // Pads the text to the width: spaces on the right, zeros after the sign, or spaces on the left.
    method Pad(signLen: nat, width: nat, left: bool, zero: bool)
      requires Valid() && signLen <= p && width <= buf.Length
      modifies this, buf
      ensures Valid() && p == (if old(p) < width then width else old(p))
      ensures Text() == Padded(old(Text()), signLen, width, left, zero)
    {
      hide Repeat;
      ghost var t, oldP := Text(), p;
      if p < width {
        if left {
          PutRepeated(' ', width - p);
        } else if zero {
          Widen(signLen, '0', width);
        } else {
          Widen(0, ' ', width);
          PadFront(t, width - oldP);
        }
      }
    }

    method PutRepeatedInGap(c: char, n: nat, ghost head: string, ghost tail: string)
      requires Valid() && p + n + |tail| <= buf.Length && Text() == head
      requires buf[p + n..p + n + |tail|] == tail
      modifies this, buf
      ensures Valid() && p == old(p) + n && Text() == head + Repeat(c, n)
      ensures buf[p..p + |tail|] == tail
    {
      var k := n;
      assert buf[old(p) + n..old(p) + n + |tail|] == tail;
      while k > 0
        invariant 0 <= k <= n && Valid() && p == old(p) + (n - k)
        invariant Text() + Repeat(c, k) == head + Repeat(c, n)
        invariant buf[old(p) + n..old(p) + n + |tail|] == tail
      {
        ghost var t := Text();
        buf[p] := c;
        p := p + 1;
        assert Text() == t + [c];
        assert t + Repeat(c, k) == (t + [c]) + Repeat(c, k - 1);
        k := k - 1;
      }
    }
  }

  lemma PadFront(t: string, pad: nat)
    ensures t[..0] + Repeat(' ', pad) + t[0..] == Repeat(' ', pad) + t
  {
    assert t[..0] == [] && t[0..] == t;
    assert [] + Repeat(' ', pad) == Repeat(' ', pad);
  }

  // --------------------------------------------------------------------------- how long a text can get

  lemma FixedLength(s: string, prec: nat, alt: bool)
    requires s != []
    ensures |FixedText(s, prec, alt)| <= (if |s| > prec then |s| - prec else 1) + 1 + prec
  {
    hide Rev, Repeat, FixedText;
    FixedShape(s, prec, alt);
    if |s| > prec {
      RevLength(s[prec..]);
      RevLength(s[..prec]);
    } else {
      RepeatLength('0', prec - |s|);
      RevLength(s);
    }
  }

  // Digits of x * 10^prec for a good guess of the exponent of x.
  lemma DigitCount(e: int, m: nat, prec: nat, g: int, s: string)
    requires GoodGuess(e, m, g) && Canonical(s) && Rounds(Scaled(e, m, prec), DecVal(s))
    ensures |s| <= 1 || |s| <= prec + g + 2
  {
    hide DecVal, GoodGuess, Scaled, Pow, Canonical;
    CanonicalLength(s);
    var k := prec + g;
    if k >= 0 {
      GuessBounds(e, m, k, g);
      PowPos(10, k);
      TStep(k);
      TStep(k + 1);
      TwoMoreDigits(Scaled(e, m, prec), T(k), DecVal(s));
      if |s| > k + 2 { PowMonoExp(10, k + 2, |s| - 1); }
    } else {
      GuessBelowOne(e, m, prec, g);
      if |s| > 1 { PowMonoExp(10, 1, |s| - 1); TStep(0); }
    }
  }

  lemma TwoMoreDigits(y: real, t: nat, d: int)
    requires t >= 1 && y <= 10.00001 * t as real && Rounds(y, d)
    ensures d < 100 * t
  {
    assert (100 * t) as real == 100.0 * t as real && d as real <= y + 0.5;
  }

  lemma GuessBelowOne(e: int, m: nat, prec: nat, g: int)
    requires GoodGuess(e, m, g) && prec + g < 0
    ensures Scaled(e, m, prec) < 1.1
  {
    hide Scaled, Pow;
    var j := -g - prec;
    ScaledShift(e, m, prec, j);
    PowMonoExp(10, 1, j);
    TStep(0);
    if Scaled(e, m, prec) >= 1.1 {
      TenTimes(T(j), Scaled(e, m, prec));
    }
  }

  lemma TenTimes(p: nat, y: real)
    requires p >= 10 && y >= 1.1
    ensures p as real * y >= 11.0
  {
    RealCompare(10.0, p as real, y);
  }

  lemma {:induction false} NatTextLength(n: nat, k: nat)
    requires k >= 1 && n < T(k)
    ensures |NatText(n)| <= k
  {
    if n >= 10 {
      TStep(0);
      TStep(k - 1);
      NatTextLength(n / 10, k - 1);
    }
  }

  lemma ExponentLength(x: int)
    requires -10_000_000 < x < 10_000_000
    ensures |ExponentText(x)| <= 8
  {
    hide NatText;
    var n := if x < 0 then -x else x;
    assert T(7) == 10_000_000;
    NatTextLength(n, 7);
    if n < 10 { NatTextOne(n); }
  }

  // ------------------------------------------------------------------------------- the printers

  // The buffer on the stack holds 700 characters; a longer text needs memory.
  method NewTemp(al: Allocator, length: nat) returns (out: Option<TextBuffer>)
    requires !al.refused
    modifies al
    ensures out.None? <==> al.refused
    ensures out.Some? ==> fresh(out.value) && fresh(out.value.buf)
    ensures out.Some? ==> out.value.buf.Length >= length && out.value.p == 0
  {
    var b: array?<char>;
    if length <= 700 {
      b := new char[700];
    } else {
      b := al.NewChars(length);
      if b == null { return None; }
    }
    var t := new TextBuffer(b);
    return Some(t);
  }

  method PutSign(out: TextBuffer, neg: bool, f: Flags)
    requires out.Valid() && out.p < out.buf.Length
    modifies out, out.buf
    ensures out.Valid() && out.p <= old(out.p) + 1
    ensures out.Text() == old(out.Text()) + SignText(neg, f.showSign, f.space)
  {
    if neg {
      out.Put('-');
    } else if f.showSign {
      out.Put('+');
    } else if f.space {
      out.Put(' ');
    }
  }

  // The digits before the point: all above the prec lowest, or a zero.
  method PutWhole(out: TextBuffer, c: array<char>, n: nat, prec: nat)
    requires out.Valid() && n <= c.Length && c != out.buf
    requires out.p + |WholeText(c[..n], prec)| <= out.buf.Length
    modifies out, out.buf
    ensures out.Valid() && out.Text() == old(out.Text()) + WholeText(c[..n], prec)
  {
    hide Rev;
    if n > prec {
      assert c[prec..n] == c[..n][prec..];
      RevLength(c[prec..n]);
      out.PutDigits(c, n, prec);
    } else {
      out.Put('0');
    }
  }

  lemma Join(t: string, a: string, b: string, c: string)
    ensures ((t + a) + b) + c == t + (a + b + c)
  {
  }

  // The point and the digits after it, n of them given and padded to prec.
  method PutFraction(out: TextBuffer, c: array<char>, n: nat, prec: nat, alt: bool)
    requires out.Valid() && n <= prec && n <= c.Length && c != out.buf
    requires out.p + |FractionText(c[..n], prec, alt)| <= out.buf.Length
    modifies out, out.buf
    ensures out.Valid() && out.Text() == old(out.Text()) + FractionText(c[..n], prec, alt)
  {
    hide Rev, Repeat;
    if alt || prec > 0 {
      ghost var s, t := c[..n], out.Text();
      RevLength(s);
      RepeatLength('0', prec - n);
      out.Put('.');
      out.PutRepeated('0', prec - n);
      assert c[0..n] == s;
      out.PutDigits(c, n, 0);
      Join(t, ".", Repeat('0', prec - n), Rev(s));
    }
  }

  // %f: the digits c[..n] of x * 10^prec, with prec of them after the decimal point.
  method PutFixed(out: TextBuffer, c: array<char>, n: nat, prec: nat, alt: bool)
    requires out.Valid() && 0 < n <= c.Length && c != out.buf
    requires out.p + |FixedText(c[..n], prec, alt)| <= out.buf.Length
    modifies out, out.buf
    ensures out.Valid() && out.Text() == old(out.Text()) + FixedText(c[..n], prec, alt)
  {
    hide WholeText, FractionText;
    ghost var s := c[..n];
    var left := if n > prec then prec else n;
    assert c[..left] == s[..Min(|s|, prec)];
    PutWhole(out, c, n, prec);
    assert c[..n] == s && c[..left] == s[..Min(|s|, prec)];
    PutFraction(out, c, left, prec, alt);
  }

  // The top digit, and after a decimal point the digits down to position low.
  method PutPoint(out: TextBuffer, c: array<char>, n: nat, low: nat, alt: bool)
    requires out.Valid() && low < n <= c.Length && c != out.buf
    requires out.p + |PointText(c[..n], low, alt)| <= out.buf.Length
    modifies out, out.buf
    ensures out.Valid() && out.Text() == old(out.Text()) + PointText(c[..n], low, alt)
  {
    hide Rev;
    ghost var s, t := c[..n], out.Text();
    RevLength(s[low..n - 1]);
    out.Put(c[n - 1]);
    if alt || n - 1 > low {
      out.Put('.');
      assert c[low..n - 1] == s[low..n - 1];
      out.PutDigits(c, n - 1, low);
      Join(t, [s[n - 1]], ".", Rev(s[low..n - 1]));
      assert [s[n - 1]] + "." + Rev(s[low..n - 1]) == [s[n - 1]] + ("." + Rev(s[low..n - 1]));
    }
  }

  method PutLetterExponent(out: TextBuffer, letter: char, x: int)
    requires out.Valid() && out.p + 1 + |ExponentText(x)| <= out.buf.Length
    modifies out, out.buf
    ensures out.Valid() && out.Text() == old(out.Text()) + [letter] + ExponentText(x)
  {
    hide ExponentText;
    out.Put(letter);
    out.PutString(ExponentText(x));
  }

  lemma JoinThree(t: string, a: string, b: string, c: string)
    ensures (t + a) + b + c == t + (a + b + c)
  {
  }

  method PutScientific(out: TextBuffer, c: array<char>, n: nat, low: nat, alt: bool, letter: char, x: int)
    requires out.Valid() && low < n <= c.Length && c != out.buf
    requires out.p + |PointText(c[..n], low, alt)| + 1 + |ExponentText(x)| <= out.buf.Length
    modifies out, out.buf
    ensures out.Valid() && out.Text() == old(out.Text()) + (PointText(c[..n], low, alt) + [letter] + ExponentText(x))
  {
    hide PointText, ExponentText;
    ghost var t, s := out.Text(), c[..n];
    PutPoint(out, c, n, low, alt);
    PutLetterExponent(out, letter, x);
    JoinThree(t, PointText(s, low, alt), [letter], ExponentText(x));
  }

  method CountTrailingZeros(c: array<char>, n: nat) returns (zeros: nat)
    requires n <= c.Length
    ensures zeros == TrailingZeros(c[..n])
  {
    zeros := 0;
    ghost var s := c[..n];
    assert s[0..] == s;
    while zeros < n && c[zeros] == '0'
      invariant zeros <= n
      invariant TrailingZeros(s) == zeros + TrailingZeros(s[zeros..])
    {
      assert s[zeros..][1..] == s[zeros + 1..] && s[zeros..][0] == c[zeros];
      zeros := zeros + 1;
    }
    assert zeros < n ==> s[zeros..][0] == c[zeros];
  }

  // Fixed notation of %g with the decimal point inside or after the digits.
  method PutInside(out: TextBuffer, c: array<char>, n: nat, point: nat, zeros: nat, alt: bool)
    requires out.Valid() && point < n <= c.Length && c != out.buf && (alt ==> zeros == 0)
    requires out.p + n + 1 <= out.buf.Length
    modifies out, out.buf
    ensures out.Valid() && out.Text() == old(out.Text()) + InsideText(c[..n], point, zeros, alt)
  {
    hide Rev;
    ghost var t, s := out.Text(), c[..n];
    assert c[point..n] == s[point..];
    out.PutDigits(c, n, point);
    if alt || point > zeros {
      out.Put('.');
      assert c[zeros..point] == s[Min(zeros, point)..point];
      out.PutDigits(c, point, zeros);
      Join(t, Rev(s[point..]), ".", Rev(s[Min(zeros, point)..point]));
      assert Rev(s[point..]) + "." + Rev(s[zeros..point]) == Rev(s[point..]) + ("." + Rev(s[zeros..point]));
    }
  }

  // Fixed notation of %g for a number below one.
  method PutBelowOne(out: TextBuffer, c: array<char>, n: nat, lead: nat, zeros: nat)
    requires out.Valid() && zeros <= n <= c.Length && c != out.buf && out.p + 2 + lead + n <= out.buf.Length
    modifies out, out.buf
    ensures out.Valid() && out.Text() == old(out.Text()) + BelowOneText(c[..n], lead, zeros)
  {
    hide Rev, Repeat;
    ghost var t := out.Text();
    out.Put('0');
    out.Put('.');
    out.PutRepeated('0', lead);
    assert c[zeros..n] == c[..n][zeros..];
    out.PutDigits(c, n, zeros);
    assert (t + ['0']) + ['.'] == t + "0.";
    Join(t, "0.", Repeat('0', lead), Rev(c[..n][zeros..]));
  }

  lemma PointLength(s: string, low: nat, alt: bool)
    requires low < |s|
    ensures |PointText(s, low, alt)| <= |s| + 1
  {
    hide Rev;
    RevLength(s[low..|s| - 1]);
  }

  // %g, from the significant digits c[..n] and the exponent x.
  method PutGeneral(out: TextBuffer, c: array<char>, n: nat, alt: bool, letter: char, x: int)
    requires out.Valid() && 0 < n <= c.Length && c[n - 1] != '0' && c != out.buf
    requires -10_000_000 < x < 10_000_000 && out.p + n + 10 <= out.buf.Length
    modifies out, out.buf
    ensures out.Valid() && out.Text() == old(out.Text()) + GeneralText(c[..n], alt, letter, x)
  {
    hide Rev, Repeat, TrailingZeros, PointText, ExponentText, InsideText, BelowOneText;
    ghost var s := c[..n];
    TrailingZerosKeepTop(s);
    var zeros := 0;
    if !alt {
      zeros := CountTrailingZeros(c, n);
    }
    if -4 <= x < n {
      if x >= 0 {
        PutInside(out, c, n, n - 1 - x, zeros, alt);
      } else {
        PutBelowOne(out, c, n, -x - 1, zeros);
      }
    } else {
      PointLength(s, zeros, alt);
      ExponentLength(x);
      PutScientific(out, c, n, zeros, alt, letter, x);
    }
  }

  // The length of the temporary buffer: DBL_DIG + 1 or precision digits, for %f also those of the whole
  // part, twelve more for sign, point and exponent, at least the width, and the final NUL.
  function TempLength(prec: nat, wholeExponent: int, width: nat): nat
  {
    var a := if 16 < prec then prec else 16;
    var b := if wholeExponent >= 0 && a < wholeExponent + prec then wholeExponent + prec else a;
    (if b + 12 < width then width else b + 12) + 1
  }

  lemma ZeroDigits(e: int, prec: int, s: string)
    requires Canonical(s) && RoundsTo(Num(e, 0, prec), Den(e, prec), DecVal(s))
    ensures |s| == 1
  {
    hide DecVal, Canonical, Pow;
    assert Num(e, 0, prec) == 0 by { ZeroProduct(Pow(2, Pos(e)), Pow(10, Pos(prec))); }
    DenPositive(e, prec);
    var d := Den(e, prec);
    CanonicalLength(s);
    RoundsToZero(d, DecVal(s));
    CanonicalNonEmpty(s);
    if |s| > 1 { PowPos(10, |s| - 1); }
  }

  lemma ZeroProduct(x: nat, y: nat)
    ensures (0 * x) * y == 0
  {
  }

  lemma RoundsToZero(d: nat, z: int)
    requires d > 0 && RoundsTo(0, d, z)
    ensures z <= 0
  {
    if z > 0 { MulMono(d, 1, z); }
  }

  // The whole part of x is as long as the guess says, so the buffer is long enough.
  lemma FixedFits(e: int, m: nat, prec: nat, g: int, s: string, alt: bool, width: nat)
    requires Canonical(s) && (m > 0 ==> GoodGuess(e, m, g)) && Rounds(Scaled(e, m, prec), DecVal(s))
    requires m == 0 ==> |s| == 1
    ensures 1 + |FixedText(s, prec, alt)| < TempLength(prec, if m > 0 then g else -1, width)
  {
    hide DecVal, GoodGuess, Scaled, Rounds, FixedText;
    FixedLength(s, prec, alt);
    if m > 0 { DigitCount(e, m, prec, g, s); }
  }

  // Pads the signed number in the buffer and hands its text over; the buffer was long enough.
  method Finish(out: TextBuffer, signLen: nat, f: Flags, width: nat, tmpLength: nat) returns (text: string)
    requires out.Valid() && signLen <= out.p < tmpLength <= out.buf.Length && width < tmpLength
    modifies out, out.buf
    ensures text == Padded(old(out.Text()), signLen, width, f.left, f.zero)
  {
    out.Pad(signLen, width, f.left, f.zero);
    if out.p >= tmpLength {
      assert false;
    }
    text := out.Text();
  }

  // The number u with its sign, padded to the width.
  function Laid(u: string, neg: bool, f: Flags, width: nat): string
  {
    var sign := SignText(neg, f.showSign, f.space);
    Padded(sign + u, |sign|, width, f.left, f.zero)
  }

  // %f of (-1)^neg * 2^e * m: reading the text back gives round(x * 10^prec) / 10^prec, in fixed notation with exactly
  // prec digits after the decimal point. None when memory is refused.
  method FormatF(al: Allocator, neg: bool, e: int, m: seq<Limb>, f: Flags, width: nat, prec: nat, guess: int)
    returns (text: Option<string>, ghost u: string, ghost d: nat)
    requires !al.refused && (Val(m) > 0 ==> GoodGuess(e, Val(m), guess)) && Normalised(m)
    modifies al
    ensures text.None? <==> al.refused
    ensures text.Some? ==> RoundsTo(Num(e, Val(m), prec), Den(e, prec), d)
    ensures text.Some? ==> text.value == Laid(u, neg, f, width) && Written(u, f.alt || prec > 0, 'e', None)
    ensures text.Some? ==> ReadNumber(text.value) == Some(Number(neg, d, prec, None))
  {
    hide Val, DecVal, GoodGuess, Scaled, Rounds, RoundsTo, Num, Den, Canonical, FixedText, Robust,
         ReadNumber, TempLength, SignText, Written, MantissaShape;
    u, d := "", 0;
    ZeroOrNot(m);
    var tmpLength := TempLength(prec, if m != [] then guess else -1, width);
    LongEnough(prec, if m != [] then guess else -1, width);
    var out := NewTemp(al, tmpLength);
    if out.None? { return None, u, d; }
    var t := out.value;
    SignLength(neg, f);
    PutSign(t, neg, f);
    var signLen := t.p;
    var digits := ScaleRoundDecimal(al, e, m, prec);
    if digits.None? { return None, u, d; }
    var (c, n) := digits.value;
    ghost var s, sign := c[..n], SignText(neg, f.showSign, f.space);
    DenPositive(e, prec);
    CanonicalNonEmpty(s);
    FixedDigitsFit(e, Val(m), prec, guess, s, f.alt, width);
    FixedDenotes(s, prec, f.alt);
    d := DecVal(s);
    u := FixedText(s, prec, f.alt);
    FixedWritten(s, prec, f.alt);
    WrittenPlain(u, f.alt || prec > 0, 'e');
    assert t.Text() == sign;
    PutFixed(t, c, n, prec, f.alt);
    assert t.Text() == sign + FixedText(s, prec, f.alt);
    var padded := Finish(t, signLen, f, width, tmpLength);
    PaddedReads(u, d, prec, None, neg, f.showSign, f.space, width, f.left, f.zero);
    text := Some(padded);
  }

  lemma ZeroOrNot(m: seq<Limb>)
    requires Normalised(m)
    ensures m == [] <==> Val(m) == 0
  {
    if m != [] { ValTop(m); PowPos(BETA, |m| - 1); }
  }

  lemma LongEnough(prec: nat, x: int, width: nat)
    ensures TempLength(prec, x, width) > width && TempLength(prec, x, width) >= prec + 13
    ensures TempLength(prec, x, width) >= 29
  {
  }

  lemma SignLength(neg: bool, f: Flags)
    ensures |SignText(neg, f.showSign, f.space)| <= 1
  {
  }

  lemma CanonicalNonEmpty(s: string)
    requires Canonical(s)
    ensures s != []
  {
  }

  lemma FixedDigitsFit(e: int, m: nat, prec: nat, g: int, s: string, alt: bool, width: nat)
    requires Canonical(s) && (m > 0 ==> GoodGuess(e, m, g)) && RoundsTo(Num(e, m, prec), Den(e, prec), DecVal(s))
    ensures 1 + |FixedText(s, prec, alt)| < TempLength(prec, if m > 0 then g else -1, width)
  {
    hide DecVal, GoodGuess, Rounds, RoundsTo, Num, Den, Canonical, FixedText, TempLength;
    DenPositive(e, prec);
    RoundsQuotient(Num(e, m, prec), Den(e, prec), DecVal(s));
    if m == 0 { ZeroDigits(e, prec, s); }
    FixedFits(e, m, prec, g, s, alt, width);
  }

  // d * 10^(x - prec) is what %e prints for 2^e * m: its rounding to prec + 1 significant digits, or zero.
  ghost predicate Printed(e: int, m: nat, prec: nat, d: nat, x: int)
  {
    if m == 0 then d == 0 && x == 0 else IsSignificand(e, m, prec, d, x)
  }

  // The text of zero in exponential notation.
  function ZeroText(prec: nat, alt: bool, letter: char): string
  {
    FixedText("0", prec, alt) + [letter] + ExponentText(0)
  }

  lemma ZeroTextDenotes(prec: nat, alt: bool, letter: char)
    requires letter == 'e' || letter == 'E'
    ensures Robust(FixedText("0", prec, alt), 0, prec, None)
    ensures Written(FixedText("0", prec, alt), alt || prec > 0, letter, None)
    ensures Robust(ZeroText(prec, alt, letter), 0, prec, Some(0))
    ensures Written(ZeroText(prec, alt, letter), alt || prec > 0, letter, Some(0))
  {
    hide Robust, FixedText, ExponentText, MantissaText, MantissaShape;
    assert DecVal("0") == 0 by { assert "0"[1..] == []; }
    FixedDenotes("0", prec, alt);
    FixedWritten("0", prec, alt);
    var um := FixedText("0", prec, alt);
    WrittenPlain(um, alt || prec > 0, letter);
    WrittenExponent(um, alt || prec > 0, letter, 0);
    RobustExponent(FixedText("0", prec, alt), 0, prec, letter, 0);
  }

  lemma ZeroShape(prec: nat, alt: bool)
    ensures FixedText("0", prec, alt) == "0" + (if alt || prec > 0 then "." + Repeat('0', prec) else "")
  {
    hide Rev, Repeat;
    FixedShape("0", prec, alt);
    RevSingle('0');
    assert "0"[0..] == "0" == ['0'];
    ZeroFraction(prec);
  }

  // A zero and, if asked for, the point and prec more zeros.
  method PutZero(out: TextBuffer, prec: nat, alt: bool)
    requires out.Valid() && out.p + prec + 2 <= out.buf.Length
    modifies out, out.buf
    ensures out.Valid() && out.Text() == old(out.Text()) + FixedText("0", prec, alt)
    ensures out.p <= old(out.p) + prec + 2
  {
    hide FixedText, Repeat;
    ghost var t := out.Text();
    ZeroShape(prec, alt);
    out.Put('0');
    if alt || prec > 0 {
      out.Put('.');
      out.PutRepeated('0', prec);
      assert ((t + ['0']) + ['.']) + Repeat('0', prec) == t + ("0" + ("." + Repeat('0', prec)));
    } else {
      assert "0" + "" == "0" == ['0'];
    }
  }

  lemma {:induction false} ZeroFraction(prec: nat)
    ensures (if 1 > prec then Rev("0"[..prec]) else Repeat('0', prec - 1) + Rev("0")) == Repeat('0', prec)
  {
    RevSingle('0');
    if prec == 0 {
      assert "0"[..0] == [] && Rev([]) == [] && Repeat('0', 0) == [];
    } else {
      RepeatLength('0', prec);
      RepeatLength('0', prec - 1);
    }
  }

  method PutE(al: Allocator, t: TextBuffer, e: int, m: seq<Limb>, alt: bool, prec: nat, guess: int, letter: char)
    returns (ghost u: string, ghost d: nat, ghost x: int)
    requires !al.refused && (Val(m) > 0 ==> GoodGuess(e, Val(m), guess)) && Normalised(m)
    requires -9_000_000 < guess < 9_000_000 && (letter == 'e' || letter == 'E')
    requires t.Valid() && t.p + prec + 12 <= t.buf.Length
    modifies al, t, t.buf
    ensures t.Valid() && t.p <= old(t.p) + prec + 11
    ensures !al.refused ==> t.Text() == old(t.Text()) + u && Printed(e, Val(m), prec, d, x)
    ensures !al.refused ==> Robust(u, d, prec, Some(x)) && Written(u, alt || prec > 0, letter, Some(x))
  {
    hide Val, DecVal, GoodGuess, IsSignificand, FixedText, Robust, ScientificText, ExponentText, Canonical,
         Written;
    u, d, x := "", 0, 0;
    ZeroOrNot(m);
    ghost var before := t.Text();
    if m == [] {
      ExponentLength(0);
      PutZero(t, prec, alt);
      PutLetterExponent(t, letter, 0);
      u := ZeroText(prec, alt, letter);
      JoinThree(before, FixedText("0", prec, alt), [letter], ExponentText(0));
      ZeroTextDenotes(prec, alt, letter);
      assert |t.Text()| == t.p;
    } else {
      var digits, exponent := SignificantDigits(al, e, m, guess, prec);
      if digits.None? { return; }
      var c := digits.value;
      ghost var s := c[..prec + 1];
      ScientificDenotes(s, alt, letter, exponent);
      ScientificWritten(s, alt, letter, exponent);
      d, x, u := DecVal(s), exponent, ScientificText(s, alt, letter, exponent);
      ExponentLength(exponent);
      PointLength(s, 0, alt);
      ScientificShape(s, alt, letter, exponent);
      PutScientific(t, c, prec + 1, 0, alt, letter, exponent);
      assert |t.Text()| == t.p && |before| == old(t.p);
    }
  }

  // %e of (-1)^neg * 2^e * m: reading the text back gives x rounded to prec + 1 significant digits, prec of them after
  // the point and the exponent written.
  method FormatE(al: Allocator, neg: bool, e: int, m: seq<Limb>, f: Flags, width: nat, prec: nat, guess: int,
                 letter: char)
    returns (text: Option<string>, ghost u: string, ghost d: nat, ghost x: int)
    requires !al.refused && (Val(m) > 0 ==> GoodGuess(e, Val(m), guess)) && Normalised(m)
    requires -9_000_000 < guess < 9_000_000 && (letter == 'e' || letter == 'E')
    modifies al
    ensures text.None? <==> al.refused
    ensures text.Some? ==> Printed(e, Val(m), prec, d, x) && text.value == Laid(u, neg, f, width)
    ensures text.Some? ==> Written(u, f.alt || prec > 0, letter, Some(x))
    ensures text.Some? ==> ReadNumber(text.value) == Some(Number(neg, d, prec, Some(x)))
  {
    hide Val, GoodGuess, Robust, ReadNumber, TempLength, SignText, Padded, Printed, Written;
    u, d, x := "", 0, 0;
    var tmpLength := TempLength(prec, -1, width);
    LongEnough(prec, -1, width);
    var out := NewTemp(al, tmpLength);
    if out.None? { return None, u, d, x; }
    var t := out.value;
    SignLength(neg, f);
    PutSign(t, neg, f);
    var signLen := t.p;
    ghost var sign := t.Text();
    assert sign == SignText(neg, f.showSign, f.space);
    u, d, x := PutE(al, t, e, m, f.alt, prec, guess, letter);
    if al.refused { return None, u, d, x; }
    var padded := Finish(t, signLen, f, width, tmpLength);
    PaddedReads(u, d, prec, Some(x), neg, f.showSign, f.space, width, f.left, f.zero);
    text := Some(padded);
  }

  lemma ScientificShape(s: string, alt: bool, letter: char, x: int)
    requires s != []
    ensures ScientificText(s, alt, letter, x) == PointText(s, 0, alt) + [letter] + ExponentText(x)
  {
  }

  // What %g says about 2^e * m with p significant digits: d * 10^(x - (p - 1)) is its rounding, and u reads as that
  // number with z trailing zeros of d not written: none in the alternate form, and otherwise all that are in a
  // fraction. Exponential notation is used exactly when x < -4 or x >= p.
  ghost predicate General(u: string, e: int, m: nat, p: nat, alt: bool, letter: char, d: nat, x: int, z: nat, mant: nat,
                          frac: nat)
    requires p > 0
  {
    && Robust(u, mant, frac, GeneralExponent(p, x)) && Printed(e, m, p - 1, d, x)
    && d == T(z) * mant && frac == GeneralFraction(p, x, z)
    && (if alt then z == 0 else frac > 0 ==> mant % 10 != 0)
    && Written(u, alt || frac > 0, letter, GeneralExponent(p, x))
    && (letter in u <==> x < -4 || x >= p)
  }

  lemma GeneralOfDigits(s: string, e: int, m: nat, alt: bool, letter: char, x: int)
    requires m > 0 && Canonical(s) && s[|s| - 1] != '0' && (letter == 'e' || letter == 'E')
    requires IsSignificand(e, m, |s| - 1, DecVal(s), x)
    ensures var z := Dropped(s, alt, x);
            z < |s| && DecVal(s) >= 0 && DecVal(s[z..]) >= 0 && GeneralFraction(|s|, x, z) >= 0 &&
            General(GeneralText(s, alt, letter, x), e, m, |s|, alt, letter, DecVal(s), x, z, DecVal(s[z..]),
                    GeneralFraction(|s|, x, z))
  {
    hide DecVal, Robust, T, GeneralText, IsSignificand, Dropped, Written, GeneralFraction;
    GeneralDenotes(s, alt, letter, x);
    GeneralNotation(s, alt, letter, x);
    GeneralWritten(s, alt, letter, x);
    GeneralDropsAll(s, alt, x);
    DecBound(s);
  }

  lemma GeneralOfZero(e: int, p: nat, alt: bool, letter: char)
    requires p > 0 && (letter == 'e' || letter == 'E')
    ensures var more: nat := if alt then p - 1 else 0;
            General(FixedText("0", more, alt), e, 0, p, alt, letter, 0, 0, p - 1 - more, 0, more)
  {
    hide Robust, FixedText, Written;
    var more: nat := if alt then p - 1 else 0;
    ZeroTextDenotes(more, alt, letter);
    FixedHasNoLetter("0", more, alt, letter);
  }

  method PutG(al: Allocator, t: TextBuffer, e: int, m: seq<Limb>, alt: bool, p: nat, guess: int, letter: char)
    returns (ghost u: string, ghost d: nat, ghost x: int, ghost z: nat, ghost mant: nat,
             ghost frac: nat)
    requires !al.refused && (Val(m) > 0 ==> GoodGuess(e, Val(m), guess)) && Normalised(m)
    requires -9_000_000 < guess < 9_000_000 && (letter == 'e' || letter == 'E')
    requires p > 0 && t.Valid() && t.p + p + 11 <= t.buf.Length
    modifies al, t, t.buf
    ensures t.Valid() && t.p <= old(t.p) + p + 10
    ensures !al.refused ==> t.Text() == old(t.Text()) + u && General(u, e, Val(m), p, alt, letter, d, x, z, mant, frac)
  {
    hide Val, DecVal, GoodGuess, IsSignificand, FixedText, GeneralText, T, Dropped, General, Canonical, GeneralFraction;
    u, d, x, z, mant, frac := "", 0, 0, 0, 0, 0;
    ZeroOrNot(m);
    ghost var before := t.Text();
    if m == [] {
      var more := if alt then p - 1 else 0;
      PutZero(t, more, alt);
      u, z, frac := FixedText("0", more, alt), p - 1 - more, more;
      GeneralOfZero(e, p, alt, letter);
    } else {
      var digits, exponent := SignificantDigits(al, e, m, guess, p - 1);
      if digits.None? { return; }
      var c := digits.value;
      ghost var s := c[..p];
      GeneralOfDigits(s, e, Val(m), alt, letter, exponent);
      GeneralLength(s, alt, letter, exponent);
      d, x, z := DecVal(s), exponent, Dropped(s, alt, exponent);
      mant, frac := DecVal(s[z..]), GeneralFraction(p, x, z);
      u := GeneralText(s, alt, letter, exponent);
      PutGeneral(t, c, p, alt, letter, exponent);
      assert t.Text() == before + u;
      assert |t.Text()| == t.p && |before| == old(t.p);
    }
  }

  lemma GeneralReads(u: string, e: int, m: nat, p: nat, letter: char, d: nat, x: int, z: nat, mant: nat, frac: nat,
                     neg: bool, f: Flags, width: nat)
    requires p > 0 && General(u, e, m, p, f.alt, letter, d, x, z, mant, frac) && (letter == 'e' || letter == 'E')
    ensures ReadNumber(Laid(u, neg, f, width)) == Some(Number(neg, mant, frac, GeneralExponent(p, x)))
    ensures letter in Laid(u, neg, f, width) <==> letter in u
  {
    hide Robust, ReadNumber, SignText, T, Padded, Printed, Written, GeneralExponent, GeneralFraction;
    PaddedReads(u, mant, frac, GeneralExponent(p, x), neg, f.showSign, f.space, width, f.left, f.zero);
    PaddedLetter(u, letter, neg, f.showSign, f.space, width, f.left, f.zero);
  }

  // %g of (-1)^neg * 2^e * m with p = max(prec, 1) significant digits: the text reads back as the rounding of x to p
  // digits, without zeros at the end of a fraction unless the alternate form asks for them.
  method FormatG(al: Allocator, neg: bool, e: int, m: seq<Limb>, f: Flags, width: nat, prec: nat, guess: int,
                 letter: char)
    returns (text: Option<string>, ghost u: string, ghost d: nat, ghost x: int, ghost z: nat, ghost mant: nat,
             ghost frac: nat)
    requires !al.refused && (Val(m) > 0 ==> GoodGuess(e, Val(m), guess)) && Normalised(m)
    requires -9_000_000 < guess < 9_000_000 && (letter == 'e' || letter == 'E')
    modifies al
    ensures text.None? <==> al.refused
    ensures text.Some? ==> text.value == Laid(u, neg, f, width)
    ensures var p: nat := if prec == 0 then 1 else prec;
            text.Some? ==> General(u, e, Val(m), p, f.alt, letter, d, x, z, mant, frac) &&
                           ReadNumber(text.value) == Some(Number(neg, mant, frac, GeneralExponent(p, x)))
    ensures text.Some? ==> (letter in text.value <==> letter in u)
  {
    hide Val, GoodGuess, General, ReadNumber, TempLength, SignText, Padded, GeneralExponent;
    u, d, x, z, mant, frac := "", 0, 0, 0, 0, 0;
    var p: nat := if prec == 0 then 1 else prec;
    var tmpLength := TempLength(prec, -1, width);
    LongEnough(prec, -1, width);
    var out := NewTemp(al, tmpLength);
    if out.None? { return None, u, d, x, z, mant, frac; }
    var t := out.value;
    SignLength(neg, f);
    PutSign(t, neg, f);
    var signLen := t.p;
    ghost var sign := t.Text();
    assert sign == SignText(neg, f.showSign, f.space);
    u, d, x, z, mant, frac := PutG(al, t, e, m, f.alt, p, guess, letter);
    if al.refused { return None, u, d, x, z, mant, frac; }
    var padded := Finish(t, signLen, f, width, tmpLength);
    GeneralReads(u, e, Val(m), p, letter, d, x, z, mant, frac, neg, f, width);
    text := Some(padded);
  }

  lemma FixedHasNoLetter(s: string, prec: nat, alt: bool, letter: char)
    requires Canonical(s) && (letter == 'e' || letter == 'E')
    ensures letter !in FixedText(s, prec, alt)
  {
    hide Rev, Repeat;
    RevMembers(s, letter);
    if |s| > prec {
      RevMembers(s[prec..], letter);
      RevMembers(s[..prec], letter);
    }
    RepeatLength('0', if |s| > prec then 0 else prec - |s|);
    RepeatLength('0', 0);
    FixedShape(s, prec, alt);
  }

  // Sign and padding contain no exponent letter.
  lemma PaddedLetter(u: string, letter: char, neg: bool, showSign: bool, space: bool, width: nat, left: bool,
                     zero: bool)
    requires letter == 'e' || letter == 'E'
    ensures var sign := SignText(neg, showSign, space);
            letter in Padded(sign + u, |sign|, width, left, zero) <==> letter in u
  {
    hide Repeat;
    var sign := SignText(neg, showSign, space);
    var body := sign + u;
    var pad := if |body| < width then width - |body| else 0;
    RepeatLength(' ', pad);
    RepeatLength('0', pad);
    assert body[..|sign|] == sign && body[|sign|..] == u;
  }

  lemma GeneralLength(s: string, alt: bool, letter: char, x: int)
    requires s != [] && s[|s| - 1] != '0' && -10_000_000 < x < 10_000_000
    ensures |GeneralText(s, alt, letter, x)| <= |s| + 10
  {
    hide Rev, Repeat, ExponentText, PointText, TrailingZeros;
    TrailingZerosKeepTop(s);
    var n, zeros := |s|, if alt then 0 else TrailingZeros(s);
    if 0 <= x < n {
      var point := n - 1 - x;
      RevLength(s[point..]);
      RevLength(s[Min(zeros, point)..point]);
    } else if -4 <= x < 0 {
      RepeatLength('0', -x - 1);
      RevLength(s[zeros..]);
    } else {
      PointLength(s, zeros, alt);
      ExponentLength(x);
    }
  }
}
