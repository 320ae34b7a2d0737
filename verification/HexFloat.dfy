// The %a printer: a mantissa below 2, rounded to a number of hexadecimal digits and written exactly.
module HexFloat {
  import opened Wrappers
  import opened DecimalDigit
  import opened Powers
  import opened Limbs
  import opened Decimal
  import opened Significand
  import opened NumberText
  import opened FloatPrint

  // 16^k.
  ghost function H(k: nat): nat { Pow(16, k) }

  lemma HStep(k: nat)
    ensures H(k + 1) == 16 * H(k) && H(k) > 0 && H(0) == 1
  {
    PowPos(16, k);
  }

  // m is a multiple of 16^-k, namely z of them.
  ghost predicate Multiple(m: real, k: nat, z: int)
  {
    m * H(k) as real == z as real
  }

  // z multiples of 16^-k are nearest to m, ties to even.
  ghost predicate RoundsAt(m: real, k: nat, z: int)
  {
    Rounds(m * H(k) as real, z)
  }

  // A double's mantissa: k / 2^52 below 2; below 1 for zero and for subnormal numbers.
  ghost predicate DoubleMantissa(m: real, k: nat)
  {
    m == k as real / 4503599627370496.0 && k < 9007199254740992
  }

  lemma ThirteenDigits()
    ensures H(13) == 4503599627370496
  {
    assert Pow(16, 1) == 16 && Pow(16, 6) == 16777216;
    PowAdd(16, 6, 6); PowAdd(16, 12, 1);
  }

  // ----------------------------------------------------------------------------------- rounding

  // m * 16^k splits into w and a tail.
  ghost predicate Parts(m: real, k: nat, w: int, tail: real)
  {
    m * H(k) as real == w as real + tail
  }

  lemma PartsUp(m: real, k: nat, w: int, tail: real)
    requires Parts(m, k, w, tail)
    ensures Parts(m, k + 1, 16 * w, tail * 16.0)
  {
    hide H;
    HStep(k);
    ScaleUp(m, H(k), H(k + 1), w, tail);
  }

  lemma ScaleUp(m: real, p: nat, p1: nat, w: int, tail: real)
    requires p1 == 16 * p && m * p as real == w as real + tail
    ensures m * p1 as real == (16 * w) as real + tail * 16.0
  {
    assert m * p1 as real == 16.0 * (m * p as real);
  }

  // The rounded multiple of 16^-k and what must be added to m to get there, times 16^k.
  ghost predicate Rounded(m: real, k: nat, z: int, tail: real)
  {
    tail == z as real - m * H(k) as real && Rounds(m * H(k) as real, z)
  }

  lemma RoundParts(m: real, k: nat, w: int, tail: real)
    requires Parts(m, k, w, tail) && 0.0 <= tail < 1.0
    ensures (if w % 2 == 1 then tail >= 0.5 else tail > 0.5) ==> Rounded(m, k, w + 1, 1.0 - tail)
    ensures !(if w % 2 == 1 then tail >= 0.5 else tail > 0.5) ==> Rounded(m, k, w, -tail)
  {
  }

  // Splits the mantissa at digit precision and rounds the tail to nearest, ties to even.
  method RoundTail(m: real, precision: nat) returns (tail: real, ghost z: nat)
    requires m >= 0.0
    ensures Rounded(m, precision, z, tail)
  {
    hide Parts, Rounded, H;
    tail := m;
    var q := precision;
    var digit := 0;
    ghost var w := 0;
    PartsStart(m);
    while true
      invariant 0 <= q <= precision && tail >= 0.0 && w >= 0 && w % 2 == 0
      invariant Parts(m, precision - q, w, tail)
      decreases q
    {
      digit := tail.Floor;
      PartsDigit(m, precision - q, w, tail);
      tail := tail - digit as real;
      w := w + digit;
      if q == 0 {
        break;
      }
      PartsUp(m, precision - q, w, tail);
      tail := tail * 16.0;
      w := 16 * w;
      q := q - 1;
    }
    RoundParts(m, precision, w, tail);
    z := w;
    if (if digit % 2 == 1 then tail >= 0.5 else tail > 0.5) {
      tail := 1.0 - tail;
      z := w + 1;
    } else {
      tail := -tail;
    }
  }

  lemma PartsStart(m: real)
    ensures Parts(m, 0, 0, m)
  {
    HStep(0);
  }

  lemma PartsDigit(m: real, k: nat, w: int, tail: real)
    requires Parts(m, k, w, tail)
    ensures Parts(m, k, w + tail.Floor, tail - tail.Floor as real)
  {
  }

  // tail is t0 / 16^k.
  ghost predicate Lowered(tail: real, k: nat, t0: real)
  {
    tail * H(k) as real == t0
  }

  lemma LoweredStep(tail: real, k: nat, t0: real)
    requires Lowered(tail, k, t0)
    ensures Lowered(tail * 0.0625, k + 1, t0)
  {
    hide H;
    HStep(k);
    TailDown(tail, H(k), H(k + 1));
  }

  lemma TailDown(tail: real, p: nat, p1: nat)
    requires p1 == 16 * p
    ensures (tail * 0.0625) * p1 as real == tail * p as real
  {
    assert (tail * 0.0625) * (16.0 * p as real) == tail * p as real;
  }

  lemma LoweredSum(m: real, k: nat, z: nat, t0: real, tail: real)
    requires Rounded(m, k, z, t0) && Lowered(tail, k, t0)
    ensures Multiple(m + tail, k, z) && m + tail >= 0.0
  {
    hide H;
    HStep(k);
    ScaleDown(m, H(k) as real, z as real, tail);
    RealCompare(0.0, m + tail, H(k) as real);
  }

  lemma ScaleDown(m: real, p: real, z: real, tail: real)
    requires p > 0.0 && tail * p == z - m * p
    ensures (m + tail) * p == z
  {
  }

  // Rounds the mantissa to precision hexadecimal digits after the point, ties to even.
  method RoundMantissa(m: real, precision: nat) returns (r: real, ghost z: nat)
    requires m >= 0.0
    ensures Multiple(r, precision, z) && RoundsAt(m, precision, z) && r >= 0.0
  {
    hide Lowered, Multiple, H;
    var tail;
    tail, z := RoundTail(m, precision);
    ghost var t0 := tail;
    LoweredStart(t0, precision);
    if tail != 0.0 {
      var q := precision;
      while q > 0
        invariant 0 <= q <= precision && Lowered(tail, precision - q, t0)
      {
        LoweredStep(tail, precision - q, t0);
        tail := tail * 0.0625;
        q := q - 1;
      }
    }
    r := m + tail;
    LoweredSum(m, precision, z, t0, tail);
  }

  lemma LoweredStart(t0: real, k: nat)
    ensures Lowered(t0, 0, t0) && Lowered(0.0, k, 0.0)
  {
    HStep(0);
  }

  // ----------------------------------------------------------------------------------- reading

  predicate IsHexDigit(c: char)
  {
    '0' <= c <= '9' || 'a' <= c <= 'f' || 'A' <= c <= 'F'
  }

  function HexDigit(c: char): nat
    requires IsHexDigit(c)
  {
    if c <= '9' then c as int - 48 else if c <= 'F' then c as int - 55 else c as int - 87
  }

  function HexChar(d: nat, letter: char): char
    requires d < 16 && (letter == 'a' || letter == 'A')
  {
    if d < 10 then (d + 48) as char else (letter as int - 10 + d) as char
  }

  function ReadHexMantissa(t: string, mant: nat, frac: nat, point: bool): (nat, nat, string)
  {
    if t != [] && IsHexDigit(t[0]) then
      ReadHexMantissa(t[1..], 16 * mant + HexDigit(t[0]), if point then frac + 1 else frac, point)
    else if t != [] && t[0] == '.' && !point then
      ReadHexMantissa(t[1..], mant, frac, true)
    else
      (mant, frac, t)
  }

  // mant * 16^-frac * 2^exp2.
  datatype HexNumber = HexNumber(neg: bool, mant: nat, frac: nat, exp2: int)

  function ReadHexUnsigned(t: string): Option<(nat, nat, int)>
  {
    if t == [] || !IsHexDigit(t[0]) then None else
      var (mant, frac, rest) := ReadHexMantissa(t, 0, 0, false);
      if |rest| >= 3 && (rest[0] == 'p' || rest[0] == 'P') && (rest[1] == '+' || rest[1] == '-') && IsDigit(rest[2])
      then
        var (n, rest') := ReadDigits(rest[2..], 0);
        if SkipSpaces(rest') == [] then Some((mant, frac, if rest[1] == '-' then 0 - n else n)) else None
      else None
  }

  // Leading spaces, an optional sign, 0x, a hexadecimal number, a binary exponent, trailing spaces.
  function ReadHexNumber(t: string): Option<HexNumber>
  {
    var u := SkipSpaces(t);
    var signed := u != [] && (u[0] == '-' || u[0] == '+');
    var v := if signed then u[1..] else u;
    if |v| >= 2 && v[0] == '0' && (v[1] == 'x' || v[1] == 'X') then
      match ReadHexUnsigned(v[2..])
      case None => None
      case Some((mant, frac, exp2)) => Some(HexNumber(signed && u[0] == '-', mant, frac, exp2))
    else None
  }

  // After the prefix u the reader has seen the digits of mant, frac of them after the point.
  ghost predicate HexPrefix(u: string, mant: nat, frac: nat, point: bool)
  {
    && u != [] && IsHexDigit(u[0])
    && forall rest :: ReadHexMantissa(u + rest, 0, 0, false) == ReadHexMantissa(rest, mant, frac, point)
  }

  lemma HexPrefixStart(d: nat, letter: char)
    requires d < 16 && (letter == 'a' || letter == 'A')
    ensures HexPrefix([HexChar(d, letter)], d, 0, false)
  {
    forall rest
      ensures ReadHexMantissa([HexChar(d, letter)] + rest, 0, 0, false) == ReadHexMantissa(rest, d, 0, false)
    {
      assert ([HexChar(d, letter)] + rest)[1..] == rest;
    }
  }

  lemma HexPrefixPoint(u: string, mant: nat, frac: nat)
    requires HexPrefix(u, mant, frac, false)
    ensures HexPrefix(u + ['.'], mant, frac, true)
  {
    forall rest
      ensures ReadHexMantissa((u + ['.']) + rest, 0, 0, false) == ReadHexMantissa(rest, mant, frac, true)
    {
      assert (u + ['.']) + rest == u + (['.'] + rest);
      assert (['.'] + rest)[1..] == rest;
    }
  }

  lemma HexPrefixDigit(u: string, mant: nat, frac: nat, d: nat, letter: char)
    requires HexPrefix(u, mant, frac, true) && d < 16 && (letter == 'a' || letter == 'A')
    ensures HexPrefix(u + [HexChar(d, letter)], 16 * mant + d, frac + 1, true)
  {
    var c := HexChar(d, letter);
    forall rest
      ensures ReadHexMantissa((u + [c]) + rest, 0, 0, false) == ReadHexMantissa(rest, 16 * mant + d, frac + 1, true)
    {
      assert (u + [c]) + rest == u + ([c] + rest);
      assert ([c] + rest)[1..] == rest;
    }
  }

  // ----------------------------------------------------------------------------------- writing

  // A tail below one of a multiple of 16^-k has at most k - i digits left after the first i.
  lemma TailEnds(m: real, k: nat, z: int, w: int, tail: real)
    requires Multiple(m, k, z) && Parts(m, k, w, tail) && 0.0 <= tail < 1.0
    ensures tail == 0.0 && w == z
  {
    hide H;
    assert (z - w) as real == tail;
  }

  // A hexadecimal digit in the case of letter.
  ghost predicate IsDigitOf(c: char, letter: char)
  {
    IsDigit(c) || 0 <= c as int - letter as int < 6
  }

  ghost predicate HexDigits(s: string, letter: char)
  {
    forall c :: c in s ==> IsDigitOf(c, letter)
  }

  // One digit and, exactly if point is set, a decimal point and frac more digits.
  ghost predicate HexWritten(u: string, frac: nat, point: bool, letter: char)
  {
    && |u| == (if point then frac + 2 else 1) && IsDigitOf(u[0], letter)
    && (point ==> u[1] == '.' && HexDigits(u[2..], letter))
  }

  lemma CharOfDigit(d: nat, letter: char)
    requires d < 16 && (letter == 'a' || letter == 'A')
    ensures IsDigitOf(HexChar(d, letter), letter)
  {
  }

  // n zero digits after the frac digits already written.
  method PutHexZeros(out: TextBuffer, m: real, n: nat, letter: char, ghost frac: nat, ghost mant0: nat,
                     ghost u0: string)
    returns (ghost u: string, ghost mant: nat)
    requires Parts(m, frac, mant0, 0.0) && HexPrefix(u0, mant0, frac, true) && (letter == 'a' || letter == 'A')
    requires out.Valid() && out.p + n <= out.buf.Length
    modifies out, out.buf
    ensures out.Valid() && out.p == old(out.p) + n && out.Text() == old(out.Text()) + u
    ensures HexPrefix(u0 + u, mant, frac + n, true) && Parts(m, frac + n, mant, 0.0) && (n == 0 ==> mant == mant0)
    ensures |u| == n && HexDigits(u, letter)
  {
    hide HexPrefix, Parts, H;
    var precision := n;
    u, mant := "", mant0;
    assert u0 + u == u0;
    assert out.Text() == old(out.Text()) + u;
    while precision > 0
      invariant 0 <= precision <= n && Parts(m, frac + (n - precision), mant, 0.0)
      invariant out.Valid() && out.p == old(out.p) + (n - precision) && out.Text() == old(out.Text()) + u
      invariant |u| == n - precision && HexDigits(u, letter)
      invariant HexPrefix(u0 + u, mant, frac + (n - precision), true) && (n == 0 ==> mant == mant0)
    {
      PartsUp(m, frac + (n - precision), mant, 0.0);
      HexPrefixDigit(u0 + u, mant, frac + (n - precision), 0, letter);
      assert u0 + (u + ['0']) == (u0 + u) + [HexChar(0, letter)];
      out.Put('0');
      u, mant := u + ['0'], 16 * mant;
      precision := precision - 1;
    }
  }

  // The next digit is multiplied out and cut off; the text with it reads as it should.
  lemma DigitStep(m: real, frac: nat, mant: nat, mantissa: real, u0: string, u: string, letter: char)
    requires 0.0 < mantissa < 1.0 && Parts(m, frac, mant, mantissa) && HexPrefix(u0 + u, mant, frac, true)
    requires letter == 'a' || letter == 'A'
    ensures var digit := (mantissa * 16.0).Floor;
            && 0 <= digit < 16 && 0.0 <= mantissa * 16.0 - digit as real < 1.0
            && Parts(m, frac + 1, 16 * mant + digit, mantissa * 16.0 - digit as real)
            && HexPrefix(u0 + (u + [HexChar(digit, letter)]), 16 * mant + digit, frac + 1, true)
            && (mantissa * 16.0 - digit as real == 0.0 ==> (16 * mant + digit) % 16 != 0)
  {
    hide HexPrefix, Parts, HexChar;
    PartsUp(m, frac, mant, mantissa);
    PartsDigit(m, frac + 1, 16 * mant, mantissa * 16.0);
    var digit := (mantissa * 16.0).Floor;
    HexPrefixDigit(u0 + u, mant, frac, digit, letter);
    assert u0 + (u + [HexChar(digit, letter)]) == (u0 + u) + [HexChar(digit, letter)];
  }

  // The digits of m after the point, each multiplied out and cut off, until nothing is left; then zeros up
  // to the precision. The ghost results are the text and what it reads as.
  method PutFractionDigits(out: TextBuffer, m: real, m0: real, precision0: nat, letter: char,
                           ghost k: nat, ghost z: nat, ghost d0: nat, ghost u0: string)
    returns (ghost u: string, ghost mant: nat, ghost frac: nat)
    requires Multiple(m, k, z) && Parts(m, 0, d0, m0) && 0.0 <= m0 < 1.0 && HexPrefix(u0, d0, 0, true)
    requires letter == 'a' || letter == 'A'
    requires out.Valid() && out.p + (if k < precision0 then precision0 else k) <= out.buf.Length
    modifies out, out.buf
    ensures out.Valid() && out.Text() == old(out.Text()) + u && HexPrefix(u0 + u, mant, frac, true)
    ensures out.p <= old(out.p) + (if k < precision0 then precision0 else k)
    ensures |u| == frac && HexDigits(u, letter) && (m0 > 0.0 ==> frac > 0)
    ensures Multiple(m, frac, mant) && frac <= (if k < precision0 then precision0 else k) && precision0 <= frac
    ensures frac > precision0 ==> mant % 16 != 0
  {
    hide HexPrefix, Multiple, Parts, H, HexChar, IsDigitOf;
    var mantissa, precision := m0, precision0;
    u, mant, frac := "", d0, 0;
    assert u0 + u == u0;
    ghost var last := 0;
    assert out.Text() == old(out.Text()) + u;
    while mantissa > 0.0
      invariant 0.0 <= mantissa < 1.0 && frac <= k && Parts(m, frac, mant, mantissa)
      invariant precision == if frac < precision0 then precision0 - frac else 0
      invariant out.Valid() && out.p == old(out.p) + frac && out.Text() == old(out.Text()) + u
      invariant HexPrefix(u0 + u, mant, frac, true) && |u| == frac && HexDigits(u, letter)
      invariant frac == 0 ==> mantissa == m0
      invariant frac > precision0 && mantissa == 0.0 ==> mant % 16 != 0
      decreases k - frac
    {
      if frac == k {
        TailEnds(m, k, z, mant, mantissa);
        assert false;
      }
      DigitStep(m, frac, mant, mantissa, u0, u, letter);
      mantissa := mantissa * 16.0;
      var digit := mantissa.Floor;
      mantissa := mantissa - digit as real;
      CharOfDigit(digit, letter);
      out.Put(HexChar(digit, letter));
      u, mant, frac := u + [HexChar(digit, letter)], 16 * mant + digit, frac + 1;
      if precision > 0 {
        precision := precision - 1;
      }
    }
    ghost var more: string;
    more, mant := PutHexZeros(out, m, precision, letter, frac, mant, u0 + u);
    assert (u0 + u) + more == u0 + (u + more);
    u, frac := u + more, frac + precision;
    PartsExact(m, frac, mant);
  }

  lemma PartsExact(m: real, k: nat, w: int)
    requires Parts(m, k, w, 0.0)
    ensures Multiple(m, k, w)
  {
  }

  // u reads as mant * 16^-frac.
  ghost predicate HexMantissaText(u: string, mant: nat, frac: nat)
  {
    exists point :: HexPrefix(u, mant, frac, point)
  }

  // The mantissa, digit by digit: with precision digits after the point, or more if nothing was rounded off.
  method PutHexMantissa(out: TextBuffer, m: real, precision: nat, alt: bool, letter: char, ghost k: nat, ghost z: nat)
    returns (ghost u: string, ghost mant: nat, ghost frac: nat)
    requires 0.0 <= m < 10.0 && Multiple(m, k, z) && (letter == 'a' || letter == 'A')
    requires out.Valid() && out.p + 2 + (if k < precision then precision else k) <= out.buf.Length
    modifies out, out.buf
    ensures out.Valid() && out.Text() == old(out.Text()) + u && HexMantissaText(u, mant, frac)
    ensures HexWritten(u, frac, alt || frac > 0, letter)
    ensures out.p <= old(out.p) + 2 + (if k < precision then precision else k)
    ensures Multiple(m, frac, mant) && frac <= (if k < precision then precision else k) && precision <= frac
    ensures frac > precision ==> mant % 16 != 0
  {
    hide HexPrefix, Multiple, Parts, H, HexChar, IsDigitOf, HexDigits;
    PartsStart(m);
    PartsDigit(m, 0, 0, m);
    var digit := m.Floor;
    CharOfDigit(digit, letter);
    var mantissa := m - digit as real;
    HexPrefixStart(digit, letter);
    ghost var t := out.Text();
    out.Put(HexChar(digit, letter));
    u, mant, frac := [HexChar(digit, letter)], digit, 0;
    if alt || mantissa > 0.0 || precision > 0 {
      out.Put('.');
      HexPrefixPoint(u, digit, 0);
      ghost var u0, v := u + ['.'], "";
      v, mant, frac := PutFractionDigits(out, m, mantissa, precision, letter, k, z, digit, u0);
      u := u0 + v;
      assert ((t + [HexChar(digit, letter)]) + ['.']) + v == t + u;
      assert HexPrefix(u, mant, frac, true);
      assert u[2..] == v;
    } else {
      PartsExact(m, 0, digit);
      assert HexPrefix(u, mant, frac, false);
    }
  }

  // The format "%+d".
  function SignedText(x: int): string
  {
    (if x < 0 then "-" else "+") + NatText(if x < 0 then -x else x)
  }

  lemma HexUnsignedReads(u: string, mant: nat, frac: nat, p: char, x: int, zeros: nat, trail: nat)
    requires HexMantissaText(u, mant, frac) && (p == 'p' || p == 'P')
    ensures ReadHexUnsigned(Repeat('0', zeros) + (u + [p] + SignedText(x) + Repeat(' ', trail)))
         == Some((mant, frac, x))
  {
    hide NatText, T, ReadHexMantissa, Repeat;
    var n := if x < 0 then -x else x;
    var spaces := Repeat(' ', trail);
    var rest := [p] + SignedText(x) + spaces;
    var t := u + [p] + SignedText(x) + spaces;
    assert t == u + rest;
    NatTextDigits(n);
    assert rest[2..] == NatText(n) + spaces;
    assert IsDigit(rest[2]) by { assert rest[2] == NatText(n)[0]; }
    ReadDigitsAppend(NatText(n), n, spaces, 0);
    RepeatLength(' ', trail);
    assert ReadDigits(spaces, n) == (n, spaces);
    assert 0 * T(|NatText(n)|) + n == n;
    SkipAll(trail);
    var point :| HexPrefix(u, mant, frac, point);
    HexEnds(rest, mant, frac, point);
    assert ReadHexMantissa(t, 0, 0, false) == (mant, frac, rest);
    HexZeros(zeros, t);
    RepeatLength('0', zeros);
    assert zeros == 0 ==> Repeat('0', zeros) + t == t;
  }

  lemma HexEnds(rest: string, mant: nat, frac: nat, point: bool)
    requires rest != [] && (rest[0] == 'p' || rest[0] == 'P')
    ensures ReadHexMantissa(rest, mant, frac, point) == (mant, frac, rest)
  {
  }

  lemma {:induction false} HexZeros(n: nat, rest: string)
    ensures ReadHexMantissa(Repeat('0', n) + rest, 0, 0, false) == ReadHexMantissa(rest, 0, 0, false)
  {
    if n == 0 {
      assert Repeat('0', 0) + rest == rest;
    } else {
      var t := Repeat('0', n - 1) + rest;
      assert Repeat('0', n) + rest == ['0'] + t;
      assert (['0'] + t)[1..] == t;
      HexZeros(n - 1, rest);
    }
  }

  // A padded hexadecimal number, the padding zeros after the 0x, reads as its sign and value.
  lemma HexPaddedReads(u: string, mant: nat, frac: nat, x: int, neg: bool, f: Flags, width: nat, letter: char)
    requires HexMantissaText(u, mant, frac) && (letter == 'a' || letter == 'A')
    ensures var pre := SignText(neg, f.showSign, f.space) + ['0', HexMark(letter)];
            ReadHexNumber(Padded(pre + (u + [PowerMark(letter)] + SignedText(x)), |pre|, width, f.left, f.zero))
            == Some(HexNumber(neg, mant, frac, x))
  {
    hide ReadHexUnsigned, SkipSpaces, Repeat, Padded, SignedText, HexMantissaText;
    var sign, mark := SignText(neg, f.showSign, f.space), ['0', HexMark(letter)];
    var body := u + [PowerMark(letter)] + SignedText(x);
    var lead, zeros, trail := PaddedShape(sign + mark, body, width, f.left, f.zero);
    var hex := Repeat('0', zeros) + (body + Repeat(' ', trail));
    HexUnsignedReads(u, mant, frac, PowerMark(letter), x, zeros, trail);
    var inner := mark + hex;
    assert (sign + mark) + hex == sign + inner;
    assert inner[2..] == hex;
    if sign == " " {
      SpaceMoves(lead, inner);
      SkipSome(lead + 1, inner);
    } else {
      SkipSome(lead, sign + inner);
      assert sign != "" ==> (sign + inner)[1..] == inner;
      assert sign == "" ==> sign + inner == inner;
    }
  }

  function HexMark(letter: char): char { if letter == 'a' then 'x' else 'X' }
  function PowerMark(letter: char): char { if letter == 'a' then 'p' else 'P' }

  // A sign, and then digits without a zero in front that could be left out.
  ghost predicate SignedShape(t: string, x: int)
  {
    && |t| >= 2 && t[0] == (if x < 0 then '-' else '+') && AllDigits(t[1..])
    && (t[1] == '0' ==> |t| == 2)
  }

  lemma SignedTextShape(x: int)
    ensures SignedShape(SignedText(x), x)
  {
    hide NatText;
    var n := if x < 0 then -x else x;
    NatTextTop(n);
    NatTextDigits(n);
    if n < 10 { NatTextOne(n); }
    assert SignedText(x)[1..] == NatText(n);
  }

  lemma SignedLength(x: int)
    requires -10_000 < x < 10_000
    ensures |SignedText(x)| <= 5
  {
    hide NatText;
    assert T(4) == 10_000;
    NatTextLength(if x < 0 then -x else x, 4);
  }

  function HexTempLength(prec: nat, width: nat): nat
  {
    var a := if 14 < prec then prec else 14;
    (if a + 12 < width then width else a + 12) + 1
  }

  // What %a says: with a precision, the nearest multiple of 16^-precision to the mantissa m, ties to even;
  // without one the mantissa itself, in as few digits as possible.
  ghost predicate HexResult(m: real, hasPrec: bool, prec: nat, mant: nat, frac: nat)
  {
    if hasPrec then
      frac == prec && RoundsAt(m, prec, mant)
    else
      Multiple(m, frac, mant) && (frac > 0 ==> mant % 16 != 0)
  }

  // More than thirteen digits lose nothing.
  lemma ExactIsRounded(m: real, prec: nat, mant: nat)
    requires Multiple(m, prec, mant)
    ensures RoundsAt(m, prec, mant)
  {
  }

  lemma SmallMantissa(m: real, z: nat, prec: nat, r: real)
    requires 0.0 <= m < 2.0 && RoundsAt(m, prec, z) && Multiple(r, prec, z)
    ensures r < 10.0
  {
    hide H;
    HStep(prec);
    SmallRounded(m, m * H(prec) as real, z as real, H(prec) as real, r);
  }

  lemma SmallRounded(m: real, y: real, z: real, p: real, r: real)
    requires p >= 1.0 && y == m * p && m < 2.0 && z <= y + 0.5 && r * p == z
    ensures r < 10.0
  {
    RealCompare(m, 2.0, p);
    RealCompare(10.0, r, p);
  }

  // The mantissa, rounded if a precision below fourteen asks for it, and the exponent.
  method PutA(t: TextBuffer, m: real, ghost k: nat, x: int, alt: bool, hasPrec: bool, prec0: nat, letter: char)
    returns (ghost u: string, ghost mant: nat, ghost frac: nat)
    requires DoubleMantissa(m, k) && -10_000 < x < 10_000 && (letter == 'a' || letter == 'A')
    requires t.Valid() && t.p + 8 + (if hasPrec && prec0 > 14 then prec0 else 14) <= t.buf.Length
    modifies t, t.buf
    ensures t.Valid() && t.p <= old(t.p) + 8 + (if hasPrec && prec0 > 14 then prec0 else 14)
    ensures t.Text() == old(t.Text()) + (u + [PowerMark(letter)] + SignedText(x))
    ensures HexMantissaText(u, mant, frac) && HexResult(m, hasPrec, prec0, mant, frac)
    ensures HexWritten(u, frac, alt || frac > 0, letter)
  {
    hide HexWritten, HexMantissaText, Multiple, RoundsAt, H, SignedText;
    var prec := if hasPrec then prec0 else 0;
    var mantissa := m;
    ghost var digits, z, before := 13, k, t.Text();
    ExactDigits(m, k);
    if hasPrec && prec < 14 {
      mantissa, z := RoundMantissa(m, prec);
      digits := prec;
      SmallMantissa(m, z, prec, mantissa);
    }
    u, mant, frac := PutHexMantissa(t, mantissa, prec, alt, letter, digits, z);
    t.Put(PowerMark(letter));
    SignedLength(x);
    t.PutString(SignedText(x));
    JoinThree(before, u, [PowerMark(letter)], SignedText(x));
    ResultFollows(m, hasPrec, prec0, mantissa, z, mant, frac);
  }

  // %a of (-1)^neg * m * 2^x for a double's mantissa m = k / 2^52, subnormal numbers included. None when memory is
  // refused.
  method FormatA(al: Allocator, neg: bool, m: real, ghost k: nat, x: int, f: Flags, width: nat,
                 hasPrec: bool, prec0: nat, letter: char)
    returns (text: Option<string>, ghost u: string, ghost mant: nat, ghost frac: nat, ghost exponent: string)
    requires !al.refused && DoubleMantissa(m, k) && -10_000 < x < 10_000 && (letter == 'a' || letter == 'A')
    modifies al
    ensures text.None? <==> al.refused
    ensures var pre := SignText(neg, f.showSign, f.space) + (if letter == 'a' then "0x" else "0X");
            var body := pre + (u + (if letter == 'a' then "p" else "P") + exponent);
            text.Some? ==> text.value == Padded(body, |pre|, width, f.left, f.zero) && SignedShape(exponent, x)
    ensures text.Some? ==> HexResult(m, hasPrec, prec0, mant, frac) && HexWritten(u, frac, f.alt || frac > 0, letter)
    ensures text.Some? ==> ReadHexNumber(text.value) == Some(HexNumber(neg, mant, frac, x))
  {
    hide HexWritten, HexMantissaText, HexResult, DoubleMantissa, ReadHexNumber, SignText, SignedText, Padded,
         SignedShape;
    u, mant, frac, exponent := "", 0, 0, SignedText(x);
    SignedTextShape(x);
    var tmpLength := HexTempLength(if hasPrec then prec0 else 0, width);
    var out := NewTemp(al, tmpLength);
    if out.None? { return None, u, mant, frac, exponent; }
    var t := out.value;
    SignLength(neg, f);
    PutSign(t, neg, f);
    ghost var sign := t.Text();
    assert sign == SignText(neg, f.showSign, f.space);
    t.Put('0');
    t.Put(HexMark(letter));
    var padPos := t.p;
    ghost var pre := sign + ['0', HexMark(letter)];
    assert t.Text() == pre && |pre| == padPos;
    u, mant, frac := PutA(t, m, k, x, f.alt, hasPrec, prec0, letter);
    var padded := Finish(t, padPos, f, width, tmpLength);
    HexPaddedReads(u, mant, frac, x, neg, f, width, letter);
    text := Some(padded);
  }

  lemma ExactDigits(m: real, k: nat)
    requires DoubleMantissa(m, k)
    ensures Multiple(m, 13, k) && 0.0 <= m < 2.0
  {
    ThirteenDigits();
  }

  lemma ResultFollows(m: real, hasPrec: bool, prec: nat, r: real, z: nat, mant: nat, frac: nat)
    requires Multiple(r, frac, mant)
    requires hasPrec && prec < 14 ==> RoundsAt(m, prec, z) && Multiple(r, prec, z) && frac == prec
    requires !(hasPrec && prec < 14) ==> r == m
    requires hasPrec ==> frac == prec
    requires !hasPrec && frac > 0 ==> mant % 16 != 0
    ensures HexResult(m, hasPrec, prec, mant, frac)
  {
    hide H, RoundsAt;
    if hasPrec && prec >= 14 { ExactIsRounded(m, prec, mant); }
    if hasPrec && prec < 14 { assert z == mant; }
  }
}
