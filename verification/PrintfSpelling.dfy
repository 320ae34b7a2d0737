// Directives as they are spelled: a grammar of their own, against which the parser's reading is proved.
module PrintfSpelling {
  import opened Wrappers
  import opened DecimalDigit
  import opened Xsize
  import opened NumberText
  import opened PrintfFormat

  // ------------------------------------------------------------------------------------ types

  datatype Family = NoArgument | Signed | Unsigned | Floating | Character | Text | Pointer | Count

  // The widths of C's types: int and double are plain.
  datatype Width = CharWidth | ShortWidth | Plain | Long | LongLong

  function FamilyOf(t: ArgType): Family
  {
    match t
    case TYPE_NONE => NoArgument
    case TYPE_SCHAR => Signed case TYPE_SHORT => Signed case TYPE_INT => Signed case TYPE_LONGINT => Signed
    case TYPE_LONGLONGINT => Signed
    case TYPE_UCHAR => Unsigned case TYPE_USHORT => Unsigned case TYPE_UINT => Unsigned case TYPE_ULONGINT => Unsigned
    case TYPE_ULONGLONGINT => Unsigned
    case TYPE_DOUBLE => Floating case TYPE_LONGDOUBLE => Floating
    case TYPE_CHAR => Character case TYPE_WIDE_CHAR => Character
    case TYPE_STRING => Text case TYPE_WIDE_STRING => Text
    case TYPE_POINTER => Pointer
    case TYPE_COUNT_SCHAR_POINTER => Count case TYPE_COUNT_SHORT_POINTER => Count case TYPE_COUNT_INT_POINTER => Count
    case TYPE_COUNT_LONGINT_POINTER => Count case TYPE_COUNT_LONGLONGINT_POINTER => Count
  }

  function WidthOf(t: ArgType): Width
  {
    match t
    case TYPE_SCHAR => CharWidth case TYPE_UCHAR => CharWidth case TYPE_COUNT_SCHAR_POINTER => CharWidth
    case TYPE_SHORT => ShortWidth case TYPE_USHORT => ShortWidth case TYPE_COUNT_SHORT_POINTER => ShortWidth
    case TYPE_LONGINT => Long case TYPE_ULONGINT => Long case TYPE_COUNT_LONGINT_POINTER => Long
    case TYPE_WIDE_CHAR => Long case TYPE_WIDE_STRING => Long
    case TYPE_LONGLONGINT => LongLong case TYPE_ULONGLONGINT => LongLong case TYPE_LONGDOUBLE => LongLong
    case TYPE_COUNT_LONGLONGINT_POINTER => LongLong
    case _ => Plain
  }

  predicate SizeChar(c: char) { c == 'h' || c == 'L' || c == 'l' || c == 'j' || c == 'z' || c == 'Z' || c == 't' }

  predicate Sizes(s: string) { forall i :: 0 <= i < |s| ==> SizeChar(s[i]) }

  // The characters of s that stand for a long type.
  function Longs(s: string): nat
  {
    multiset(s)['l'] + multiset(s)['j'] + multiset(s)['z'] + multiset(s)['Z'] + multiset(s)['t']
  }

  predicate IntegerConversion(c: char) { c in "diouxXn" }

  predicate FloatConversion(c: char)
  {
    c == 'f' || c == 'F' || c == 'e' || c == 'E' || c == 'g' || c == 'G' || c == 'a' || c == 'A'
  }

  predicate TextConversion(c: char) { c == 'c' || c == 'C' || c == 's' || c == 'S' }

  // What sizes in front of an integer conversion say: nothing is int, h short, hh char, l and the like long, two of
  // them or L long long.
  function IntegerWidth(s: string): Width
  {
    if 'L' in s || Longs(s) >= 2 then LongLong
    else if Longs(s) == 1 then Long
    else if multiset(s)['h'] >= 2 then CharWidth
    else if multiset(s)['h'] == 1 then ShortWidth
    else Plain
  }

  // Conversion c with sizes s takes an argument of type t.
  ghost predicate Takes(c: char, s: string, t: ArgType)
  {
    if c == 'd' || c == 'i' then FamilyOf(t) == Signed && WidthOf(t) == IntegerWidth(s)
    else if c == 'o' || c == 'u' || c == 'x' || c == 'X' then FamilyOf(t) == Unsigned && WidthOf(t) == IntegerWidth(s)
    else if c == 'n' then FamilyOf(t) == Count && WidthOf(t) == IntegerWidth(s)
    else if FloatConversion(c) then t == if 'L' in s || Longs(s) >= 2 then TYPE_LONGDOUBLE else TYPE_DOUBLE
    else if c == 'c' || c == 'C' then t == if c == 'C' || Longs(s) >= 1 then TYPE_WIDE_CHAR else TYPE_CHAR
    else if c == 's' || c == 'S' then t == if c == 'S' || Longs(s) >= 1 then TYPE_WIDE_STRING else TYPE_STRING
    else if c == 'p' then t == TYPE_POINTER
    else c == '%' && t == TYPE_NONE
  }

  lemma CountStep(front: string, c: char)
    requires SizeChar(c)
    ensures multiset(front + [c])['h'] == multiset(front)['h'] + if c == 'h' then 1 else 0
    ensures 'L' in front + [c] <==> 'L' in front || c == 'L'
    ensures Longs(front + [c]) == Longs(front) + if c == 'h' || c == 'L' then 0 else 1
  {
    assert multiset(front + [c]) == multiset(front) + multiset{c};
  }

  lemma {:induction false} SizesCount(s: string)
    requires Sizes(s)
    ensures var n := SizesIn(s);
            && (n % 2 == 1 <==> multiset(s)['h'] >= 1) && ((n / 2) % 2 == 1 <==> multiset(s)['h'] >= 2)
            && ((n / 4) % 2 == 1 <==> 'L' in s) && n / 8 == Longs(s)
  {
    if s != "" {
      var front, c := s[..|s| - 1], s[|s| - 1];
      assert s == front + [c];
      SizesCount(front);
      CountStep(front, c);
      SizeBits(SizesIn(front), c);
      hide AddSize, Longs;
    }
  }

  lemma SizeBits(n: nat, c: char)
    ensures var m := AddSize(n, c);
            && (m % 2 == 1 <==> n % 2 == 1 || c == 'h')
            && ((m / 2) % 2 == 1 <==> (n / 2) % 2 == 1 || (c == 'h' && n % 2 == 1))
            && ((m / 4) % 2 == 1 <==> (n / 4) % 2 == 1 || c == 'L')
            && m / 8 == n / 8 + if c == 'h' || c == 'L' then 0 else 1
  {
    var q, h := n / 8, n % 2;
    var hh, l := (n / 2) % 2, (n / 4) % 2;
    BitsOf(n);
    Bits(q, l, hh, h, n);
    if c == 'h' {
      if h == 0 { Bits(q, l, hh, 1, n + 1); } else if hh == 0 { Bits(q, l, 1, h, n + 2); }
    } else if c == 'L' {
      if l == 0 { Bits(q, 1, hh, h, n + 4); }
    } else {
      Bits(q + 1, l, hh, h, n + 8);
    }
  }

  lemma Bits(q: nat, l: nat, hh: nat, h: nat, n: nat)
    requires l < 2 && hh < 2 && h < 2 && n == 8 * q + 4 * l + 2 * hh + h
    ensures n % 2 == h && (n / 2) % 2 == hh && (n / 4) % 2 == l && n / 8 == q
  {
    assert n / 2 == 4 * q + 2 * l + hh && n / 4 == 2 * q + l;
  }

  lemma Halved(n: nat)
    ensures n == 2 * (n / 2) + n % 2
  {
  }

  lemma BitsOf(n: nat)
    ensures n == 8 * (n / 8) + 4 * ((n / 4) % 2) + 2 * ((n / 2) % 2) + n % 2
  {
    var a := n / 2;
    var b := a / 2;
    Halved(n);
    Halved(a);
    Halved(b);
    assert n / 4 == b && n / 8 == b / 2;
  }

  lemma Eighths(n: nat)
    ensures n >= 16 <==> n / 8 >= 2
    ensures n >= 8 <==> n / 8 >= 1
  {
  }

  // Whatever the types of the widths are, the one of the right width is chosen.
  lemma BySizeIs(s: string, longLong: ArgType, long: ArgType, charType: ArgType, short: ArgType, plain: ArgType)
    requires Sizes(s)
    ensures BySize(SizesIn(s), longLong, long, charType, short, plain) ==
            match IntegerWidth(s) {
              case LongLong => longLong
              case Long => long
              case CharWidth => charType
              case ShortWidth => short
              case Plain => plain
            }
  {
    SizesCount(s);
    hide SizesIn, Longs, Sizes;
    Eighths(SizesIn(s));
  }

  lemma SignedTypes(c: char, s: string, t: ArgType)
    requires Sizes(s) && (c == 'd' || c == 'i')
    ensures TypeOf(c, SizesIn(s)) == Some(t) <==> Takes(c, s, t)
  {
    BySizeIs(s, TYPE_LONGLONGINT, TYPE_LONGINT, TYPE_SCHAR, TYPE_SHORT, TYPE_INT);
    hide SizesIn, BySize, IntegerWidth, Sizes;
  }

  lemma UnsignedTypes(c: char, s: string, t: ArgType)
    requires Sizes(s) && (c == 'o' || c == 'u' || c == 'x' || c == 'X')
    ensures TypeOf(c, SizesIn(s)) == Some(t) <==> Takes(c, s, t)
  {
    BySizeIs(s, TYPE_ULONGLONGINT, TYPE_ULONGINT, TYPE_UCHAR, TYPE_USHORT, TYPE_UINT);
    hide SizesIn, BySize, IntegerWidth, Sizes;
  }

  lemma CountTypes(c: char, s: string, t: ArgType)
    requires Sizes(s) && (c == 'n')
    ensures TypeOf(c, SizesIn(s)) == Some(t) <==> Takes(c, s, t)
  {
    BySizeIs(s, TYPE_COUNT_LONGLONGINT_POINTER, TYPE_COUNT_LONGINT_POINTER, TYPE_COUNT_SCHAR_POINTER,
             TYPE_COUNT_SHORT_POINTER, TYPE_COUNT_INT_POINTER);
    hide SizesIn, BySize, IntegerWidth, Sizes;
  }

  lemma IntegerTypes(c: char, s: string, t: ArgType)
    requires Sizes(s) && IntegerConversion(c)
    ensures TypeOf(c, SizesIn(s)) == Some(t) <==> Takes(c, s, t)
  {
    hide TypeOf, Takes, SizesIn, Sizes;
    if c == 'd' || c == 'i' {
      SignedTypes(c, s, t);
    } else if c == 'n' {
      CountTypes(c, s, t);
    } else {
      UnsignedTypes(c, s, t);
    }
  }

  lemma LongFacts(s: string)
    requires Sizes(s)
    ensures SizesIn(s) >= 8 <==> Longs(s) >= 1
    ensures SizesIn(s) >= 16 || (SizesIn(s) / 4) % 2 == 1 <==> 'L' in s || Longs(s) >= 2
  {
    SizesCount(s);
    hide SizesIn, Longs, Sizes;
    Eighths(SizesIn(s));
  }

  lemma FloatTypes(c: char, s: string, t: ArgType)
    requires Sizes(s) && FloatConversion(c)
    ensures TypeOf(c, SizesIn(s)) == Some(t) <==> Takes(c, s, t)
  {
    hide SizesIn, Longs, Sizes;
    LongFacts(s);
  }

  lemma TextTypes(c: char, s: string, t: ArgType)
    requires Sizes(s) && TextConversion(c)
    ensures TypeOf(c, SizesIn(s)) == Some(t) <==> Takes(c, s, t)
  {
    hide SizesIn, Longs, Sizes;
    LongFacts(s);
  }

  lemma OtherTypes(c: char, s: string, t: ArgType)
    requires !IntegerConversion(c) && !FloatConversion(c) && !TextConversion(c)
    ensures TypeOf(c, SizesIn(s)) == Some(t) <==> Takes(c, s, t)
  {
    hide SizesIn, Longs;
  }

  // The parser's table of types is this one.
  lemma TypeIsTaken(c: char, s: string, t: ArgType)
    requires Sizes(s)
    ensures TypeOf(c, SizesIn(s)) == Some(t) <==> Takes(c, s, t)
  {
    hide TypeOf, Takes, SizesIn;
    if IntegerConversion(c) {
      IntegerTypes(c, s, t);
    } else if FloatConversion(c) {
      FloatTypes(c, s, t);
    } else if TextConversion(c) {
      TextTypes(c, s, t);
    } else {
      OtherTypes(c, s, t);
    }
  }

  // ------------------------------------------------------------------------------------ directives

  // Where the parts of a directive begin, after the percent sign and the position.
  datatype Marks = Marks(flags: nat, width: nat, widthSlot: nat, precision: nat, precisionSlot: nat, sizes: nat,
                         conversion: nat)

  // A number and a dollar sign; slots are counted from one.
  ghost predicate SlotNumber(t: string)
  {
    && |t| >= 2 && t[|t| - 1] == '$' && Digits(t[..|t| - 1])
    && 1 <= DigitsValue(t[..|t| - 1]) < SIZE_MAX
  }

  // The slot a number names, or the next one if there is none.
  ghost function SlotOf(t: string, posn: int): int
    requires t == "" || SlotNumber(t)
  {
    if t == "" then posn else DigitsValue(t[..|t| - 1]) - 1
  }

  predicate FlagChar(c: char) { c == '\'' || c == '-' || c == '+' || c == ' ' || c == '#' || c == '0' || c == 'I' }

  predicate Flags(s: string) { forall i :: 0 <= i < |s| ==> FlagChar(s[i]) }

  ghost predicate Ordered(f: string, i: nat, k: Marks)
  {
    i < k.flags <= k.width <= k.widthSlot <= k.precision <= k.precisionSlot <= k.sizes <= k.conversion < |f|
  }

  ghost predicate WidthText(w: string) { w == "" || w == "*" || (Digits(w) && w[0] != '0') }

  ghost predicate PrecisionText(p: string) { p == "" || p == ".*" || (p[0] == '.' && Digits(p[1..])) }

  ghost predicate SlotText(t: string, star: bool) { t == "" || (star && SlotNumber(t)) }

  // f has a directive at i, with parts where the marks are.
  ghost predicate WellSpelled(f: string, i: nat, k: Marks)
  {
    && Ordered(f, i, k) && f[i] == '%'
    && SlotText(f[i + 1..k.flags], true) && Flags(f[k.flags..k.width])
    && WidthText(f[k.width..k.widthSlot]) && SlotText(f[k.widthSlot..k.precision], f[k.width..k.widthSlot] == "*")
    && PrecisionText(f[k.precision..k.precisionSlot])
    && SlotText(f[k.precisionSlot..k.sizes], f[k.precision..k.precisionSlot] == ".*")
    && Sizes(f[k.sizes..k.conversion])
    && exists t :: Takes(f[k.conversion], f[k.sizes..k.conversion], t)
  }

  // The bits of the flags are those of the characters.
  ghost predicate FlagBits(flags: bv8, s: string)
  {
    && (flags & FLAG_GROUP != 0 <==> '\'' in s) && (flags & FLAG_LEFT != 0 <==> '-' in s)
    && (flags & FLAG_SHOWSIGN != 0 <==> '+' in s) && (flags & FLAG_SPACE != 0 <==> ' ' in s)
    && (flags & FLAG_ALT != 0 <==> '#' in s) && (flags & FLAG_ZERO != 0 <==> '0' in s)
    && (flags & FLAG_LOCALIZED != 0 <==> 'I' in s)
  }

  // A part of a directive that has begun at start: its place is noted if it is there.
  predicate Noted(begin: int, end: int, start: nat, stop: nat)
  {
    if start == stop then begin == NULL && end == NULL else begin == start && end == stop
  }

  // Whether a width, or a precision, is a star; and the slot its argument comes from, and what is then the next one.
  predicate Wide(f: string, k: Marks)
    requires k.width <= k.widthSlot <= |f|
  {
    f[k.width..k.widthSlot] == "*"
  }

  predicate Precise(f: string, k: Marks)
    requires k.precision <= k.precisionSlot <= |f|
  {
    f[k.precision..k.precisionSlot] == ".*"
  }

  ghost function AfterWidth(f: string, i: nat, k: Marks, posn: nat): nat
    requires Ordered(f, i, k)
  {
    posn + if Wide(f, k) && f[k.widthSlot..k.precision] == "" then 1 else 0
  }

  ghost function AfterPrecision(f: string, i: nat, k: Marks, posn: nat): nat
    requires Ordered(f, i, k)
  {
    AfterWidth(f, i, k, posn) + if Precise(f, k) && f[k.precisionSlot..k.sizes] == "" then 1 else 0
  }

  // What a directive says about its parts: they are where they are spelled, and a star takes an int from the slot
  // that is named, or from the next one.
  ghost predicate SaysParts(f: string, i: nat, k: Marks, posn: nat, d: Directive)
    requires WellSpelled(f, i, k)
  {
    && d.dirStart == i && d.dirEnd == k.conversion + 1 && FlagBits(d.flags, f[k.flags..k.width])
    && Noted(d.widthStart, d.widthEnd, k.width, k.widthSlot)
    && d.widthArgIndex == (if Wide(f, k) then SlotOf(f[k.widthSlot..k.precision], posn) else ARG_NONE)
    && Noted(d.precisionStart, d.precisionEnd, k.precision, k.precisionSlot)
    && d.precisionArgIndex ==
         if Precise(f, k) then SlotOf(f[k.precisionSlot..k.sizes], AfterWidth(f, i, k, posn)) else ARG_NONE
  }

  // And about its value, which is taken after these, of the type that sizes and conversion call for.
  ghost predicate SaysValue(f: string, i: nat, k: Marks, posn: nat, p: Parsed, t: ArgType)
    requires WellSpelled(f, i, k) && p.Parsed?
  {
    var d, next := p.dir, AfterPrecision(f, i, k, posn);
    && Takes(f[k.conversion], f[k.sizes..k.conversion], t)
    && d.conversion == (match f[k.conversion] case 'C' => 'c' case 'S' => 's' case c => c)
    && d.argIndex == (if t == TYPE_NONE then ARG_NONE else SlotOf(f[i + 1..k.flags], next))
    && p.posn == next + (if t != TYPE_NONE && f[i + 1..k.flags] == "" then 1 else 0)
    && p.uses == (if Wide(f, k) then [Use(d.widthArgIndex, TYPE_INT)] else [])
               + (if Precise(f, k) then [Use(d.precisionArgIndex, TYPE_INT)] else [])
               + (if t == TYPE_NONE then [] else [Use(d.argIndex, t)])
  }

  ghost predicate Says(f: string, i: nat, k: Marks, posn: nat, p: Parsed, t: ArgType)
    requires WellSpelled(f, i, k) && p.Parsed?
  {
    SaysParts(f, i, k, posn, p.dir) && SaysValue(f, i, k, posn, p, t)
  }

  // ------------------------------------------------------------------------------------ parts

  lemma {:induction false} SkipDigitsIs(f: string, i: nat, j: nat)
    requires i <= j <= |f| && Digits(f[i..j]) && !IsDigit(At(f, j))
    ensures SkipDigits(f, i) == j
    decreases j - i
  {
    if i < j {
      assert f[i] == f[i..j][0] && f[i + 1..j] == f[i..j][1..];
      SkipDigitsIs(f, i + 1, j);
    }
  }

  lemma {:induction false} SkipFlagsIs(f: string, i: nat)
    requires i <= |f|
    ensures Flags(f[i..SkipFlags(f, i)]) && !FlagChar(At(f, SkipFlags(f, i)))
    decreases |f| - i
  {
    FlagOfChar(At(f, i));
    if FlagChar(At(f, i)) {
      SkipFlagsIs(f, i + 1);
      var j := SkipFlags(f, i + 1);
      assert f[i..j] == [f[i]] + f[i + 1..j];
    }
  }

  lemma FlagOfChar(c: char)
    ensures FlagOf(c) != 0 <==> FlagChar(c)
  {
  }

  lemma {:induction false} SkipFlagsTo(f: string, i: nat, j: nat)
    requires i <= j <= |f| && Flags(f[i..j]) && !FlagChar(At(f, j))
    ensures SkipFlags(f, i) == j
    decreases j - i
  {
    FlagOfChar(At(f, i));
    if i < j {
      assert f[i] == f[i..j][0] && f[i + 1..j] == f[i..j][1..];
      SkipFlagsTo(f, i + 1, j);
    }
  }

  lemma {:induction false} SkipSizesIs(f: string, i: nat)
    requires i <= |f|
    ensures Sizes(f[i..SkipSizes(f, i)]) && !SizeChar(At(f, SkipSizes(f, i)))
    decreases |f| - i
  {
    if SizeChar(At(f, i)) {
      SkipSizesIs(f, i + 1);
      var j := SkipSizes(f, i + 1);
      assert f[i..j] == [f[i]] + f[i + 1..j];
    }
  }

  lemma {:induction false} SkipSizesTo(f: string, i: nat, j: nat)
    requires i <= j <= |f| && Sizes(f[i..j]) && !SizeChar(At(f, j))
    ensures SkipSizes(f, i) == j
    decreases j - i
  {
    if i < j {
      assert f[i] == f[i..j][0] && f[i + 1..j] == f[i..j][1..];
      SkipSizesTo(f, i + 1, j);
    }
  }

  lemma {:induction false} FlagsAreBits(s: string)
    requires Flags(s)
    ensures FlagBits(FlagsIn(s), s)
  {
    if s != "" {
      var front, c := s[..|s| - 1], s[|s| - 1];
      assert s == front + [c];
      FlagsAreBits(front);
      OneMoreFlag(FlagsIn(front), front, c);
    }
  }

  lemma OneMoreFlag(flags: bv8, s: string, c: char)
    requires FlagBits(flags, s) && FlagChar(c)
    ensures FlagBits(flags | FlagOf(c), s + [c])
  {
    FlagIsBit(c);
    var flag := FlagOf(c);
    hide FlagOf;
    FlagAdded(flags, flag, FLAG_GROUP);
    FlagAdded(flags, flag, FLAG_LEFT);
    FlagAdded(flags, flag, FLAG_SHOWSIGN);
    FlagAdded(flags, flag, FLAG_SPACE);
    FlagAdded(flags, flag, FLAG_ALT);
    FlagAdded(flags, flag, FLAG_ZERO);
    FlagAdded(flags, flag, FLAG_LOCALIZED);
  }

  lemma FlagAdded(flags: bv8, flag: bv8, m: bv8)
    ensures (flags | flag) & m != 0 <==> flags & m != 0 || flag & m != 0
  {
  }

  lemma FlagIsBit(c: char)
    requires FlagChar(c)
    ensures FlagBits(FlagOf(c), [c])
  {
  }

  // A position is a number and a dollar sign.
  lemma PositionalIs(f: string, i: nat)
    requires i <= |f|
    ensures match Positional(f, i)
            case Position(n, next) => SlotNumber(f[i..next]) && n == SlotOf(f[i..next], 0)
            case _ => true
  {
    var j := SkipDigits(f, i);
    DigitsSaturate(f[i..j]);
    if j > i && At(f, j) == '$' {
      assert f[i..j + 1][..j - i] == f[i..j];
    }
  }

  lemma SlotNumberIs(f: string, i: nat, j: nat)
    requires i <= j <= |f| && SlotNumber(f[i..j])
    ensures Positional(f, i) == Position(SlotOf(f[i..j], 0), j)
  {
    assert f[i..j][..j - i - 1] == f[i..j - 1];
    assert f[j - 1] == f[i..j][j - i - 1];
    SkipDigitsIs(f, i, j - 1);
    DigitsSaturate(f[i..j - 1]);
  }

  // ------------------------------------------------------------------------------------ what is parsed is spelled so

  function WidthEnd(f: string, i: nat): nat
    requires i <= |f|
  {
    if At(f, i) == '*' then i + 1 else SkipDigits(f, i)
  }

  function PrecisionEnd(f: string, i: nat): nat
    requires i <= |f|
  {
    if At(f, i) != '.' then i else if At(f, i + 1) == '*' then i + 2 else SkipDigits(f, i + 1)
  }

  // The slot of a star that ends at e.
  lemma SlotIs(f: string, e: nat, posn: nat, start: int, end: int)
    requires e <= |f| && posn <= SIZE_MAX && Slot(f, e, posn, start, end, TYPE_INT).Part?
    ensures var p := Slot(f, e, posn, start, end, TYPE_INT);
            && SlotText(f[e..p.next], true) && p.arg == SlotOf(f[e..p.next], posn) && p.arg < ARG_NONE
            && p.posn == posn + (if f[e..p.next] == "" then 1 else 0) && p.uses == [Use(p.arg, TYPE_INT)]
            && p.start == start && p.end == end
  {
    hide SlotNumber;
    PositionalIs(f, e);
    assert f[e..e] == "";
    match Positional(f, e)
    case Position(n, next) => SlotNumberLong(f[e..next]);
    case _ =>
  }

  lemma SlotNumberLong(t: string)
    requires SlotNumber(t)
    ensures t != ""
  {
  }

  lemma WidthIs(f: string, i: nat, posn: nat)
    requires i <= |f| && posn <= SIZE_MAX && WidthPart(f, i, posn).Part? && !FlagChar(At(f, i))
    ensures var p, e := WidthPart(f, i, posn), WidthEnd(f, i);
            && i <= e <= p.next && WidthText(f[i..e]) && Noted(p.start, p.end, i, e)
            && var star, slot := f[i..e] == "*", f[e..p.next];
            && SlotText(slot, star) && p.arg == (if star then SlotOf(slot, posn) else ARG_NONE)
            && p.posn == posn + (if star && slot == "" then 1 else 0)
            && p.uses == if star then [Use(p.arg, TYPE_INT)] else []
  {
    hide Slot, SkipDigits, SlotNumber;
    if At(f, i) == '*' {
      assert f[i..i + 1] == "*";
      SlotIs(f, i + 1, posn, i, i + 1);
    } else {
      var j := SkipDigits(f, i);
      DigitsIn(f, i, j);
      assert j > i ==> f[i..j][0] == f[i];
      assert f[j..j] == "";
    }
  }

  lemma DigitsIn(f: string, i: nat, j: nat)
    requires i <= |f| && j == SkipDigits(f, i)
    ensures Digits(f[i..j]) && (i < j ==> IsDigit(f[i]))
  {
  }

  lemma DigitsAreNoStar(d: string)
    requires Digits(d)
    ensures ['.'] + d != ".*"
  {
    var s := ['.'] + d;
    assert |d| == 1 ==> s[1] == d[0] && IsDigit(d[0]);
  }

  lemma PrecisionIs(f: string, i: nat, posn: nat)
    requires i <= |f| && posn <= SIZE_MAX && PrecisionPart(f, i, posn).Part?
    ensures var p, e := PrecisionPart(f, i, posn), PrecisionEnd(f, i);
            && i <= e <= p.next && PrecisionText(f[i..e]) && Noted(p.start, p.end, i, e)
            && var star, slot := f[i..e] == ".*", f[e..p.next];
            && SlotText(slot, star) && p.arg == (if star then SlotOf(slot, posn) else ARG_NONE)
            && p.posn == posn + (if star && slot == "" then 1 else 0)
            && p.uses == if star then [Use(p.arg, TYPE_INT)] else []
  {
    hide Slot, SkipDigits, SlotNumber;
    if At(f, i) != '.' {
      assert f[i..i] == "";
    } else if At(f, i + 1) == '*' {
      assert f[i..i + 2] == ".*";
      SlotIs(f, i + 2, posn, i, i + 2);
    } else {
      var j := SkipDigits(f, i + 1);
      DigitsIn(f, i + 1, j);
      assert f[i..j] == ['.'] + f[i + 1..j];
      assert f[i..j][1..] == f[i + 1..j];
      assert f[j..j] == "";
      DigitsAreNoStar(f[i + 1..j]);
    }
  }

  lemma ConversionIs(f: string, i: nat)
    requires i <= |f| && ConversionAt(f, i).Conversion?
    ensures var k, j := ConversionAt(f, i), SkipSizes(f, i);
            && i <= j < |f| && k.next == j + 1 && Sizes(f[i..j]) && Takes(f[j], f[i..j], k.typ)
            && k.c == match f[j] case 'C' => 'c' case 'S' => 's' case c => c
  {
    hide TypeOf, SizesIn, Takes;
    SkipSizesIs(f, i);
    var j := SkipSizes(f, i);
    NulTakesNothing(SizesIn(f[i..j]));
    TypeIsTaken(At(f, j), f[i..j], ConversionAt(f, i).typ);
  }

  lemma NulTakesNothing(n: nat)
    ensures TypeOf('\0', n).None?
  {
  }

  lemma FlagsAfter(f: string, i: nat)
    requires i <= |f|
    ensures var j := SkipFlags(f, i);
            Flags(f[i..j]) && FlagBits(FlagsIn(f[i..j]), f[i..j]) && !FlagChar(At(f, j))
  {
    hide FlagBits, FlagsIn;
    SkipFlagsIs(f, i);
    FlagsAreBits(f[i..SkipFlags(f, i)]);
  }

  // The marks of a directive that has been parsed.
  function MarksOf(f: string, i: nat, posn: nat): Marks
    requires i < |f| && posn <= SIZE_MAX && ParseDirective(f, i, posn).Parsed?
  {
    var position := Positional(f, i + 1);
    var flags := if position.Position? then position.next else i + 1;
    var width := SkipFlags(f, flags);
    var w := WidthPart(f, width, posn);
    var p := PrecisionPart(f, w.next, w.posn);
    Marks(flags, width, WidthEnd(f, width), w.next, PrecisionEnd(f, w.next), p.next, SkipSizes(f, p.next))
  }

  // Every directive that is parsed is well spelled,
  lemma ParsedIsSpelled(f: string, i: nat, posn: nat)
    requires i < |f| && f[i] == '%' && posn <= SIZE_MAX && ParseDirective(f, i, posn).Parsed?
    ensures WellSpelled(f, i, MarksOf(f, i, posn))
  {
    hide Positional, SkipFlags, FlagsIn, WidthPart, PrecisionPart, ConversionAt, WidthEnd, PrecisionEnd, SkipSizes,
         SlotNumber, Takes, FlagBits, Flags, Sizes, Digits;
    PositionalIs(f, i + 1);
    var k := MarksOf(f, i, posn);
    FlagsAfter(f, k.flags);
    WidthIs(f, k.width, posn);
    var w := WidthPart(f, k.width, posn);
    PrecisionIs(f, k.precision, w.posn);
    ConversionIs(f, k.sizes);
    if Positional(f, i + 1).Position? {
      SlotNumberLong(f[i + 1..k.flags]);
    } else {
      assert f[i + 1..k.flags] == "";
    }
  }

  // its parts are read as they are spelled,
  lemma ParsedParts(f: string, i: nat, posn: nat)
    requires i < |f| && f[i] == '%' && posn <= SIZE_MAX && ParseDirective(f, i, posn).Parsed?
    ensures var k := MarksOf(f, i, posn);
            && WellSpelled(f, i, k)
            && SaysParts(f, i, k, posn, ParseDirective(f, i, posn).dir)
  {
    hide Positional, SkipFlags, FlagsIn, WidthPart, PrecisionPart, ConversionAt, WidthEnd, PrecisionEnd, SkipSizes,
         SlotNumber, Takes, FlagBits, Flags, Sizes, Digits, WellSpelled, SlotText, WidthText, PrecisionText;
    ParsedIsSpelled(f, i, posn);
    var k := MarksOf(f, i, posn);
    FlagsAfter(f, k.flags);
    WidthIs(f, k.width, posn);
    var w := WidthPart(f, k.width, posn);
    PrecisionIs(f, k.precision, w.posn);
    ConversionIs(f, k.sizes);
  }

  // and its value too.
  lemma ParsedAsSpelled(f: string, i: nat, posn: nat)
    requires i < |f| && f[i] == '%' && posn <= SIZE_MAX && ParseDirective(f, i, posn).Parsed?
    ensures var k := MarksOf(f, i, posn);
            && WellSpelled(f, i, k)
            && exists t :: Says(f, i, k, posn, ParseDirective(f, i, posn), t)
  {
    hide Positional, SkipFlags, FlagsIn, WidthPart, PrecisionPart, ConversionAt, WidthEnd, PrecisionEnd, SkipSizes,
         SlotNumber, Takes, FlagBits, Flags, Sizes, Digits, WellSpelled, SlotText, WidthText, PrecisionText, SaysParts;
    PositionalIs(f, i + 1);
    ParsedParts(f, i, posn);
    var k := MarksOf(f, i, posn);
    FlagsAfter(f, k.flags);
    WidthIs(f, k.width, posn);
    var w := WidthPart(f, k.width, posn);
    PrecisionIs(f, k.precision, w.posn);
    ConversionIs(f, k.sizes);
    if Positional(f, i + 1).Position? {
      SlotNumberLong(f[i + 1..k.flags]);
    } else {
      assert f[i + 1..k.flags] == "";
    }
    assert SaysValue(f, i, k, posn, ParseDirective(f, i, posn), ConversionAt(f, k.sizes).typ);
    assert Says(f, i, k, posn, ParseDirective(f, i, posn), ConversionAt(f, k.sizes).typ);
  }

  // ------------------------------------------------------------------------------------ what is spelled so is parsed

  // What a conversion character, or the characters before it, cannot be.
  predicate Ending(c: char)
  {
    !IsDigit(c) && !FlagChar(c) && c != '*' && c != '$'
  }

  lemma ConversionEnds(c: char, s: string, t: ArgType)
    requires Takes(c, s, t)
    ensures Ending(c) && c != '.' && !SizeChar(c)
  {
  }

  lemma SizesEnd(f: string, i: nat, k: Marks)
    requires WellSpelled(f, i, k)
    ensures Ending(f[k.sizes]) && f[k.sizes] != '.' && !SizeChar(f[k.conversion])
  {
    hide Takes, SlotNumber, Digits;
    var s := f[k.sizes..k.conversion];
    var t :| Takes(f[k.conversion], s, t);
    ConversionEnds(f[k.conversion], s, t);
    assert s != "" ==> s[0] == f[k.sizes] && SizeChar(s[0]);
  }

  lemma PrecisionEnds(f: string, i: nat, k: Marks)
    requires WellSpelled(f, i, k)
    ensures Ending(f[k.precision])
  {
    hide Takes, SlotNumber, Digits, Sizes;
    SizesEnd(f, i, k);
    var p := f[k.precision..k.precisionSlot];
    assert p != "" ==> p[0] == f[k.precision];
    if p == "" { assert f[k.precisionSlot..k.sizes] == ""; }
  }

  lemma WidthEnds(f: string, i: nat, k: Marks)
    requires WellSpelled(f, i, k)
    ensures !FlagChar(f[k.width]) && f[k.width] != '$'
    ensures f[k.width..k.widthSlot] == "" ==> k.width == k.precision
  {
    hide Takes, SlotNumber, Sizes;
    PrecisionEnds(f, i, k);
    var w := f[k.width..k.widthSlot];
    assert w != "" ==> w[0] == f[k.width];
    if w == "" { assert f[k.widthSlot..k.precision] == ""; }
  }

  // Without a position, the digits after the percent sign do not end in a dollar sign.
  lemma NoDollar(f: string, i: nat, k: Marks)
    requires WellSpelled(f, i, k) && k.flags == i + 1
    ensures Positional(f, i + 1) == NoPosition
  {
    hide Takes, SlotNumber, Sizes;
    WidthEnds(f, i, k);
    PrecisionEnds(f, i, k);
    var j := SkipDigits(f, i + 1);
    var w := f[k.width..k.widthSlot];
    if j < k.width {
      assert f[j] == f[k.flags..k.width][j - k.flags];
    } else if j < k.widthSlot {
      assert f[j] == w[j - k.width];
    }
  }

  lemma NoSlot(f: string, i: nat)
    requires i < |f| && !IsDigit(f[i])
    ensures Positional(f, i) == NoPosition
  {
  }

  // A slot in the text from e to j, or none and a character that is no digit.
  lemma SlotTo(f: string, e: nat, j: nat, posn: nat, start: int, end: int)
    requires e <= j < |f| && SlotText(f[e..j], true) && (e == j ==> !IsDigit(f[e])) && posn < ARG_NONE
    ensures var p := Slot(f, e, posn, start, end, TYPE_INT);
            p.Part? && p.next == j && p.posn <= posn + 1
  {
    hide SlotNumber;
    if e == j { NoSlot(f, e); } else { SlotNumberIs(f, e, j); }
  }

  lemma WidthTo(f: string, i: nat, k: Marks, posn: nat)
    requires WellSpelled(f, i, k) && posn < ARG_NONE
    ensures var p := WidthPart(f, k.width, posn);
            p.Part? && p.next == k.precision && p.posn <= posn + 1 && WidthEnd(f, k.width) == k.widthSlot
  {
    hide Takes, SlotNumber, Sizes, Flags, Slot;
    WidthEnds(f, i, k);
    PrecisionEnds(f, i, k);
    var w := f[k.width..k.widthSlot];
    if w == "*" {
      assert f[k.width] == w[0];
      SlotTo(f, k.widthSlot, k.precision, posn, k.width, k.widthSlot);
    } else {
      assert w != "" ==> f[k.width] == w[0];
      SkipDigitsIs(f, k.width, k.widthSlot);
    }
  }

  lemma PrecisionTo(f: string, i: nat, k: Marks, posn: nat)
    requires WellSpelled(f, i, k) && posn < ARG_NONE
    ensures var p := PrecisionPart(f, k.precision, posn);
            p.Part? && p.next == k.sizes && p.posn <= posn + 1 && PrecisionEnd(f, k.precision) == k.precisionSlot
  {
    hide Takes, SlotNumber, Sizes, Flags, Slot;
    SizesEnd(f, i, k);
    var p := f[k.precision..k.precisionSlot];
    if p == ".*" {
      assert f[k.precision] == p[0] && f[k.precision + 1] == p[1];
      SlotTo(f, k.precisionSlot, k.sizes, posn, k.precision, k.precisionSlot);
    } else if p != "" {
      assert f[k.precision] == p[0] && f[k.precision + 1..k.precisionSlot] == p[1..];
      assert k.precision + 1 < k.precisionSlot ==> f[k.precision + 1] == p[1..][0];
      SkipDigitsIs(f, k.precision + 1, k.precisionSlot);
    }
  }

  lemma ConversionTo(f: string, i: nat, k: Marks)
    requires WellSpelled(f, i, k)
    ensures ConversionAt(f, k.sizes).Conversion? && SkipSizes(f, k.sizes) == k.conversion
  {
    hide Takes, SlotNumber, TypeOf, SizesIn;
    SizesEnd(f, i, k);
    var s := f[k.sizes..k.conversion];
    var t :| Takes(f[k.conversion], s, t);
    SkipSizesTo(f, k.sizes, k.conversion);
    TypeIsTaken(f[k.conversion], s, t);
  }

  // Every directive that is well spelled is parsed, with these parts, unless the slots run out.
  lemma SpelledIsParsed(f: string, i: nat, k: Marks, posn: nat)
    requires WellSpelled(f, i, k) && posn + 2 < ARG_NONE
    ensures ParseDirective(f, i, posn).Parsed? && MarksOf(f, i, posn) == k
  {
    hide Takes, SlotNumber, Sizes, Flags, Digits, SkipFlags, FlagsIn, WidthPart, PrecisionPart, ConversionAt, WidthEnd,
         PrecisionEnd, SkipSizes, Positional;
    if k.flags == i + 1 { NoDollar(f, i, k); } else { SlotNumberIs(f, i + 1, k.flags); }
    WidthEnds(f, i, k);
    SkipFlagsTo(f, k.flags, k.width);
    WidthTo(f, i, k, posn);
    PrecisionTo(f, i, k, WidthPart(f, k.width, posn).posn);
    ConversionTo(f, i, k);
  }

  // ------------------------------------------------------------------------------------ whole formats

  // From i on, every percent sign that is not part of a directive begins a well spelled one.
  ghost predicate SpelledFrom(f: string, i: nat)
    requires i <= |f|
    decreases |f| - i
  {
    if i == |f| then true
    else if f[i] != '%' then SpelledFrom(f, i + 1)
    else exists k: Marks {:trigger WellSpelled(f, i, k)} ::
      k.conversion < |f| && WellSpelled(f, i, k) && SpelledFrom(f, k.conversion + 1)
  }

  // After literal text from i on, d says what is spelled at the marks.
  ghost predicate SaysNext(f: string, i: nat, posn: nat, d: Directive, uses: seq<Use>, k: Marks, p: Parsed, t: ArgType)
  {
    && i <= d.dirStart < |f| && k.conversion < |f| && '%' !in f[i..d.dirStart] && WellSpelled(f, d.dirStart, k)
    && p.Parsed? && p.dir == d && Says(f, d.dirStart, k, posn, p, t) && p.uses <= uses
  }

  // The directives follow one another, each taking its arguments where the one before has left off.
  ghost predicate SaysAll(f: string, i: nat, posn: nat, dirs: seq<Directive>, uses: seq<Use>)
    requires i <= |f|
    decreases |dirs|
  {
    if dirs == [] then uses == [] && '%' !in f[i..]
    else
      exists k, p, t :: SaysNext(f, i, posn, dirs[0], uses, k, p, t) &&
                        SaysAll(f, k.conversion + 1, p.posn, dirs[1..], uses[|p.uses|..])
  }

  // Parsing succeeds exactly on formats that are well spelled throughout.
  lemma {:induction false} ParsedExactly(f: string, i: nat, posn: nat)
    requires i <= |f| && posn + 3 * (|f| - i) < ARG_NONE
    ensures ParseFrom(f, i, posn).Format? <==> SpelledFrom(f, i)
    decreases |f| - i
  {
    hide WellSpelled, ParseDirective, Says, MarksOf;
    if i < |f| {
      if f[i] != '%' {
        ParsedExactly(f, i + 1, posn);
      } else {
        if SpelledFrom(f, i) {
          var k: Marks :| k.conversion < |f| && WellSpelled(f, i, k) && SpelledFrom(f, k.conversion + 1);
          SpelledIsParsed(f, i, k, posn);
        }
        var p := ParseDirective(f, i, posn);
        if p.Parsed? {
          ParsedAsSpelled(f, i, posn);
          SaysWhere(f, i, MarksOf(f, i, posn), posn, p);
          ParsedExactly(f, p.dir.dirEnd, p.posn);
          UniqueMarks(f, i, posn);
        }
      }
    }
  }

  lemma UniqueMarks(f: string, i: nat, posn: nat)
    requires i < |f| && posn + 2 < ARG_NONE && ParseDirective(f, i, posn).Parsed?
    ensures forall k :: WellSpelled(f, i, k) ==> k == MarksOf(f, i, posn)
  {
    hide WellSpelled, ParseDirective, MarksOf;
    forall k | WellSpelled(f, i, k)
      ensures k == MarksOf(f, i, posn)
    {
      SpelledIsParsed(f, i, k, posn);
    }
  }

  lemma SaysWhere(f: string, i: nat, k: Marks, posn: nat, p: Parsed)
    requires WellSpelled(f, i, k) && p.Parsed? && exists t :: Says(f, i, k, posn, p, t)
    ensures p.dir.dirStart == i && p.dir.dirEnd == k.conversion + 1 && i + 2 <= p.dir.dirEnd <= |f|
    ensures p.posn <= posn + 3
  {
    hide Takes, FlagBits, SlotOf, Noted, SlotText, SlotNumber;
  }

  // And the directives and uses that come out say what is spelled.
  lemma {:induction false} ParsedSaysAll(f: string, i: nat, posn: nat)
    requires i <= |f| && posn <= SIZE_MAX && ParseFrom(f, i, posn).Format?
    ensures var p := ParseFrom(f, i, posn);
            SaysAll(f, i, posn, p.dirs, p.uses)
    decreases |f| - i
  {
    hide WellSpelled, ParseDirective, Says, MarksOf;
    if i < |f| {
      var all := ParseFrom(f, i, posn);
      if f[i] != '%' {
        ParsedSaysAll(f, i + 1, posn);
        SaysAllEarlier(f, i, posn, all.dirs, all.uses);
      } else {
        var p := ParseDirective(f, i, posn);
        ParsedAsSpelled(f, i, posn);
        var k := MarksOf(f, i, posn);
        SaysWhere(f, i, k, posn, p);
        var rest := ParseFrom(f, p.dir.dirEnd, p.posn);
        ParsedSaysAll(f, p.dir.dirEnd, p.posn);
        var t :| Says(f, i, k, posn, p, t);
        MarkOrder(f, i, k);
        assert f[i..i] == "";
        assert all.uses[|p.uses|..] == rest.uses && all.dirs[1..] == rest.dirs && all.dirs[0] == p.dir;
        assert SaysNext(f, i, posn, all.dirs[0], all.uses, k, p, t);
        assert SaysAll(f, k.conversion + 1, p.posn, all.dirs[1..], all.uses[|p.uses|..]);
      }
    }
  }

  lemma SaysAllEarlier(f: string, i: nat, posn: nat, dirs: seq<Directive>, uses: seq<Use>)
    requires i < |f| && f[i] != '%' && SaysAll(f, i + 1, posn, dirs, uses)
    ensures SaysAll(f, i, posn, dirs, uses)
  {
    hide WellSpelled, Says;
    if dirs == [] {
      assert f[i..] == [f[i]] + f[i + 1..];
    } else {
      var k, p, t :| SaysNext(f, i + 1, posn, dirs[0], uses, k, p, t) &&
                     SaysAll(f, k.conversion + 1, p.posn, dirs[1..], uses[|p.uses|..]);
      assert f[i..dirs[0].dirStart] == [f[i]] + f[i + 1..dirs[0].dirStart];
      assert SaysNext(f, i, posn, dirs[0], uses, k, p, t);
    }
  }

  lemma MarkOrder(f: string, i: nat, k: Marks)
    requires WellSpelled(f, i, k)
    ensures i < k.conversion < |f|
  {
  }

  // A number that is written out is read as that number.
  lemma {:induction false} NumberIsRead(n: nat)
    ensures Digits(NatText(n)) && DigitsValue(NatText(n)) == n
  {
    var t := NatText(n);
    if n >= 10 {
      NumberIsRead(n / 10);
      assert t[..|t| - 1] == NatText(n / 10);
    } else {
      assert t[..0] == "";
    }
  }
}
