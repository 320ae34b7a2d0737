// Format strings: what the directives of a format are, and which argument slots they use with which types.
module PrintfFormat {
  import opened Wrappers
  import opened DecimalDigit
  import opened Xsize

  datatype ArgType =
    | TYPE_NONE
    | TYPE_SCHAR | TYPE_UCHAR | TYPE_SHORT | TYPE_USHORT | TYPE_INT | TYPE_UINT | TYPE_LONGINT | TYPE_ULONGINT
    | TYPE_LONGLONGINT | TYPE_ULONGLONGINT | TYPE_DOUBLE | TYPE_LONGDOUBLE | TYPE_CHAR | TYPE_WIDE_CHAR
    | TYPE_STRING | TYPE_WIDE_STRING | TYPE_POINTER
    | TYPE_COUNT_SCHAR_POINTER | TYPE_COUNT_SHORT_POINTER | TYPE_COUNT_INT_POINTER | TYPE_COUNT_LONGINT_POINTER
    | TYPE_COUNT_LONGLONGINT_POINTER

  const ARG_NONE: Size := SIZE_MAX

  const NULL := -1

  // Positions are indices into the format; NULL where there is nothing.
  datatype Directive = Directive(
    dirStart: int, dirEnd: int, flags: bv8,
    widthStart: int, widthEnd: int, widthArgIndex: Size,
    precisionStart: int, precisionEnd: int, precisionArgIndex: Size,
    conversion: char, argIndex: Size)

  // A format, ended by a NUL.
  predicate NulFree(f: string) { forall i :: 0 <= i < |f| ==> f[i] != '\0' }

  function At(f: string, i: int): char
    requires 0 <= i <= |f|
  {
    if i < |f| then f[i] else '\0'
  }

  function SkipDigits(f: string, i: nat): (j: nat)
    requires i <= |f|
    ensures i <= j <= |f| && !IsDigit(At(f, j)) && forall k :: i <= k < j ==> IsDigit(f[k])
    decreases |f| - i
  {
    if IsDigit(At(f, i)) then SkipDigits(f, i + 1) else i
  }

  predicate Digits(s: string) { forall k :: 0 <= k < |s| ==> IsDigit(s[k]) }

  function DigitsValue(s: string): nat
    requires Digits(s)
  {
    if s == "" then 0 else 10 * DigitsValue(s[..|s| - 1]) + Digit(s[|s| - 1])
  }

  // The value computed digit by digit in saturating arithmetic.
  function SaturatedDigits(s: string): Size
    requires Digits(s)
  {
    if s == "" then 0 else Xsum(Xtimes(SaturatedDigits(s[..|s| - 1]), 10), Digit(s[|s| - 1]))
  }

  lemma {:induction false} DigitsSaturate(s: string)
    requires Digits(s)
    ensures SaturatedDigits(s) == Saturated(DigitsValue(s))
  {
    if s != "" { DigitsSaturate(s[..|s| - 1]); }
  }

  // ------------------------------------------------------------------------------------ positional arguments

  datatype Position = NoPosition | Position(index: Size, next: nat) | BadPosition

  // A number and '$' at i.
  function Positional(f: string, i: nat): (p: Position)
    requires i <= |f|
    ensures p.Position? ==> i < p.next <= |f| && p.index < ARG_NONE
  {
    var j := SkipDigits(f, i);
    if j == i || At(f, j) != '$' then NoPosition
    else
      var n := SaturatedDigits(f[i..j]);
      if n == 0 || SizeOverflow(n) then BadPosition else Position(n - 1, j + 1)
  }

  // A use of an argument slot.
  datatype Use = Use(slot: Size, typ: ArgType)

  // What a part of a directive is: where it begins and ends, the slot it uses, and what follows.
  datatype Part = Part(start: int, end: int, arg: Size, next: nat, posn: nat, uses: seq<Use>) | BadPart

  // The slot of an argument: the one given by position, or the next one.
  function Slot(f: string, i: nat, posn: nat, start: int, end: int, typ: ArgType): (p: Part)
    requires i <= |f| && posn <= SIZE_MAX
    ensures p.Part? ==> i <= p.next <= |f| && p.posn <= SIZE_MAX
  {
    match Positional(f, i)
    case BadPosition => BadPart
    case Position(n, next) => Part(start, end, n, next, posn, [Use(n, typ)])
    case NoPosition => if posn == ARG_NONE then BadPart else Part(start, end, posn, i, posn + 1, [Use(posn, typ)])
  }

  function WidthPart(f: string, i: nat, posn: nat): (p: Part)
    requires i <= |f| && posn <= SIZE_MAX
    ensures p.Part? ==> i <= p.next <= |f| && p.posn <= SIZE_MAX
  {
    if At(f, i) == '*' then Slot(f, i + 1, posn, i, i + 1, TYPE_INT)
    else
      var j := SkipDigits(f, i);
      if j > i then Part(i, j, ARG_NONE, j, posn, []) else Part(NULL, NULL, ARG_NONE, i, posn, [])
  }

  function PrecisionPart(f: string, i: nat, posn: nat): (p: Part)
    requires i <= |f| && posn <= SIZE_MAX
    ensures p.Part? ==> i <= p.next <= |f| && p.posn <= SIZE_MAX
  {
    if At(f, i) != '.' then Part(NULL, NULL, ARG_NONE, i, posn, [])
    else if At(f, i + 1) == '*' then Slot(f, i + 2, posn, i, i + 2, TYPE_INT)
    else
      var j := SkipDigits(f, i + 1);
      Part(i, j, ARG_NONE, j, posn, [])
  }

  // ------------------------------------------------------------------------------------ flags, sizes, types

  const FLAG_GROUP: bv8 := 1
  const FLAG_LEFT: bv8 := 2
  const FLAG_SHOWSIGN: bv8 := 4
  const FLAG_SPACE: bv8 := 8
  const FLAG_ALT: bv8 := 16
  const FLAG_ZERO: bv8 := 32
  const FLAG_LOCALIZED: bv8 := 64

  // The flag a character stands for; 0 if none.
  function FlagOf(c: char): bv8
  {
    match c
    case '\'' => FLAG_GROUP
    case '-' => FLAG_LEFT
    case '+' => FLAG_SHOWSIGN
    case ' ' => FLAG_SPACE
    case '#' => FLAG_ALT
    case '0' => FLAG_ZERO
    case 'I' => FLAG_LOCALIZED
    case _ => 0
  }

  function SkipFlags(f: string, i: nat): (j: nat)
    requires i <= |f|
    ensures i <= j <= |f|
    decreases |f| - i
  {
    if FlagOf(At(f, i)) != 0 then SkipFlags(f, i + 1) else i
  }

  function FlagsIn(s: string): bv8
  {
    if s == "" then 0 else FlagsIn(s[..|s| - 1]) | FlagOf(s[|s| - 1])
  }

  // On a machine where intmax_t, size_t and ptrdiff_t are long.
  function AddSize(flags: nat, c: char): nat
  {
    match c
    case 'h' => if flags % 2 == 0 then flags + 1 else if (flags / 2) % 2 == 0 then flags + 2 else flags
    case 'L' => if (flags / 4) % 2 == 0 then flags + 4 else flags
    case _ => flags + 8
  }

  predicate IsSize(c: char) { c == 'h' || c == 'L' || c == 'l' || c == 'j' || c == 'z' || c == 'Z' || c == 't' }

  function SkipSizes(f: string, i: nat): (j: nat)
    requires i <= |f|
    ensures i <= j <= |f|
    decreases |f| - i
  {
    if IsSize(At(f, i)) then SkipSizes(f, i + 1) else i
  }

  function SizesIn(s: string): nat
  {
    if s == "" then 0 else AddSize(SizesIn(s[..|s| - 1]), s[|s| - 1])
  }

  function BySize(flags: nat, longLong: ArgType, long: ArgType, charType: ArgType, short: ArgType,
                  plain: ArgType): ArgType
  {
    if flags >= 16 || (flags / 4) % 2 == 1 then longLong
    else if flags >= 8 then long
    else if (flags / 2) % 2 == 1 then charType
    else if flags % 2 == 1 then short
    else plain
  }

  // The type a conversion takes: None for an unknown one, and TYPE_NONE for the percent sign.
  function TypeOf(c: char, flags: nat): Option<ArgType>
  {
    match c
    case 'd' | 'i' => Some(BySize(flags, TYPE_LONGLONGINT, TYPE_LONGINT, TYPE_SCHAR, TYPE_SHORT, TYPE_INT))
    case 'o' | 'u' | 'x' | 'X' =>
      Some(BySize(flags, TYPE_ULONGLONGINT, TYPE_ULONGINT, TYPE_UCHAR, TYPE_USHORT, TYPE_UINT))
    case 'f' | 'F' | 'e' | 'E' | 'g' | 'G' | 'a' | 'A' =>
      Some(if flags >= 16 || (flags / 4) % 2 == 1 then TYPE_LONGDOUBLE else TYPE_DOUBLE)
    case 'c' => Some(if flags >= 8 then TYPE_WIDE_CHAR else TYPE_CHAR)
    case 'C' => Some(TYPE_WIDE_CHAR)
    case 's' => Some(if flags >= 8 then TYPE_WIDE_STRING else TYPE_STRING)
    case 'S' => Some(TYPE_WIDE_STRING)
    case 'p' => Some(TYPE_POINTER)
    case 'n' => Some(BySize(flags, TYPE_COUNT_LONGLONGINT_POINTER, TYPE_COUNT_LONGINT_POINTER, TYPE_COUNT_SCHAR_POINTER,
                            TYPE_COUNT_SHORT_POINTER, TYPE_COUNT_INT_POINTER))
    case '%' => Some(TYPE_NONE)
    case _ => None
  }

  // C and S are other names for wide c and s.
  function Canonical(c: char): char
  {
    if c == 'C' then 'c' else if c == 'S' then 's' else c
  }

  // ------------------------------------------------------------------------------------ one directive

  // The sizes and the conversion character.
  datatype Conversion = Conversion(c: char, typ: ArgType, next: nat) | UnknownConversion

  function ConversionAt(f: string, i: nat): (k: Conversion)
    requires i <= |f|
    ensures k.Conversion? ==> i < k.next <= |f|
  {
    var j := SkipSizes(f, i);
    match TypeOf(At(f, j), SizesIn(f[i..j]))
    case None => UnknownConversion
    case Some(typ) => Conversion(Canonical(At(f, j)), typ, j + 1)
  }

  datatype Parsed = Parsed(dir: Directive, posn: nat, uses: seq<Use>) | Malformed

  // The slot of the converted argument; none for a percent sign.
  function ValuePart(posn: nat, given: Size, typ: ArgType): (p: Part)
    requires posn <= SIZE_MAX
    ensures p.Part? ==> p.posn <= SIZE_MAX
  {
    if typ == TYPE_NONE then Part(NULL, NULL, ARG_NONE, 0, posn, [])
    else if given != ARG_NONE then Part(NULL, NULL, given, 0, posn, [Use(given, typ)])
    else if posn == ARG_NONE then BadPart
    else Part(NULL, NULL, posn, 0, posn + 1, [Use(posn, typ)])
  }

  // The directive whose percent sign is at i; posn counts the arguments taken in order so far.
  function ParseDirective(f: string, i: nat, posn: nat): (p: Parsed)
    requires i < |f| && posn <= SIZE_MAX
    ensures p.Parsed? ==> p.dir.dirStart == i < p.dir.dirEnd <= |f| && p.posn <= SIZE_MAX
  {
    var position := Positional(f, i + 1);
    if position.BadPosition? then Malformed
    else
      var given := if position.Position? then position.index else ARG_NONE;
      var i1 := if position.Position? then position.next else i + 1;
      var i2 := SkipFlags(f, i1);
      var width := WidthPart(f, i2, posn);
      if width.BadPart? then Malformed
      else
        var precision := PrecisionPart(f, width.next, width.posn);
        if precision.BadPart? then Malformed
        else
          var conversion := ConversionAt(f, precision.next);
          if conversion.UnknownConversion? then Malformed
          else
            var value := ValuePart(precision.posn, given, conversion.typ);
            if value.BadPart? then Malformed
            else
              Parsed(Directive(i, conversion.next, FlagsIn(f[i1..i2]), width.start, width.end, width.arg,
                               precision.start, precision.end, precision.arg, conversion.c, value.arg),
                     value.posn, width.uses + precision.uses + value.uses)
  }

  // ------------------------------------------------------------------------------------ the argument table

  // Slot n taken with a type: the table grows up to the slot, and a slot has one type.
  function Register(types: seq<ArgType>, use: Use): Option<seq<ArgType>>
  {
    var n := use.slot;
    var t := if |types| <= n then types + seq(n + 1 - |types|, _ => TYPE_NONE) else types;
    if t[n] == TYPE_NONE || t[n] == use.typ then Some(t[n := use.typ]) else None
  }

  function RegisterAll(types: seq<ArgType>, uses: seq<Use>): Option<seq<ArgType>>
    decreases |uses|
  {
    if uses == [] then Some(types)
    else
      match Register(types, uses[0])
      case None => None
      case Some(t) => RegisterAll(t, uses[1..])
  }

  // Slot n is used.
  ghost predicate Used(n: int, uses: seq<Use>)
  {
    exists u :: u in uses && u.slot == n
  }

  // The table says of each slot what its uses say, and nothing of slots without uses.
  ghost predicate Describes(types: seq<ArgType>, uses: seq<Use>)
  {
    && (forall u :: u in uses ==> u.slot < |types| && types[u.slot] == u.typ)
    && (forall n :: 0 <= n < |types| && types[n] != TYPE_NONE ==> Used(n, uses))
    && (types != [] ==> Used(|types| - 1, uses))
  }

  // No slot is used with two types.
  ghost predicate Consistent(uses: seq<Use>)
  {
    forall u, v :: u in uses && v in uses && u.slot == v.slot ==> u.typ == v.typ
  }

  ghost predicate Typed(uses: seq<Use>)
  {
    forall u :: u in uses ==> u.typ != TYPE_NONE && u.slot < ARG_NONE
  }

  lemma RegisterDescribes(types: seq<ArgType>, uses: seq<Use>, use: Use)
    requires Describes(types, uses) && Typed(uses) && use.typ != TYPE_NONE
    ensures match Register(types, use)
            case Some(t) => Describes(t, uses + [use])
            case None => exists u :: u in uses && u.slot == use.slot && u.typ != use.typ
  {
    var n := use.slot;
    match Register(types, use)
    case Some(t) =>
      assert use in uses + [use];
      forall k | 0 <= k < |t| && t[k] != TYPE_NONE
        ensures Used(k, uses + [use])
      {
        if k != n {
          var u :| u in uses && u.slot == k;
          assert u in uses + [use];
        }
      }
      if |t| == |types| {
        var u :| u in uses && u.slot == |types| - 1;
        assert u in uses + [use];
      }
    case None =>
      var u :| u in uses && u.slot == n;
  }

  // Registering succeeds exactly when no slot is used with two types, and the table then describes the uses.
  lemma {:induction false} RegisterAllDescribes(types: seq<ArgType>, before: seq<Use>, uses: seq<Use>)
    requires Describes(types, before) && Typed(before + uses)
    ensures match RegisterAll(types, uses)
            case Some(t) => Describes(t, before + uses) && Consistent(before + uses)
            case None => !Consistent(before + uses)
    decreases |uses|
  {
    hide Register, Describes;
    var all := before + uses;
    assert forall u :: u in before ==> u in all;
    if uses == [] {
      assert all == before;
      DescribesConsistently(types, before);
    } else {
      assert uses[0] in all;
      RegisterDescribes(types, before, uses[0]);
      match Register(types, uses[0])
      case None =>
        var u :| u in before && u.slot == uses[0].slot && u.typ != uses[0].typ;
        assert u in all;
      case Some(t) =>
        assert before + [uses[0]] + uses[1..] == all;
        RegisterAllDescribes(t, before + [uses[0]], uses[1..]);
    }
  }

  lemma DescribesConsistently(types: seq<ArgType>, uses: seq<Use>)
    requires Describes(types, uses)
    ensures Consistent(uses)
  {
  }

  lemma {:induction false} RegisterAllConcat(types: seq<ArgType>, a: seq<Use>, b: seq<Use>)
    ensures RegisterAll(types, a + b) == match RegisterAll(types, a) {
      case None => None
      case Some(t) => RegisterAll(t, b)
    }
    decreases |a|
  {
    hide Register;
    if a == [] {
      assert a + b == b;
    } else {
      assert (a + b)[1..] == a[1..] + b && (a + b)[0] == a[0];
      match Register(types, a[0])
      case None =>
      case Some(t) => RegisterAllConcat(t, a[1..], b);
    }
  }

  // ------------------------------------------------------------------------------------ whole formats

  datatype Format = Format(dirs: seq<Directive>, uses: seq<Use>) | BadFormat

  // The directives from position i on; posn arguments have been taken in order before.
  function ParseFrom(f: string, i: nat, posn: nat): Format
    requires i <= |f| && posn <= SIZE_MAX
    decreases |f| - i
  {
    if i == |f| then Format([], [])
    else if f[i] != '%' then ParseFrom(f, i + 1, posn)
    else
      match ParseDirective(f, i, posn)
      case Malformed => BadFormat
      case Parsed(dir, posn2, uses) =>
        match ParseFrom(f, dir.dirEnd, posn2)
        case BadFormat => BadFormat
        case Format(dirs, more) => Format([dir] + dirs, uses + more)
  }

  // From i on, the format is literal text and directives in turn, and no percent sign is left over.
  ghost predicate Covers(f: string, i: nat, dirs: seq<Directive>)
    requires i <= |f|
    decreases |dirs|
  {
    if dirs == [] then '%' !in f[i..]
    else
      var d := dirs[0];
      && i <= d.dirStart < d.dirEnd <= |f| && '%' !in f[i..d.dirStart] && f[d.dirStart] == '%'
      && Covers(f, d.dirEnd, dirs[1..])
  }

  // The literal texts and the directives, put together again.
  function Rebuilt(f: string, i: nat, dirs: seq<Directive>): string
    requires i <= |f|
    decreases |dirs|
  {
    if dirs == [] then f[i..]
    else if i <= dirs[0].dirStart < dirs[0].dirEnd <= |f| then
      f[i..dirs[0].dirStart] + f[dirs[0].dirStart..dirs[0].dirEnd] + Rebuilt(f, dirs[0].dirEnd, dirs[1..])
    else ""
  }

  lemma {:induction false} CoversRebuilds(f: string, i: nat, dirs: seq<Directive>)
    requires i <= |f| && Covers(f, i, dirs)
    ensures Rebuilt(f, i, dirs) == f[i..]
    ensures forall k :: 0 <= k < |dirs| ==> i <= dirs[k].dirStart < dirs[k].dirEnd <= |f|
    ensures forall j, k :: 0 <= j < k < |dirs| ==> dirs[j].dirEnd <= dirs[k].dirStart
    decreases |dirs|
  {
    if dirs != [] {
      var d := dirs[0];
      CoversRebuilds(f, d.dirEnd, dirs[1..]);
      assert f[i..d.dirStart] + f[d.dirStart..d.dirEnd] + f[d.dirEnd..] == f[i..];
      assert forall k :: 1 <= k < |dirs| ==> dirs[k] == dirs[1..][k - 1];
    }
  }

  // The types a conversion may find in its slot.
  predicate Suits(c: char, t: ArgType)
  {
    match c
    case 'd' | 'i' => t == TYPE_SCHAR || t == TYPE_SHORT || t == TYPE_INT || t == TYPE_LONGINT || t == TYPE_LONGLONGINT
    case 'o' | 'u' | 'x' | 'X' =>
      t == TYPE_UCHAR || t == TYPE_USHORT || t == TYPE_UINT || t == TYPE_ULONGINT || t == TYPE_ULONGLONGINT
    case 'f' | 'F' | 'e' | 'E' | 'g' | 'G' | 'a' | 'A' => t == TYPE_DOUBLE || t == TYPE_LONGDOUBLE
    case 'c' => t == TYPE_CHAR || t == TYPE_WIDE_CHAR
    case 's' => t == TYPE_STRING || t == TYPE_WIDE_STRING
    case 'p' => t == TYPE_POINTER
    case 'n' => t == TYPE_COUNT_SCHAR_POINTER || t == TYPE_COUNT_SHORT_POINTER || t == TYPE_COUNT_INT_POINTER
             || t == TYPE_COUNT_LONGINT_POINTER || t == TYPE_COUNT_LONGLONGINT_POINTER
    case _ => false
  }

  // The slots of a directive: none for a percent sign, and the right types for the others.
  ghost predicate SlotsIn(d: Directive, uses: seq<Use>)
  {
    && (d.widthArgIndex != ARG_NONE ==> Use(d.widthArgIndex, TYPE_INT) in uses)
    && (d.precisionArgIndex != ARG_NONE ==> Use(d.precisionArgIndex, TYPE_INT) in uses)
    && (d.conversion == '%' <==> d.argIndex == ARG_NONE)
    && (d.argIndex != ARG_NONE ==> exists t :: Use(d.argIndex, t) in uses && Suits(d.conversion, t))
  }

  // A width or precision read from the format is there, and is digits.
  ghost predicate NumbersIn(f: string, d: Directive)
  {
    && (d.widthArgIndex == ARG_NONE && d.widthStart != d.widthEnd ==>
          0 <= d.widthStart < d.widthEnd <= |f| && Digits(f[d.widthStart..d.widthEnd]))
    && (d.precisionArgIndex == ARG_NONE && d.precisionStart != d.precisionEnd ==>
          0 <= d.precisionStart < d.precisionEnd <= |f| && Digits(f[d.precisionStart + 1..d.precisionEnd]))
  }

  lemma TypeSuits(c: char, flags: nat)
    ensures TypeOf(c, flags).Some? && TypeOf(c, flags).value != TYPE_NONE ==>
              Suits(Canonical(c), TypeOf(c, flags).value) && Canonical(c) != '%'
    ensures TypeOf(c, flags) == Some(TYPE_NONE) ==> Canonical(c) == '%'
  {
  }

  lemma ConversionSuits(f: string, i: nat)
    requires i <= |f|
    ensures var k := ConversionAt(f, i);
            k.Conversion? ==> if k.typ == TYPE_NONE then k.c == '%' else Suits(k.c, k.typ) && k.c != '%'
  {
    hide TypeOf, Suits, Canonical, SizesIn;
    var j := SkipSizes(f, i);
    TypeSuits(At(f, j), SizesIn(f[i..j]));
  }

  lemma PartUses(f: string, i: nat, posn: nat)
    requires i <= |f| && posn <= SIZE_MAX
    ensures var p := WidthPart(f, i, posn);
            p.Part? ==>
              && p.uses == (if p.arg == ARG_NONE then [] else [Use(p.arg, TYPE_INT)])
              && (p.arg == ARG_NONE && p.start != p.end ==> 0 <= p.start < p.end <= |f| && Digits(f[p.start..p.end]))
    ensures var p := PrecisionPart(f, i, posn);
            p.Part? ==>
              && p.uses == (if p.arg == ARG_NONE then [] else [Use(p.arg, TYPE_INT)])
              && (p.arg == ARG_NONE && p.start != p.end ==>
                    0 <= p.start < p.end <= |f| && Digits(f[p.start + 1..p.end]))
  {
    hide SaturatedDigits;
  }

  lemma JoinSlots(d: Directive, width: seq<Use>, precision: seq<Use>, value: seq<Use>, t: ArgType)
    requires width == if d.widthArgIndex == ARG_NONE then [] else [Use(d.widthArgIndex, TYPE_INT)]
    requires precision == if d.precisionArgIndex == ARG_NONE then [] else [Use(d.precisionArgIndex, TYPE_INT)]
    requires value == if d.argIndex == ARG_NONE then [] else [Use(d.argIndex, t)]
    requires d.conversion == '%' <==> d.argIndex == ARG_NONE
    requires d.argIndex != ARG_NONE ==> t != TYPE_NONE && Suits(d.conversion, t)
    ensures SlotsIn(d, width + precision + value) && Typed(width + precision + value)
  {
    hide Suits;
    var uses := width + precision + value;
    assert forall u :: u in width || u in precision || u in value ==> u in uses;
  }

  lemma DirectiveSlots(f: string, i: nat, posn: nat)
    requires i < |f| && posn <= SIZE_MAX && ParseDirective(f, i, posn).Parsed?
    ensures var p := ParseDirective(f, i, posn);
            SlotsIn(p.dir, p.uses) && NumbersIn(f, p.dir) && Typed(p.uses)
  {
    hide WidthPart, PrecisionPart, Suits, FlagsIn, ConversionAt, Positional, SkipFlags, SlotsIn, Typed, Digits;
    var p := ParseDirective(f, i, posn);
    var position := Positional(f, i + 1);
    var i1 := if position.Position? then position.next else i + 1;
    var i2 := SkipFlags(f, i1);
    var width := WidthPart(f, i2, posn);
    PartUses(f, i2, posn);
    var precision := PrecisionPart(f, width.next, width.posn);
    PartUses(f, width.next, width.posn);
    ConversionSuits(f, precision.next);
    var conversion := ConversionAt(f, precision.next);
    var value := ValuePart(precision.posn, if position.Position? then position.index else ARG_NONE, conversion.typ);
    JoinSlots(p.dir, width.uses, precision.uses, value.uses, conversion.typ);
  }

  ghost predicate AllSlotsIn(dirs: seq<Directive>, uses: seq<Use>)
  {
    forall d :: d in dirs ==> SlotsIn(d, uses)
  }

  // What is parsed covers the format, and uses its slots properly.
  lemma {:induction false} ParseIsProper(f: string, i: nat, posn: nat)
    requires i <= |f| && posn <= SIZE_MAX && ParseFrom(f, i, posn).Format?
    ensures var p := ParseFrom(f, i, posn);
            && Covers(f, i, p.dirs) && AllSlotsIn(p.dirs, p.uses) && Typed(p.uses)
            && (forall d :: d in p.dirs ==> NumbersIn(f, d))
    decreases |f| - i
  {
    hide ParseDirective, SlotsIn, NumbersIn;
    var p := ParseFrom(f, i, posn);
    if i < |f| {
      if f[i] != '%' {
        ParseIsProper(f, i + 1, posn);
        CoversMore(f, i, p.dirs);
      } else {
        var one := ParseDirective(f, i, posn);
        DirectiveSlots(f, i, posn);
        ParseIsProper(f, one.dir.dirEnd, one.posn);
        var rest := ParseFrom(f, one.dir.dirEnd, one.posn);
        forall d | d in p.dirs
          ensures SlotsIn(d, p.uses)
        {
          MoreUses(d, one.uses, rest.uses);
        }
      }
    }
  }

  lemma MoreUses(d: Directive, a: seq<Use>, b: seq<Use>)
    ensures SlotsIn(d, a) || SlotsIn(d, b) ==> SlotsIn(d, a + b)
  {
    hide Suits;
    assert forall u :: u in a || u in b ==> u in a + b;
  }

  lemma CoversMore(f: string, i: nat, dirs: seq<Directive>)
    requires i < |f| && f[i] != '%' && Covers(f, i + 1, dirs)
    ensures Covers(f, i, dirs)
  {
    if dirs == [] {
      assert f[i..] == [f[i]] + f[i + 1..];
    } else {
      assert f[i..dirs[0].dirStart] == [f[i]] + f[i + 1..dirs[0].dirStart];
    }
  }

  // What the printer relies on: every slot a directive refers to is in the table, with a type the directive can take.
  ghost predicate Usable(d: Directive, types: seq<ArgType>)
  {
    && (d.widthArgIndex != ARG_NONE ==> d.widthArgIndex < |types| && types[d.widthArgIndex] == TYPE_INT)
    && (d.precisionArgIndex != ARG_NONE ==> d.precisionArgIndex < |types| && types[d.precisionArgIndex] == TYPE_INT)
    && (d.conversion == '%' <==> d.argIndex == ARG_NONE)
    && (d.argIndex != ARG_NONE ==> d.argIndex < |types| && Suits(d.conversion, types[d.argIndex]))
  }

  // A format is good if its directives are well formed and no slot is used with two types; the table then has the
  // type of all uses of each slot.
  lemma GoodFormat(f: string)
    requires ParseFrom(f, 0, 0).Format?
    ensures var p := ParseFrom(f, 0, 0);
            && Covers(f, 0, p.dirs) && Rebuilt(f, 0, p.dirs) == f && (forall d :: d in p.dirs ==> NumbersIn(f, d))
            && (RegisterAll([], p.uses).Some? <==> Consistent(p.uses))
            && (RegisterAll([], p.uses).Some? ==>
                  && Describes(RegisterAll([], p.uses).value, p.uses)
                  && forall d :: d in p.dirs ==> Usable(d, RegisterAll([], p.uses).value))
  {
    hide ParseFrom, Covers, NumbersIn, Consistent, RegisterAll, Suits;
    var p := ParseFrom(f, 0, 0);
    ParseIsProper(f, 0, 0);
    CoversRebuilds(f, 0, p.dirs);
    assert f[0..] == f;
    assert [] + p.uses == p.uses;
    RegisterAllDescribes([], [], p.uses);
    if RegisterAll([], p.uses).Some? {
      var types := RegisterAll([], p.uses).value;
      forall d | d in p.dirs
        ensures Usable(d, types)
      {
        assert SlotsIn(d, p.uses);
      }
    }
  }
}
