// The one-pass parser of format strings: it scans the format and fills two growing arrays.
module PrintfParse {
  import opened Wrappers
  import opened DecimalDigit
  import opened Memory
  import opened Xsize
  import opened PrintfFormat
  import PrintfSpelling

  const N_DIRECT_ALLOC_DIRECTIVES: nat := 7
  const N_DIRECT_ALLOC_ARGUMENTS: nat := 7

  const SIZEOF_DIRECTIVE: nat := 88
  const SIZEOF_ARGUMENT: nat := 32

  const NO_DIRECTIVE := Directive(NULL, NULL, 0, NULL, NULL, ARG_NONE, NULL, NULL, ARG_NONE, '\0', ARG_NONE)

  // An argument: its type, and the value fetched for it.
  datatype Argument = Argument(typ: ArgType, val: int)

  datatype Errno = OK | EINVAL | ENOMEM

  // ------------------------------------------------------------------------------------ the argument table

  // A slot so far out that the size of the table may overflow.
  predicate FarSlot(n: int) { 2 * SIZEOF_ARGUMENT * n >= SIZE_MAX }

  lemma GrowthFits(len: Size, n: Size)
    requires N_DIRECT_ALLOC_ARGUMENTS <= len <= n && !FarSlot(n)
    ensures var wanted := if Xtimes(len, 2) <= n then Xsum(n, 1) else Xtimes(len, 2);
            !SizeOverflow(Xtimes(wanted, SIZEOF_ARGUMENT))
  {
  }

  class Arguments {
    var arg: array<Argument>
    var count: nat

    // The array has room for the counted arguments, and they have these types.
    ghost predicate Holds(types: seq<ArgType>)
      reads this, arg
    {
      && count == |types| <= arg.Length && N_DIRECT_ALLOC_ARGUMENTS <= arg.Length <= SIZE_MAX
      && forall k :: 0 <= k < count ==> arg[k].typ == types[k]
    }

    constructor ()
      ensures Holds([]) && fresh(arg)
    {
      arg := new Argument[N_DIRECT_ALLOC_ARGUMENTS](_ => Argument(TYPE_NONE, 0));
      count := 0;
    }

    // Room for slot n: the array doubles, or grows to the slot if that is further.
    method Grow(n: Size, heap: Heap, ghost types: seq<ArgType>) returns (e: Errno)
      requires Holds(types)
      modifies this, heap
      ensures e == OK || e == ENOMEM
      ensures e == OK ==> Holds(types) && n < arg.Length
      ensures heap.asked >= old(heap.asked)
      ensures e == ENOMEM ==> heap.Refused(old(heap.asked)) || FarSlot(n)
      ensures arg == old(arg) || fresh(arg)
    {
      if n >= arg.Length {
        var aAllocated := Xtimes(arg.Length, 2);
        if aAllocated <= n {
          aAllocated := Xsum(n, 1);
        }
        var memorySize := Xtimes(aAllocated, SIZEOF_ARGUMENT);
        if SizeOverflow(memorySize) {
          if !FarSlot(n) { GrowthFits(arg.Length, n); }
          return ENOMEM;
        }
        var granted := heap.Ask();
        if !granted {
          return ENOMEM;
        }
        var memory := new Argument[aAllocated](_ => Argument(TYPE_NONE, 0));
        for i := 0 to count
          invariant forall k :: 0 <= k < i ==> memory[k] == arg[k]
          modifies memory
        {
          memory[i] := arg[i];
        }
        arg := memory;
      }
      return OK;
    }

    // REGISTER_ARG: slot n is used with a type.
    method RegisterArg(n: Size, typ: ArgType, heap: Heap, ghost types: seq<ArgType>) returns (e: Errno)
      requires Holds(types)
      modifies this, arg, heap
      ensures e == OK ==> Register(types, Use(n, typ)).Some? && Holds(Register(types, Use(n, typ)).value)
      ensures e == EINVAL ==> Register(types, Use(n, typ)).None?
      ensures heap.asked >= old(heap.asked)
      ensures e == ENOMEM ==> heap.Refused(old(heap.asked)) || FarSlot(n)
      ensures arg == old(arg) || fresh(arg)
    {
      e := Grow(n, heap, types);
      if e != OK {
        return;
      }
      ghost var t := if |types| <= n then types + seq(n + 1 - |types|, _ => TYPE_NONE) else types;
      while count <= n
        invariant |types| <= count <= arg.Length && count <= |t| && arg.Length <= SIZE_MAX
        invariant forall k :: 0 <= k < count ==> arg[k].typ == t[k]
        invariant n < arg.Length && N_DIRECT_ALLOC_ARGUMENTS <= arg.Length
        modifies this`count, arg
      {
        arg[count] := Argument(TYPE_NONE, 0);
        count := count + 1;
      }
      if arg[n].typ == TYPE_NONE {
        arg[n] := arg[n].(typ := typ);
      } else if arg[n].typ != typ {
        return EINVAL;
      }
    }
  }

  // ------------------------------------------------------------------------------------ the directives

  class Directives {
    var dir: array<Directive>
    var count: nat
    var maxWidthLength: nat
    var maxPrecisionLength: nat

    // The array holds these directives and has room for one more.
    ghost predicate Holds(dirs: seq<Directive>)
      reads this, dir
    {
      && count == |dirs| < dir.Length && N_DIRECT_ALLOC_DIRECTIVES <= dir.Length <= SIZE_MAX
      && forall k :: 0 <= k < count ==> dir[k] == dirs[k]
    }

    constructor ()
      ensures Holds([]) && fresh(dir)
    {
      dir := new Directive[N_DIRECT_ALLOC_DIRECTIVES](_ => NO_DIRECTIVE);
      count, maxWidthLength, maxPrecisionLength := 0, 0, 0;
    }

    // The directive being filled in is complete.
    method Add(dp: Directive, heap: Heap, ghost dirs: seq<Directive>) returns (e: Errno)
      requires Holds(dirs)
      modifies this, dir, heap
      ensures e == OK || e == ENOMEM
      ensures e == OK ==> Holds(dirs + [dp])
      ensures heap.asked >= old(heap.asked)
      ensures e == ENOMEM ==> heap.Refused(old(heap.asked)) || 2 * SIZEOF_DIRECTIVE * (|dirs| + 1) >= SIZE_MAX
      ensures dir == old(dir) || fresh(dir)
      ensures maxWidthLength == old(maxWidthLength) && maxPrecisionLength == old(maxPrecisionLength)
    {
      dir[count] := dp;
      count := count + 1;
      if count >= dir.Length {
        var dAllocated := Xtimes(dir.Length, 2);
        var memorySize := Xtimes(dAllocated, SIZEOF_DIRECTIVE);
        if SizeOverflow(memorySize) {
          return ENOMEM;
        }
        var granted := heap.Ask();
        if !granted {
          return ENOMEM;
        }
        var memory := new Directive[dAllocated](_ => NO_DIRECTIVE);
        for i := 0 to count
          invariant forall k :: 0 <= k < i ==> memory[k] == dir[k]
          modifies memory
        {
          memory[i] := dir[i];
        }
        dir := memory;
      }
      return OK;
    }
  }

  // ------------------------------------------------------------------------------------ scanning

  // The digits from np on, and their value.
  method ScanDigits(f: string, i: nat) returns (np: nat)
    requires i <= |f|
    ensures np == SkipDigits(f, i)
  {
    np := i;
    while IsDigit(At(f, np))
      invariant i <= np <= |f| && SkipDigits(f, np) == SkipDigits(f, i)
      decreases |f| - np
    {
      np := np + 1;
    }
  }

  method ReadNumber(f: string, i: nat) returns (n: Size, np: nat)
    requires i <= |f|
    ensures np == SkipDigits(f, i) && n == SaturatedDigits(f[i..np])
  {
    n, np := 0, i;
    while IsDigit(At(f, np))
      invariant i <= np <= |f| && SkipDigits(f, np) == SkipDigits(f, i)
      invariant Digits(f[i..np]) && n == SaturatedDigits(f[i..np])
      decreases |f| - np
    {
      assert f[i..np + 1] == f[i..np] + [f[np]];
      assert f[i..np + 1][..np - i] == f[i..np];
      n := Xsum(Xtimes(n, 10), Digit(At(f, np)));
      np := np + 1;
    }
  }

  // The test for a positional argument; the index is left alone if there is none.
  method TestPositional(f: string, cp0: nat) returns (e: Errno, argIndex: Size, cp: nat)
    requires cp0 <= |f|
    ensures match Positional(f, cp0)
            case NoPosition => e == OK && argIndex == ARG_NONE && cp == cp0
            case Position(index, next) => e == OK && argIndex == index && cp == next
            case BadPosition => e == EINVAL
  {
    e, argIndex, cp := OK, ARG_NONE, cp0;
    if IsDigit(At(f, cp)) {
      var np := ScanDigits(f, cp);
      if At(f, np) == '$' {
        var n;
        n, np := ReadNumber(f, cp);
        if n == 0 {
          return EINVAL, ARG_NONE, cp;
        }
        if SizeOverflow(n) {
          return EINVAL, ARG_NONE, cp;
        }
        argIndex := n - 1;
        cp := np + 1;
      }
    }
  }

  method ReadFlags(f: string, cp0: nat) returns (flags: bv8, cp: nat)
    requires cp0 <= |f|
    ensures cp == SkipFlags(f, cp0) && flags == FlagsIn(f[cp0..cp])
  {
    flags, cp := 0, cp0;
    while FlagOf(At(f, cp)) != 0
      invariant cp0 <= cp <= |f| && SkipFlags(f, cp) == SkipFlags(f, cp0) && flags == FlagsIn(f[cp0..cp])
      decreases |f| - cp
    {
      assert f[cp0..cp + 1][..cp - cp0] == f[cp0..cp];
      flags := flags | FlagOf(At(f, cp));
      cp := cp + 1;
    }
  }

  method ReadSizes(f: string, cp0: nat) returns (flags: nat, cp: nat)
    requires cp0 <= |f|
    ensures cp == SkipSizes(f, cp0) && flags == SizesIn(f[cp0..cp])
  {
    flags, cp := 0, cp0;
    while IsSize(At(f, cp))
      invariant cp0 <= cp <= |f| && SkipSizes(f, cp) == SkipSizes(f, cp0) && flags == SizesIn(f[cp0..cp])
      decreases |f| - cp
    {
      assert f[cp0..cp + 1][..cp - cp0] == f[cp0..cp];
      flags := AddSize(flags, At(f, cp));
      cp := cp + 1;
    }
  }

  // ------------------------------------------------------------------------------------ one directive

  // A format for which the size of a table may overflow: its length is a large part of all memory, or it names a far
  // slot.
  ghost predicate Outsized(f: string)
  {
    256 * |f| >= SIZE_MAX || exists i :: 0 <= i <= |f| && Far(Positional(f, i))
  }

  predicate Far(p: Position) { p.Position? && FarSlot(p.index) }

  // What can keep a good format from being parsed, once so many slots have been used in sequence.
  ghost predicate Trouble(heap: Heap, since: nat, f: string, posn: int)
    reads heap
  {
    heap.Refused(since) || Outsized(f) || FarSlot(posn)
  }

  lemma TroubleGrows(heap: Heap, since: nat, later: nat, f: string, posn: int, more: int)
    requires Trouble(heap, later, f, posn) && since <= later && posn <= more
    ensures Trouble(heap, since, f, more)
  {
    hide Outsized;
  }

  lemma FarValue(heap: Heap, since: nat, f: string, i: nat, given: Size, posn: int)
    requires i <= |f| && (given != ARG_NONE ==> Positional(f, i).Position? && Positional(f, i).index == given)
    requires heap.Refused(since) || FarSlot(posn) || (given != ARG_NONE && FarSlot(given))
    ensures Trouble(heap, since, f, posn)
  {
    hide Positional;
    assert given != ARG_NONE && FarSlot(given) ==> Far(Positional(f, i));
  }

  // The slot of a '*': given by position, or the next one.
  method TakeSlot(f: string, cp0: nat, argPosn0: nat, ghost start: int, ghost end: int, a: Arguments, heap: Heap,
                  ghost types: seq<ArgType>)
    returns (e: Errno, index: Size, cp: nat, argPosn: nat, ghost types2: seq<ArgType>)
    requires cp0 <= |f| && argPosn0 <= SIZE_MAX && a.Holds(types)
    modifies a, a.arg, heap
    ensures e == OK ==>
              Slot(f, cp0, argPosn0, start, end, TYPE_INT)
              == Part(start, end, index, cp, argPosn, [Use(index, TYPE_INT)])
    ensures e == OK ==> Register(types, Use(index, TYPE_INT)) == Some(types2) && a.Holds(types2)
    ensures e == EINVAL ==> var p := Slot(f, cp0, argPosn0, start, end, TYPE_INT);
                            p.BadPart? || RegisterAll(types, p.uses).None?
    ensures heap.asked >= old(heap.asked) && argPosn <= argPosn0 + 1
    ensures e == ENOMEM ==> Trouble(heap, old(heap.asked), f, argPosn0)
    ensures a.arg == old(a.arg) || fresh(a.arg)
  {
    hide Register, SaturatedDigits, SkipDigits, Positional;
    ghost var position := Positional(f, cp0);
    argPosn, types2 := argPosn0, types;
    e, index, cp := TestPositional(f, cp0);
    if e != OK {
      return;
    }
    if index == ARG_NONE {
      index := argPosn;
      if index == ARG_NONE {
        return EINVAL, index, cp, argPosn, types;
      }
      argPosn := argPosn + 1;
    }
    assert Far(position) ==> Outsized(f);
    e := a.RegisterArg(index, TYPE_INT, heap, types);
    if e == OK {
      types2 := Register(types, Use(index, TYPE_INT)).value;
    }
  }

  method ReadWidth(f: string, cp0: nat, argPosn0: nat, a: Arguments, heap: Heap, ghost types: seq<ArgType>)
    returns (e: Errno, start: int, end: int, index: Size, cp: nat, argPosn: nat, ghost types2: seq<ArgType>)
    requires cp0 <= |f| && argPosn0 <= SIZE_MAX && a.Holds(types)
    modifies a, a.arg, heap
    ensures e == OK ==> var p := WidthPart(f, cp0, argPosn0);
                        && p.Part? && p == Part(start, end, index, cp, argPosn, p.uses)
                        && RegisterAll(types, p.uses) == Some(types2) && a.Holds(types2)
    ensures e == EINVAL ==> var p := WidthPart(f, cp0, argPosn0);
                            p.BadPart? || RegisterAll(types, p.uses).None?
    ensures heap.asked >= old(heap.asked) && argPosn <= argPosn0 + 1
    ensures e == ENOMEM ==> Trouble(heap, old(heap.asked), f, argPosn0)
    ensures a.arg == old(a.arg) || fresh(a.arg)
  {
    hide Register, Slot, SkipDigits, Trouble;
    e, start, end, index, cp, argPosn, types2 := OK, NULL, NULL, ARG_NONE, cp0, argPosn0, types;
    if At(f, cp) == '*' {
      start := cp;
      cp := cp + 1;
      end := cp;
      e, index, cp, argPosn, types2 := TakeSlot(f, cp, argPosn, start, end, a, heap, types);
    } else if IsDigit(At(f, cp)) {
      start := cp;
      cp := ScanDigits(f, cp);
      end := cp;
      DigitsMove(f, cp0);
    } else {
      DigitsMove(f, cp0);
    }
  }

  lemma DigitsMove(f: string, i: nat)
    requires i <= |f|
    ensures SkipDigits(f, i) > i <==> IsDigit(At(f, i))
  {
  }

  method ReadPrecision(f: string, cp0: nat, argPosn0: nat, a: Arguments, heap: Heap, ghost types: seq<ArgType>)
    returns (e: Errno, start: int, end: int, index: Size, cp: nat, argPosn: nat, ghost types2: seq<ArgType>)
    requires cp0 <= |f| && argPosn0 <= SIZE_MAX && a.Holds(types)
    modifies a, a.arg, heap
    ensures e == OK ==> var p := PrecisionPart(f, cp0, argPosn0);
                        && p.Part? && p == Part(start, end, index, cp, argPosn, p.uses)
                        && RegisterAll(types, p.uses) == Some(types2) && a.Holds(types2)
    ensures e == EINVAL ==> var p := PrecisionPart(f, cp0, argPosn0);
                            p.BadPart? || RegisterAll(types, p.uses).None?
    ensures heap.asked >= old(heap.asked) && argPosn <= argPosn0 + 1
    ensures e == ENOMEM ==> Trouble(heap, old(heap.asked), f, argPosn0)
    ensures a.arg == old(a.arg) || fresh(a.arg)
  {
    hide Register, Slot, SkipDigits, Trouble;
    e, start, end, index, cp, argPosn, types2 := OK, NULL, NULL, ARG_NONE, cp0, argPosn0, types;
    if At(f, cp) == '.' {
      cp := cp + 1;
      if At(f, cp) == '*' {
        start := cp - 1;
        cp := cp + 1;
        end := cp;
        e, index, cp, argPosn, types2 := TakeSlot(f, cp, argPosn, start, end, a, heap, types);
      } else {
        start := cp - 1;
        cp := ScanDigits(f, cp);
        end := cp;
      }
    }
  }

  // The slot of the converted argument.
  method TakeValue(given: Size, argPosn0: nat, typ: ArgType, a: Arguments, heap: Heap, ghost types: seq<ArgType>)
    returns (e: Errno, index: Size, argPosn: nat, ghost types2: seq<ArgType>)
    requires argPosn0 <= SIZE_MAX && a.Holds(types)
    modifies a, a.arg, heap
    ensures e == OK ==> var p := ValuePart(argPosn0, given, typ);
                        && p.Part? && p.arg == index && p.posn == argPosn
                        && RegisterAll(types, p.uses) == Some(types2) && a.Holds(types2)
    ensures e == EINVAL ==> var p := ValuePart(argPosn0, given, typ);
                            p.BadPart? || RegisterAll(types, p.uses).None?
    ensures heap.asked >= old(heap.asked) && argPosn <= argPosn0 + 1
    ensures e == ENOMEM ==>
              heap.Refused(old(heap.asked)) || FarSlot(argPosn0) || (given != ARG_NONE && FarSlot(given))
    ensures a.arg == old(a.arg) || fresh(a.arg)
  {
    hide Register;
    e, index, argPosn, types2 := OK, ARG_NONE, argPosn0, types;
    if typ != TYPE_NONE {
      index := given;
      if index == ARG_NONE {
        index := argPosn;
        if index == ARG_NONE {
          return EINVAL, index, argPosn, types;
        }
        argPosn := argPosn + 1;
      }
      e := a.RegisterArg(index, typ, heap, types);
      if e == OK {
        types2 := Register(types, Use(index, typ)).value;
      }
    }
  }

  // The sizes and the conversion character. Nothing past the final NUL is read: NUL is no conversion.
  method ReadConversion(f: string, cp0: nat) returns (e: Errno, c: char, typ: ArgType, cp: nat)
    requires cp0 <= |f|
    ensures e == OK || e == EINVAL
    ensures ConversionAt(f, cp0) == if e == OK then Conversion(c, typ, cp) else UnknownConversion
  {
    hide SkipSizes, SizesIn, TypeOf;
    typ := TYPE_NONE;
    var sizes;
    sizes, cp := ReadSizes(f, cp0);
    c := At(f, cp);
    cp := cp + 1;
    var t := TypeOf(c, sizes);
    if t.None? {
      return EINVAL, c, typ, cp;
    }
    e, typ := OK, t.value;
    c := Canonical(c);
  }

  // Width and precision.
  method ReadNumbers(f: string, cp0: nat, argPosn0: nat, dp0: Directive, a: Arguments, heap: Heap,
                     ghost types: seq<ArgType>)
    returns (e: Errno, dp: Directive, cp: nat, argPosn: nat, ghost types2: seq<ArgType>)
    requires cp0 <= |f| && argPosn0 <= SIZE_MAX && a.Holds(types)
    modifies a, a.arg, heap
    ensures var w := WidthPart(f, cp0, argPosn0);
            var p := if w.Part? then PrecisionPart(f, w.next, w.posn) else BadPart;
            && (e == OK ==>
                  && p.Part? && cp == p.next && argPosn == p.posn
                  && dp == dp0.(widthStart := w.start, widthEnd := w.end, widthArgIndex := w.arg,
                                precisionStart := p.start, precisionEnd := p.end, precisionArgIndex := p.arg)
                  && RegisterAll(types, w.uses + p.uses) == Some(types2) && a.Holds(types2))
            && (e == EINVAL ==> p.BadPart? || RegisterAll(types, w.uses + p.uses).None?)
    ensures heap.asked >= old(heap.asked) && argPosn <= argPosn0 + 2
    ensures e == ENOMEM ==> Trouble(heap, old(heap.asked), f, argPosn0 + 1)
    ensures a.arg == old(a.arg) || fresh(a.arg)
  {
    hide Register, RegisterAll, WidthPart, PrecisionPart, Trouble;
    dp, types2 := dp0, types;
    ghost var asked, w := heap.asked, WidthPart(f, cp0, argPosn0);
    ghost var p := if w.Part? then PrecisionPart(f, w.next, w.posn) else BadPart;
    var start, end, index;
    ghost var types1;
    e, start, end, index, cp, argPosn, types1 := ReadWidth(f, cp0, argPosn0, a, heap, types);
    if p.Part? { RegisterAllConcat(types, w.uses, p.uses); }
    if e != OK {
      if e == ENOMEM { TroubleGrows(heap, asked, asked, f, argPosn0, argPosn0 + 1); }
      return;
    }
    dp := dp.(widthStart := start, widthEnd := end, widthArgIndex := index);
    ghost var asked1, posn1 := heap.asked, argPosn;
    e, start, end, index, cp, argPosn, types2 := ReadPrecision(f, cp, argPosn, a, heap, types1);
    if e == ENOMEM { TroubleGrows(heap, asked, asked1, f, posn1, argPosn0 + 1); }
    dp := dp.(precisionStart := start, precisionEnd := end, precisionArgIndex := index);
  }

  // One directive, whose percent sign is just before cp0.
  method ReadDirective(f: string, cp0: nat, argPosn0: nat, a: Arguments, heap: Heap, ghost types: seq<ArgType>)
    returns (e: Errno, dp: Directive, cp: nat, argPosn: nat, ghost types2: seq<ArgType>)
    requires 0 < cp0 <= |f| && argPosn0 <= SIZE_MAX && a.Holds(types)
    modifies a, a.arg, heap
    ensures e == OK ==> var p := ParseDirective(f, cp0 - 1, argPosn0);
                        && p.Parsed? && p.dir == dp && cp == dp.dirEnd && p.posn == argPosn
                        && RegisterAll(types, p.uses) == Some(types2) && a.Holds(types2)
    ensures e == EINVAL ==> var p := ParseDirective(f, cp0 - 1, argPosn0);
                            p.Malformed? || RegisterAll(types, p.uses).None?
    ensures heap.asked >= old(heap.asked) && argPosn <= argPosn0 + 3
    ensures e == ENOMEM ==> Trouble(heap, old(heap.asked), f, argPosn0 + 2)
    ensures a.arg == old(a.arg) || fresh(a.arg)
  {
    hide Register, RegisterAll, WidthPart, PrecisionPart, ValuePart, Positional, SkipFlags, FlagsIn, ConversionAt,
         Trouble, FarSlot;
    ghost var asked, p := heap.asked, ParseDirective(f, cp0 - 1, argPosn0);
    dp := NO_DIRECTIVE.(dirStart := cp0 - 1);
    argPosn, types2 := argPosn0, types;
    var given;
    e, given, cp := TestPositional(f, cp0);
    if e != OK {
      return;
    }
    var flags;
    flags, cp := ReadFlags(f, cp);
    dp := dp.(flags := flags);
    ghost var w := WidthPart(f, cp, argPosn);
    ghost var q := if w.Part? then PrecisionPart(f, w.next, w.posn) else BadPart;
    ghost var types3;
    e, dp, cp, argPosn, types3 := ReadNumbers(f, cp, argPosn, dp, a, heap, types);
    if p.Parsed? {
      RegisterAllConcat(types, w.uses + q.uses, ValuePart(q.posn, given, ConversionAt(f, q.next).typ).uses);
    }
    if e != OK {
      if e == ENOMEM { TroubleGrows(heap, asked, asked, f, argPosn0 + 1, argPosn0 + 2); }
      return;
    }
    var c, typ;
    e, c, typ, cp := ReadConversion(f, cp);
    if e != OK {
      return;
    }
    ghost var asked2, posn2 := heap.asked, argPosn;
    var index;
    e, index, argPosn, types2 := TakeValue(given, argPosn, typ, a, heap, types3);
    if e != OK {
      if e == ENOMEM {
        FarValue(heap, asked2, f, cp0, given, posn2);
        TroubleGrows(heap, asked, asked2, f, posn2, argPosn0 + 2);
      }
      return;
    }
    dp := dp.(argIndex := index, conversion := c, dirEnd := cp);
  }

  // ------------------------------------------------------------------------------------ the whole format

  function Prepended(dirs: seq<Directive>, uses: seq<Use>, rest: Format): Format
  {
    if rest.BadFormat? then BadFormat else Format(dirs + rest.dirs, uses + rest.uses)
  }

  // What is parsed from position i on completes what has been parsed before it.
  ghost predicate Completes(f: string, i: nat, posn: nat, dirs: seq<Directive>, uses: seq<Use>, types: seq<ArgType>)
  {
    && i <= |f| && posn <= SIZE_MAX && RegisterAll([], uses) == Some(types)
    && ParseFrom(f, 0, 0) == Prepended(dirs, uses, ParseFrom(f, i, posn))
  }

  lemma CompletesText(f: string, i: nat, posn: nat, dirs: seq<Directive>, uses: seq<Use>, types: seq<ArgType>)
    requires Completes(f, i, posn, dirs, uses, types) && i < |f| && f[i] != '%'
    ensures Completes(f, i + 1, posn, dirs, uses, types)
  {
    hide ParseDirective, RegisterAll;
  }

  lemma CompletesDirective(f: string, i: nat, posn: nat, dirs: seq<Directive>, uses: seq<Use>, types: seq<ArgType>)
    requires Completes(f, i, posn, dirs, uses, types) && i < |f| && f[i] == '%'
    ensures ParseDirective(f, i, posn).Malformed? ==> ParseFrom(f, 0, 0).BadFormat?
    ensures ParseDirective(f, i, posn).Parsed? ==>
              var p := ParseDirective(f, i, posn);
              var t := RegisterAll(types, p.uses);
              && (t.None? && ParseFrom(f, 0, 0).Format? ==> RegisterAll([], ParseFrom(f, 0, 0).uses).None?)
              && (t.Some? ==> Completes(f, p.dir.dirEnd, p.posn, dirs + [p.dir], uses + p.uses, t.value))
  {
    hide ParseDirective, RegisterAll;
    var p := ParseDirective(f, i, posn);
    if p.Parsed? {
      RegisterAllConcat([], uses, p.uses);
      var rest := ParseFrom(f, p.dir.dirEnd, p.posn);
      if rest.Format? {
        assert dirs + ([p.dir] + rest.dirs) == (dirs + [p.dir]) + rest.dirs;
        assert uses + (p.uses + rest.uses) == (uses + p.uses) + rest.uses;
        RegisterAllConcat([], uses + p.uses, rest.uses);
      }
    }
  }

  function Max(a: nat, b: nat): nat { if a >= b then a else b }

  // The length of the longest width, and of the longest precision with its point.
  function MaxWidth(dirs: seq<Directive>): nat
  {
    if dirs == [] then 0
    else
      var d := dirs[|dirs| - 1];
      Max(MaxWidth(dirs[..|dirs| - 1]), if d.widthStart < d.widthEnd then d.widthEnd - d.widthStart else 0)
  }

  function MaxPrecision(dirs: seq<Directive>): nat
  {
    if dirs == [] then 0
    else
      var d := dirs[|dirs| - 1];
      Max(MaxPrecision(dirs[..|dirs| - 1]),
          if d.precisionStart < d.precisionEnd then d.precisionEnd - d.precisionStart else 0)
  }

  // The maxima are reached by a directive, if there is a width or precision at all, and exceeded by none.
  lemma {:induction false} MaximaAre(dirs: seq<Directive>)
    ensures forall d :: d in dirs ==>
              d.widthEnd - d.widthStart <= MaxWidth(dirs) && d.precisionEnd - d.precisionStart <= MaxPrecision(dirs)
    ensures MaxWidth(dirs) > 0 ==> exists d :: d in dirs && d.widthEnd - d.widthStart == MaxWidth(dirs)
    ensures MaxPrecision(dirs) > 0 ==>
              exists d :: d in dirs && d.precisionEnd - d.precisionStart == MaxPrecision(dirs)
  {
    if dirs != [] {
      var front, last := dirs[..|dirs| - 1], dirs[|dirs| - 1];
      MaximaAre(front);
      assert dirs == front + [last] && last in dirs;
    }
  }

  method NoteLengths(dp: Directive, maxWidth0: nat, maxPrecision0: nat, ghost dirs: seq<Directive>)
    returns (maxWidth: nat, maxPrecision: nat)
    requires maxWidth0 == MaxWidth(dirs) && maxPrecision0 == MaxPrecision(dirs)
    ensures maxWidth == MaxWidth(dirs + [dp]) && maxPrecision == MaxPrecision(dirs + [dp])
  {
    hide MaxWidth, MaxPrecision;
    LongerMaxima(dirs, dp);
    maxWidth, maxPrecision := maxWidth0, maxPrecision0;
    if dp.widthStart < dp.widthEnd && maxWidth < dp.widthEnd - dp.widthStart {
      maxWidth := dp.widthEnd - dp.widthStart;
    }
    if dp.precisionStart < dp.precisionEnd && maxPrecision < dp.precisionEnd - dp.precisionStart {
      maxPrecision := dp.precisionEnd - dp.precisionStart;
    }
  }

  // Handles the directive whose percent sign is at cp0.
  method TakeDirective(f: string, cp0: nat, argPosn0: nat, maxWidth0: nat, maxPrecision0: nat, d: Directives,
                       a: Arguments,
                       heap: Heap, ghost dirs: seq<Directive>, ghost uses: seq<Use>, ghost types: seq<ArgType>)
    returns (e: Errno, cp: nat, argPosn: nat, maxWidth: nat, maxPrecision: nat,
             ghost dirs2: seq<Directive>, ghost uses2: seq<Use>, ghost types2: seq<ArgType>)
    requires cp0 < |f| && f[cp0] == '%' && Completes(f, cp0, argPosn0, dirs, uses, types) && argPosn0 <= SIZE_MAX
    requires d.Holds(dirs) && a.Holds(types) && maxWidth0 == MaxWidth(dirs) && maxPrecision0 == MaxPrecision(dirs)
    modifies d, d.dir, a, a.arg, heap
    ensures heap.asked >= old(heap.asked) && argPosn <= argPosn0 + 3
    ensures e == OK ==> |dirs2| == |dirs| + 1
    ensures e == ENOMEM ==>
              Trouble(heap, old(heap.asked), f, argPosn0 + 2) || 2 * SIZEOF_DIRECTIVE * (|dirs| + 1) >= SIZE_MAX
    ensures e == OK ==>
              && Completes(f, cp, argPosn, dirs2, uses2, types2) && cp0 < cp <= |f| && argPosn <= SIZE_MAX
              && d.Holds(dirs2) && a.Holds(types2)
              && maxWidth == MaxWidth(dirs2) && maxPrecision == MaxPrecision(dirs2)
    ensures e == EINVAL ==> ParseFrom(f, 0, 0).BadFormat? || RegisterAll([], ParseFrom(f, 0, 0).uses).None?
    ensures d.dir == old(d.dir) || fresh(d.dir)
    ensures a.arg == old(a.arg) || fresh(a.arg)
  {
    hide Completes, ParseFrom, RegisterAll, ParseDirective, MaxWidth, MaxPrecision;
    CompletesDirective(f, cp0, argPosn0, dirs, uses, types);
    ghost var one := ParseDirective(f, cp0, argPosn0);
    maxWidth, maxPrecision, dirs2, uses2 := maxWidth0, maxPrecision0, dirs, uses;
    var dp;
    e, dp, cp, argPosn, types2 := ReadDirective(f, cp0 + 1, argPosn0, a, heap, types);
    if e == OK {
      maxWidth, maxPrecision := NoteLengths(dp, maxWidth, maxPrecision, dirs);
      e := d.Add(dp, heap, dirs);
      dirs2, uses2 := dirs + [dp], uses + one.uses;
    }
  }

  // A good format: every directive is well formed, and no slot is used with two types.
  ghost predicate Good(f: string)
  {
    ParseFrom(f, 0, 0).Format? && RegisterAll([], ParseFrom(f, 0, 0).uses).Some?
  }

  // Parses a format. Unless memory is refused or the format is outsized, it succeeds exactly on good formats; it then
  // has their directives, an end marker after the last one, and a table with the types of all arguments. The directives
  // and the uses of the slots are what the format spells.
  method Parse(f: string, d: Directives, a: Arguments, heap: Heap)
    returns (e: Errno, ghost dirs: seq<Directive>, ghost types: seq<ArgType>)
    requires NulFree(f) && d.Holds([]) && a.Holds([])
    modifies d, d.dir, a, a.arg, heap
    ensures heap.asked >= old(heap.asked)
    ensures e == ENOMEM ==> heap.Refused(old(heap.asked)) || Outsized(f)
    ensures !heap.Refused(old(heap.asked)) && !Outsized(f) ==> (e == OK <==> Good(f))
    ensures e == OK ==>
              && ParseFrom(f, 0, 0).Format? && dirs == ParseFrom(f, 0, 0).dirs
              && RegisterAll([], ParseFrom(f, 0, 0).uses) == Some(types)
              && d.Holds(dirs) && a.Holds(types) && d.dir[d.count].dirStart == |f|
              && d.maxWidthLength == MaxWidth(dirs) && d.maxPrecisionLength == MaxPrecision(dirs)
    ensures e == OK ==> PrintfSpelling.SaysAll(f, 0, 0, dirs, ParseFrom(f, 0, 0).uses)
    ensures e == OK ==> Covers(f, 0, dirs) && Rebuilt(f, 0, dirs) == f && forall d :: d in dirs ==> Usable(d, types)
    ensures e == EINVAL ==> ParseFrom(f, 0, 0).BadFormat? || RegisterAll([], ParseFrom(f, 0, 0).uses).None?
  {
    hide Completes, ParseFrom, RegisterAll, ParseDirective, MaxWidth, MaxPrecision, Covers, Rebuilt, Usable,
         Describes, Consistent, PrintfSpelling.SaysAll;
    var cp: nat, argPosn: nat, maxWidthLength: nat, maxPrecisionLength: nat := 0, 0, 0, 0;
    ghost var uses: seq<Use> := [];
    dirs, types := [], [];
    CompletesStart(f);
    NoMaxima();
    while At(f, cp) != '\0'
      invariant Completes(f, cp, argPosn, dirs, uses, types) && cp <= |f| && argPosn <= SIZE_MAX
      invariant d.Holds(dirs) && a.Holds(types)
      invariant maxWidthLength == MaxWidth(dirs) && maxPrecisionLength == MaxPrecision(dirs)
      invariant heap.asked >= old(heap.asked) && |dirs| <= cp && argPosn <= 3 * |dirs|
      invariant d.dir == old(d.dir) || fresh(d.dir)
      invariant a.arg == old(a.arg) || fresh(a.arg)
      decreases |f| - cp
    {
      var c := At(f, cp);
      if c == '%' {
        e, cp, argPosn, maxWidthLength, maxPrecisionLength, dirs, uses, types :=
          TakeDirective(f, cp, argPosn, maxWidthLength, maxPrecisionLength, d, a, heap, dirs, uses, types);
        if e != OK {
          return;
        }
      } else {
        CompletesText(f, cp, argPosn, dirs, uses, types);
        cp := cp + 1;
      }
    }
    CompletesEnd(f, argPosn, dirs, uses, types);
    GoodFormat(f);
    PrintfSpelling.ParsedSaysAll(f, 0, 0);
    d.dir[d.count] := d.dir[d.count].(dirStart := cp);
    d.maxWidthLength := maxWidthLength;
    d.maxPrecisionLength := maxPrecisionLength;
    e := OK;
  }

  lemma NoMaxima()
    ensures MaxWidth([]) == MaxPrecision([]) == 0
  {
  }

  lemma CompletesStart(f: string)
    ensures Completes(f, 0, 0, [], [], [])
  {
    var p := ParseFrom(f, 0, 0);
    hide ParseFrom;
    if p.Format? { assert [] + p.dirs == p.dirs && [] + p.uses == p.uses; }
  }

  lemma CompletesEnd(f: string, posn: nat, dirs: seq<Directive>, uses: seq<Use>, types: seq<ArgType>)
    requires Completes(f, |f|, posn, dirs, uses, types)
    ensures ParseFrom(f, 0, 0) == Format(dirs, uses) && RegisterAll([], uses) == Some(types)
  {
    hide RegisterAll;
    assert ParseFrom(f, |f|, posn) == Format([], []);
    hide ParseFrom;
    assert dirs + [] == dirs && uses + [] == uses;
  }

  lemma LongerMaxima(dirs: seq<Directive>, d: Directive)
    ensures MaxWidth(dirs + [d]) ==
            Max(MaxWidth(dirs), if d.widthStart < d.widthEnd then d.widthEnd - d.widthStart else 0)
    ensures MaxPrecision(dirs + [d]) ==
            Max(MaxPrecision(dirs), if d.precisionStart < d.precisionEnd then d.precisionEnd - d.precisionStart else 0)
  {
    assert (dirs + [d])[..|dirs|] == dirs;
  }

  // ------------------------------------------------------------------------------------ fetching the arguments

  const NULL_STRING_ADDRESS := -1

  function Wrapped(v: int, bits: int, signed: bool): int
    requires bits == 0x100 || bits == 0x1_0000
  {
    var m := v % bits;
    if signed && m >= bits / 2 then m - bits else m
  }

  // What is stored for a value that is passed: short types are passed as int, and a null string has a substitute.
  function Stored(typ: ArgType, v: int): int
  {
    match typ
    case TYPE_SCHAR => Wrapped(v, 0x100, true)
    case TYPE_UCHAR => Wrapped(v, 0x100, false)
    case TYPE_SHORT => Wrapped(v, 0x1_0000, true)
    case TYPE_USHORT => Wrapped(v, 0x1_0000, false)
    case TYPE_STRING => if v == 0 then NULL_STRING_ADDRESS else v
    case TYPE_WIDE_STRING => if v == 0 then NULL_STRING_ADDRESS else v
    case _ => v
  }

  lemma WrappedMeans(v: int, bits: int, signed: bool)
    requires bits == 0x100 || bits == 0x1_0000
    ensures var r := Wrapped(v, bits, signed);
            && (if signed then -bits / 2 <= r < bits / 2 else 0 <= r < bits)
            && exists q :: v - r == q * bits
  {
    var q := v / bits;
    assert v == q * bits + v % bits;
    assert v - (v % bits - bits) == (q + 1) * bits;
    assert v - v % bits == q * bits;
  }

  // A value that is stored in a narrower type is the one of that type with the same low bits; other values are stored
  // as they are, with a text in place of a null string.
  lemma StoredMeans(typ: ArgType, v: int)
    ensures var r := Stored(typ, v);
            && (typ == TYPE_SCHAR ==> -128 <= r < 128 && exists q :: v - r == q * 0x100)
            && (typ == TYPE_UCHAR ==> 0 <= r < 256 && exists q :: v - r == q * 0x100)
            && (typ == TYPE_SHORT ==> -32768 <= r < 32768 && exists q :: v - r == q * 0x1_0000)
            && (typ == TYPE_USHORT ==> 0 <= r < 65536 && exists q :: v - r == q * 0x1_0000)
            && (typ == TYPE_STRING || typ == TYPE_WIDE_STRING ==> r != 0 && (v != 0 ==> r == v))
            && (typ !in {TYPE_SCHAR, TYPE_UCHAR, TYPE_SHORT, TYPE_USHORT, TYPE_STRING, TYPE_WIDE_STRING} ==> r == v)
  {
    hide Wrapped;
    if typ == TYPE_SCHAR || typ == TYPE_UCHAR { WrappedMeans(v, 0x100, typ == TYPE_SCHAR); }
    if typ == TYPE_SHORT || typ == TYPE_USHORT { WrappedMeans(v, 0x1_0000, typ == TYPE_SHORT); }
  }

  // Fetches the arguments in order; args holds what the caller passed.
  method FetchArgs(args: seq<int>, a: Arguments, ghost types: seq<ArgType>) returns (ret: int)
    requires a.Holds(types) && |args| >= |types|
    modifies a.arg
    ensures a.Holds(types)
    ensures ret == if TYPE_NONE in types then -1 else 0
    ensures ret == 0 ==> forall k :: 0 <= k < |types| ==> a.arg[k].val == Stored(types[k], args[k])
  {
    hide Stored;
    for i := 0 to a.count
      invariant a.Holds(types)
      invariant forall k :: 0 <= k < i ==> types[k] != TYPE_NONE && a.arg[k].val == Stored(types[k], args[k])
    {
      var typ := a.arg[i].typ;
      if typ == TYPE_NONE {
        return -1;
      }
      a.arg[i] := a.arg[i].(val := Stored(typ, args[i]));
    }
    return 0;
  }

  // After a successful parse the arguments can be fetched exactly when every slot up to the last is used.
  lemma FetchSucceedsExactly(f: string, types: seq<ArgType>)
    requires ParseFrom(f, 0, 0).Format? && RegisterAll([], ParseFrom(f, 0, 0).uses) == Some(types)
    ensures TYPE_NONE !in types <==> forall n :: 0 <= n < |types| ==> Used(n, ParseFrom(f, 0, 0).uses)
  {
    hide ParseFrom, RegisterAll, Covers, NumbersIn, Usable;
    var uses := ParseFrom(f, 0, 0).uses;
    GoodFormat(f);
    ParseIsProper(f, 0, 0);
    forall n | 0 <= n < |types|
      ensures types[n] != TYPE_NONE <==> Used(n, uses)
    {
      if Used(n, uses) {
        var u :| u in uses && u.slot == n;
        assert types[u.slot] == u.typ;
      }
    }
  }
}
