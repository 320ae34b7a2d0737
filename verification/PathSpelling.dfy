// How selections are spelled: an account of the tokens of an object that knows neither rules nor actions, and the
// proof that the grammar and its actions agree with it.
module PathSpelling {
  import opened Wrappers
  import opened PathTables
  import opened PathGrammar
  import opened PathMachine
  import opened PathComplete
  import opened PathMeaning

  // ------------------------------------------------------------------------------------ spellings

  // The kind of the keyword of a function type; 0 if there is none.
  function Keyword(ftype: int): nat
  {
    match ftype
    case 1 => 12 case 2 => 13 case 3 => 17 case 4 => 15 case 5 => 16 case 6 => 18 case 10 => 19
    case _ => 0
  }

  // The unit a number stands for in extract, and in interval; empty if there is none.
  function ExtractUnit(n: int): string
  {
    match n
    case 1 => "month" case 2 => "yday" case 3 => "mday" case 4 => "wday" case 5 => "hour" case 6 => "min"
    case 7 => "sec" case 8 => "year" case 9 => "msec" case 10 => "usec" case 11 => "quarter"
    case _ => ""
  }

  function IntervalUnit(n: int): string
  {
    match n
    case 1 => "year" case 3 => "month" case 5 => "day" case 6 => "hour" case 7 => "min" case 8 => "sec"
    case _ => ""
  }

  // The kind of the keyword after a colon that stands for a number in extract; 0 if there is none.
  function ModifierKind(n: int): nat
  {
    match n
    case 1 => 22 case 2 => 24 case 3 => 25 case 4 => 26 case 5 => 28 case 6 => 12 case 7 => 29 case 8 => 20
    case _ => 0
  }

  // A keyword and something in parentheses.
  predicate Bracketed(ts: seq<Token>, keyword: nat)
  {
    keyword != 0 && |ts| >= 3 && ts[0].kind == keyword && ts[1].kind == 7 && ts[|ts| - 1].kind == 8
  }

  // A comma and a string at the end.
  predicate EndsIn(ts: seq<Token>, s: string)
  {
    |ts| >= 2 && ts[|ts| - 2].kind == 10 && ts[|ts| - 1] == Token(3, Obj(Str(s)))
  }

  // The tokens spell the object: strings, paths and numbers as one token, functions as a keyword with the arguments
  // in parentheses.
  ghost predicate IsPlain(o: Object, ts: seq<Token>)
    decreases o, 0
  {
    match o
    case Str(_) => ts == [Token(3, Obj(o))]
    case IdmefPath(_) => ts == [Token(4, Obj(o))]
    case Int(_) => ts == [Token(5, Obj(o))]
    case Func(ftype, args) =>
      && Bracketed(ts, Keyword(ftype))
      && var inner := ts[2..|ts| - 1];
         if ftype == 5 then
           && |args| == 3 && args[2].Int? && IntervalUnit(args[2].n) != "" && EndsIn(inner, IntervalUnit(args[2].n))
           && exists m :: 0 <= m < |inner| - 2 && inner[m].kind == 10
                          && SpellsObject(args[0], inner[..m]) && SpellsObject(args[1], inner[m + 1..|inner| - 2])
         else if ftype == 6 then
           && |args| == 2 && args[1].Int? && ExtractUnit(args[1].n) != "" && EndsIn(inner, ExtractUnit(args[1].n))
           && SpellsObject(args[0], inner[..|inner| - 2])
         else if ftype == 10 then
           |args| == 2 && args[1].Str? && EndsIn(inner, args[1].s) && SpellsObject(args[0], inner[..|inner| - 2])
         else
           |args| == 1 && SpellsObject(args[0], inner)
  }

  // Extraction may also be spelled with a colon and a keyword.
  ghost predicate IsModified(o: Object, ts: seq<Token>)
    decreases o, 1
  {
    && o.Func? && o.ftype == 6 && |o.args| == 2 && o.args[1].Int? && |ts| >= 2
    && ts[|ts| - 2].kind == 9 && ts[|ts| - 1].kind == ModifierKind(o.args[1].n) != 0
    && IsPlain(o.args[0], ts[..|ts| - 2])
  }

  ghost predicate SpellsObject(o: Object, ts: seq<Token>)
    decreases o, 2
  {
    IsPlain(o, ts) || IsModified(o, ts)
  }

  ghost predicate Has(ts: seq<Token>, kind: nat)
  {
    exists i :: 0 <= i < |ts| && ts[i].kind == kind
  }

  // The options: sorting and grouping, in any order and number, with commas between.
  predicate IsOptions(ts: seq<Token>)
  {
    && |ts| % 2 == 1
    && forall i :: 0 <= i < |ts| ==> if i % 2 == 0 then 32 <= ts[i].kind <= 34 else ts[i].kind == 10
  }

  ghost function FlagsOf(ts: seq<Token>): bv8
  {
    (if Has(ts, 32) then 0x40 else 0) | (if Has(ts, 33) then 0x80 else 0) | (if Has(ts, 34) then 0x20 else 0)
  }

  // The tokens spell a selection: an object, and options after a slash if there are any.
  ghost predicate SpellsSelection(o: Object, flags: Option<bv8>, ts: seq<Token>)
  {
    if flags.None? then SpellsObject(o, ts)
    else exists n :: 0 <= n < |ts| && SpellsObject(o, ts[..n]) && ts[n].kind == 11 && IsOptions(ts[n + 1..])
                     && flags.value == FlagsOf(ts[n + 1..])
  }

  // ------------------------------------------------------------------------------------ units

  lemma UnitFrom(table: seq<(string, nat)>, i: nat, unit: string)
    requires i <= |table|
    ensures UnitFlag(table[i..], unit) ==
            if i == |table| then None
            else if table[i].0 == unit then Some(table[i].1)
            else UnitFlag(table[i + 1..], unit)
  {
    if i < |table| { assert table[i..][1..] == table[i + 1..]; }
  }

  lemma ExtractUnits(unit: string, n: int)
    ensures UnitFlag(EXTRACT_UNITS, unit) == Some(n) <==> ExtractUnit(n) == unit != ""
  {
    hide UnitFlag;
    var table := EXTRACT_UNITS;
    assert table[0..] == table;
    UnitFrom(table, 0, unit); UnitFrom(table, 1, unit); UnitFrom(table, 2, unit); UnitFrom(table, 3, unit);
    UnitFrom(table, 4, unit); UnitFrom(table, 5, unit); UnitFrom(table, 6, unit); UnitFrom(table, 7, unit);
    UnitFrom(table, 8, unit); UnitFrom(table, 9, unit); UnitFrom(table, 10, unit); UnitFrom(table, 11, unit);
  }

  lemma IntervalUnits(unit: string, n: int)
    ensures UnitFlag(INTERVAL_UNITS, unit) == Some(n) <==> IntervalUnit(n) == unit != ""
  {
    hide UnitFlag;
    var table := INTERVAL_UNITS;
    assert table[0..] == table;
    UnitFrom(table, 0, unit); UnitFrom(table, 1, unit); UnitFrom(table, 2, unit); UnitFrom(table, 3, unit);
    UnitFrom(table, 4, unit); UnitFrom(table, 5, unit); UnitFrom(table, 6, unit);
  }

  // ------------------------------------------------------------------------------------ what each symbol spells

  // The tokens under a symbol spell its value.
  ghost predicate Means(x: int, v: Value, ts: seq<Token>)
  {
    match x
    case 36 => v.Selection? && SpellsSelection(v.o, v.flags, ts)
    case 37 => v.Flag? && |ts| == 1 && IsOptions(ts) && v.f == FlagsOf(ts)
    case 38 => v.Flag? && IsOptions(ts) && v.f == FlagsOf(ts)
    case 39 => v.Type? && 1 <= v.t <= 4 && |ts| == 1 && ts[0].kind == Keyword(v.t)
    case 41 => v == Type(6) && |ts| == 1 && ts[0].kind == 18
    case 43 => v == Type(5) && |ts| == 1 && ts[0].kind == 16
    case 45 => v == Type(10) && |ts| == 1 && ts[0].kind == 19
    case 48 => v.Modifier? && |ts| == 1 && ts[0].kind == ModifierKind(v.n) != 0
    case 50 => v.Obj? && SpellsObject(v.o, ts)
    case _ => if 0 <= x <= 34 then ts == [Token(x, v)] && Typed(x, v) else v.Obj? && IsPlain(v.o, ts)
  }

  // One argument.
  lemma OneArgument(ftype: int, o: Object, k: seq<Token>, a: seq<Token>, y: seq<Token>, e: seq<Token>)
    requires 1 <= ftype <= 4 && |k| == |a| == |e| == 1
    requires k[0].kind == Keyword(ftype) && a[0].kind == 7 && e[0].kind == 8
    requires SpellsObject(o, y)
    ensures IsPlain(Func(ftype, [o]), k + a + y + e)
  {
    hide SpellsObject;
    var ts := k + a + y + e;
    assert ts[2..|ts| - 1] == y;
    var f := Func(ftype, [o]);
    assert f.args[0] == o;
  }

  // An argument and a unit, or the name of a time zone.
  lemma ArgumentAndString(ftype: int, o: Object, d: Object, s: string, k: seq<Token>, a: seq<Token>, y: seq<Token>,
                          c: seq<Token>, u: seq<Token>, e: seq<Token>)
    requires |k| == |a| == |c| == |e| == 1 && k[0].kind == Keyword(ftype) && a[0].kind == 7 && e[0].kind == 8
    requires SpellsObject(o, y) && c[0].kind == 10 && u == [Token(3, Obj(Str(s)))]
    requires if ftype == 6 then d.Int? && ExtractUnit(d.n) == s != "" else ftype == 10 && d == Str(s)
    ensures IsPlain(Func(ftype, [o, d]), k + a + y + c + u + e)
  {
    hide SpellsObject, ExtractUnit;
    var ts := k + a + y + c + u + e;
    var inner := y + c + u;
    assert ts[2..|ts| - 1] == inner && inner[..|inner| - 2] == y;
    var f := Func(ftype, [o, d]);
    assert f.args[0] == o && f.args[1] == d;
  }

  // Two arguments and a unit.
  lemma ArgumentsAndUnit(o: Object, o': Object, n: int, k: seq<Token>, a: seq<Token>, y: seq<Token>, c: seq<Token>,
                         z: seq<Token>, c': seq<Token>, u: seq<Token>, e: seq<Token>)
    requires |k| == |a| == |c| == |c'| == |e| == 1 && k[0].kind == 16 && a[0].kind == 7 && e[0].kind == 8
    requires SpellsObject(o, y) && SpellsObject(o', z) && c[0].kind == c'[0].kind == 10
    requires IntervalUnit(n) != "" && u == [Token(3, Obj(Str(IntervalUnit(n))))]
    ensures IsPlain(Func(5, [o, o', Int(n)]), k + a + y + c + z + c' + u + e)
  {
    hide SpellsObject, IntervalUnit;
    var ts := k + a + y + c + z + c' + u + e;
    var inner := y + c + z + c' + u;
    assert ts[2..|ts| - 1] == inner;
    assert inner[..|y|] == y && inner[|y| + 1..|inner| - 2] == z && inner[|y|] == c[0];
    var f := Func(5, [o, o', Int(n)]);
    assert f.args[0] == o && f.args[1] == o' && f.args[2] == Int(n);
  }

  lemma ModifiedValue(o: Object, n: int, y: seq<Token>, c: seq<Token>, m: seq<Token>)
    requires IsPlain(o, y) && |c| == |m| == 1 && c[0].kind == 9 && m[0].kind == ModifierKind(n) != 0
    ensures SpellsObject(Func(6, [o, Int(n)]), y + c + m)
  {
    hide IsPlain;
    var ts := y + c + m;
    assert ts[..|ts| - 2] == y;
    var f := Func(6, [o, Int(n)]);
    assert f.args[0] == o && f.args[1] == Int(n);
    assert IsModified(f, ts);
  }

  lemma MoreOptions(y: seq<Token>, c: seq<Token>, z: seq<Token>)
    requires IsOptions(y) && IsOptions(z) && |z| == |c| == 1 && c[0].kind == 10
    ensures IsOptions(y + c + z) && FlagsOf(y + c + z) == FlagsOf(y) | FlagsOf(z)
  {
    hide Has;
    assert c == [c[0]];
    forall kind: nat | 32 <= kind <= 34
      ensures Has(y + c + z, kind) <==> Has(y, kind) || Has(z, kind)
    {
      HasConcat(y + c, z, kind);
      HasConcat(y, c, kind);
      HasOne(c[0], kind);
    }
    MoreFlags(y, z, y + c + z);
  }

  lemma MoreFlags(a: seq<Token>, b: seq<Token>, ts: seq<Token>)
    requires forall kind: nat :: 32 <= kind <= 34 ==> (Has(ts, kind) <==> Has(a, kind) || Has(b, kind))
    ensures FlagsOf(ts) == FlagsOf(a) | FlagsOf(b)
  {
    assert Has(ts, 32) <==> Has(a, 32) || Has(b, 32);
    assert Has(ts, 33) <==> Has(a, 33) || Has(b, 33);
    assert Has(ts, 34) <==> Has(a, 34) || Has(b, 34);
    hide Has;
  }

  lemma HasConcat(a: seq<Token>, b: seq<Token>, kind: nat)
    ensures Has(a + b, kind) <==> Has(a, kind) || Has(b, kind)
  {
    if Has(a, kind) {
      var i :| 0 <= i < |a| && a[i].kind == kind;
      assert (a + b)[i].kind == kind;
    }
    if Has(b, kind) {
      var i :| 0 <= i < |b| && b[i].kind == kind;
      assert (a + b)[|a| + i].kind == kind;
    }
  }

  lemma HasOne(t: Token, kind: nat)
    ensures Has([t], kind) <==> t.kind == kind
  {
    assert [t][0] == t;
  }

  lemma OneOption(t: Token)
    requires 32 <= t.kind <= 34
    ensures IsOptions([t])
    ensures FlagsOf([t]) == if t.kind == 32 then 0x40 else if t.kind == 33 then 0x80 else 0x20
  {
    HasOne(t, 32);
    HasOne(t, 33);
    HasOne(t, 34);
  }

  lemma WithOptions(o: Object, y: seq<Token>, s: seq<Token>, z: seq<Token>)
    requires SpellsObject(o, y) && |s| == 1 && s[0].kind == 11 && IsOptions(z)
    ensures SpellsSelection(o, Some(FlagsOf(z)), y + s + z)
  {
    hide SpellsObject, IsOptions, FlagsOf;
    var ts := y + s + z;
    assert ts[..|y|] == y && ts[|y| + 1..] == z && ts[|y|] == s[0];
  }

  // ------------------------------------------------------------------------------------ the actions

  lemma YieldsTo(kids: seq<Tree>, i: nat)
    requires i < |kids|
    ensures Yields(kids[..i + 1]) == if i == 0 then Yield(kids[0]) else Yields(kids[..i]) + Yield(kids[i])
  {
    hide Yield, Yields;
    assert kids[..i + 1] == kids[..i] + [kids[i]];
    YieldsConcat(kids[..i], [kids[i]]);
    Single(kids[i]);
    if i == 0 { assert kids[..1] == [kids[0]]; }
  }

  lemma YieldsMany(k: seq<Tree>)
    ensures |k| == 3 ==> Yields(k) == Yield(k[0]) + Yield(k[1]) + Yield(k[2])
    ensures |k| == 4 ==> Yields(k) == Yield(k[0]) + Yield(k[1]) + Yield(k[2]) + Yield(k[3])
    ensures |k| == 6 ==>
              Yields(k) == Yield(k[0]) + Yield(k[1]) + Yield(k[2]) + Yield(k[3]) + Yield(k[4]) + Yield(k[5])
  {
    hide Yield, Yields;
    if |k| >= 3 { YieldsTo(k, 0); YieldsTo(k, 1); YieldsTo(k, 2); }
    if |k| >= 4 { YieldsTo(k, 3); }
    if |k| >= 6 { YieldsTo(k, 4); YieldsTo(k, 5); }
    assert k[..|k|] == k;
  }

  // What the children of a node spell, one by one.
  ghost predicate KidsMean(r: int, kids: seq<Tree>, vs: seq<Value>)
  {
    |kids| == |vs| == |Rhs(r)| && forall i :: 0 <= i < |kids| ==> Means(Rhs(r)[i], vs[i], Yield(kids[i]))
  }

  lemma OneArgumentRule(kids: seq<Tree>, vs: seq<Value>)
    requires KidsMean(14, kids, vs)
    ensures Act(14, vs).Some? && Means(40, Act(14, vs).value, Yields(kids))
  {
    hide SpellsObject, Yield, Yields, IsPlain;
    var ys := seq(4, i requires 0 <= i < 4 => Yield(kids[i]));
    assert Means(39, vs[0], ys[0]) && Means(7, vs[1], ys[1]) && Means(50, vs[2], ys[2]) && Means(8, vs[3], ys[3]);
    YieldsMany(kids);
    OneArgument(vs[0].t, vs[2].o, ys[0], ys[1], ys[2], ys[3]);
  }

  lemma ExtractRule(kids: seq<Tree>, vs: seq<Value>)
    requires KidsMean(16, kids, vs) && Act(16, vs).Some?
    ensures Means(42, Act(16, vs).value, Yields(kids))
  {
    hide SpellsObject, Yield, Yields, IsPlain, UnitFlag, ExtractUnit;
    var ys := seq(6, i requires 0 <= i < 6 => Yield(kids[i]));
    assert Means(41, vs[0], ys[0]) && Means(7, vs[1], ys[1]) && Means(50, vs[2], ys[2]) && Means(10, vs[3], ys[3]);
    assert Means(3, vs[4], ys[4]) && Means(8, vs[5], ys[5]);
    YieldsMany(kids);
    var s := vs[4].o.s;
    var n := UnitFlag(EXTRACT_UNITS, s).value;
    ExtractUnits(s, n);
    ArgumentAndString(6, vs[2].o, Int(n), s, ys[0], ys[1], ys[2], ys[3], ys[4], ys[5]);
  }

  lemma EightYields(k: seq<Tree>)
    requires |k| == 8
    ensures Yields(k) == Yield(k[0]) + Yield(k[1]) + Yield(k[2]) + Yield(k[3]) + Yield(k[4]) + Yield(k[5]) + Yield(k[6])
                         + Yield(k[7])
  {
    hide Yield, Yields;
    YieldsTo(k, 0); YieldsTo(k, 1); YieldsTo(k, 2); YieldsTo(k, 3);
    YieldsTo(k, 4); YieldsTo(k, 5); YieldsTo(k, 6); YieldsTo(k, 7);
    assert k[..8] == k;
  }

  lemma IntervalRule(kids: seq<Tree>, vs: seq<Value>)
    requires KidsMean(18, kids, vs) && Act(18, vs).Some?
    ensures Means(44, Act(18, vs).value, Yields(kids))
  {
    hide SpellsObject, Yield, Yields, IsPlain, UnitFlag, IntervalUnit;
    var ys := seq(8, i requires 0 <= i < 8 => Yield(kids[i]));
    assert Means(43, vs[0], ys[0]) && Means(7, vs[1], ys[1]) && Means(50, vs[2], ys[2]) && Means(10, vs[3], ys[3]);
    assert Means(50, vs[4], ys[4]) && Means(10, vs[5], ys[5]) && Means(3, vs[6], ys[6]) && Means(8, vs[7], ys[7]);
    EightYields(kids);
    var s := vs[6].o.s;
    var n := UnitFlag(INTERVAL_UNITS, s).value;
    IntervalUnits(s, n);
    ArgumentsAndUnit(vs[2].o, vs[4].o, n, ys[0], ys[1], ys[2], ys[3], ys[4], ys[5], ys[6], ys[7]);
  }

  lemma TimezoneRule(kids: seq<Tree>, vs: seq<Value>)
    requires KidsMean(20, kids, vs)
    ensures Act(20, vs).Some? && Means(46, Act(20, vs).value, Yields(kids))
  {
    hide SpellsObject, Yield, Yields, IsPlain;
    var ys := seq(6, i requires 0 <= i < 6 => Yield(kids[i]));
    assert Means(45, vs[0], ys[0]) && Means(7, vs[1], ys[1]) && Means(50, vs[2], ys[2]) && Means(10, vs[3], ys[3]);
    assert Means(3, vs[4], ys[4]) && Means(8, vs[5], ys[5]);
    YieldsMany(kids);
    var s := vs[4].o.s;
    ArgumentAndString(10, vs[2].o, Str(s), s, ys[0], ys[1], ys[2], ys[3], ys[4], ys[5]);
  }

  lemma ModifierRule(kids: seq<Tree>, vs: seq<Value>)
    requires KidsMean(37, kids, vs)
    ensures Act(37, vs).Some? && Means(50, Act(37, vs).value, Yields(kids))
  {
    hide SpellsObject, Yield, Yields, IsPlain, ModifierKind;
    var ys := seq(3, i requires 0 <= i < 3 => Yield(kids[i]));
    assert Means(49, vs[0], ys[0]) && Means(9, vs[1], ys[1]) && Means(48, vs[2], ys[2]);
    YieldsMany(kids);
    ModifiedValue(vs[0].o, vs[2].n, ys[0], ys[1], ys[2]);
  }

  lemma OptionsRule(kids: seq<Tree>, vs: seq<Value>)
    requires KidsMean(8, kids, vs)
    ensures Act(8, vs).Some? && Means(38, Act(8, vs).value, Yields(kids))
  {
    hide Yield, Yields, IsOptions, FlagsOf;
    var ys := seq(3, i requires 0 <= i < 3 => Yield(kids[i]));
    assert Means(38, vs[0], ys[0]) && Means(10, vs[1], ys[1]) && Means(37, vs[2], ys[2]);
    YieldsMany(kids);
    MoreOptions(ys[0], ys[1], ys[2]);
  }

  lemma SelectionRule(kids: seq<Tree>, vs: seq<Value>)
    requires KidsMean(2, kids, vs)
    ensures Act(2, vs).Some? && Means(36, Act(2, vs).value, Yields(kids))
  {
    hide SpellsObject, Yield, Yields, IsOptions, FlagsOf, SpellsSelection;
    var ys := seq(3, i requires 0 <= i < 3 => Yield(kids[i]));
    assert Means(50, vs[0], ys[0]) && Means(11, vs[1], ys[1]) && Means(38, vs[2], ys[2]);
    YieldsMany(kids);
    WithOptions(vs[0].o, ys[0], ys[1], ys[2]);
  }

  // The rules with one symbol on the right-hand side: options,
  lemma OptionRules(r: int, kids: seq<Tree>, vs: seq<Value>)
    requires (5 <= r <= 7 || r == 9) && KidsMean(r, kids, vs)
    ensures Act(r, vs).Some? && Means(YyR1(r), Act(r, vs).value, Yields(kids))
  {
    hide SpellsObject, IsPlain, Yield, Yields, SpellsSelection;
    Single(kids[0]);
    assert kids == [kids[0]];
    var ts := Yield(kids[0]);
    assert Means(Rhs(r)[0], vs[0], ts);
    if 5 <= r <= 7 { OneOption(ts[0]); }
  }

  // keywords of functions,
  lemma KeywordRules(r: int, kids: seq<Tree>, vs: seq<Value>)
    requires (10 <= r <= 13 || r == 15 || r == 17 || r == 19) && KidsMean(r, kids, vs)
    ensures Act(r, vs).Some? && Means(YyR1(r), Act(r, vs).value, Yields(kids))
  {
    hide SpellsObject, IsPlain, Yield, Yields, SpellsSelection, IsOptions, FlagsOf;
    Single(kids[0]);
    assert kids == [kids[0]];
    assert Means(Rhs(r)[0], vs[0], Yield(kids[0]));
  }

  // keywords after a colon,
  lemma ModifierRules(r: int, kids: seq<Tree>, vs: seq<Value>)
    requires 25 <= r <= 32 && KidsMean(r, kids, vs)
    ensures Act(r, vs).Some? && Means(YyR1(r), Act(r, vs).value, Yields(kids))
  {
    hide SpellsObject, IsPlain, Yield, Yields, SpellsSelection, IsOptions, FlagsOf;
    Single(kids[0]);
    assert kids == [kids[0]];
    assert Means(Rhs(r)[0], vs[0], Yield(kids[0]));
  }

  // tokens that are values,
  lemma TokenRules(r: int, kids: seq<Tree>, vs: seq<Value>)
    requires 33 <= r <= 35 && KidsMean(r, kids, vs)
    ensures Act(r, vs).Some? && Means(YyR1(r), Act(r, vs).value, Yields(kids))
  {
    hide SpellsObject, IsPlain, Typed, Yield, Yields, SpellsSelection, IsOptions, FlagsOf;
    Single(kids[0]);
    assert kids == [kids[0]];
    assert Means(Rhs(r)[0], vs[0], Yield(kids[0]));
    TokenIsPlain(Rhs(r)[0], vs[0]);
  }

  lemma TokenIsPlain(kind: nat, v: Value)
    requires 3 <= kind <= 5 && Typed(kind, v)
    ensures v.Obj? && IsPlain(v.o, [Token(kind, v)])
  {
  }

  // and those that only give their value another name.
  lemma RenamingRules(r: int, kids: seq<Tree>, vs: seq<Value>)
    requires (r == 3 || 21 <= r <= 24 || r == 36 || r == 38) && KidsMean(r, kids, vs)
    ensures Act(r, vs).Some? && Means(YyR1(r), Act(r, vs).value, Yields(kids))
  {
    hide IsPlain, IsModified, Yield, Yields, IsOptions, FlagsOf;
    Single(kids[0]);
    assert kids == [kids[0]];
    assert Means(Rhs(r)[0], vs[0], Yield(kids[0]));
  }

  // Every action gives what the tokens under its rule spell.
  lemma ActMeans(r: int, kids: seq<Tree>, vs: seq<Value>)
    requires 2 <= r <= 39 && r != 4 && KidsMean(r, kids, vs) && Act(r, vs).Some?
    ensures Means(YyR1(r), Act(r, vs).value, Yields(kids))
  {
    LongRules();
    hide Means, Act, Yields, KidsMean, Rhs;
    if r == 2 { SelectionRule(kids, vs); }
    else if r == 8 { OptionsRule(kids, vs); }
    else if r == 14 { OneArgumentRule(kids, vs); }
    else if r == 16 { ExtractRule(kids, vs); }
    else if r == 18 { IntervalRule(kids, vs); }
    else if r == 20 { TimezoneRule(kids, vs); }
    else if r == 37 { ModifierRule(kids, vs); }
    else if 5 <= r <= 7 || r == 9 { OptionRules(r, kids, vs); }
    else if 10 <= r <= 13 || r == 15 || r == 17 || r == 19 { KeywordRules(r, kids, vs); }
    else if 25 <= r <= 32 { ModifierRules(r, kids, vs); }
    else if 33 <= r <= 35 { TokenRules(r, kids, vs); }
    else if r < 39 { RenamingRules(r, kids, vs); }
    else { ErrorsMeanNothing(kids, vs); }
  }

  lemma ErrorsMeanNothing(kids: seq<Tree>, vs: seq<Value>)
    requires KidsMean(39, kids, vs)
    ensures Act(39, vs) == None
  {
  }

  lemma LongRules()
    ensures YyR1(2) == 36 && YyR1(8) == 38 && YyR1(14) == 40 && YyR1(16) == 42 && YyR1(18) == 44 && YyR1(20) == 46
    ensures YyR1(37) == 50
  {
  }

  // ------------------------------------------------------------------------------------ what trees spell

  // The tokens of a tree spell what it means.
  lemma {:induction false} TreeMeans(t: Tree)
    requires WellFormed(t) && TypedTokens(Yield(t)) && Meaning(t).Some?
    ensures Means(Symbol(t), Meaning(t).value, Yield(t))
  {
    match t
    case Leaf(tok) =>
      assert Yield(t)[0] == tok && tok == Token(tok.kind, tok.val);
    case Node(r, kids) =>
      hide Act, Means, Typed, YyR1, Rhs;
      var vs := Meanings(kids).value;
      TreesMean(kids, vs);
      assert |Symbols(kids)| == |kids|;
      forall i | 0 <= i < |kids|
        ensures Means(Rhs(r)[i], vs[i], Yield(kids[i]))
      {
        assert Symbols(kids)[i] == Rhs(r)[i];
      }
      ActMeans(r, kids, vs);
  }

  lemma {:induction false} TreesMean(ts: seq<Tree>, vs: seq<Value>)
    requires (forall t :: t in ts ==> WellFormed(t)) && TypedTokens(Yields(ts)) && Meanings(ts) == Some(vs)
    ensures |vs| == |ts| && forall i :: 0 <= i < |ts| ==> Means(Symbol(ts[i]), vs[i], Yield(ts[i]))
  {
    hide Means, Typed, WellFormed, Symbol, Yield, Meaning;
    if ts != [] {
      TypedParts(Yield(ts[0]), Yields(ts[1..]));
      var tail := Meanings(ts[1..]).value;
      TreeMeans(ts[0]);
      TreesMean(ts[1..], tail);
      assert vs == [Meaning(ts[0]).value] + tail;
    }
  }

  // Whatever the grammar derives spells what it means.
  lemma DerivedIsSpelled(input: seq<Token>, v: Value)
    requires TypedTokens(input) && Derives(input, v)
    ensures v.Selection? && SpellsSelection(v.o, v.flags, input)
  {
    hide SpellsSelection, WellFormed, Yield, Meaning, Typed;
    var t :| DerivedBy(t, input, v);
    TreeMeans(t);
  }

  // ------------------------------------------------------------------------------------ trees for spellings

  ghost predicate IsTree(t: Tree, x: int, ts: seq<Token>, v: Value)
  {
    WellFormed(t) && Symbol(t) == x && Yield(t) == ts && Meaning(t) == Some(v)
  }

  lemma LeafTree(tok: Token)
    requires 3 <= tok.kind <= 34
    ensures IsTree(Leaf(tok), tok.kind, [tok], tok.val)
  {
  }

  ghost predicate KidsAre(r: int, kids: seq<Tree>, vs: seq<Value>)
  {
    |kids| == |vs| == |Rhs(r)| && forall i :: 0 <= i < |kids| ==> IsTree(kids[i], Rhs(r)[i], Yield(kids[i]), vs[i])
  }

  lemma {:induction false} AllMean(kids: seq<Tree>, vs: seq<Value>)
    requires |kids| == |vs| && forall i :: 0 <= i < |kids| ==> Meaning(kids[i]) == Some(vs[i])
    ensures Meanings(kids) == Some(vs)
  {
    hide Meaning;
    if kids != [] {
      AllMean(kids[1..], vs[1..]);
      assert vs == [vs[0]] + vs[1..];
    }
  }

  lemma NodeTree(r: int, kids: seq<Tree>, vs: seq<Value>)
    requires 2 <= r <= 39 && r != 4 && KidsAre(r, kids, vs) && Act(r, vs).Some?
    ensures IsTree(Node(r, kids), YyR1(r), Yields(kids), Act(r, vs).value)
  {
    hide Act, Rhs, YyR1;
    assert forall i :: 0 <= i < |kids| ==> Meaning(kids[i]) == Some(vs[i]);
    AllMean(kids, vs);
    assert Symbols(kids) == Rhs(r) by {
      assert |Symbols(kids)| == |Rhs(r)|;
      assert forall i :: 0 <= i < |kids| ==> Symbols(kids)[i] == Rhs(r)[i];
    }
  }

  // A rule with one symbol on its right-hand side.
  lemma OverTree(r: int, t: Tree, ts: seq<Token>, v: Value)
    requires 2 <= r <= 39 && r != 4 && |Rhs(r)| == 1 && IsTree(t, Rhs(r)[0], ts, v) && Act(r, [v]).Some?
    ensures IsTree(Node(r, [t]), YyR1(r), ts, Act(r, [v]).value)
  {
    hide Act, Rhs, YyR1, WellFormed, Meaning, Yield, Symbol;
    Single(t);
    NodeTree(r, [t], [v]);
  }

  // The rule for the keyword of a function type, and the one for the function.
  function KeywordRule(ftype: int): int
  {
    match ftype
    case 1 => 10 case 2 => 11 case 3 => 13 case 4 => 12 case 5 => 17 case 6 => 15
    case _ => 19
  }

  lemma KeywordTree(ftype: int, tok: Token) returns (t: Tree)
    requires Keyword(ftype) != 0 && tok.kind == Keyword(ftype)
    ensures IsTree(t, if ftype <= 4 then 39 else if ftype == 5 then 43 else if ftype == 6 then 41 else 45, [tok],
                   Type(ftype))
  {
    hide IsTree;
    LeafTree(tok);
    var r := KeywordRule(ftype);
    OverTree(r, Leaf(tok), [tok], tok.val);
    t := Node(r, [Leaf(tok)]);
  }

  // A function is a value.
  lemma FunctionTree(r: int, t: Tree, ts: seq<Token>, v: Value) returns (u: Tree)
    requires 21 <= r <= 24 && IsTree(t, Rhs(r)[0], ts, v)
    ensures IsTree(u, 49, ts, v)
  {
    hide IsTree;
    OverTree(r, t, ts, v);
    var f := Node(r, [t]);
    OverTree(36, f, ts, v);
    u := Node(36, [f]);
  }

  // The tree of a rule, from trees for the parts of its text.
  lemma TreeOf(r: int, kids: seq<Tree>, vs: seq<Value>, tss: seq<seq<Token>>) returns (t: Tree)
    requires 2 <= r <= 39 && r != 4 && |kids| == |vs| == |tss| == |Rhs(r)| && Act(r, vs).Some?
    requires forall i :: 0 <= i < |kids| ==> IsTree(kids[i], Rhs(r)[i], tss[i], vs[i])
    ensures IsTree(t, YyR1(r), Yields(kids), Act(r, vs).value)
    ensures forall i :: 0 <= i < |kids| ==> Yield(kids[i]) == tss[i]
  {
    hide Act, Rhs, YyR1, WellFormed, Meaning, Symbol, Yield, Yields;
    NodeTree(r, kids, vs);
    t := Node(r, kids);
  }

  lemma OneArgumentTree(ftype: int, o: Object, a: Tree, ts: seq<Token>) returns (t: Tree)
    requires 1 <= ftype <= 4 && Bracketed(ts, Keyword(ftype)) && IsTree(a, 50, ts[2..|ts| - 1], Obj(o))
    ensures IsTree(t, 40, ts, Obj(Func(ftype, [o])))
  {
    hide IsTree, Yield, Yields;
    var n := |ts| - 1;
    var k := KeywordTree(ftype, ts[0]);
    LeafTree(ts[1]);
    LeafTree(ts[n]);
    var kids := [k, Leaf(ts[1]), a, Leaf(ts[n])];
    YieldsMany(kids);
    t := TreeOf(14, kids, [Type(ftype), ts[1].val, Obj(o), ts[n].val], [[ts[0]], [ts[1]], ts[2..n], [ts[n]]]);
    assert ts == [ts[0]] + [ts[1]] + ts[2..n] + [ts[n]];
  }

  lemma InnerSlices(ts: seq<Token>, m: nat)
    requires |ts| >= 5 && m <= |ts| - 5
    ensures var n := |ts| - 1;
            var inner := ts[2..n];
            && inner[..m] == ts[2..m + 2] && inner[..n - 4] == ts[2..n - 2]
            && inner[n - 4] == ts[n - 2] && inner[n - 3] == ts[n - 1]
            && (m < n - 4 ==> inner[m] == ts[m + 2] && inner[m + 1..n - 4] == ts[m + 3..n - 2])
  {
  }

  // An argument and a string.
  lemma StringTree(r: int, o: Object, a: Tree, s: string, ts: seq<Token>) returns (t: Tree)
    requires (r == 16 || r == 20) && Bracketed(ts, if r == 16 then 18 else 19) && EndsIn(ts[2..|ts| - 1], s)
    requires IsTree(a, 50, ts[2..|ts| - 1][..|ts| - 5], Obj(o)) && (r == 16 ==> UnitFlag(EXTRACT_UNITS, s).Some?)
    ensures IsTree(t, YyR1(r), ts, if r == 20 then Obj(Func(10, [o, Str(s)]))
                                   else Obj(Func(6, [o, Int(UnitFlag(EXTRACT_UNITS, s).value)])))
  {
    hide IsTree, Yield, Yields, UnitFlag;
    var n := |ts| - 1;
    InnerSlices(ts, 0);
    var ftype := if r == 16 then 6 else 10;
    var k := KeywordTree(ftype, ts[0]);
    LeafTree(ts[1]);
    LeafTree(ts[n - 2]);
    LeafTree(ts[n - 1]);
    LeafTree(ts[n]);
    var kids := [k, Leaf(ts[1]), a, Leaf(ts[n - 2]), Leaf(ts[n - 1]), Leaf(ts[n])];
    YieldsMany(kids);
    t := TreeOf(r, kids, [Type(ftype), ts[1].val, Obj(o), ts[n - 2].val, Obj(Str(s)), ts[n].val],
                [[ts[0]], [ts[1]], ts[2..n - 2], [ts[n - 2]], [ts[n - 1]], [ts[n]]]);
    assert ts == [ts[0]] + [ts[1]] + ts[2..n - 2] + [ts[n - 2]] + [ts[n - 1]] + [ts[n]];
  }

  // Two arguments and a unit.
  lemma IntervalTree(o: Object, o': Object, a: Tree, b: Tree, m: nat, s: string, ts: seq<Token>) returns (t: Tree)
    requires Bracketed(ts, 16) && EndsIn(ts[2..|ts| - 1], s) && UnitFlag(INTERVAL_UNITS, s).Some?
    requires var inner := ts[2..|ts| - 1];
             && m < |inner| - 2 && inner[m].kind == 10
             && IsTree(a, 50, inner[..m], Obj(o)) && IsTree(b, 50, inner[m + 1..|inner| - 2], Obj(o'))
    ensures IsTree(t, 44, ts, Obj(Func(5, [o, o', Int(UnitFlag(INTERVAL_UNITS, s).value)])))
  {
    hide IsTree, Yield, Yields, UnitFlag;
    var n, c := |ts| - 1, m + 2;
    InnerSlices(ts, m);
    var k := KeywordTree(5, ts[0]);
    LeafTree(ts[1]);
    LeafTree(ts[c]);
    LeafTree(ts[n - 2]);
    LeafTree(ts[n - 1]);
    LeafTree(ts[n]);
    var kids := [k, Leaf(ts[1]), a, Leaf(ts[c]), b, Leaf(ts[n - 2]), Leaf(ts[n - 1]), Leaf(ts[n])];
    EightYields(kids);
    t := TreeOf(18, kids, [Type(5), ts[1].val, Obj(o), ts[c].val, Obj(o'), ts[n - 2].val, Obj(Str(s)), ts[n].val],
                [[ts[0]], [ts[1]], ts[2..c], [ts[c]], ts[c + 1..n - 2], [ts[n - 2]], [ts[n - 1]], [ts[n]]]);
    assert ts == [ts[0]] + [ts[1]] + ts[2..c] + [ts[c]] + ts[c + 1..n - 2] + [ts[n - 2]] + [ts[n - 1]] + [ts[n]];
  }

  // A value, a colon and a keyword.
  lemma ModifiedTree(o: Object, n: int, a: Tree, ts: seq<Token>) returns (t: Tree)
    requires |ts| >= 2 && ts[|ts| - 2].kind == 9 && ts[|ts| - 1].kind == ModifierKind(n) != 0
    requires IsTree(a, 49, ts[..|ts| - 2], Obj(o))
    ensures IsTree(t, 50, ts, Obj(Func(6, [o, Int(n)])))
  {
    hide IsTree, Yield, Yields;
    var i := |ts| - 2;
    LeafTree(ts[i]);
    LeafTree(ts[i + 1]);
    var m := ModifierTree(n, ts[i + 1]);
    var kids := [a, Leaf(ts[i]), m];
    YieldsMany(kids);
    t := TreeOf(37, kids, [Obj(o), ts[i].val, Modifier(n)], [ts[..i], [ts[i]], [ts[i + 1]]]);
    assert ts == ts[..i] + [ts[i]] + [ts[i + 1]];
  }

  lemma ModifierTree(n: int, tok: Token) returns (t: Tree)
    requires tok.kind == ModifierKind(n) != 0
    ensures IsTree(t, 48, [tok], Modifier(n))
  {
    hide IsTree;
    LeafTree(tok);
    var r := if n == 8 then 25 else 25 + n;
    assert r == 25 || r == 26 || r == 27 || r == 28 || r == 29 || r == 30 || r == 31 || r == 32;
    OverTree(r, Leaf(tok), [tok], tok.val);
    t := Node(r, [Leaf(tok)]);
  }

  // Every plain spelling is the text of a value in the grammar,
  lemma {:induction false} PlainTree(o: Object, ts: seq<Token>) returns (t: Tree)
    requires IsPlain(o, ts)
    ensures IsTree(t, 49, ts, Obj(o))
    decreases o, 1
  {
    if o.Func? {
      hide IsTree, IsPlain, Bracketed;
      KeywordKnown(o, ts);
      if o.ftype == 5 {
        t := IntervalCase(o, ts);
      } else if o.ftype == 6 || o.ftype == 10 {
        t := StringCase(o, ts);
      } else {
        t := OneArgumentCase(o, ts);
      }
    } else {
      hide IsTree, Bracketed;
      var r := if o.IdmefPath? then 33 else if o.Str? then 34 else 35;
      LeafTree(ts[0]);
      OverTree(r, Leaf(ts[0]), ts, Obj(o));
      t := Node(r, [Leaf(ts[0])]);
    }
  }

  lemma KeywordKnown(o: Object, ts: seq<Token>)
    requires o.Func? && IsPlain(o, ts)
    ensures 1 <= o.ftype <= 6 || o.ftype == 10
  {
  }

  lemma {:induction false} IntervalCase(o: Object, ts: seq<Token>) returns (t: Tree)
    requires o.Func? && o.ftype == 5 && IsPlain(o, ts)
    ensures IsTree(t, 49, ts, Obj(o))
    decreases o, 0
  {
    hide IsTree, UnitFlag, IntervalUnit;
    var inner := ts[2..|ts| - 1];
    var m :| 0 <= m < |inner| - 2 && inner[m].kind == 10
             && SpellsObject(o.args[0], inner[..m]) && SpellsObject(o.args[1], inner[m + 1..|inner| - 2]);
    var a := ObjectTree(o.args[0], inner[..m]);
    var b := ObjectTree(o.args[1], inner[m + 1..|inner| - 2]);
    IntervalUnits(IntervalUnit(o.args[2].n), o.args[2].n);
    t := IntervalTree(o.args[0], o.args[1], a, b, m, IntervalUnit(o.args[2].n), ts);
    assert o.args == [o.args[0], o.args[1], o.args[2]];
    t := FunctionTree(22, t, ts, Obj(o));
  }

  lemma {:induction false} StringCase(o: Object, ts: seq<Token>) returns (t: Tree)
    requires o.Func? && (o.ftype == 6 || o.ftype == 10) && IsPlain(o, ts)
    ensures IsTree(t, 49, ts, Obj(o))
    decreases o, 0
  {
    hide IsTree, UnitFlag, ExtractUnit;
    var inner := ts[2..|ts| - 1];
    var a := ObjectTree(o.args[0], inner[..|inner| - 2]);
    assert o.args == [o.args[0], o.args[1]];
    if o.ftype == 6 {
      ExtractUnits(ExtractUnit(o.args[1].n), o.args[1].n);
      t := StringTree(16, o.args[0], a, ExtractUnit(o.args[1].n), ts);
      t := FunctionTree(23, t, ts, Obj(o));
    } else {
      t := StringTree(20, o.args[0], a, o.args[1].s, ts);
      t := FunctionTree(24, t, ts, Obj(o));
    }
  }

  lemma {:induction false} OneArgumentCase(o: Object, ts: seq<Token>) returns (t: Tree)
    requires o.Func? && 1 <= o.ftype <= 4 && IsPlain(o, ts)
    ensures IsTree(t, 49, ts, Obj(o))
    decreases o, 0
  {
    hide IsTree;
    var a := ObjectTree(o.args[0], ts[2..|ts| - 1]);
    t := OneArgumentTree(o.ftype, o.args[0], a, ts);
    assert o.args == [o.args[0]];
    t := FunctionTree(21, t, ts, Obj(o));
  }

  // and every spelling that of an object.
  lemma {:induction false} ObjectTree(o: Object, ts: seq<Token>) returns (t: Tree)
    requires SpellsObject(o, ts)
    ensures IsTree(t, 50, ts, Obj(o))
    decreases o, 2
  {
    hide IsTree, IsPlain;
    if IsPlain(o, ts) {
      var a := PlainTree(o, ts);
      OverTree(38, a, ts, Obj(o));
      t := Node(38, [a]);
    } else {
      var a := PlainTree(o.args[0], ts[..|ts| - 2]);
      assert o.args == [o.args[0], o.args[1]];
      t := ModifiedTree(o.args[0], o.args[1].n, a, ts);
    }
  }

  lemma {:induction false} OptionsTree(ts: seq<Token>) returns (t: Tree)
    requires IsOptions(ts)
    ensures IsTree(t, 38, ts, Flag(FlagsOf(ts)))
    decreases |ts|
  {
    hide IsTree, FlagsOf, Yield, Yields;
    var n := |ts| - 1;
    var option := OptionTree(ts[n]);
    if n == 0 {
      assert ts == [ts[0]];
      OverTree(9, option, ts, Flag(FlagsOf(ts)));
      t := Node(9, [option]);
    } else {
      var before := ts[..n - 1];
      var a := OptionsTree(before);
      assert (n - 1) % 2 == 1 && n % 2 == 0;
      LeafTree(ts[n - 1]);
      OneOption(ts[n]);
      MoreOptions(before, [ts[n - 1]], [ts[n]]);
      var kids := [a, Leaf(ts[n - 1]), option];
      YieldsMany(kids);
      t := TreeOf(8, kids, [Flag(FlagsOf(before)), ts[n - 1].val, Flag(FlagsOf([ts[n]]))],
                  [before, [ts[n - 1]], [ts[n]]]);
      assert ts == before + [ts[n - 1]] + [ts[n]];
    }
  }

  lemma OptionTree(tok: Token) returns (t: Tree)
    requires 32 <= tok.kind <= 34
    ensures IsTree(t, 37, [tok], Flag(FlagsOf([tok])))
  {
    hide IsTree, FlagsOf;
    LeafTree(tok);
    OneOption(tok);
    var r := tok.kind - 27;
    OverTree(r, Leaf(tok), [tok], tok.val);
    t := Node(r, [Leaf(tok)]);
  }

  lemma SelectionTree(o: Object, flags: Option<bv8>, ts: seq<Token>) returns (t: Tree)
    requires SpellsSelection(o, flags, ts)
    ensures IsTree(t, 36, ts, Selection(o, flags))
  {
    hide IsTree, FlagsOf, IsOptions, SpellsObject, Yield, Yields;
    if flags.None? {
      var a := ObjectTree(o, ts);
      OverTree(3, a, ts, Obj(o));
      t := Node(3, [a]);
    } else {
      var n :| 0 <= n < |ts| && SpellsObject(o, ts[..n]) && ts[n].kind == 11 && IsOptions(ts[n + 1..])
               && flags.value == FlagsOf(ts[n + 1..]);
      var a := ObjectTree(o, ts[..n]);
      var b := OptionsTree(ts[n + 1..]);
      LeafTree(ts[n]);
      var kids := [a, Leaf(ts[n]), b];
      YieldsMany(kids);
      t := TreeOf(2, kids, [Obj(o), ts[n].val, Flag(flags.value)], [ts[..n], [ts[n]], ts[n + 1..]]);
      assert ts == ts[..n] + [ts[n]] + ts[n + 1..];
    }
  }

  // ------------------------------------------------------------------------------------ the grammar spells

  // The grammar derives a selection from exactly the tokens that spell it.
  lemma DerivesExactlySpelled(input: seq<Token>, o: Object, flags: Option<bv8>)
    requires TypedTokens(input)
    ensures Derives(input, Selection(o, flags)) <==> SpellsSelection(o, flags, input)
  {
    hide SpellsSelection, WellFormed, Yield, Meaning, Typed;
    if Derives(input, Selection(o, flags)) { DerivedIsSpelled(input, Selection(o, flags)); }
    if SpellsSelection(o, flags, input) {
      var t := SelectionTree(o, flags, input);
      assert DerivedBy(t, input, Selection(o, flags));
    }
  }

  // Tokens are a path selection exactly when they spell one,
  lemma SelectionsAreSpelled(input: seq<Token>)
    requires TypedTokens(input)
    ensures IsSelection(input) <==> exists o, flags :: SpellsSelection(o, flags, input)
  {
    hide SpellsSelection, WellFormed, Yield, Meaning, Typed, UnitsKnown;
    if IsSelection(input) {
      var t :| IsSelectionTree(t, input);
      MeaningTyped(t);
      var v := Meaning(t).value;
      assert DerivedBy(t, input, v);
      DerivedIsSpelled(input, v);
    }
    if exists o, flags :: SpellsSelection(o, flags, input) {
      var o, flags :| SpellsSelection(o, flags, input);
      var t := SelectionTree(o, flags, input);
      MeaningTyped(t);
      assert IsSelectionTree(t, input);
    }
  }

  // and they spell only one.
  lemma SpellingIsUnique(input: seq<Token>, o: Object, flags: Option<bv8>, o': Object, flags': Option<bv8>)
    requires TypedTokens(input)
    requires SpellsSelection(o, flags, input) && SpellsSelection(o', flags', input)
    ensures o == o' && flags == flags'
  {
    hide SpellsSelection, WellFormed, Yield, Meaning, Typed, Derives;
    DerivesExactlySpelled(input, o, flags);
    DerivesExactlySpelled(input, o', flags');
    MeaningIsUnique(input, Selection(o, flags), Selection(o', flags'));
  }

  // ------------------------------------------------------------------------------------ flags

  // No slash and no option.
  predicate Free(ts: seq<Token>)
  {
    forall i :: 0 <= i < |ts| ==> ts[i].kind != 11 && !(32 <= ts[i].kind <= 34)
  }

  lemma FreeInBrackets(ts: seq<Token>, ftype: int)
    requires Bracketed(ts, Keyword(ftype)) && Free(ts[2..|ts| - 1])
    ensures Free(ts)
  {
    forall i | 0 <= i < |ts|
      ensures ts[i].kind != 11 && !(32 <= ts[i].kind <= 34)
    {
      if 2 <= i < |ts| - 1 { assert ts[i] == ts[2..|ts| - 1][i - 2]; }
    }
  }

  lemma FreeToEnd(ts: seq<Token>, e: int)
    requires 0 <= e == |ts| - 2 && ts[e].kind < 11 && ts[e + 1].kind != 11 && ts[e + 1].kind < 32 && Free(ts[..e])
    ensures Free(ts)
  {
    forall i | 0 <= i < |ts|
      ensures ts[i].kind != 11 && !(32 <= ts[i].kind <= 34)
    {
      if i < e { assert ts[i] == ts[..e][i]; }
    }
  }

  lemma FreeInTwo(ts: seq<Token>, m: nat)
    requires m < |ts| && Free(ts[..m]) && ts[m].kind == 10 && Free(ts[m + 1..])
    ensures Free(ts)
  {
    forall i | 0 <= i < |ts|
      ensures ts[i].kind != 11 && !(32 <= ts[i].kind <= 34)
    {
      if i < m { assert ts[i] == ts[..m][i]; }
      if i > m { assert ts[i] == ts[m + 1..][i - m - 1]; }
    }
  }

  lemma {:induction false} PlainIsFree(o: Object, ts: seq<Token>)
    requires IsPlain(o, ts)
    ensures Free(ts)
    decreases o, 1
  {
    if o.Func? {
      hide Free, ExtractUnit, IntervalUnit, Keyword;
      var inner := ts[2..|ts| - 1];
      var e := |inner| - 2;
      if o.ftype == 5 {
        TwoAreFree(o, inner);
        FreeToEnd(inner, e);
      } else if o.ftype == 6 || o.ftype == 10 {
        ObjectIsFree(o.args[0], inner[..e]);
        FreeToEnd(inner, e);
      } else {
        ObjectIsFree(o.args[0], inner);
      }
      FreeInBrackets(ts, o.ftype);
    }
  }

  lemma TwoAreFree(o: Object, inner: seq<Token>)
    requires o.Func? && |o.args| == 3 && |inner| >= 2
    requires exists m :: 0 <= m < |inner| - 2 && inner[m].kind == 10
                         && SpellsObject(o.args[0], inner[..m]) && SpellsObject(o.args[1], inner[m + 1..|inner| - 2])
    ensures Free(inner[..|inner| - 2])
    decreases o, 0
  {
    hide Free, SpellsObject;
    var e := |inner| - 2;
    var m :| 0 <= m < e && inner[m].kind == 10
             && SpellsObject(o.args[0], inner[..m]) && SpellsObject(o.args[1], inner[m + 1..e]);
    ObjectIsFree(o.args[0], inner[..m]);
    ObjectIsFree(o.args[1], inner[m + 1..e]);
    assert inner[..e][..m] == inner[..m] && inner[..e][m + 1..] == inner[m + 1..e];
    FreeInTwo(inner[..e], m);
  }

  // They do not occur in the spelling of an object.
  lemma {:induction false} ObjectIsFree(o: Object, ts: seq<Token>)
    requires SpellsObject(o, ts)
    ensures Free(ts)
    decreases o, 2
  {
    hide IsPlain;
    if IsPlain(o, ts) {
      PlainIsFree(o, ts);
    } else {
      PlainIsFree(o.args[0], ts[..|ts| - 2]);
      FreeToEnd(ts, |ts| - 2);
    }
  }

  lemma FreeHasNone(ts: seq<Token>, kind: nat)
    requires Free(ts) && (kind == 11 || 32 <= kind <= 34)
    ensures !Has(ts, kind)
  {
  }

  lemma HasBehind(ts: seq<Token>, n: nat, kind: nat)
    requires n < |ts| && Free(ts[..n]) && ts[n].kind == 11 && (kind == 11 || 32 <= kind <= 34)
    ensures Has(ts, kind) <==> kind == 11 || Has(ts[n + 1..], kind)
  {
    hide Has, Free;
    assert ts == ts[..n] + [ts[n]] + ts[n + 1..];
    HasConcat(ts[..n] + [ts[n]], ts[n + 1..], kind);
    HasConcat(ts[..n], [ts[n]], kind);
    HasOne(ts[n], kind);
    FreeHasNone(ts[..n], kind);
  }

  // The flags are given exactly when there is a slash, and say which options occur anywhere in the input.
  lemma FlagsOfInput(input: seq<Token>, o: Object, flags: Option<bv8>)
    requires SpellsSelection(o, flags, input)
    ensures flags == if Has(input, 11) then Some(FlagsOf(input)) else None
  {
    hide Has, SpellsObject, IsOptions, Free;
    if flags.None? {
      ObjectIsFree(o, input);
      FreeHasNone(input, 11);
    } else {
      var n :| 0 <= n < |input| && SpellsObject(o, input[..n]) && input[n].kind == 11 && IsOptions(input[n + 1..])
               && flags.value == FlagsOf(input[n + 1..]);
      ObjectIsFree(o, input[..n]);
      HasBehind(input, n, 11);
      HasBehind(input, n, 32);
      HasBehind(input, n, 33);
      HasBehind(input, n, 34);
    }
  }

  // ------------------------------------------------------------------------------------ colons

  // A value with a colon and a keyword spells what extract with the value and the unit of that keyword does.
  lemma ColonIsExtract(o: Object, n: int, y: seq<Token>, ks: seq<Token>, k: Token, u: Token)
    requires IsPlain(o, y) && k.kind == ModifierKind(n) != 0 && u == Token(3, Obj(Str(ExtractUnit(n))))
    requires |ks| == 5 && ks[0].kind == 9 && ks[1].kind == 18 && ks[2].kind == 7 && ks[3].kind == 10 && ks[4].kind == 8
    ensures SpellsObject(Func(6, [o, Int(n)]), y + [ks[0]] + [k])
    ensures SpellsObject(Func(6, [o, Int(n)]), [ks[1]] + [ks[2]] + y + [ks[3]] + [u] + [ks[4]])
  {
    ModifierHasUnit(n);
    hide IsPlain, ModifierKind, ExtractUnit;
    ModifiedValue(o, n, y, [ks[0]], [k]);
    ArgumentAndString(6, o, Int(n), ExtractUnit(n), [ks[1]], [ks[2]], y, [ks[3]], [u], [ks[4]]);
  }

  lemma ModifierHasUnit(n: int)
    ensures ModifierKind(n) != 0 ==> ExtractUnit(n) != ""
  {
  }

  // ------------------------------------------------------------------------------------ the result

  // What a selection leaves behind: its object, and its flags if it gives any.
  ghost predicate Selects(input: seq<Token>, o: Object, flags: bv8, before: bv8)
  {
    SpellsSelection(o, if Has(input, 11) then Some(flags) else None, input)
    && flags == if Has(input, 11) then FlagsOf(input) else before
  }

  lemma DerivedIsSelected(input: seq<Token>, v: Value, flags: bv8, before: bv8)
    requires TypedTokens(input) && Derives(input, v) && v.Selection?
    requires flags == if v.flags.Some? then v.flags.value else before
    ensures Selects(input, v.o, flags, before)
  {
    hide SpellsSelection, Derives, Has, FlagsOf;
    DerivedIsSpelled(input, v);
    FlagsOfInput(input, v.o, v.flags);
  }

  // Flag by flag, for a selection with options.
  lemma FlagBits(ts: seq<Token>)
    ensures FlagsOf(ts) & 0x40 != 0 <==> exists i :: 0 <= i < |ts| && ts[i].kind == 32
    ensures FlagsOf(ts) & 0x80 != 0 <==> exists i :: 0 <= i < |ts| && ts[i].kind == 33
    ensures FlagsOf(ts) & 0x20 != 0 <==> exists i :: 0 <= i < |ts| && ts[i].kind == 34
    ensures FlagsOf(ts) & 0x1F == 0
  {
  }
}
