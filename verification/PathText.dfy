// Writing selections: every object that can be written is read back from its text.
module PathText {
  import opened Wrappers
  import opened ScannerTables
  import opened ScannerMoves
  import opened PathGrammar
  import opened PathMeaning
  import opened PathScanner
  import opened PathSpelling
  import opened LexemeWords
  import opened LexemeStrings
  import LexemeNumbers
  import LexemePaths
  import Decimal
  import opened NumberText

  // ------------------------------------------------------------------------------------ words with spaces

  // The word is scanned as the token, and ends before a space.
  ghost predicate Writes(w: string, t: Token, pathError: string -> int)
  {
    && Clean(w) && Accepts(w) && !Skipped(Rule(w)) && !IsSpace(w[0])
    && TokenOf(Lexeme(Rule(w), w), pathError) == t && Reach(w + [' ']) == 160
  }

  // The words, with a space after each.
  function Spaced(ws: seq<string>): string
  {
    if ws == [] then "" else ws[0] + [' '] + Spaced(ws[1..])
  }

  lemma {:induction false} JamGoesOn(text: string, n: nat, m: nat)
    requires Clean(text) && n <= m <= |text| && Reach(text[..n]) == 160
    ensures Reach(text[..m]) == 160
  {
    hide Reach, Delta, Class;
    if n < m {
      JamGoesOn(text, n, m - 1);
      assert text[..m] == text[..m - 1] + [text[m - 1]];
      ReachMore(text[..m - 1], text[m - 1]);
      ClassPositive(text[m - 1]);
      JamStays(Class(text[m - 1]));
    }
  }

  // A prefix is the next lexeme if it is accepted and cannot be continued.
  lemma NextLexeme(text: string, n: nat)
    requires Clean(text) && 0 < n <= |text| && Accepts(text[..n])
    requires n < |text| ==> Reach(text[..n + 1]) == 160
    ensures Longest(text) == n
  {
    hide Reach, YyAccept, Longest;
    AcceptRange(160);
    forall m | n < m <= |text|
      ensures !Accepts(text[..m])
    {
      JamGoesOn(text, n + 1, m);
    }
    LongestFound(text);
    LongestUnique(text, n, Longest(text));
  }

  lemma LongestFound(text: string)
    requires Clean(text) && text != ""
    ensures IsLongest(text, Longest(text))
  {
    hide Accepts;
    LongestIs(text);
  }

  lemma SpaceThenWord(c: char)
    requires 1 <= c as int <= 255
    ensures Accepts(" ") && Rule(" ") == 32
    ensures !IsSpace(c) ==> Reach([' '] + [c]) == 160
  {
    hide Reach, Delta, YyAccept, Class, YyEc;
    SpaceRule(" ");
    assert [' '] == "" + [' '];
    StartIsFirst();
    ReachMore("", ' ');
    SpaceState();
    ReachMore([' '], c);
    ClassPositive(c);
    SpaceClass(c);
    Move5(Class(c));
  }

  lemma SpaceState()
    ensures Delta(1, Class(' ')) == 5
  {
    SpaceIsTwo();
    hide Class, Delta;
    DeltaUnfolds(1, 2);
  }

  lemma {:induction false} SpacedIsClean(ws: seq<string>)
    requires forall i :: 0 <= i < |ws| ==> Clean(ws[i])
    ensures Clean(Spaced(ws))
  {
    if ws != [] { SpacedIsClean(ws[1..]); }
  }

  // A word and a space in front of a text are one token more.
  lemma OneWordMore(w: string, t: Token, rest: string, pathError: string -> int)
    requires Writes(w, t, pathError) && Clean(rest) && (rest == "" || !IsSpace(rest[0]))
    ensures var text := w + [' '] + rest;
            Clean(text) && Scanned(text, pathError) == [t] + Scanned(rest, pathError)
  {
    hide Reach, Longest, Rule, Skipped, TokenOf, IsSpace, YyAccept;
    var text, n := w + [' '] + rest, |w|;
    var behind := [' '] + rest;
    assert text[..n] == w && text[..n + 1] == w + [' '] && text[n..] == behind;
    NextLexeme(text, n);
    SpaceThenWord(if rest == "" then ' ' else rest[0]);
    assert behind[..1] == " " && behind[1..] == rest;
    if rest != "" { assert behind[..2] == [' '] + [rest[0]]; }
    NextLexeme(behind, 1);
    assert Lex(text) == [Lexeme(Rule(w), w)] + Lex(behind);
    assert Lex(behind) == [Lexeme(32, " ")] + Lex(rest);
    assert Lex(text)[1..] == Lex(behind) && Lex(behind)[1..] == Lex(rest);
    SpaceSkipped(Lex(behind), pathError);
  }

  lemma SpaceSkipped(ls: seq<Lexeme>, pathError: string -> int)
    requires ls != [] && ls[0].rule == 32
    ensures TokensOf(ls, pathError) == TokensOf(ls[1..], pathError)
  {
    hide TokenOf;
    assert [] + TokensOf(ls[1..], pathError) == TokensOf(ls[1..], pathError);
  }

  // Words with spaces after them are scanned one by one.
  lemma {:induction false} ScanSpaced(ws: seq<string>, ts: seq<Token>, pathError: string -> int)
    requires |ws| == |ts| && forall i :: 0 <= i < |ws| ==> Writes(ws[i], ts[i], pathError)
    ensures Clean(Spaced(ws)) && Scanned(Spaced(ws), pathError) == ts
  {
    hide Reach, Longest, Rule, Skipped, TokenOf, IsSpace, YyAccept;
    SpacedIsClean(ws);
    if ws != [] {
      ScanSpaced(ws[1..], ts[1..], pathError);
      SpacedStarts(ws[1..]);
      OneWordMore(ws[0], ts[0], Spaced(ws[1..]), pathError);
    }
  }

  lemma SpacedStarts(ws: seq<string>)
    requires ws != [] ==> ws[0] != ""
    ensures if ws == [] then Spaced(ws) == "" else Spaced(ws) != "" && Spaced(ws)[0] == ws[0][0]
  {
  }

  // ------------------------------------------------------------------------------------ the text of tokens

  function IntText(n: int): string
  {
    if n < 0 then "-" + NatText(-n) else NatText(n)
  }

  // The string can stand between quotes q: those inside it have a backslash before them, and nothing swallows the
  // one at the end.
  predicate QuotableBy(s: string, q: char)
  {
    && Clean(s) && (forall i :: 0 <= i < |s| && s[i] == q ==> 0 < i && s[i - 1] == '\\')
    && (s != "" ==> s[|s| - 1] != '\\')
  }

  predicate Quotable(s: string)
  {
    QuotableBy(s, '"') || QuotableBy(s, '\'')
  }

  // The tokens that can be written.
  ghost predicate Writable(t: Token, pathError: string -> int)
  {
    match t.kind
    case 3 => t.val.Obj? && t.val.o.Str? && Quotable(t.val.o.s)
    case 4 =>
      && t.val.Obj? && t.val.o.IdmefPath? && Clean(t.val.o.path) && LexemePaths.IsPath(t.val.o.path)
      && pathError(t.val.o.path) >= 0
    case 5 => t.val.Obj? && t.val.o.Int?
    case _ => HasSpelling(t.kind) && t.val == NoValue
  }

  function TokenText(t: Token): string
  {
    if t.kind == 3 && t.val.Obj? && t.val.o.Str? then
      var q := if QuotableBy(t.val.o.s, '"') then '"' else '\'';
      [q] + t.val.o.s + [q]
    else if t.kind == 4 && t.val.Obj? && t.val.o.IdmefPath? then t.val.o.path
    else if t.kind == 5 && t.val.Obj? && t.val.o.Int? then IntText(t.val.o.n)
    else if HasSpelling(t.kind) then Spelling(t.kind)
    else ""
  }

  lemma SpaceAfter(w: string)
    requires Clean(w) && Delta(Reach(w), 2) == 160
    ensures Reach(w + [' ']) == 160
  {
    hide Reach, Delta;
    ReachMore(w, ' ');
    SpaceIsTwo();
  }

  lemma SpaceIsTwo()
    ensures Class(' ') == 2
  {
  }

  lemma FinalStops(kind: int)
    requires HasSpelling(kind)
    ensures YyBase(Final(kind)) == 234 && Spelling(kind) != "" && !IsSpace(Spelling(kind)[0])
  {
  }

  lemma WordIsWritten(kind: nat, pathError: string -> int)
    requires HasSpelling(kind)
    ensures Writes(Spelling(kind), Token(kind, NoValue), pathError)
  {
    hide YyBase, YyAccept, Delta, Reach, Reads, Trie, IsSpace, TokenOf, Skipped;
    var w := Spelling(kind);
    AllSpelled(kind);
    FinalIsTrie(kind);
    WordLeads(Final(kind), w, |w|);
    assert w[..|w|] == w;
    LeadsThere(w, Final(kind), w);
    FinalStops(kind);
    StopJams(Final(kind), 2);
    SpaceAfter(w);
    SpellingTokens(w, kind, pathError);
    FinalAccepts(kind);
  }

  lemma NumberStops(s: int)
    requires IsState(s) && YyAccept(s) == 3
    ensures Delta(s, 2) == 160
  {
    NumberFinals(s);
    hide Delta;
    Move15(2);
    Move39(2);
    Move40(2);
    Move95(2);
  }

  lemma NumberFinals(s: int)
    requires YyAccept(s) == 3
    ensures s == 15 || s == 39 || s == 40 || s == 95
  {
  }

  // The text of a number is a number with that value.
  lemma IntTextIsNumber(n: int)
    ensures var w := IntText(n);
            Clean(w) && LexemeNumbers.IsNumber(w) && LexemeNumbers.HasValue(w, n) && w != "" && !IsSpace(w[0])
  {
    var d := if n < 0 then -n else n;
    var digits := NatText(d);
    NatTextDigits(d);
    DigitsAreClean(digits);
    var w := IntText(n);
    hide NatText, LexemeNumbers.IsDecimal, LexemeNumbers.HasExponent;
    assert LexemeNumbers.Body(w) == digits;
    assert digits == Repeat('0', 0) + digits + "";
    assert LexemeNumbers.Writes(digits, 0, d, "");
  }

  lemma NumberIsWritten(n: int, pathError: string -> int)
    ensures Writes(IntText(n), Token(5, Obj(Int(n))), pathError)
  {
    hide IntText, YyAccept, Reach, TokenOf, Skipped, LexemeNumbers.IsNumber, LexemeNumbers.HasValue;
    var w := IntText(n);
    IntTextIsNumber(n);
    LexemeNumbers.NumberRule(w);
    LexemeNumbers.NumberTokens(w, n, pathError);
    NumberStops(Reach(w));
    SpaceAfter(w);
    NumbersCount(w);
  }

  lemma DigitsAreClean(d: string)
    requires Decimal.AllDigits(d)
    ensures Clean(d)
  {
  }

  lemma NumbersCount(w: string)
    requires Rule(w) == 3
    ensures !Skipped(Rule(w))
  {
  }

  lemma StringIsWritten(s: string, role: int, pathError: string -> int)
    requires (role == 2 || role == 3) && QuotableBy(s, QuoteOf(role))
    ensures Writes([QuoteOf(role)] + s + [QuoteOf(role)], Token(3, Obj(Str(s))), pathError)
  {
    hide YyAccept, Reach, TokenOf, Delta, Role, Part;
    var q := QuoteOf(role);
    var w := [q] + s + [q];
    StringTokens(s, role, pathError);
    StringRule(w, role);
    StringReach(w, role);
    StringAccepts(Reach(w), role);
    assert w[|w| - 2] != '\\' && Seen(w, q) == 3;
    JamIsNoPart();
    PartMoves(Reach(w), 2);
    SpaceAfter(w);
  }

  lemma PathStops(s: int)
    requires IsState(s) && YyAccept(s) == 26
    ensures Delta(s, 2) == 160
  {
    PathFinals(s);
    hide Delta;
    Move132(2);
    Move142(2);
    Move157(2);
  }

  lemma PathFinals(s: int)
    requires YyAccept(s) == 26
    ensures s == 132 || s == 142 || s == 157
  {
  }

  lemma PathIsWritten(w: string, pathError: string -> int)
    requires Clean(w) && LexemePaths.IsPath(w) && pathError(w) >= 0
    ensures Writes(w, Token(4, Obj(IdmefPath(w))), pathError)
  {
    hide YyAccept, Reach, TokenOf, Delta, LexemePaths.IsParts;
    LexemePaths.PathRule(w);
    LexemePaths.PathTokens(w, pathError);
    PathStops(Reach(w));
    SpaceAfter(w);
    assert w[..1][0] == w[0];
    assert w[0] == 'a' || w[0] == 'h' by {
      if |w| >= 6 && w[..6] == "alert." { assert w[..6][0] == 'a'; }
      if |w| >= 10 && w[..10] == "heartbeat." { assert w[..10][0] == 'h'; }
    }
  }

  // Every token that can be written is read back from its text.
  lemma TokenIsWritten(t: Token, pathError: string -> int)
    requires Writable(t, pathError)
    ensures Writes(TokenText(t), t, pathError)
  {
    hide Writes, IntText, Spelling, QuotableBy, LexemePaths.IsPath;
    if t.kind == 3 {
      assert t == Token(3, Obj(Str(t.val.o.s)));
      StringIsWritten(t.val.o.s, if QuotableBy(t.val.o.s, '"') then 2 else 3, pathError);
    } else if t.kind == 4 {
      assert t == Token(4, Obj(IdmefPath(t.val.o.path)));
      PathIsWritten(t.val.o.path, pathError);
    } else if t.kind == 5 {
      assert t == Token(5, Obj(Int(t.val.o.n)));
      NumberIsWritten(t.val.o.n, pathError);
    } else {
      WordIsWritten(t.kind, pathError);
    }
  }

  function Texts(ts: seq<Token>): (ws: seq<string>)
    ensures |ws| == |ts| && forall i :: 0 <= i < |ts| ==> ws[i] == TokenText(ts[i])
  {
    seq(|ts|, i requires 0 <= i < |ts| => TokenText(ts[i]))
  }

  // Tokens written with spaces after them are scanned as they were.
  lemma TokensReadBack(ts: seq<Token>, pathError: string -> int)
    requires forall i :: 0 <= i < |ts| ==> Writable(ts[i], pathError)
    ensures Clean(Spaced(Texts(ts))) && Scanned(Spaced(Texts(ts)), pathError) == ts
  {
    hide Writes, Writable, TokenText, Spaced, Scanned;
    forall i | 0 <= i < |ts|
      ensures Writes(Texts(ts)[i], ts[i], pathError)
    {
      TokenIsWritten(ts[i], pathError);
    }
    ScanSpaced(Texts(ts), ts, pathError);
  }

  // ------------------------------------------------------------------------------------ the text of selections

  function Plain(kind: nat): seq<Token> { [Token(kind, NoValue)] }

  function Quote(s: string): seq<Token> { [Token(3, Obj(Str(s)))] }

  // A keyword and something in parentheses.
  function Brackets(kind: nat, ts: seq<Token>): seq<Token>
  {
    Plain(kind) + Plain(7) + ts + Plain(8)
  }

  // The tokens of an object, functions with their arguments in parentheses.
  function ObjectTokens(o: Object): seq<Token>
  {
    match o
    case Str(_) => [Token(3, Obj(o))]
    case IdmefPath(_) => [Token(4, Obj(o))]
    case Int(_) => [Token(5, Obj(o))]
    case Func(ftype, args) =>
      if ftype == 5 && |args| == 3 && args[2].Int? then
        Brackets(16, ObjectTokens(args[0]) + Plain(10) + ObjectTokens(args[1]) + Plain(10)
                     + Quote(IntervalUnit(args[2].n)))
      else if ftype == 6 && |args| == 2 && args[1].Int? then
        Brackets(18, ObjectTokens(args[0]) + Plain(10) + Quote(ExtractUnit(args[1].n)))
      else if ftype == 10 && |args| == 2 && args[1].Str? then
        Brackets(19, ObjectTokens(args[0]) + Plain(10) + Quote(args[1].s))
      else if 1 <= ftype <= 4 && |args| == 1 then
        Brackets(Keyword(ftype), ObjectTokens(args[0]))
      else []
  }

  lemma Bracket3(kind: nat, y: seq<Token>, c: seq<Token>, u: seq<Token>)
    ensures Brackets(kind, y + c + u) == Plain(kind) + Plain(7) + y + c + u + Plain(8)
  {
  }

  lemma Bracket5(kind: nat, y: seq<Token>, c: seq<Token>, z: seq<Token>, d: seq<Token>, u: seq<Token>)
    ensures Brackets(kind, y + c + z + d + u) == Plain(kind) + Plain(7) + y + c + z + d + u + Plain(8)
  {
  }

  // The objects that can be written: functions with the right arguments, known units, and strings, paths and time
  // zones that the scanner takes.
  ghost predicate CanWrite(o: Object, pathError: string -> int)
  {
    match o
    case Str(s) => Quotable(s)
    case IdmefPath(p) => Clean(p) && LexemePaths.IsPath(p) && pathError(p) >= 0
    case Int(_) => true
    case Func(ftype, args) =>
      if ftype == 5 then
        && |args| == 3 && args[2].Int? && IntervalUnit(args[2].n) != ""
        && CanWrite(args[0], pathError) && CanWrite(args[1], pathError)
      else if ftype == 6 then
        |args| == 2 && args[1].Int? && ExtractUnit(args[1].n) != "" && CanWrite(args[0], pathError)
      else if ftype == 10 then
        |args| == 2 && args[1].Str? && Quotable(args[1].s) && CanWrite(args[0], pathError)
      else
        1 <= ftype <= 4 && |args| == 1 && CanWrite(args[0], pathError)
  }

  ghost predicate AllWritable(ts: seq<Token>, pathError: string -> int)
  {
    forall i :: 0 <= i < |ts| ==> Writable(ts[i], pathError)
  }

  lemma ExtractUnitQuotable(n: int)
    ensures Quotable(ExtractUnit(n))
  {
    assert QuotableBy(ExtractUnit(n), '"');
  }

  lemma IntervalUnitQuotable(n: int)
    ensures Quotable(IntervalUnit(n))
  {
    assert QuotableBy(IntervalUnit(n), '"');
  }

  lemma IntervalIsSpelled(a: Object, b: Object, n: int)
    requires SpellsObject(a, ObjectTokens(a)) && SpellsObject(b, ObjectTokens(b)) && IntervalUnit(n) != ""
    ensures var o := Func(5, [a, b, Int(n)]);
            IsPlain(o, ObjectTokens(o))
  {
    hide IsPlain, SpellsObject, IntervalUnit, Brackets;
    Bracket5(16, ObjectTokens(a), Plain(10), ObjectTokens(b), Plain(10), Quote(IntervalUnit(n)));
    ArgumentsAndUnit(a, b, n, Plain(16), Plain(7), ObjectTokens(a), Plain(10), ObjectTokens(b), Plain(10),
                     Quote(IntervalUnit(n)), Plain(8));
  }

  lemma ExtractIsSpelled(a: Object, n: int)
    requires SpellsObject(a, ObjectTokens(a)) && ExtractUnit(n) != ""
    ensures var o := Func(6, [a, Int(n)]);
            IsPlain(o, ObjectTokens(o))
  {
    hide IsPlain, SpellsObject, ExtractUnit, Brackets;
    var u := Quote(ExtractUnit(n));
    Bracket3(18, ObjectTokens(a), Plain(10), u);
    ArgumentAndString(6, a, Int(n), ExtractUnit(n), Plain(18), Plain(7), ObjectTokens(a), Plain(10), u, Plain(8));
  }

  lemma TimezoneIsSpelled(a: Object, s: string)
    requires SpellsObject(a, ObjectTokens(a))
    ensures var o := Func(10, [a, Str(s)]);
            IsPlain(o, ObjectTokens(o))
  {
    hide IsPlain, SpellsObject, Brackets;
    Bracket3(19, ObjectTokens(a), Plain(10), Quote(s));
    ArgumentAndString(10, a, Str(s), s, Plain(19), Plain(7), ObjectTokens(a), Plain(10), Quote(s), Plain(8));
  }

  lemma OneArgumentIsSpelled(ftype: int, a: Object)
    requires 1 <= ftype <= 4 && SpellsObject(a, ObjectTokens(a))
    ensures var o := Func(ftype, [a]);
            IsPlain(o, ObjectTokens(o))
  {
    hide IsPlain, SpellsObject;
    OneArgument(ftype, a, Plain(Keyword(ftype)), Plain(7), ObjectTokens(a), Plain(8));
  }

  // The tokens of an object spell it,
  lemma {:induction false} ObjectIsSpelled(o: Object, pathError: string -> int)
    requires CanWrite(o, pathError)
    ensures IsPlain(o, ObjectTokens(o)) && SpellsObject(o, ObjectTokens(o))
  {
    if o.Func? {
      hide IsPlain, IsModified, Quotable, ExtractUnit, IntervalUnit, ObjectTokens;
      var a := o.args[0];
      ObjectIsSpelled(a, pathError);
      if o.ftype == 5 {
        ObjectIsSpelled(o.args[1], pathError);
        assert o == Func(5, [a, o.args[1], Int(o.args[2].n)]);
        IntervalIsSpelled(a, o.args[1], o.args[2].n);
      } else if o.ftype == 6 {
        assert o == Func(6, [a, Int(o.args[1].n)]);
        ExtractIsSpelled(a, o.args[1].n);
      } else if o.ftype == 10 {
        assert o == Func(10, [a, Str(o.args[1].s)]);
        TimezoneIsSpelled(a, o.args[1].s);
      } else {
        assert o == Func(o.ftype, [a]);
        OneArgumentIsSpelled(o.ftype, a);
      }
    }
  }

  lemma PlainWritable(kind: nat, pathError: string -> int)
    requires HasSpelling(kind)
    ensures AllWritable(Plain(kind), pathError)
  {
  }

  lemma QuoteWritable(s: string, pathError: string -> int)
    requires Quotable(s)
    ensures AllWritable(Quote(s), pathError)
  {
  }

  lemma Concat(a: seq<Token>, b: seq<Token>, pathError: string -> int)
    requires AllWritable(a, pathError) && AllWritable(b, pathError)
    ensures AllWritable(a + b, pathError)
  {
    hide Writable;
  }

  lemma BracketsWritable(kind: nat, ts: seq<Token>, pathError: string -> int)
    requires HasSpelling(kind) && AllWritable(ts, pathError)
    ensures AllWritable(Brackets(kind, ts), pathError)
  {
    PlainWritable(kind, pathError);
    PlainWritable(7, pathError);
    PlainWritable(8, pathError);
    hide AllWritable;
    Concat(Plain(kind), Plain(7), pathError);
    Concat(Plain(kind) + Plain(7), ts, pathError);
    Concat(Plain(kind) + Plain(7) + ts, Plain(8), pathError);
  }

  lemma PairWritable(a: seq<Token>, b: seq<Token>, pathError: string -> int)
    requires AllWritable(a, pathError) && AllWritable(b, pathError)
    ensures AllWritable(a + Plain(10) + b, pathError)
  {
    PlainWritable(10, pathError);
    hide AllWritable;
    Concat(a, Plain(10), pathError);
    Concat(a + Plain(10), b, pathError);
  }

  // and can be written.
  lemma {:induction false} ObjectIsWritable(o: Object, pathError: string -> int)
    requires CanWrite(o, pathError)
    ensures AllWritable(ObjectTokens(o), pathError)
  {
    if o.Func? {
      hide AllWritable, Quotable, ExtractUnit, IntervalUnit, Plain, Quote, HasSpelling, Brackets;
      var a := ObjectTokens(o.args[0]);
      ObjectIsWritable(o.args[0], pathError);
      KeywordSpelled(o.ftype);
      var ts;
      if o.ftype == 5 {
        var b, u := ObjectTokens(o.args[1]), Quote(IntervalUnit(o.args[2].n));
        ObjectIsWritable(o.args[1], pathError);
        IntervalUnitQuotable(o.args[2].n);
        QuoteWritable(IntervalUnit(o.args[2].n), pathError);
        PairWritable(a, b, pathError);
        PairWritable(a + Plain(10) + b, u, pathError);
        ts := a + Plain(10) + b + Plain(10) + u;
      } else if o.ftype == 6 || o.ftype == 10 {
        var s := if o.ftype == 6 then ExtractUnit(o.args[1].n) else o.args[1].s;
        if o.ftype == 6 { ExtractUnitQuotable(o.args[1].n); }
        QuoteWritable(s, pathError);
        PairWritable(a, Quote(s), pathError);
        ts := a + Plain(10) + Quote(s);
      } else {
        ts := a;
      }
      BracketsWritable(Keyword(o.ftype), ts, pathError);
    }
  }

  lemma KeywordSpelled(ftype: int)
    ensures 1 <= ftype <= 6 || ftype == 10 ==> HasSpelling(Keyword(ftype))
  {
  }


  predicate AllOptions(options: seq<nat>)
  {
    forall i :: 0 <= i < |options| ==> 32 <= options[i] <= 34
  }

  // Options with commas between.
  function OptionTokens(options: seq<nat>): seq<Token>
    requires options != []
  {
    var n := |options| - 1;
    if n == 0 then Plain(options[0]) else OptionTokens(options[..n]) + Plain(10) + Plain(options[n])
  }

  function OptionFlags(options: seq<nat>): bv8
  {
    (if 32 in options then 0x40 else 0) | (if 33 in options then 0x80 else 0) | (if 34 in options then 0x20 else 0)
  }

  // The tokens of a selection: an object, and options behind a slash if there are any.
  function SelectionTokens(o: Object, options: seq<nat>): seq<Token>
  {
    if options == [] then ObjectTokens(o) else ObjectTokens(o) + Plain(11) + OptionTokens(options)
  }

  lemma {:induction false} OptionsAreSpelled(options: seq<nat>, pathError: string -> int)
    requires options != [] && AllOptions(options)
    ensures var ts := OptionTokens(options);
            IsOptions(ts) && FlagsOf(ts) == OptionFlags(options) && AllWritable(ts, pathError)
  {
    hide FlagsOf, IsOptions, AllWritable;
    var n := |options| - 1;
    var last := options[n];
    OneOption(Token(last, NoValue));
    PlainWritable(last, pathError);
    if n == 0 {
      assert options == [last];
    } else {
      var before := options[..n];
      OptionsAreSpelled(before, pathError);
      MoreOptions(OptionTokens(before), Plain(10), Plain(last));
      PairWritable(OptionTokens(before), Plain(last), pathError);
      assert options == before + [last];
      FlagsAdded(before, last);
    }
  }

  lemma FlagsAdded(options: seq<nat>, last: nat)
    requires 32 <= last <= 34
    ensures OptionFlags(options + [last]) ==
            OptionFlags(options) | (if last == 32 then 0x40 else if last == 33 then 0x80 else 0x20)
  {
    assert 32 in options + [last] <==> 32 in options || last == 32;
    assert 33 in options + [last] <==> 33 in options || last == 33;
    assert 34 in options + [last] <==> 34 in options || last == 34;
  }

  lemma SelectionIsSpelled(o: Object, options: seq<nat>, pathError: string -> int)
    requires CanWrite(o, pathError) && AllOptions(options)
    ensures var ts := SelectionTokens(o, options);
            && SpellsSelection(o, if options == [] then None else Some(OptionFlags(options)), ts)
            && AllWritable(ts, pathError)
  {
    hide SpellsSelection, IsOptions, FlagsOf, OptionFlags, AllWritable, SpellsObject;
    ObjectIsSpelled(o, pathError);
    ObjectIsWritable(o, pathError);
    if options == [] {
      OnlyObject(o, ObjectTokens(o));
    } else {
      OptionsAreSpelled(options, pathError);
      WithOptions(o, ObjectTokens(o), Plain(11), OptionTokens(options));
      PlainWritable(11, pathError);
      Concat(ObjectTokens(o), Plain(11), pathError);
      Concat(ObjectTokens(o) + Plain(11), OptionTokens(options), pathError);
    }
  }

  lemma OnlyObject(o: Object, ts: seq<Token>)
    requires SpellsObject(o, ts)
    ensures SpellsSelection(o, None, ts)
  {
  }

  lemma WritableIsTyped(ts: seq<Token>, pathError: string -> int)
    requires AllWritable(ts, pathError)
    ensures TypedTokens(ts)
  {
    forall i | 0 <= i < |ts|
      ensures Typed(ts[i].kind, ts[i].val)
    {
      assert Writable(ts[i], pathError);
    }
  }

  function SelectionText(o: Object, options: seq<nat>): string
  {
    Spaced(Texts(SelectionTokens(o, options)))
  }

  // Every object that can be written, with any options, is what its text selects, and all that it selects.
  lemma SelectionReadsBack(o: Object, options: seq<nat>, pathError: string -> int, obj: Object, flags: bv8, before: bv8)
    requires CanWrite(o, pathError) && AllOptions(options)
    ensures var text := SelectionText(o, options);
            && Clean(text)
            && (Selects(Scanned(text, pathError), obj, flags, before) <==>
                  obj == o && flags == if options == [] then before else OptionFlags(options))
  {
    hide SpellsSelection, Has, FlagsOf, OptionFlags, CanWrite, AllOptions, SelectionTokens, Spaced, Scanned;
    hide TypedTokens;
    var input := SelectionTokens(o, options);
    SelectionIsSpelled(o, options, pathError);
    TokensReadBack(input, pathError);
    WritableIsTyped(input, pathError);
    var given := if options == [] then None else Some(OptionFlags(options));
    FlagsOfInput(input, o, given);
    if Selects(input, obj, flags, before) {
      SpellingIsUnique(input, o, given, obj, if Has(input, 11) then Some(flags) else None);
    }
  }
}
