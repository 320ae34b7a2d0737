// The scanner of path selections: longest matches of the automaton, backing up, and the end of the buffer.
module PathScanner {
  import opened DecimalDigit
  import opened ScannerTables
  import opened PathGrammar

  // Characters are bytes, and text holds no NUL.
  predicate Clean(text: string)
  {
    forall i :: 0 <= i < |text| ==> 1 <= text[i] as int <= 255
  }

  // The class of a character.
  function Class(c: char): (k: int)
    ensures IsClass(k)
  {
    ClassInRange(c as int);
    if c as int <= 255 then YyEc(c as int) else 1
  }

  lemma ClassInRange(i: int)
    ensures IsClass(YyEc(i)) && (0 < i ==> YyEc(i) != 0)
    ensures YyEc(0) == 0
  {
  }

  // The state after reading w from the start state.
  function Reach(w: string): (s: int)
    ensures IsState(s)
  {
    if w == "" then 1
    else
      DeltaRange(Reach(w[..|w| - 1]), Class(w[|w| - 1]));
      Delta(Reach(w[..|w| - 1]), Class(w[|w| - 1]))
  }

  lemma ReachMore(w: string, c: char)
    ensures Reach(w + [c]) == Delta(Reach(w), Class(c))
  {
    hide YyEc, Delta, Class;
    assert (w + [c])[..|w|] == w;
  }

  // Only the end of the buffer leads to state 3.
  lemma {:induction false} ReachText(w: string)
    requires Clean(w)
    ensures Reach(w) != 3
  {
    hide YyEc, Delta;
    if w != "" {
      ClassInRange(w[|w| - 1] as int);
      DeltaRange(Reach(w[..|w| - 1]), Class(w[|w| - 1]));
    }
  }

  // ------------------------------------------------------------------------------------ longest matches

  // The rule w is accepted by; 0 if there is none.
  function Rule(w: string): int
  {
    YyAccept(Reach(w))
  }

  // The automaton accepts w.
  predicate Accepts(w: string)
  {
    w != "" && Rule(w) != 0
  }

  ghost predicate IsLongest(text: string, n: nat)
  {
    && 0 < n <= |text| && Accepts(text[..n])
    && forall m :: n < m <= |text| ==> !Accepts(text[..m])
  }

  lemma LongestUnique(text: string, m: nat, n: nat)
    requires IsLongest(text, m) && IsLongest(text, n)
    ensures m == n
  {
  }

  // The longest accepted prefix of at most n characters.
  function LongestUpTo(text: string, n: nat): (m: nat)
    requires n <= |text|
    ensures m <= n
  {
    if n == 0 || Accepts(text[..n]) then n else LongestUpTo(text, n - 1)
  }

  lemma {:induction false} LongestUpToIs(text: string, n: nat)
    requires n <= |text|
    ensures LongestUpTo(text, n) > 0 ==> Accepts(text[..LongestUpTo(text, n)])
    ensures forall k :: LongestUpTo(text, n) < k <= n ==> !Accepts(text[..k])
  {
    hide Accepts;
    if n != 0 && !Accepts(text[..n]) {
      LongestUpToIs(text, n - 1);
    }
  }

  lemma OneCharAccepted(text: string)
    requires Clean(text) && text != ""
    ensures Accepts(text[..1])
  {
    hide YyEc, YyAccept, Delta;
    ClassInRange(text[0] as int);
    assert text[..1] == "" + [text[0]];
    ReachMore("", text[0]);
    FirstAccepts(Class(text[0]));
  }

  // The length of the next lexeme.
  function Longest(text: string): (n: nat)
    requires Clean(text) && text != ""
    ensures 0 < n <= |text|
  {
    LongestIs(text);
    LongestUpTo(text, |text|)
  }

  lemma LongestIs(text: string)
    requires Clean(text) && text != ""
    ensures IsLongest(text, LongestUpTo(text, |text|))
  {
    hide Accepts, LongestUpTo;
    OneCharAccepted(text);
    LongestUpToIs(text, |text|);
  }

  // ------------------------------------------------------------------------------------ lexemes and tokens

  datatype Lexeme = Lexeme(rule: int, text: string)

  // The lexemes of a text, skipped ones included.
  function Lex(text: string): seq<Lexeme>
    requires Clean(text)
    decreases |text|
  {
    if text == "" then []
    else
      var n := Longest(text);
      [Lexeme(Rule(text[..n]), text[..n])] + Lex(text[n..])
  }

  function Joined(ls: seq<Lexeme>): string
  {
    if ls == [] then "" else ls[0].text + Joined(ls[1..])
  }

  predicate IsLexeme(l: Lexeme)
  {
    l.text != "" && Clean(l.text) && l.rule == Rule(l.text) && 1 <= l.rule <= 33
  }

  // The lexemes are nonempty, are accepted by their rules, and give back the text.
  lemma {:induction false} LexemesJoin(text: string)
    requires Clean(text)
    ensures Joined(Lex(text)) == text
    ensures forall i :: 0 <= i < |Lex(text)| ==> IsLexeme(Lex(text)[i])
    decreases |text|
  {
    hide YyAccept, Reach, Longest, IsLexeme;
    if text != "" {
      var n := Longest(text);
      LexemesJoin(text[n..]);
      FirstIsLexeme(text);
      assert text[..n] + text[n..] == text;
      assert Lex(text)[0].text == text[..n] && Lex(text)[1..] == Lex(text[n..]);
      forall i | 0 <= i < |Lex(text)|
        ensures IsLexeme(Lex(text)[i])
      {
        if i > 0 { assert Lex(text)[i] == Lex(text[n..])[i - 1]; }
      }
    }
  }

  lemma FirstIsLexeme(text: string)
    requires Clean(text) && text != ""
    ensures IsLexeme(Lex(text)[0])
  {
    hide YyAccept, Reach;
    LongestIs(text);
    ReachText(text[..Longest(text)]);
    AcceptRange(Reach(text[..Longest(text)]));
  }

  // The value of the digits at the start of s, after a sign: what atoi makes of it.
  function Digits(s: string, acc: int): int
  {
    if s == "" || !IsDigit(s[0]) then acc else Digits(s[1..], 10 * acc + Digit(s[0]))
  }

  function Atoi(s: string): int
  {
    if s != "" && s[0] == '-' then -Digits(s[1..], 0) else Digits(s, 0)
  }

  // The rules that give no token: white space, and characters no other rule takes.
  predicate Skipped(rule: int) { rule == 32 || rule == 33 }

  const KIND_STRING: nat := 3
  const KIND_IDMEF: nat := 4
  const KIND_NUMBER: nat := 5
  const KIND_ERROR: nat := 6

  // The token a rule without a value stands for.
  function PlainKind(rule: int): nat
  {
    match rule
    case 4 => 13 case 5 => 15 case 6 => 14 case 7 => 17 case 8 => 16 case 9 => 18 case 10 => 19
    case 11 => 20 case 12 => 21 case 13 => 22 case 14 => 23 case 15 => 24 case 16 => 25 case 17 => 26
    case 18 => 28 case 19 => 12 case 20 => 29 case 21 => 30 case 22 => 31
    case 23 => 32 case 24 => 33 case 25 => 34
    case 27 => 7 case 28 => 8 case 29 => 10 case 30 => 9 case 31 => 11
    case _ => 2
  }

  // What the action of a rule returns. pathError tells what is wrong with an IDMEF path: 0, or a negative error.
  function TokenOf(l: Lexeme, pathError: string -> int): Token
  {
    if l.rule == 1 || l.rule == 2 then
      Token(KIND_STRING, Obj(Str(if |l.text| >= 2 then l.text[1..|l.text| - 1] else "")))
    else if l.rule == 3 then Token(KIND_NUMBER, Obj(Int(Atoi(l.text))))
    else if l.rule == 26 then
      if pathError(l.text) < 0 then Token(KIND_ERROR, Err(pathError(l.text)))
      else Token(KIND_IDMEF, Obj(IdmefPath(l.text)))
    else Token(PlainKind(l.rule), NoValue)
  }

  function TokensOf(ls: seq<Lexeme>, pathError: string -> int): seq<Token>
  {
    if ls == [] then []
    else (if Skipped(ls[0].rule) then [] else [TokenOf(ls[0], pathError)]) + TokensOf(ls[1..], pathError)
  }

  // ------------------------------------------------------------------------------------ the match loop

  // Reading past a state that nothing leaves jams.
  lemma {:induction false} JamForever(text: string, n: nat, m: nat)
    requires Clean(text) && n < m <= |text| && StopsAt(text, n)
    ensures Reach(text[..m]) == 160
  {
    hide YyEc, YyBase, Delta, Reach;
    var before, c := text[..m - 1], text[m - 1];
    assert text[..m] == before + [c];
    ClassInRange(c as int);
    ReachMore(before, c);
    if m - 1 == n {
      StopJams(Reach(before), Class(c));
    } else {
      JamForever(text, n, m - 1);
      JamStays(Class(c));
    }
  }

  // The last accepting state and position are those of the longest accepted prefix of less than n characters,
  // if there is one.
  ghost predicate Remembers(text: string, n: nat, state: int, cpos: int)
    requires n <= |text| + 1
  {
    forall k :: 0 < k < n && Accepts(text[..k]) ==>
                  k <= cpos < n && Accepts(text[..cpos]) && state == Reach(text[..cpos])
  }

  lemma RememberMore(text: string, n: nat, state: int, cpos: int)
    requires n <= |text| && Remembers(text, n, state, cpos)
    ensures Rule(text[..n]) != 0 ==> Remembers(text, n + 1, Reach(text[..n]), n)
    ensures Rule(text[..n]) == 0 ==> Remembers(text, n + 1, state, cpos)
  {
    hide YyAccept, Reach;
  }

  // The match loop stops after n characters, or the text does.
  predicate StopsAt(text: string, n: nat)
    requires n <= |text|
  {
    n == |text| || YyBase(Reach(text[..n])) == 234
  }

  // Where the match loop has stopped, the longest match is here or at the remembered position.
  lemma StopIsLongest(text: string, n: nat, state: int, cpos: int)
    requires Clean(text) && 0 < n <= |text| && Remembers(text, n, state, cpos)
    requires StopsAt(text, n)
    ensures Rule(text[..n]) != 0 ==> IsLongest(text, n)
    ensures Rule(text[..n]) == 0 ==>
            0 < cpos < n && IsLongest(text, cpos) && state == Reach(text[..cpos])
  {
    hide YyAccept, Reach, YyBase;
    forall m | n < m <= |text|
      ensures !Accepts(text[..m])
    {
      JamForever(text, n, m);
      AcceptRange(160);
    }
    OneCharAccepted(text);
  }

  // ------------------------------------------------------------------------------------ the scanner

  // One transition over the tables: down the chain of defaults to the row that has an entry for the class.
  method NextState(yyCurrentState0: int, yyC0: int) returns (yyCurrentState: int)
    requires IsState(yyCurrentState0) && IsClass(yyC0)
    ensures yyCurrentState == Delta(yyCurrentState0, yyC0) && IsState(yyCurrentState)
  {
    hide YyNxt, YyChk, YyBase, YyDef, YyMeta, Delta;
    DeltaRange(yyCurrentState0, yyC0);
    yyCurrentState := yyCurrentState0;
    var yyC := yyC0;
    InBounds(yyCurrentState, yyC);
    DeltaUnfolds(yyCurrentState, yyC);
    JamHits(yyCurrentState, yyC);
    while YyChk(YyBase(yyCurrentState) + yyC) != yyCurrentState
      invariant IsRow(yyCurrentState) && IsClass(yyC) && 0 <= YyBase(yyCurrentState) + yyC <= 277
      invariant Delta(yyCurrentState, yyC) == Delta(yyCurrentState0, yyC0)
      invariant YyChk(YyBase(yyCurrentState) + yyC) == yyCurrentState
                ==> Delta(yyCurrentState, yyC) == YyNxt(YyBase(yyCurrentState) + yyC)
      invariant yyCurrentState == 160 ==> YyChk(YyBase(yyCurrentState) + yyC) == yyCurrentState
      decreases Depth(yyCurrentState)
    {
      DeltaUnfolds(yyCurrentState, yyC);
      yyCurrentState := YyDef(yyCurrentState);
      if yyCurrentState >= 161 {
        yyC := YyMeta(yyC);
      }
      InBounds(yyCurrentState, yyC);
      DeltaUnfolds(yyCurrentState, yyC);
      JamHits(yyCurrentState, yyC);
    }
    yyCurrentState := YyNxt(YyBase(yyCurrentState) + yyC);
  }

  lemma JamHits(s: int, c: int)
    requires IsRow(s) && IsClass(c)
    ensures s == 160 ==> YyChk(YyBase(s) + c) == s
  {
    hide YyNxt, YyChk, YyBase, YyDef, YyMeta;
    JamBase();
    JamRow(c);
  }

  class Guts {
    // The text, and two NULs that mark its end.
    const chBuf: seq<char>
    // What is wrong with an IDMEF path: 0, or a negative error.
    const pathError: string -> int
    var cBufP: nat
    var lastAcceptingState: int
    var lastAcceptingCpos: nat

    ghost predicate Valid()
      reads this
    {
      && |chBuf| >= 2 && chBuf[|chBuf| - 2] == chBuf[|chBuf| - 1] == '\0'
      && Clean(chBuf[..|chBuf| - 2]) && cBufP <= |chBuf| - 2
    }

    // What is still to be scanned.
    ghost function Text(): (t: string)
      requires Valid()
      reads this
      ensures Clean(t)
    {
      chBuf[cBufP..|chBuf| - 2]
    }

    // The tokens still to come.
    ghost function Rest(): seq<Token>
      requires Valid()
      reads this
    {
      Scanned(Text(), pathError)
    }

    constructor (text: string, pathError: string -> int)
      requires Clean(text)
      ensures Valid() && Text() == text && this.pathError == pathError
    {
      chBuf := text + ['\0', '\0'];
      this.pathError := pathError;
      cBufP := 0;
      lastAcceptingState, lastAcceptingCpos := 0, 0;
      new;
      assert chBuf[..|chBuf| - 2] == text;
    }

    // yy_match: reads characters until nothing leaves the state, two NULs being read at the end of the text.
    method Match() returns (yyCurrentState: int, yyCp: nat)
      requires Valid()
      modifies this`lastAcceptingState, this`lastAcceptingCpos
      ensures Valid() && Text() == old(Text())
      ensures var n := yyCp - cBufP;
              if n <= |Text()|
              then 0 < n && StopsAt(Text(), n) && yyCurrentState == Reach(Text()[..n])
                   && Remembers(Text(), n, lastAcceptingState, lastAcceptingCpos - cBufP)
              else n == |Text()| + 2 && yyCurrentState == 160
                   && lastAcceptingState == 3 && lastAcceptingCpos == cBufP + |Text()| + 1
    {
      hide YyAccept, YyBase, YyEc, Delta, Reach, Remembers;
      ghost var text := Text();
      yyCp := cBufP;
      yyCurrentState := 1;
      assert text[..0] == "";
      StartState(text, lastAcceptingState, lastAcceptingCpos - cBufP);
      while true
        invariant Valid() && Text() == text && cBufP <= yyCp <= cBufP + |text| + 1 && IsState(yyCurrentState)
        invariant yyCp - cBufP <= |text| ==>
                    && yyCurrentState == Reach(text[..yyCp - cBufP])
                    && Remembers(text, yyCp - cBufP, lastAcceptingState, lastAcceptingCpos - cBufP)
        invariant yyCp - cBufP == |text| + 1 ==> yyCurrentState == 3
        decreases cBufP + |text| + 1 - yyCp
      {
        ghost var n := yyCp - cBufP;
        var ch := chBuf[yyCp];
        if n < |text| {
          TakeMore(text, n);
          ReachMore(text[..n], ch);
        }
        ClassInRange(ch as int);
        if n <= |text| { ReachText(text[..n]); }
        AcceptRange(yyCurrentState);
        if n <= |text| { RememberMore(text, n, lastAcceptingState, lastAcceptingCpos - cBufP); }
        var yyC := Class(ch);
        if YyAccept(yyCurrentState) != 0 {
          lastAcceptingState := yyCurrentState;
          lastAcceptingCpos := yyCp;
        }
        if yyC == 0 { EndOfBuffer(yyCurrentState); }
        yyCurrentState := NextState(yyCurrentState, yyC);
        yyCp := yyCp + 1;
        Stops(yyCurrentState);
        if YyBase(yyCurrentState) == 234 {
          return;
        }
      }
    }

    // yy_get_previous_state: the state after the whole text, with the last accepting position noted on the way.
    method GetPreviousState() returns (yyCurrentState: int)
      requires Valid()
      modifies this`lastAcceptingState, this`lastAcceptingCpos
      ensures Valid() && Text() == old(Text()) && yyCurrentState == Reach(Text())
      ensures Remembers(Text(), |Text()|, lastAcceptingState, lastAcceptingCpos - cBufP)
    {
      hide YyAccept, YyBase, YyEc, Delta, Reach, Remembers, Rule;
      ghost var text := Text();
      yyCurrentState := 1;
      assert text[..0] == "";
      StartState(text, lastAcceptingState, lastAcceptingCpos - cBufP);
      for yyCp := cBufP to |chBuf| - 2
        invariant Valid() && Text() == text && yyCurrentState == Reach(text[..yyCp - cBufP])
        invariant Remembers(text, yyCp - cBufP, lastAcceptingState, lastAcceptingCpos - cBufP)
      {
        ghost var n := yyCp - cBufP;
        var ch := chBuf[yyCp];
        TakeMore(text, n);
        ReachMore(text[..n], ch);
        ClassInRange(ch as int);
        RememberMore(text, n, lastAcceptingState, lastAcceptingCpos - cBufP);
        RuleOfState(text[..n]);
        if YyAccept(yyCurrentState) != 0 {
          lastAcceptingState := yyCurrentState;
          lastAcceptingCpos := yyCp;
        }
        yyCurrentState := NextState(yyCurrentState, Class(ch));
      }
      assert text[..|text|] == text;
    }

    // yy_find_action: the rule of the state, or after backing up the rule of the last accepting one.
    method FindAction(yyCurrentState: int, yyCp0: nat) returns (yyAct: int, yyCp: nat)
      ensures YyAccept(yyCurrentState) != 0 ==> yyAct == YyAccept(yyCurrentState) && yyCp == yyCp0
      ensures YyAccept(yyCurrentState) == 0 ==> yyAct == YyAccept(lastAcceptingState) && yyCp == lastAcceptingCpos
    {
      hide YyAccept;
      yyAct, yyCp := YyAccept(yyCurrentState), yyCp0;
      if yyAct == 0 {
        yyCp := lastAcceptingCpos;
        yyAct := YyAccept(lastAcceptingState);
      }
    }

    // One round of yylex: matches the next lexeme and moves past it; 0 at the end of the text.
    method MatchLexeme() returns (yyAct: int, yytext: string)
      requires Valid()
      modifies this
      ensures Valid()
      ensures old(Text()) == "" ==> yyAct == 0 && Text() == ""
      ensures old(Text()) != "" ==> var n := Longest(old(Text()));
                && yytext == old(Text())[..n] && yyAct == Rule(yytext) && 1 <= yyAct <= 33
                && Text() == old(Text())[n..]
    {
      hide YyAccept, YyBase, YyEc, Delta, Reach, Remembers, Rule, StopsAt, IsLongest, Longest, Clean;
      ghost var text := Text();
      var yyBp := cBufP;
      var yyCurrentState, yyCp := Match();
      AcceptRange(yyCurrentState);
      if yyCp <= |chBuf| - 2 {
        LongestStop(text, yyCp - yyBp, lastAcceptingState, lastAcceptingCpos - yyBp);
      }
      AcceptRange(3);
      yyAct, yyCp := FindAction(yyCurrentState, yyCp);
      if yyAct == 35 {
        // YY_END_OF_BUFFER: the text has been read to its end, and the buffer cannot be refilled.
        assert yyCp == |chBuf| - 1;
        if yyCp - yyBp == 1 {
          cBufP := yyBp;
          return 0, "";
        }
        yyCurrentState := GetPreviousState();
        AtEndStops(text);
        LongestStop(text, |text|, lastAcceptingState, lastAcceptingCpos - yyBp);
        yyAct, yyCp := FindAction(yyCurrentState, |chBuf| - 2);
      }
      cBufP := yyCp;
      yytext := chBuf[yyBp..yyCp];
      SliceParts(chBuf, yyBp, yyCp, |chBuf| - 2);
    }

    // The next token, after skipping what gives none; 0 at the end of the text.
    method Yylex() returns (yychar: int, yylval: Value)
      requires Valid()
      modifies this
      ensures Valid()
      ensures old(Rest()) == [] ==> yychar == 0 && yylval == NoValue && Rest() == []
      ensures old(Rest()) != [] ==> yychar >= 0 && Token(yychar, yylval) == old(Rest())[0] && Rest() == old(Rest())[1..]
    {
      hide Longest, Rule, Reach, TokenOf;
      while true
        invariant Valid() && Rest() == old(Rest())
        decreases |Text()|
      {
        var yyAct, yytext := MatchLexeme();
        if yyAct == 0 {
          return 0, NoValue;
        }
        if !Skipped(yyAct) {
          var token := TokenOf(Lexeme(yyAct, yytext), pathError);
          return token.kind, token.val;
        }
      }
    }
  }

  lemma SliceParts(buf: string, a: nat, e: nat, n: nat)
    requires a <= e <= n <= |buf|
    ensures buf[a..n][e - a..] == buf[e..n] && buf[a..n][..e - a] == buf[a..e]
  {
  }

  lemma AtEndStops(text: string)
    ensures StopsAt(text, |text|) && text[..|text|] == text
  {
  }

  // What the find-action step makes of a stop.
  lemma LongestStop(text: string, n: nat, state: int, cpos: int)
    requires Clean(text) && 0 < n <= |text| && Remembers(text, n, state, cpos) && StopsAt(text, n)
    ensures var s := Reach(text[..n]);
            var m := if YyAccept(s) != 0 then n else cpos;
            && m == Longest(text) && 1 <= Rule(text[..m]) <= 33
            && Rule(text[..m]) == if YyAccept(s) != 0 then YyAccept(s) else YyAccept(state)
  {
    hide YyAccept, Reach, YyBase, Remembers, StopsAt;
    StopIsLongest(text, n, state, cpos);
    LongestIs(text);
    LongestUnique(text, Longest(text), if YyAccept(Reach(text[..n])) != 0 then n else cpos);
    ReachText(text[..Longest(text)]);
    AcceptRange(Reach(text[..Longest(text)]));
  }

  lemma RuleOfState(w: string)
    ensures Rule(w) == YyAccept(Reach(w))
  {
    hide YyAccept, Reach;
  }

  lemma TakeMore(text: string, n: nat)
    requires n < |text|
    ensures text[..n + 1] == text[..n] + [text[n]]
  {
  }

  lemma StartState(text: string, state: int, cpos: int)
    ensures Reach("") == 1 && Remembers(text, 0, state, cpos)
  {
  }

  lemma Stops(s: int)
    ensures s == 160 ==> YyBase(s) == 234
    ensures s == 3 ==> YyBase(s) != 234
  {
  }

  // ------------------------------------------------------------------------------------ what is scanned

  // Every lexeme that gives a token gives one the parser knows, with a value of its type.
  predicate GoodToken(t: Token)
  {
    && 3 <= t.kind <= 34
    && (t.kind == KIND_STRING ==> t.val.Obj? && t.val.o.Str?)
    && (t.kind == KIND_IDMEF ==> t.val.Obj? && t.val.o.IdmefPath?)
    && (t.kind == KIND_NUMBER ==> t.val.Obj? && t.val.o.Int?)
  }

  lemma LexemeGivesToken(l: Lexeme, pathError: string -> int)
    requires IsLexeme(l) && !Skipped(l.rule)
    ensures GoodToken(TokenOf(l, pathError))
  {
    hide Rule, Reach;
  }

  lemma {:induction false} GoodTokens(ls: seq<Lexeme>, pathError: string -> int)
    requires forall i :: 0 <= i < |ls| ==> IsLexeme(ls[i])
    ensures forall i :: 0 <= i < |TokensOf(ls, pathError)| ==> GoodToken(TokensOf(ls, pathError)[i])
  {
    hide IsLexeme, GoodToken, TokenOf;
    if ls != [] {
      GoodTokens(ls[1..], pathError);
      if !Skipped(ls[0].rule) { LexemeGivesToken(ls[0], pathError); }
      var rest := TokensOf(ls[1..], pathError);
      assert Skipped(ls[0].rule) ==> [] + rest == rest;
    }
  }

  // The tokens of a text.
  function Scanned(text: string, pathError: string -> int): seq<Token>
    requires Clean(text)
  {
    TokensOf(Lex(text), pathError)
  }

  lemma ScannedIsGood(text: string, pathError: string -> int)
    requires Clean(text)
    ensures forall i :: 0 <= i < |Scanned(text, pathError)| ==> GoodToken(Scanned(text, pathError)[i])
  {
    hide IsLexeme, GoodToken;
    LexemesJoin(text);
    GoodTokens(Lex(text), pathError);
  }
}
