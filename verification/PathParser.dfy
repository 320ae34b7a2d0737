// The parser driver: stacks that grow, lookahead, the semantic actions and error recovery.
module PathParser {
  import opened Wrappers
  import opened PathTables
  import opened PathGrammar
  import opened PathMachine
  import opened PathRuns
  import opened PathComplete
  import opened PathMeaning
  import opened PathSpelling
  import opened PathScanner

  const YYEMPTY := -2
  const YYEOF := 0
  const YYFINAL := 25

  // What errors leave in errno when nothing more precise is known.
  const GENERIC_ERROR := -1

  class SelectedPath {
    var obj: Option<Object>
    var flags: bv8
  }

  class Errno {
    var code: int
  }

  // ------------------------------------------------------------------------------------ the stacks

  class Stacks {
    var yyss: array<State>
    var yyvs: array<Value>
    var yyssp: nat
    var refused: bool

    ghost predicate Valid()
      reads this
    {
      yyss.Length == yyvs.Length && yyssp < yyss.Length && YYINITDEPTH <= yyss.Length <= YYMAXDEPTH
    }

    // There is room for one more entry.
    ghost predicate Roomy()
      reads this
    {
      Valid() && yyssp + 1 < yyss.Length
    }

    ghost function States(): (s: seq<State>)
      requires Valid()
      reads this, yyss
    {
      yyss[..yyssp + 1]
    }

    ghost function Vals(): (s: seq<Value>)
      requires Valid()
      reads this, yyvs
    {
      yyvs[..yyssp + 1][1..]
    }

    constructor ()
      ensures Roomy() && States() == [0] && Vals() == [] && !refused
      ensures fresh(yyss) && fresh(yyvs)
    {
      yyss, yyvs, yyssp, refused := new State[YYINITDEPTH], new Value[YYINITDEPTH](_ => NoValue), 0, false;
      new;
      yyss[0] := 0;
    }

    // Pushes a value and its state. The stacks double when the last entry is used, up to YYMAXDEPTH; false when they
    // are at that size already, or when there is no memory for it.
    method Push(s: State, v: Value) returns (ok: bool)
      requires Roomy() && !refused
      modifies this, yyss, yyvs
      ensures Valid() && States() == old(States()) + [s] && Vals() == old(Vals()) + [v]
      ensures ok ==> Roomy() && |States()| < YYMAXDEPTH && !refused
      ensures !ok ==> refused || |States()| >= YYMAXDEPTH
      ensures yyss == old(yyss) || fresh(yyss)
      ensures yyvs == old(yyvs) || fresh(yyvs)
      ensures old(yyssp) < 100 ==> ok
    {
      yyvs[yyssp + 1] := v;
      yyss[yyssp + 1] := s;
      yyssp := yyssp + 1;
      assert States() == old(States()) + [s];
      assert Vals() == old(Vals()) + [v];
      ok := true;
      if yyss.Length - 1 <= yyssp {
        ok := Grow();
      }
    }

    method Relocate(ss: array<State>, vs: array<Value>)
      requires Valid() && yyssp < ss.Length == vs.Length && ss != yyss && vs != yyvs
      modifies ss, vs
      ensures ss[..yyssp + 1] == yyss[..yyssp + 1] && vs[..yyssp + 1] == yyvs[..yyssp + 1]
    {
      for i := 0 to yyssp + 1
        invariant forall k :: 0 <= k < i ==> ss[k] == yyss[k] && vs[k] == yyvs[k]
        modifies ss, vs
      {
        ss[i], vs[i] := yyss[i], yyvs[i];
      }
    }

    method Grow() returns (ok: bool)
      requires Valid() && yyssp + 1 == yyss.Length && !refused
      modifies this
      ensures Valid() && States() == old(States()) && Vals() == old(Vals())
      ensures ok ==> Roomy() && |States()| < YYMAXDEPTH && !refused
      ensures !ok ==> refused || |States()| >= YYMAXDEPTH
      ensures yyss == old(yyss) || fresh(yyss)
      ensures yyvs == old(yyvs) || fresh(yyvs)
    {
      if YYMAXDEPTH <= yyss.Length {
        return false;
      }
      var yystacksize := yyss.Length * 2;
      if YYMAXDEPTH < yystacksize {
        yystacksize := YYMAXDEPTH;
      }
      if * {
        refused := true;
        return false;
      }
      var ss, vs := new State[yystacksize], new Value[yystacksize](_ => NoValue);
      Relocate(ss, vs);
      yyss, yyvs := ss, vs;
      if yystacksize - 1 <= yyssp {
        // yyabortlab
        assert false;
      }
      return true;
    }

    method Top() returns (s: State)
      requires Valid()
      ensures s == PathMachine.Top(States())
    {
      s := yyss[yyssp];
    }

    method Popstack(n: nat)
      requires Valid() && n <= yyssp
      modifies this`yyssp
      ensures Roomy() || (n == 0 && yyssp == old(yyssp))
      ensures n > 0 ==> Roomy()
      ensures Valid() && States() == old(States())[..|old(States())| - n] && Vals() == old(Vals())[..|old(Vals())| - n]
    {
      ghost var v := Vals();
      yyssp := yyssp - n;
      assert Vals() == v[..|v| - n];
    }
  }

  // ------------------------------------------------------------------------------------ semantic actions

  // The flag of a unit, or a negative error.
  method GetFilter(table: seq<(string, nat)>, str: string) returns (flag: int)
    ensures UnitFlag(table, str) == if flag < 0 then None else Some(flag)
  {
    assert table[0..] == table;
    for i := 0 to |table|
      invariant UnitFlag(table, str) == UnitFlag(table[i..], str)
    {
      if table[i].0 == str {
        return table[i].1;
      }
      assert table[i..][1..] == table[i + 1..];
    }
    assert table[|table|..] == [];
    return GENERIC_ERROR;
  }

  // Whether a reduction gives the root its object (and its flags, if the rule has any).
  ghost predicate RootIs(root: SelectedPath, v: Value, flags0: bv8)
    reads root
  {
    v.Selection? ==> root.obj == Some(v.o) && root.flags == if v.flags.Some? then v.flags.value else flags0
  }

  method Action(r: int, v: seq<Value>, root: SelectedPath, err: Errno) returns (raised: bool, yyval: Value)
    requires 2 <= r <= 39 && r != 4 && |v| == |Rhs(r)|
    modifies root, err
    ensures Act(r, v) == if raised then None else Some(yyval)
    ensures r == 2 || r == 3 ==> !raised && RootIs(root, yyval, old(root.flags))
    ensures r != 2 && r != 3 ==> root.obj == old(root.obj) && root.flags == old(root.flags)
  {
    yyval, raised := v[0], false;
    if r == 2 {
      yyval := NoValue;
      if v[0].Obj? && v[2].Flag? {
        root.obj := Some(v[0].o);
        root.flags := v[2].f;
        yyval := Selection(v[0].o, Some(v[2].f));
      }
    } else if r == 3 {
      yyval := NoValue;
      if v[0].Obj? {
        root.obj := Some(v[0].o);
        yyval := Selection(v[0].o, None);
      }
    } else if r == 16 {
      yyval := NoValue;
      if v[0].Type? && v[2].Obj? && v[4].Obj? && v[4].o.Str? {
        var tf := GetFilter(EXTRACT_UNITS, v[4].o.s);
        if tf < 0 {
          err.code := tf;
          raised := true;
        } else {
          err.code := 0;
          yyval := Obj(Func(v[0].t, [v[2].o, Int(tf)]));
        }
      }
    } else if r == 18 {
      yyval := NoValue;
      if v[0].Type? && v[2].Obj? && v[4].Obj? && v[6].Obj? && v[6].o.Str? {
        var tf := GetFilter(INTERVAL_UNITS, v[6].o.s);
        if tf < 0 {
          err.code := tf;
          raised := true;
        } else {
          err.code := 0;
          yyval := Obj(Func(v[0].t, [v[2].o, v[4].o, Int(tf)]));
        }
      }
    } else if r == 39 {
      if v[0].Err? { err.code := v[0].code; }
      raised := true;
    } else {
      if r == 20 || r == 37 { err.code := 0; }
      yyval := Act(r, v).value;
    }
  }

  // ------------------------------------------------------------------------------------ lookahead

  // What is still to be shifted: the lookahead, if one has been read, and what the scanner holds.
  ghost function Pending(yychar: int, yylval: Value, scanner: Guts): seq<Token>
    requires scanner.Valid()
    reads scanner
  {
    if yychar == YYEMPTY then scanner.Rest()
    else if yychar <= YYEOF then []
    else [Token(yychar, yylval)] + scanner.Rest()
  }

  ghost predicate Lookahead(yychar: int, yylval: Value, scanner: Guts)
    requires scanner.Valid()
    reads scanner
  {
    yychar == YYEMPTY || (yychar == YYEOF && yylval == NoValue && scanner.Rest() == []) || yychar > YYEOF
  }

  // The default action of a state.
  method Default(yystate: State) returns (move: Move)
    ensures forall tok: nat {:trigger LookupMove(yystate, tok)} ::
              YyPact(yystate) == -27 || !InTable(YyPact(yystate) + tok) || YyCheck(YyPact(yystate) + tok) != tok
              ==> move == LookupMove(yystate, tok)
  {
    hide YyPact, YyDefact, YyTable, YyCheck;
    var yyn := YyDefact(yystate);
    move := if yyn <= 0 then Error else Reduce(yyn);
  }

  // What the row of a state says for a token.
  method Consult(yystate: State, yytoken: nat) returns (move: Move)
    requires YyPact(yystate) != -27
    ensures move == LookupMove(yystate, yytoken)
  {
    hide YyPact, YyDefact, YyTable, YyCheck;
    var yyn := YyPact(yystate) + yytoken;
    if !InTable(yyn) || YyCheck(yyn) != yytoken {
      move := Default(yystate);
    } else {
      yyn := YyTable(yyn);
      move := if yyn <= 0 then Reduce(-yyn) else if yyn < 64 then Shift(yyn) else Error;
    }
  }

  // Reads a token if none has been.
  method ReadLookahead(scanner: Guts, yychar0: int, yylval0: Value) returns (yychar: int, yylval: Value)
    requires scanner.Valid() && Lookahead(yychar0, yylval0, scanner) && Tokens(Pending(yychar0, yylval0, scanner))
    modifies scanner
    ensures scanner.Valid() && Lookahead(yychar, yylval, scanner)
    ensures Pending(yychar, yylval, scanner) == old(Pending(yychar0, yylval0, scanner))
    ensures yychar >= 0 && yychar == Kind(Pending(yychar, yylval, scanner))
  {
    yychar, yylval := yychar0, yylval0;
    if yychar == YYEMPTY {
      ghost var rest := scanner.Rest();
      yychar, yylval := scanner.Yylex();
      assert rest != [] ==> rest == [rest[0]] + scanner.Rest();
    }
  }

  // Decides on the next move, reading a token only if the state needs one.
  method Backup(yystate: State, scanner: Guts, yychar0: int, yylval0: Value)
    returns (move: Move, yychar: int, yylval: Value)
    requires scanner.Valid() && Lookahead(yychar0, yylval0, scanner) && Tokens(Pending(yychar0, yylval0, scanner))
    modifies scanner
    ensures scanner.Valid() && Lookahead(yychar, yylval, scanner)
    ensures Pending(yychar, yylval, scanner) == old(Pending(yychar0, yylval0, scanner))
    ensures move == Automaton(yystate, Kind(Pending(yychar, yylval, scanner)))
    ensures move.Shift? ==> yychar != YYEMPTY
  {
    hide Automaton, YyPact, YyDefact, YyTable, YyCheck, LookupMove;
    yychar, yylval := yychar0, yylval0;
    ghost var kind := Kind(Pending(yychar, yylval, scanner));
    TablesEncodeAutomaton(yystate, kind);
    if YyPact(yystate) == -27 {
      move := Default(yystate);
      DefaultDoesNotShift(yystate, kind);
    } else {
      yychar, yylval := ReadLookahead(scanner, yychar, yylval);
      move := Consult(yystate, yychar);
    }
  }

  lemma DefaultDoesNotShift(p: State, tok: nat)
    requires YyPact(p) == -27
    ensures !LookupMove(p, tok).Shift?
  {
    hide YyPact, YyDefact, YyTable, YyCheck;
  }

  // ------------------------------------------------------------------------------------ the driver

  // The root has what the selection at the bottom of the stack says, once there is one.
  ghost predicate RootSoFar(root: SelectedPath, c: Config, flags0: bv8)
    reads root
  {
    if |c.states| >= 2 && c.states[1] == 13 && |c.vals| >= 1 then RootIs(root, c.vals[0], flags0)
    else root.flags == flags0
  }

  ghost predicate Matches(stacks: Stacks, c: Config)
    reads stacks, stacks.yyss, stacks.yyvs
  {
    stacks.Valid() && stacks.States() == c.states && stacks.Vals() == c.vals && c.depth == YYMAXDEPTH
  }

  // The values of the right-hand side, yyvsp[1 - yylen] to yyvsp[0].
  method RightHandSide(stacks: Stacks, yylen: nat) returns (v: seq<Value>)
    requires stacks.Valid() && yylen <= stacks.yyssp
    ensures v == stacks.Vals()[|stacks.Vals()| - yylen..]
  {
    v := stacks.yyvs[stacks.yyssp + 1 - yylen..stacks.yyssp + 1];
  }

  lemma SelectionAtBottom(c: Config, d: Config, r: nat)
    requires Ready(c) && Automaton(Top(c.states), Kind(c.rest)) == Reduce(r) && Step(c) == Next(d) && Ready(d)
    ensures Spells(c.states, r)
    ensures (r == 2 || r == 3) ==> |d.states| == 2 && d.states[1] == 13
    ensures |d.states| >= 2 && d.states[1] == 13 && |d.states| == 2 ==> r == 2 || r == 3
    ensures |d.states| > 2 ==> c.states[1] == d.states[1] && c.vals[0] == d.vals[0] && |c.states| > 2
  {
    hide Automaton, YyStos, Link, Linked, Rhs, Act, Goto, YyR1;
    ReduceSpells(c.states, Kind(c.rest));
    var n := |c.vals| - |Rhs(r)|;
    ThirteenIsSelection(c.states[n], r);
    if r == 2 || r == 3 {
      assert d.states[n + 1] == 13;
      UnderTop(d.states);
      ThirteenAboveZero(c.states[n]);
      ZeroAtBottom(d.states, n);
    }
  }

  lemma ThirteenIsSelection(p: State, r: int)
    requires 2 <= r <= 39
    ensures Goto(p, YyR1(r)) == 13 <==> r == 2 || r == 3 || r == 4
  {
  }

  lemma ThirteenAboveZero(p: State)
    ensures Link(p, 13) ==> p == 0
  {
  }

  // What the tables say of the error symbol in a state: the state it is shifted to, or 0.
  function ErrorShift(p: State): int
  {
    var yyn := YyPact(p) + 1;
    if YyPact(p) != -27 && InTable(yyn) && YyCheck(yyn) == 1 && YyTable(yyn) > 0 then YyTable(yyn) else 0
  }

  lemma OnlyStartTakesErrors(p: State)
    ensures ErrorShift(p) == if p == 0 then 1 else 0
  {
    TablesEncodeAutomaton(p, 1);
    AutomatonTakesErrors(p);
    hide YyPact, YyCheck, YyTable, YyDefact, Automaton;
  }

  lemma AutomatonTakesErrors(p: State)
    ensures Automaton(p, 1).Shift? <==> p == 0
    ensures p == 0 ==> Automaton(p, 1).to == 1
  {
  }

  // Pops states until one can shift the error symbol, and shifts it.
  method Recover(stacks: Stacks, yylval: Value)
    requires stacks.Roomy() && Linked(stacks.States()) && !stacks.refused
    modifies stacks, stacks.yyss, stacks.yyvs
    ensures stacks.Roomy() && stacks.States() == [0, 1] && !stacks.refused
    ensures stacks.yyss == old(stacks.yyss) || fresh(stacks.yyss)
    ensures stacks.yyvs == old(stacks.yyvs) || fresh(stacks.yyvs)
  {
    hide ErrorShift, Link;
    var yystate := stacks.Top();
    OnlyStartTakesErrors(yystate);
    while ErrorShift(yystate) == 0
      invariant stacks.Roomy() && Linked(stacks.States()) && !stacks.refused && yystate == Top(stacks.States())
      invariant stacks.yyss == old(stacks.yyss) && stacks.yyvs == old(stacks.yyvs)
      invariant ErrorShift(yystate) == if yystate == 0 then 1 else 0
      decreases stacks.yyssp
    {
      if stacks.yyssp == 0 {
        // yyabortlab
        assert false;
      }
      UnderTop(stacks.States());
      stacks.Popstack(1);
      yystate := stacks.Top();
      OnlyStartTakesErrors(yystate);
    }
    ZeroAtBottom(stacks.States(), |stacks.States()| - 1);
    var ok := stacks.Push(ErrorShift(yystate), yylval);
  }

  // The action of a rule keeps the root in step with the stack.
  lemma RootKept(c: Config, d: Config, r: nat, root: SelectedPath, flags0: bv8)
    requires Ready(c) && Automaton(Top(c.states), Kind(c.rest)) == Reduce(r) && Step(c) == Next(d) && Ready(d)
    requires Top(c.states) != 25
    requires if r == 2 || r == 3 then RootIs(root, d.vals[|d.vals| - 1], flags0) else root.flags == flags0
    ensures RootSoFar(root, d, flags0)
  {
    hide Automaton, RootIs, Linked, Step;
    SelectionAtBottom(c, d, r);
    NoSelectionYet(c, r);
  }

  // While there are reductions to do, the stack holds no selection.
  lemma NoSelectionYet(c: Config, r: nat)
    requires Ready(c) && Automaton(Top(c.states), Kind(c.rest)) == Reduce(r) && Top(c.states) != 25
    ensures |c.states| < 2 || c.states[1] != 13
  {
    hide Automaton, Link;
    var n := |c.states|;
    OverSelection(Top(c.states), Kind(c.rest));
    if n > 2 {
      assert Link(c.states[1], c.states[1 + 1]);
      OverSelection(c.states[2], 0);
    }
    if n > 3 {
      assert Link(c.states[2], c.states[2 + 1]);
      OverSelection(c.states[3], 0);
    }
  }

  lemma RootFlags(root: SelectedPath, c: Config, flags0: bv8)
    requires RootSoFar(root, c, flags0) && (|c.states| < 2 || c.states[1] != 13)
    ensures root.flags == flags0
  {
  }

  lemma OverSelection(s: State, tok: nat)
    ensures Link(13, s) ==> s == 25
    ensures !Link(25, s)
    ensures !Automaton(13, tok).Reduce?
  {
  }

  // Takes the action of rule yyn, and pops its right-hand side.
  method ActAndPop(yyn: nat, stacks: Stacks, root: SelectedPath, err: Errno, ghost c: Config)
    returns (raised: bool, yyval: Value)
    requires Ready(c) && |c.states| < c.depth && Matches(stacks, c) && stacks.Roomy() && !stacks.refused
    requires Automaton(Top(c.states), Kind(c.rest)) == Reduce(yyn) && Top(c.states) != 25
    modifies stacks`yyssp, root, err
    ensures 2 <= yyn <= 39 && yyn != 4 && |Rhs(yyn)| <= |c.vals|
    ensures Act(yyn, c.vals[|c.vals| - |Rhs(yyn)|..]) == if raised then None else Some(yyval)
    ensures stacks.Roomy() && stacks.States() == c.states[..|c.states| - |Rhs(yyn)|]
    ensures stacks.Vals() == c.vals[..|c.vals| - |Rhs(yyn)|]
    ensures yyn == 2 || yyn == 3 ==> !raised && RootIs(root, yyval, old(root.flags))
    ensures yyn != 2 && yyn != 3 ==> root.obj == old(root.obj) && root.flags == old(root.flags)
  {
    hide Automaton, YyStos, Link, Linked, Rhs, Act, YyR1, YyR2, Step, RootIs;
    ReduceIsStep(c, yyn);
    RuleLengths(yyn);
    var yylen := YyR2(yyn);
    var v := RightHandSide(stacks, yylen);
    raised, yyval := Action(yyn, v, root, err);
    stacks.Popstack(yylen);
  }

  // Puts the head of rule yyn in place of the right-hand side.
  method DoReduce(yyn: nat, stacks: Stacks, root: SelectedPath, err: Errno, ghost c: Config, ghost flags0: bv8)
    returns (raised: bool, ok: bool)
    requires Ready(c) && |c.states| < c.depth && Matches(stacks, c) && stacks.Roomy() && !stacks.refused
    requires Automaton(Top(c.states), Kind(c.rest)) == Reduce(yyn) && Top(c.states) != 25
    requires RootSoFar(root, c, flags0)
    modifies stacks, stacks.yyss, stacks.yyvs, root, err
    ensures raised ==> Step(c) == Done(Rejected) && stacks.Roomy() && !stacks.refused && Linked(stacks.States())
    ensures !raised ==> Step(c).Next? && Matches(stacks, Step(c).c) && RootSoFar(root, Step(c).c, flags0)
    ensures !raised && ok ==> stacks.Roomy() && !stacks.refused && |stacks.States()| < YYMAXDEPTH
    ensures !raised && !ok ==> stacks.refused || |stacks.States()| >= YYMAXDEPTH
    ensures stacks.yyss == old(stacks.yyss) || fresh(stacks.yyss)
    ensures stacks.yyvs == old(stacks.yyvs) || fresh(stacks.yyvs)
  {
    hide Automaton, Link, Linked, Rhs, Act, Goto, LookupGoto, YyR1, Step, RootIs, RootSoFar;
    ReduceIsStep(c, yyn);
    ok := true;
    var yyval;
    NoSelectionYet(c, yyn);
    RootFlags(root, c, flags0);
    raised, yyval := ActAndPop(yyn, stacks, root, err, c);
    if !raised {
      var top := stacks.Top();
      GotosEncodeAutomaton(top, YyR1(yyn));
      StepShrinks(c);
      RootKept(c, Step(c).c, yyn, root, flags0);
      ok := stacks.Push(LookupGoto(top, YyR1(yyn)), yyval);
    }
  }

  // What a step says of the whole run.
  lemma RunOn(c: Config)
    requires Ready(c)
    ensures Step(c).Done? ==> Run(c) == Step(c).o
    ensures Step(c).Next? ==> Ready(Step(c).c) && Run(c) == Run(Step(c).c) && Smaller(Step(c).c, c)
  {
    hide Step;
    if Step(c).Next? { StepShrinks(c); }
  }

  lemma RunFull(c: Config)
    requires Ready(c) && |c.states| >= c.depth
    ensures Run(c) == Exhausted
  {
  }

  // In the final state the selection is the only value under the end of input.
  lemma FinalAccepts(c: Config, root: SelectedPath, flags0: bv8)
    requires Ready(c) && |c.states| < c.depth && Top(c.states) == YYFINAL && RootSoFar(root, c, flags0)
    ensures Run(c).Accepted? && RootIs(root, Run(c).v, flags0)
  {
    hide Automaton, RootIs;
    UnderTop(c.states);
    FinalAboveSelection(c.states[|c.states| - 2]);
    UnderTop(c.states[..|c.states| - 1]);
    ThirteenAboveZero(c.states[|c.states| - 3]);
    ZeroAtBottom(c.states, |c.states| - 3);
  }

  lemma FinalAboveSelection(p: State)
    ensures Link(p, 25) ==> p == 13
  {
  }

  // Shifting the lookahead is the step of the machine.
  lemma ShiftIsStep(c: Config, s: State, root: SelectedPath, flags0: bv8)
    requires Ready(c) && |c.states| < c.depth
    requires Automaton(Top(c.states), Kind(c.rest)) == Shift(s) && Top(c.states) != 25
    requires RootSoFar(root, c, flags0)
    ensures Step(c) == Next(Config(c.states + [s], c.vals + [if c.rest == [] then NoValue else c.rest[0].val],
                                   if c.rest == [] then [] else c.rest[1..], c.depth))
    ensures RootSoFar(root, Step(c).c, flags0)
  {
    ShiftLinks(Top(c.states), Kind(c.rest));
    hide Automaton, Link, RootIs;
    if |c.states| == 1 {
      ThirteenNotShifted(Kind(c.rest));
    }
  }

  lemma ThirteenNotShifted(tok: nat)
    ensures Automaton(0, tok) != Shift(13)
  {
  }

  lemma ErrorIsStep(c: Config)
    requires Ready(c) && |c.states| < c.depth && Automaton(Top(c.states), Kind(c.rest)) == Error && Top(c.states) != 25
    ensures Step(c) == Done(Rejected) && Linked(c.states)
  {
  }

  lemma ErrorStateReturns(tok: nat)
    ensures Automaton(1, tok) == Reduce(4)
  {
  }

  lemma PendingShifted(yychar: int, yylval: Value, scanner: Guts)
    requires scanner.Valid() && Lookahead(yychar, yylval, scanner) && yychar != YYEMPTY
    ensures var rest := Pending(yychar, yylval, scanner);
            && scanner.Rest() == (if rest == [] then [] else rest[1..])
            && yylval == (if rest == [] then NoValue else rest[0].val)
    ensures Lookahead(YYEMPTY, yylval, scanner) && Pending(YYEMPTY, yylval, scanner) == scanner.Rest()
  {
  }

  method YyError(err: Errno)
    modifies err
    ensures err.code < 0
  {
    err.code := GENERIC_ERROR;
  }

  // The driver's variables stand for configuration c.
  ghost predicate Going(stacks: Stacks, yychar: int, yylval: Value, scanner: Guts, root: SelectedPath, c: Config,
                        flags0: bv8)
    reads stacks, stacks.yyss, stacks.yyvs, scanner, root
  {
    && Ready(c) && |c.states| < c.depth && Matches(stacks, c) && stacks.Roomy() && !stacks.refused
    && RootSoFar(root, c, flags0)
    && scanner.Valid() && Lookahead(yychar, yylval, scanner) && Pending(yychar, yylval, scanner) == c.rest
  }

  // The start state with the error symbol on top, and every token still to come that was when the error arose.
  ghost predicate Recovering(stacks: Stacks, yychar: int, yylval: Value, scanner: Guts, rest: seq<Token>)
    reads stacks, stacks.yyss, scanner
  {
    && stacks.Roomy() && stacks.States() == [0, 1] && Tokens(rest)
    && scanner.Valid() && Lookahead(yychar, yylval, scanner) && Pending(yychar, yylval, scanner) == rest
  }

  // The error status is 0 until an error arises, and 3 from then on.
  ghost predicate Running(yyerrstatus: int, stacks: Stacks, yychar: int, yylval: Value, scanner: Guts,
                          root: SelectedPath, c: Config, flags0: bv8)
    reads stacks, stacks.yyss, stacks.yyvs, scanner, root
  {
    if yyerrstatus == 0 then Going(stacks, yychar, yylval, scanner, root, c, flags0)
    else yyerrstatus == 3 && Recovering(stacks, yychar, yylval, scanner, c.rest)
  }

  // Shifts the lookahead.
  method DoShift(s: State, stacks: Stacks, yychar: int, yylval: Value, scanner: Guts, root: SelectedPath,
                 ghost c: Config, ghost flags0: bv8)
    returns (ok: bool)
    requires Going(stacks, yychar, yylval, scanner, root, c, flags0) && yychar != YYEMPTY
    requires Automaton(Top(c.states), Kind(c.rest)) == Shift(s) && Top(c.states) != 25
    modifies stacks, stacks.yyss, stacks.yyvs
    ensures Step(c).Next?
    ensures ok ==> Going(stacks, YYEMPTY, yylval, scanner, root, Step(c).c, flags0)
    ensures !ok ==> stacks.refused || |Step(c).c.states| >= Step(c).c.depth
    ensures stacks.yyss == old(stacks.yyss) || fresh(stacks.yyss)
    ensures stacks.yyvs == old(stacks.yyvs) || fresh(stacks.yyvs)
  {
    hide Automaton, Link, Linked, Step, RootIs, RootSoFar, Kind, Lookahead, Pending;
    ShiftIsStep(c, s, root, flags0);
    PendingShifted(yychar, yylval, scanner);
    StepGood(c);
    ok := stacks.Push(s, yylval);
  }

  // Reduces by a rule, or unwinds its right-hand side if its action raises an error.
  method DoReduction(r: nat, stacks: Stacks, yychar: int, yylval: Value, scanner: Guts, root: SelectedPath, err: Errno,
                     ghost c: Config, ghost flags0: bv8)
    returns (raised: bool, ok: bool)
    requires Going(stacks, yychar, yylval, scanner, root, c, flags0)
    requires Automaton(Top(c.states), Kind(c.rest)) == Reduce(r) && Top(c.states) != 25
    modifies stacks, stacks.yyss, stacks.yyvs, root, err
    ensures raised ==> Step(c) == Done(Rejected) && stacks.Roomy() && !stacks.refused && Linked(stacks.States())
    ensures !raised ==> Step(c).Next?
    ensures !raised && ok ==> Going(stacks, yychar, yylval, scanner, root, Step(c).c, flags0)
    ensures !raised && !ok ==> stacks.refused || |Step(c).c.states| >= Step(c).c.depth
    ensures stacks.yyss == old(stacks.yyss) || fresh(stacks.yyss)
    ensures stacks.yyvs == old(stacks.yyvs) || fresh(stacks.yyvs)
  {
    hide Automaton, Link, Linked, Step, RootIs, RootSoFar, Kind, Lookahead, Pending, Act, Goto, Rhs, YyR1;
    ReduceIsStep(c, r);
    raised, ok := DoReduce(r, stacks, root, err, c, flags0);
    if !raised { StepGood(c); }
  }

  lemma LookaheadOfGoing(stacks: Stacks, yychar: int, yylval: Value, scanner: Guts, root: SelectedPath, c: Config,
                         flags0: bv8)
    requires Going(stacks, yychar, yylval, scanner, root, c, flags0)
    ensures scanner.Valid() && Lookahead(yychar, yylval, scanner)
    ensures Pending(yychar, yylval, scanner) == c.rest && Tokens(c.rest)
  {
    hide Lookahead, Pending;
  }

  lemma GoingAtStart(stacks: Stacks, scanner: Guts, root: SelectedPath)
    requires stacks.Roomy() && stacks.States() == [0] && stacks.Vals() == [] && !stacks.refused
    requires scanner.Valid() && Ready(Start(scanner.Rest(), YYMAXDEPTH))
    ensures Going(stacks, YYEMPTY, NoValue, scanner, root, Start(scanner.Rest(), YYMAXDEPTH), root.flags)
  {
  }

  // yyerrlab: reports a syntax error, unless one is being recovered from; the lookahead is kept, unless it has been
  // tried again without a token having been shifted. The error status is 0 whenever this point is reached.
  method SyntaxErrorDetected(yyerrstatus: int, yychar0: int, err: Errno) returns (yychar: int)
    requires yyerrstatus == 0
    modifies err
    ensures yychar == yychar0 && err.code < 0
  {
    yychar := yychar0;
    if yyerrstatus == 0 {
      YyError(err);
    }
    if yyerrstatus == 3 {
      if yychar <= YYEOF {
        if yychar == YYEOF {
          // yyabortlab
          assert false;
        }
      } else {
        yychar := YYEMPTY;
      }
    }
  }

  // One move: a shift, a reduction or the report of a syntax error.
  method Perform(move: Move, stacks: Stacks, yychar0: int, yylval: Value, yyerrstatus0: int, scanner: Guts,
                 root: SelectedPath, err: Errno, ghost c: Config, ghost flags0: bv8)
    returns (raised: bool, ok: bool, yychar: int, yyerrstatus: int)
    requires Going(stacks, yychar0, yylval, scanner, root, c, flags0) && yyerrstatus0 == 0
    requires move == Automaton(Top(c.states), Kind(c.rest)) && Top(c.states) != 25
    requires move.Shift? ==> yychar0 != YYEMPTY
    modifies stacks, stacks.yyss, stacks.yyvs, root, err
    ensures yyerrstatus == 0
    ensures raised ==> Step(c) == Done(Rejected) && stacks.Roomy() && !stacks.refused && Linked(stacks.States())
    ensures raised ==>
              scanner.Valid() && Lookahead(yychar, yylval, scanner) && Pending(yychar, yylval, scanner) == c.rest
    ensures !raised ==> Step(c).Next?
    ensures !raised && ok ==> Going(stacks, yychar, yylval, scanner, root, Step(c).c, flags0)
    ensures !raised && !ok ==> stacks.refused || |Step(c).c.states| >= Step(c).c.depth
    ensures stacks.yyss == old(stacks.yyss) || fresh(stacks.yyss)
    ensures stacks.yyvs == old(stacks.yyvs) || fresh(stacks.yyvs)
  {
    hide Automaton, Link, Linked, Step, RootSoFar, Kind, Lookahead, Pending, Going;
    LookaheadOfGoing(stacks, yychar0, yylval, scanner, root, c, flags0);
    raised, ok, yychar, yyerrstatus := false, true, yychar0, yyerrstatus0;
    match move {
      case Shift(s) =>
        if yyerrstatus != 0 {
          yyerrstatus := yyerrstatus - 1;
        }
        ok := DoShift(s, stacks, yychar, yylval, scanner, root, c, flags0);
        yychar := YYEMPTY;
      case Reduce(r) =>
        raised, ok := DoReduction(r, stacks, yychar, yylval, scanner, root, err, c, flags0);
      case Error =>
        SyntaxError(stacks, yychar, yylval, scanner, root, c, flags0);
        yychar := SyntaxErrorDetected(yyerrstatus, yychar, err);
        raised := true;
    }
  }

  lemma SyntaxError(stacks: Stacks, yychar: int, yylval: Value, scanner: Guts, root: SelectedPath, c: Config,
                    flags0: bv8)
    requires Going(stacks, yychar, yylval, scanner, root, c, flags0)
    requires Automaton(Top(c.states), Kind(c.rest)) == Error && Top(c.states) != 25
    ensures Step(c) == Done(Rejected) && stacks.Roomy() && !stacks.refused && Linked(stacks.States())
  {
    hide Automaton, Link, Linked, Step, RootSoFar, Kind, Lookahead, Pending;
    ErrorIsStep(c);
  }

  // Decides on the next move; nothing but the lookahead changes.
  method NextMove(yystate: State, ghost yyerrstatus: int, stacks: Stacks, yychar0: int, yylval0: Value, scanner: Guts,
                  root: SelectedPath, ghost c: Config, ghost flags0: bv8)
    returns (move: Move, yychar: int, yylval: Value)
    requires Running(yyerrstatus, stacks, yychar0, yylval0, scanner, root, c, flags0)
    requires yystate == Top(stacks.States())
    modifies scanner
    ensures Running(yyerrstatus, stacks, yychar, yylval, scanner, root, c, flags0)
    ensures move == Automaton(yystate, Kind(c.rest)) && (move.Shift? ==> yychar != YYEMPTY)
  {
    hide Automaton, Link, Linked, RootSoFar, Kind, Lookahead, Pending;
    move, yychar, yylval := Backup(yystate, scanner, yychar0, yylval0);
  }

  // yyerrlab1: unwinds to the start state and shifts the error symbol. No token is read or dropped.
  method Unwind(stacks: Stacks, yychar: int, yylval: Value, scanner: Guts) returns (yyerrstatus: int)
    requires stacks.Roomy() && !stacks.refused && Linked(stacks.States())
    requires scanner.Valid() && Lookahead(yychar, yylval, scanner) && Tokens(Pending(yychar, yylval, scanner))
    modifies stacks, stacks.yyss, stacks.yyvs
    ensures yyerrstatus == 3 && stacks.Roomy() && stacks.States() == [0, 1]
    ensures Recovering(stacks, yychar, yylval, scanner, old(Pending(yychar, yylval, scanner)))
    ensures stacks.yyss == old(stacks.yyss) || fresh(stacks.yyss)
    ensures stacks.yyvs == old(stacks.yyvs) || fresh(stacks.yyvs)
  {
    hide Link, Linked, Lookahead, Pending;
    yyerrstatus := 3;
    Recover(stacks, yylval);
  }

  // The state of the error symbol has only the reduction whose action returns, whatever the lookahead: no token is
  // shifted and no second error arises. No other state has this reduction.
  lemma OnlyRecoveryReturns(yyerrstatus: int, stacks: Stacks, yychar: int, yylval: Value, scanner: Guts,
                            root: SelectedPath, c: Config, flags0: bv8)
    requires Running(yyerrstatus, stacks, yychar, yylval, scanner, root, c, flags0)
    requires Top(stacks.States()) != YYFINAL
    ensures Automaton(Top(stacks.States()), Kind(c.rest)) == Reduce(4) <==> yyerrstatus == 3
  {
    hide Automaton, Link, Linked, RootSoFar, Kind, Lookahead, Pending;
    if yyerrstatus == 3 {
      ErrorStateReturns(Kind(c.rest));
    } else if Automaton(Top(c.states), Kind(c.rest)).Reduce? {
      ReduceSpells(c.states, Kind(c.rest));
    }
  }

  method CurrentState(ghost yyerrstatus: int, stacks: Stacks, ghost yychar: int, ghost yylval: Value,
                      ghost scanner: Guts, ghost root: SelectedPath, ghost c: Config, ghost flags0: bv8)
    returns (yystate: State)
    requires Running(yyerrstatus, stacks, yychar, yylval, scanner, root, c, flags0)
    ensures yystate == Top(stacks.States())
    ensures yyerrstatus == 0 ==> stacks.States() == c.states
    ensures yystate == YYFINAL ==> yyerrstatus == 0 && Run(c).Accepted? && RootIs(root, Run(c).v, flags0)
  {
    hide Run, RootSoFar, Lookahead, Pending;
    yystate := stacks.Top();
    if yystate == YYFINAL { FinalAccepts(c, root, flags0); }
  }

  // The driver. 0 is acceptance, 2 exhausted stacks, and a negative value a rejection, which takes one recovery.
  method Yyparse(scanner: Guts, root: SelectedPath, err: Errno)
    returns (yyresult: int, ghost noMemory: bool, ghost recoveries: nat)
    requires scanner.Valid() && Tokens(scanner.Rest())
    modifies scanner, root, err
    ensures var outcome := Run(Start(old(scanner.Rest()), YYMAXDEPTH));
            && (yyresult == 0 ==> outcome.Accepted? && RootIs(root, outcome.v, old(root.flags)))
            && (yyresult < 0 ==> outcome == Rejected)
            && (yyresult > 0 ==> yyresult == 2 && (noMemory || outcome == Exhausted))
    ensures noMemory ==> yyresult == 2
    ensures recoveries == if yyresult < 0 then 1 else 0
  {
    hide Run, Automaton, Link, Linked, Step, RootIs, RootSoFar, Kind, Lookahead, Pending, Going, Recovering;
    ghost var c, flags0 := Start(scanner.Rest(), YYMAXDEPTH), root.flags;
    StartReady(scanner.Rest(), YYMAXDEPTH);
    ghost var outcome := Run(c);
    var stacks := new Stacks();
    var yychar, yylval, yyerrstatus := YYEMPTY, NoValue, 0;
    recoveries, noMemory := 0, false;
    GoingAtStart(stacks, scanner, root);
    while true
      invariant fresh(stacks) && fresh(stacks.yyss) && fresh(stacks.yyvs) && !noMemory
      invariant Ready(c) && Running(yyerrstatus, stacks, yychar, yylval, scanner, root, c, flags0)
      invariant if yyerrstatus == 0 then Run(c) == outcome && recoveries == 0
                else outcome == Rejected && recoveries == 1
      decreases if yyerrstatus == 0 then 1 else 0, ToShift(c), |c.states|, TopWeight(c)
    {
      var yystate := CurrentState(yyerrstatus, stacks, yychar, yylval, scanner, root, c, flags0);
      if yystate == YYFINAL {
        return 0, false, recoveries;
      }
      var move, raised, ok;
      move, yychar, yylval := NextMove(yystate, yyerrstatus, stacks, yychar, yylval, scanner, root, c, flags0);
      OnlyRecoveryReturns(yyerrstatus, stacks, yychar, yylval, scanner, root, c, flags0);
      if move == Reduce(4) {
        return if err.code < 0 then err.code else -1, false, recoveries;
      }
      raised, ok, yychar, yyerrstatus :=
        Perform(move, stacks, yychar, yylval, yyerrstatus, scanner, root, err, c, flags0);
      RunOn(c);
      if raised {
        recoveries := recoveries + 1;
        yyerrstatus := Unwind(stacks, yychar, yylval, scanner);
      } else if !ok {
        YyError(err);
        if !stacks.refused { RunFull(Step(c).c); }
        return 2, stacks.refused, recoveries;
      } else {
        c := Step(c).c;
      }
    }
  }

  lemma ScannedTokens(text: string, pathError: string -> int)
    requires Clean(text)
    ensures Tokens(Scanned(text, pathError)) && TypedTokens(Scanned(text, pathError))
  {
    hide Scanned;
    ScannedIsGood(text, pathError);
  }

  // What the outcome of the run says about the input and the root.
  lemma OutcomeMeans(input: seq<Token>, root: SelectedPath, flags0: bv8)
    requires Tokens(input) && TypedTokens(input)
    ensures var o := Run(Start(input, YYMAXDEPTH));
            && (o.Accepted? && RootIs(root, o.v, flags0) ==>
                  && Derives(input, o.v) && o.v.Selection? && IsSelection(input)
                  && root.obj.Some? && Selects(input, root.obj.value, root.flags, flags0))
            && (o == Rejected ==> !IsSelection(input))
            && (|input| < YYMAXDEPTH - 2 ==> o != Exhausted)
  {
    hide Run, Derives, IsSelection, TypedTokens, Selects;
    var o := Run(Start(input, YYMAXDEPTH));
    if o != Exhausted {
      AcceptsExactlySelections(input, YYMAXDEPTH);
      if o.Accepted? && RootIs(root, o.v, flags0) {
        AcceptsExactlyDerived(input, o.v, YYMAXDEPTH);
        DerivedIsSelected(input, o.v, root.flags, flags0);
      }
    }
    if |input| < YYMAXDEPTH - 2 {
      ShortInputsFit(Start(input, YYMAXDEPTH));
    }
  }

  // Parses a string. If the stacks can take the input, it succeeds exactly on path selections, and sets the root to
  // what the selection means: the object that the tokens spell, and the flags of its options.
  method PathSelectionParse(root: SelectedPath, str: string, pathError: string -> int, err: Errno)
    returns (ret: int, ghost noMemory: bool)
    requires Clean(str)
    modifies root, err
    ensures ret == 0 ==>
              exists v :: Derives(Scanned(str, pathError), v) && v.Selection? && RootIs(root, v, old(root.flags))
    ensures ret == 0 ==>
              root.obj.Some? && Selects(Scanned(str, pathError), root.obj.value, root.flags, old(root.flags))
    ensures ret == 0 ==> IsSelection(Scanned(str, pathError))
    ensures ret < 0 ==> !IsSelection(Scanned(str, pathError))
    ensures ret < 0 ==> forall o, flags :: !SpellsSelection(o, flags, Scanned(str, pathError))
    ensures ret > 0 ==> ret == 2 && (noMemory || |Scanned(str, pathError)| >= YYMAXDEPTH - 2)
  {
    ScannedTokens(str, pathError);
    hide Run, Derives, IsSelection, RootIs, TypedTokens, Scanned, Selects, SpellsSelection;
    ghost var flags0 := root.flags;
    var myscanner := new Guts(str, pathError);
    ghost var recoveries;
    ret, noMemory, recoveries := Yyparse(myscanner, root, err);
    OutcomeMeans(Scanned(str, pathError), root, flags0);
    SelectionsAreSpelled(Scanned(str, pathError));
  }
}
