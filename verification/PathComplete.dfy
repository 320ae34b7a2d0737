// Completeness: whatever the grammar derives, the parser accepts with the meaning of the derivation.
module PathComplete {
  import opened Wrappers
  import opened PathTables
  import opened PathGrammar
  import opened PathMachine
  import opened PathRuns

  // State p is ready for symbol x.
  predicate Wants(p: State, x: int)
  {
    if ValueStart(p) then
      3 <= x <= 6 || x == 12 || x == 13 || 15 <= x <= 19 || 39 <= x <= 47 || x == 49 || x == 50 || (p == 0 && x == 36)
    else
      match p
      case 14 => x == 7 case 16 => x == 7 case 18 => x == 7 case 20 => x == 7
      case 23 => x == 9
      case 24 => x == 11
      case 30 => x == 48 || x == 12 || x == 20 || x == 22 || 24 <= x <= 26 || x == 28 || x == 29
      case 31 => x == 38 || x == 37 || 32 <= x <= 34
      case 54 => x == 37 || 32 <= x <= 34
      case 32 => x == 8 case 55 => x == 8 case 57 => x == 8 case 62 => x == 8
      case 33 => x == 10 case 34 => x == 10 case 35 => x == 10 case 49 => x == 10 case 56 => x == 10
      case 51 => x == 3 case 53 => x == 3 case 60 => x == 3
      case _ => false
  }

  function Go(p: State, x: int): State
  {
    if 0 <= x <= 34 then
      match Automaton(p, x)
      case Shift(s) => s
      case _ => 0
    else Goto(p, x)
  }

  lemma WantsShift(p: State, x: nat)
    requires Wants(p, x) && x <= 34
    ensures Automaton(p, x).Shift?
  {
  }

  lemma WantsGoto(p: State, x: int)
    requires Wants(p, x) && x > 34
    ensures 36 <= x <= 50 && Link(p, Goto(p, x))
  {
  }

  // The state after the first i symbols of a rule begun in state p.
  function After(p: State, r: int, i: nat): State
  {
    if i == 0 then p
    else if |Rhs(r)| == 1 then Go(p, Rhs(r)[0])
    else
      var path := LongPath(match r
        case 2 => 49 case 8 => 58 case 14 => 50 case 16 => 59 case 18 => 63 case 20 => 61 case 37 => 44 case _ => 0);
      if i <= |path| then path[i - 1] else 0
  }

  lemma UnitMoves(p: State, r: int)
    requires 2 <= r <= 39 && r != 4 && |Rhs(r)| == 1 && Wants(p, YyR1(r))
    ensures Wants(p, Rhs(r)[0])
  {
  }

  lemma LongMoves(p: State, r: int, i: nat)
    requires r == 2 || r == 8 || r == 14 || r == 37
    requires Wants(p, YyR1(r)) && i < |Rhs(r)|
    ensures Wants(After(p, r, i), Rhs(r)[i]) && Go(After(p, r, i), Rhs(r)[i]) == After(p, r, i + 1)
  {
  }

  lemma IntervalMoves(p: State, i: nat)
    requires Wants(p, YyR1(18)) && i < |Rhs(18)|
    ensures Wants(After(p, 18, i), Rhs(18)[i]) && Go(After(p, 18, i), Rhs(18)[i]) == After(p, 18, i + 1)
  {
  }

  lemma LongerMoves(p: State, r: int, i: nat)
    requires r == 16 || r == 20
    requires Wants(p, YyR1(r)) && i < |Rhs(r)|
    ensures Wants(After(p, r, i), Rhs(r)[i]) && Go(After(p, r, i), Rhs(r)[i]) == After(p, r, i + 1)
  {
  }

  lemma LongRules(r: int)
    requires 2 <= r <= 39 && r != 4 && |Rhs(r)| != 1
    ensures r == 2 || r == 8 || r == 14 || r == 37 || r == 16 || r == 18 || r == 20
  {
  }

  // In a state ready for the head of a rule, the right-hand side can be gone through symbol by symbol.
  lemma RuleMoves(p: State, r: int, i: nat)
    requires 2 <= r <= 39 && r != 4 && Wants(p, YyR1(r)) && i < |Rhs(r)|
    ensures Wants(After(p, r, i), Rhs(r)[i]) && Go(After(p, r, i), Rhs(r)[i]) == After(p, r, i + 1)
  {
    hide Wants, Go, Rhs, YyR1, LongPath;
    if |Rhs(r)| == 1 {
      UnitMoves(p, r);
    } else {
      LongRules(r);
      if r == 18 { IntervalMoves(p, i); }
      else if r == 16 || r == 20 { LongerMoves(p, r, i); }
      else { LongMoves(p, r, i); }
    }
  }

  // The lookaheads after which the machine completes symbol x instead of going on with it.
  predicate Fits(x: int, tok: nat)
  {
    && (x == 50 ==> tok != 9)
    && (x == 36 ==> tok != 9 && tok != 10 && tok != 11)
  }

  lemma UnitEndsLow(p: State, r: int, tok: nat)
    requires 2 <= r < 21 && r != 4 && |Rhs(r)| == 1 && Wants(p, YyR1(r)) && Fits(YyR1(r), tok)
    ensures Automaton(Go(p, Rhs(r)[0]), tok) == Reduce(r)
  {
  }

  lemma UnitEndsHigh(p: State, r: int, tok: nat)
    requires 21 <= r <= 39 && |Rhs(r)| == 1 && Wants(p, YyR1(r)) && Fits(YyR1(r), tok)
    ensures Automaton(Go(p, Rhs(r)[0]), tok) == Reduce(r)
  {
  }

  // Having gone through the right-hand side, it reduces by the rule.
  lemma RuleEnds(p: State, r: int, tok: nat)
    requires 2 <= r <= 39 && r != 4 && Wants(p, YyR1(r)) && Fits(YyR1(r), tok)
    ensures Automaton(After(p, r, |Rhs(r)|), tok) == Reduce(r)
  {
    if |Rhs(r)| == 1 {
      if r < 21 { UnitEndsLow(p, r, tok); } else { UnitEndsHigh(p, r, tok); }
    } else {
      LongRules(r);
    }
  }

  // A value inside a rule is followed by a terminal, and not by a colon.
  lemma InsideFits(r: int, i: nat)
    requires 2 <= r <= 39 && r != 4 && i < |Rhs(r)|
    ensures Rhs(r)[i] != 36
    ensures Rhs(r)[i] == 50 && i + 1 < |Rhs(r)| ==> Rhs(r)[i + 1] <= 34 && Rhs(r)[i + 1] != 9
    ensures Rhs(r)[i] == 50 && i + 1 == |Rhs(r)| ==> YyR1(r) == 36
  {
  }

  // ------------------------------------------------------------------------------------ the induction

  // The run from c comes to d, unless the stacks are exhausted on the way.
  ghost predicate Leads(c: Config, d: Config)
    requires Ready(c) && Ready(d)
  {
    Run(c) == Run(d) || Run(c) == Exhausted
  }

  // c, with symbol x of value v found on top and rest still to read.
  function Pushed(c: Config, x: int, v: Value, rest: seq<Token>): Config
    requires c.states != []
  {
    Config(c.states + [Go(Top(c.states), x)], c.vals + [v], rest, c.depth)
  }

  lemma PushedReady(c: Config, x: int, v: Value, rest: seq<Token>)
    requires Ready(c) && Wants(Top(c.states), x) && Tokens(rest)
    ensures Ready(Pushed(c, x, v, rest))
  {
    var p := Top(c.states);
    if x <= 34 {
      WantsPositive(p, x);
      WantsShift(p, x);
      ShiftLinks(p, x);
    } else {
      WantsGoto(p, x);
      GotoNotOne(p, x);
    }
    hide Wants, Link, Automaton, Goto;
    LinkedPush(c.states, Go(p, x));
  }

  lemma WantsPositive(p: State, x: int)
    requires Wants(p, x)
    ensures 3 <= x <= 50
  {
  }

  lemma FinalWantsNothing(x: int)
    ensures !Wants(25, x)
  {
  }

  lemma LeafLeads(c: Config, tok: Token, rest: seq<Token>)
    requires Ready(c) && Wants(Top(c.states), tok.kind) && c.rest == [tok] + rest && tok.kind <= 34 && Tokens(rest)
    ensures Ready(Pushed(c, tok.kind, tok.val, rest)) && Leads(c, Pushed(c, tok.kind, tok.val, rest))
  {
    var p := Top(c.states);
    PushedReady(c, tok.kind, tok.val, rest);
    WantsShift(p, tok.kind);
    var to := Automaton(p, tok.kind).to;
    FinalWantsNothing(tok.kind);
    hide Wants, Link, Automaton, Goto, Linked;
    assert c.rest[1..] == rest;
    if Step(c).Next? {
      StepShrinks(c);
      assert Step(c).c == Pushed(c, tok.kind, tok.val, rest);
      assert Run(c) == Run(Step(c).c);
    }
  }

  lemma ReduceLeads(base: Config, c: Config, r: nat, vs: seq<Value>, v: Value)
    requires Ready(base) && Ready(c) && 2 <= r <= 39 && r != 4 && Wants(Top(base.states), YyR1(r))
    requires Automaton(Top(c.states), Kind(c.rest)) == Reduce(r) && |vs| == |Rhs(r)| && Act(r, vs) == Some(v)
    requires |c.states| == |base.states| + |vs| && c.states[..|base.states|] == base.states && c.vals == base.vals + vs
    requires c.depth == base.depth
    ensures Ready(Pushed(base, YyR1(r), v, c.rest)) && Leads(c, Pushed(base, YyR1(r), v, c.rest))
  {
    var d := Pushed(base, YyR1(r), v, c.rest);
    PushedReady(base, YyR1(r), v, c.rest);
    HeadIsNonterminal(r);
    FinalDoesNotReduce(Kind(c.rest));
    hide Wants, Link, Automaton, Goto, Linked, Act, YyR1, Rhs;
    var n := |c.vals| - |vs|;
    assert c.vals[n..] == vs && c.vals[..n] == base.vals;
    assert c.states[..n + 1] == base.states && c.states[n] == Top(base.states);
    if Step(c).Next? {
      StepShrinks(c);
      assert Step(c).c == d;
      assert Run(c) == Run(d);
    }
  }

  lemma FinalDoesNotReduce(tok: nat)
    ensures !Automaton(25, tok).Reduce? || Automaton(25, tok) == Reduce(1)
  {
  }

  lemma HeadIsNonterminal(r: int)
    requires 2 <= r <= 39
    ensures YyR1(r) >= 36
  {
  }

  // From a state ready for its symbol, the machine reads the yield of a tree and ends up with its symbol and its
  // meaning on the stack.
  lemma {:induction false} Complete(t: Tree, c: Config, rest: seq<Token>, v: Value)
    requires Ready(c) && WellFormed(t) && Meaning(t) == Some(v) && Wants(Top(c.states), Symbol(t))
    requires c.rest == Yield(t) + rest && Fits(Symbol(t), Kind(rest)) && Tokens(rest)
    ensures Ready(Pushed(c, Symbol(t), v, rest)) && Leads(c, Pushed(c, Symbol(t), v, rest))
    decreases t, 1, 0
  {
    hide Wants, Link, Automaton, Goto, Linked, Act, YyR1, Rhs, Leads, Fits;
    match t
    case Leaf(tok) =>
      LeafLeads(c, tok, rest);
    case Node(r, kids) =>
      assert kids[0..] == kids;
      assert c.states[..|c.states|] == c.states && c.vals + Meanings(kids).value[..0] == c.vals;
      CompleteKids(t, c, c, 0, Meanings(kids).value, rest, v);
  }

  // The machine has dealt with the first i children of t, begun in base.
  ghost predicate Within(t: Tree, base: Config, c: Config, i: nat, vs: seq<Value>, rest: seq<Token>)
    requires t.Node? && Ready(base) && Ready(c)
  {
    && i <= |t.kids| == |vs| && c.depth == base.depth
    && |c.states| == |base.states| + i && c.states[..|base.states|] == base.states
    && Top(c.states) == After(Top(base.states), t.rule, i)
    && c.vals == base.vals + vs[..i]
    && c.rest == Yields(t.kids[i..]) + rest
  }

  lemma {:induction false} CompleteKids(t: Tree, base: Config, c: Config, i: nat, vs: seq<Value>, rest: seq<Token>,
                                        v: Value)
    requires t.Node? && WellFormed(t) && Meanings(t.kids) == Some(vs)
    requires |vs| == |Rhs(t.rule)| && Act(t.rule, vs) == Some(v)
    requires Ready(base) && Wants(Top(base.states), YyR1(t.rule)) && Fits(YyR1(t.rule), Kind(rest)) && Tokens(rest)
    requires Ready(c) && Within(t, base, c, i, vs, rest)
    ensures Ready(Pushed(base, Symbol(t), v, rest)) && Leads(c, Pushed(base, Symbol(t), v, rest))
    decreases t, 0, |t.kids| - i
  {
    hide Wants, Link, Automaton, Goto, Linked, Act, YyR1, Rhs, Fits, Leads, Go, After, Yields;
    var r, kids, p := t.rule, t.kids, Top(base.states);
    assert |kids| == |Symbols(kids)|;
    if i == |kids| {
      assert kids[i..] == [] && [] + rest == rest;
      YieldsNothing();
      RuleEnds(p, r, Kind(rest));
      assert vs[..i] == vs;
      ReduceLeads(base, c, r, vs, v);
    } else {
      NextKid(t, base, c, i, vs, rest, v);
      var after := Yields(kids[i + 1..]) + rest;
      Complete(kids[i], c, after, vs[i]);
      var d := Pushed(c, Symbol(kids[i]), vs[i], after);
      CompleteKids(t, base, d, i + 1, vs, rest, v);
      LeadsOn(c, d, Pushed(base, Symbol(t), v, rest));
    }
  }

  lemma LeadsOn(c: Config, d: Config, e: Config)
    requires Ready(c) && Ready(d) && Ready(e) && Leads(c, d) && Leads(d, e)
    ensures Leads(c, e)
  {
  }

  // The next child can be read, and reading it keeps the machine within the tree.
  lemma NextKid(t: Tree, base: Config, c: Config, i: nat, vs: seq<Value>, rest: seq<Token>, v: Value)
    requires t.Node? && WellFormed(t) && Meanings(t.kids) == Some(vs) && Act.requires(t.rule, vs) && i < |t.kids|
    requires Ready(base) && Wants(Top(base.states), YyR1(t.rule)) && Fits(YyR1(t.rule), Kind(rest))
    requires Ready(c) && Within(t, base, c, i, vs, rest)
    ensures var kid, after := t.kids[i], Yields(t.kids[i + 1..]) + rest;
            && WellFormed(kid) && Meaning(kid) == Some(vs[i]) && Wants(Top(c.states), Symbol(kid))
            && c.rest == Yield(kid) + after && Fits(Symbol(kid), Kind(after)) && Tokens(after)
            && (Ready(Pushed(c, Symbol(kid), vs[i], after)) ==>
                Within(t, base, Pushed(c, Symbol(kid), vs[i], after), i + 1, vs, rest))
  {
    hide Wants, Link, Automaton, Goto, Linked, Act, YyR1, Rhs, Fits, Go, After;
    var r, kids, p := t.rule, t.kids, Top(base.states);
    var kid, x := kids[i], Rhs(r)[i];
    assert |kids| == |Symbols(kids)| && Symbols(kids)[i] == x;
    var after := Yields(kids[i + 1..]) + rest;
    KidFits(t, i, rest);
    KidMeans(kids, i, vs);
    RuleMoves(p, r, i);
    assert kids[i..][0] == kid && kids[i..][1..] == kids[i + 1..];
    assert c.rest == Yield(kid) + after;
    TokensTail(c.rest, Yield(kid), after);
    var d := Pushed(c, x, vs[i], after);
    assert d.vals == base.vals + vs[..i + 1];
    assert d.states[..|base.states|] == base.states;
  }

  lemma YieldsNothing()
    ensures Yields([]) == []
  {
  }

  lemma TokensTail(ts: seq<Token>, a: seq<Token>, b: seq<Token>)
    requires Tokens(ts) && ts == a + b
    ensures Tokens(b)
  {
    forall i | 0 <= i < |b|
      ensures 2 <= b[i].kind <= 34
    {
      assert b[i] == ts[|a| + i];
    }
  }

  lemma {:induction false} KidMeans(kids: seq<Tree>, i: nat, vs: seq<Value>)
    requires Meanings(kids) == Some(vs) && i < |kids|
    ensures |vs| == |kids| && Meaning(kids[i]) == Some(vs[i])
  {
    var tail := Meanings(kids[1..]).value;
    assert vs[1..] == tail;
    if i > 0 {
      KidMeans(kids[1..], i - 1, tail);
    } else {
      MeaningsLength(kids);
    }
  }

  lemma KidFits(t: Tree, i: nat, rest: seq<Token>)
    requires t.Node? && WellFormed(t) && Fits(YyR1(t.rule), Kind(rest)) && i < |t.kids|
    ensures Fits(Symbol(t.kids[i]), Kind(Yields(t.kids[i + 1..]) + rest))
  {
    hide YyR1, Rhs, Yields;
    var r, kids := t.rule, t.kids;
    assert |kids| == |Symbols(kids)| && Symbols(kids)[i] == Rhs(r)[i];
    InsideFits(r, i);
    if Symbol(kids[i]) == 50 {
      if i + 1 < |kids| {
        assert Symbols(kids)[i + 1] == Rhs(r)[i + 1];
        var next := kids[i + 1];
        assert WellFormed(next);
        if next.Node? { HeadIsNonterminal(next.rule); }
        FirstLeaf(kids[i + 1..], rest);
      } else {
        YieldsNothing();
        assert kids[i + 1..] == [] && [] + rest == rest;
      }
    }
  }

  lemma FirstLeaf(kids: seq<Tree>, rest: seq<Token>)
    requires kids != [] && kids[0].Leaf?
    ensures Kind(Yields(kids) + rest) == kids[0].tok.kind
  {
    assert Yields(kids) == [kids[0].tok] + Yields(kids[1..]);
  }

  // ------------------------------------------------------------------------------------ the theorems

  lemma StartReady(input: seq<Token>, depth: nat)
    requires Tokens(input)
    ensures Ready(Start(input, depth))
  {
  }

  // The parser accepts exactly what the grammar derives with every unit known, with the meaning of the derivation;
  // only stacks that are not deep enough can keep it from deciding.
  lemma AcceptsExactlyDerived(input: seq<Token>, v: Value, depth: nat)
    requires Tokens(input) && Ready(Start(input, depth)) && Run(Start(input, depth)) != Exhausted
    ensures Run(Start(input, depth)) == Accepted(v) <==> Derives(input, v)
  {
    hide Run, Derives;
    var c := Start(input, depth);
    if Run(c) == Accepted(v) {
      AcceptsOnlyDerived([], c, []);
      assert [] + input == input;
    }
    if Derives(input, v) {
      DerivedIsAccepted(input, v, depth);
    }
  }

  lemma DerivedIsAccepted(input: seq<Token>, v: Value, depth: nat)
    requires Tokens(input) && Ready(Start(input, depth)) && Derives(input, v)
    ensures Run(Start(input, depth)) == Accepted(v) || Run(Start(input, depth)) == Exhausted
  {
    var t :| DerivedBy(t, input, v);
    var c := Start(input, depth);
    assert Yield(t) + [] == input;
    hide Run, Meaning, Yield;
    Complete(t, c, [], v);
    var d := Pushed(c, 36, v, []);
    assert d.states == [0, 13] && d.vals == [v];
    SelectionEnds(d, v);
  }

  lemma SelectionEnds(d: Config, v: Value)
    requires Ready(d) && d.states == [0, 13] && d.vals == [v] && d.rest == []
    ensures Run(d) == Accepted(v) || Run(d) == Exhausted
  {
    var e := Config([0, 13, 25], [v, NoValue], [], d.depth);
    if Step(d) != Done(Exhausted) {
      assert Step(d) == Next(e);
      StepShrinks(d);
      hide Automaton;
      assert Step(e) == Done(Accepted(v)) || Step(e) == Done(Exhausted);
      assert Run(d) == Run(e);
    }
  }

  // A tree derives tokens only.
  lemma {:induction false} DerivedTokens(t: Tree)
    requires WellFormed(t)
    ensures Tokens(Yield(t))
  {
    hide Rhs, YyR1;
    if t.Node? { AllDerivedTokens(t.kids); }
  }

  lemma {:induction false} AllDerivedTokens(ts: seq<Tree>)
    requires forall t :: t in ts ==> WellFormed(t)
    ensures Tokens(Yields(ts))
  {
    hide WellFormed;
    if ts != [] {
      DerivedTokens(ts[0]);
      AllDerivedTokens(ts[1..]);
    }
  }

  // A sentence has one meaning, whichever tree derives it.
  lemma MeaningIsUnique(input: seq<Token>, v: Value, w: Value)
    requires Derives(input, v) && Derives(input, w)
    ensures v == w
  {
    var t :| DerivedBy(t, input, v);
    DerivedTokens(t);
    hide Run, Derives;
    var depth := |input| + 3;
    StartReady(input, depth);
    ShortInputsFit(Start(input, depth));
    AcceptsExactlyDerived(input, v, depth);
    AcceptsExactlyDerived(input, w, depth);
  }

  // A run never has more states than one plus the tokens it has shifted, the end included.
  lemma {:induction false} ShortInputsFit(c: Config)
    requires Ready(c) && |c.states| + ToShift(c) < c.depth
    ensures Run(c) != Exhausted
    decreases ToShift(c), |c.states|, TopWeight(c)
  {
    hide Automaton, Link, Linked, Act, Goto, YyR1, Rhs, YyStos, Weight;
    if Step(c).Next? {
      StepShrinks(c);
      StepGrowth(c);
      ShortInputsFit(Step(c).c);
    }
  }

  lemma StepGrowth(c: Config)
    requires Ready(c) && Step(c).Next? && Ready(Step(c).c)
    ensures |Step(c).c.states| + ToShift(Step(c).c) <= |c.states| + ToShift(c)
  {
    hide Automaton, Link, Linked, Act, Goto, YyR1, Rhs, YyStos;
    match Automaton(Top(c.states), Kind(c.rest))
    case Shift(s) => ShiftLinks(Top(c.states), Kind(c.rest));
    case Reduce(r) => ReduceShape(c, r);
    case Error =>
  }
}
