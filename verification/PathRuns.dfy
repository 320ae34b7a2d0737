// Whole runs of the parser: they end, and accept only what the grammar derives.
module PathRuns {
  import opened Wrappers
  import opened PathTables
  import opened PathGrammar
  import opened PathMachine

  // ------------------------------------------------------------------------------------ termination

  // A rule of one symbol has a lighter head than its right-hand side.
  function Weight(x: int): nat
  {
    match x
    case 36 => 0 case 37 => 1 case 38 => 0 case 39 => 0 case 40 => 4 case 41 => 0 case 42 => 4 case 43 => 0
    case 44 => 4 case 45 => 0 case 46 => 4 case 47 => 3 case 48 => 0 case 49 => 2 case 50 => 1
    case _ => 5
  }

  lemma HeadIsLighter(r: int)
    requires 2 <= r <= 39 && r != 4 && |Rhs(r)| == 1
    ensures Weight(YyR1(r)) < Weight(Rhs(r)[0])
  {
  }

  // What is left to shift, the end of input included.
  ghost function ToShift(c: Config): nat
    requires Good(c)
  {
    |c.rest| + if Top(c.states) == 25 then 0 else 1
  }

  ghost function TopWeight(c: Config): nat
    requires Good(c)
  {
    Weight(YyStos(Top(c.states)))
  }

  ghost predicate Ready(c: Config)
  {
    Good(c) && Top(c.states) != 1
  }

  ghost predicate Smaller(d: Config, c: Config)
    requires Good(c) && Good(d)
  {
    || ToShift(d) < ToShift(c)
    || (ToShift(d) == ToShift(c) && |d.states| < |c.states|)
    || (ToShift(d) == ToShift(c) && |d.states| == |c.states| && TopWeight(d) < TopWeight(c))
  }

  lemma ShiftShrinks(c: Config)
    requires Ready(c) && Step(c).Next? && Automaton(Top(c.states), Kind(c.rest)).Shift?
    ensures Ready(Step(c).c) && Smaller(Step(c).c, c)
  {
    StepGood(c);
    hide Automaton, YyStos, Link, Linked, Weight;
    ShiftLinks(Top(c.states), Kind(c.rest));
  }

  lemma ReduceShape(c: Config, r: nat)
    requires Ready(c) && Step(c).Next? && Automaton(Top(c.states), Kind(c.rest)) == Reduce(r)
    ensures Spells(c.states, r)
    ensures var d, k := Step(c).c, |Rhs(r)|;
            && d.rest == c.rest && |d.states| == |c.states| - k + 1
            && Top(d.states) != 25 && YyStos(Top(d.states)) == YyR1(r) && YyStos(Top(c.states)) == Rhs(r)[k - 1]
  {
    hide Automaton, YyStos, Link, Linked, Goto, YyR1, Rhs, Act;
    ReduceSpells(c.states, Kind(c.rest));
    var k := |Rhs(r)|;
    assert YyStos(c.states[|c.states| - k + (k - 1)]) == Rhs(r)[k - 1];
    GotoNotOne(c.states[|c.vals| - k], YyR1(r));
  }

  lemma ReduceShrinks(c: Config, r: nat)
    requires Ready(c) && Step(c).Next? && Automaton(Top(c.states), Kind(c.rest)) == Reduce(r)
    ensures Ready(Step(c).c) && Smaller(Step(c).c, c) && Top(Step(c).c.states) != 25
  {
    StepGood(c);
    ReduceShape(c, r);
    hide Automaton, YyStos, Link, Linked, Weight, Goto, YyR1, Rhs, Act, Step;
    if |Rhs(r)| == 1 { HeadIsLighter(r); }
  }

  lemma StepShrinks(c: Config)
    requires Ready(c) && Step(c).Next?
    ensures Ready(Step(c).c) && Smaller(Step(c).c, c) && Step(c).c.depth == c.depth
  {
    hide Smaller, Automaton, Linked;
    match Automaton(Top(c.states), Kind(c.rest))
    case Shift(s) => ShiftShrinks(c);
    case Reduce(r) => ReduceShrinks(c, r);
    case Error =>
  }

  // The whole run from c. Being a function, it ends on every input.
  ghost function Run(c: Config): Outcome
    requires Ready(c)
    decreases ToShift(c), |c.states|, TopWeight(c)
  {
    match Step(c)
    case Done(o) => o
    case Next(d) =>
      StepShrinks(c);
      Run(d)
  }

  function Start(input: seq<Token>, depth: nat): Config
  {
    Config([0], [], input, depth)
  }

  // ------------------------------------------------------------------------------------ soundness

  // The trees on the stack: they derive what has been shifted, and mean the values.
  ghost predicate Explains(forest: seq<Tree>, c: Config, shifted: seq<Token>)
  {
    && |forest| == |c.vals| == |c.states| - 1
    && (forall i :: 0 <= i < |forest| ==> WellFormed(forest[i]) && Symbol(forest[i]) == YyStos(c.states[i + 1]))
    && Meanings(forest) == Some(c.vals)
    && Yields(forest) == shifted
  }

  lemma LeafWellFormed(tok: Token)
    requires 3 <= tok.kind <= 34
    ensures WellFormed(Leaf(tok))
  {
  }

  lemma ShiftExplained(forest: seq<Tree>, c: Config, shifted: seq<Token>)
    requires Ready(c) && Explains(forest, c, shifted) && Step(c).Next? && Automaton(Top(c.states), Kind(c.rest)).Shift?
    requires c.rest != []
    ensures Explains(forest + [Leaf(c.rest[0])], Step(c).c, shifted + [c.rest[0]])
  {
    hide Automaton, YyStos, WellFormed;
    ShiftLinks(Top(c.states), Kind(c.rest));
    var leaf := Leaf(c.rest[0]);
    YieldsConcat(forest, [leaf]);
    MeaningsConcat(forest, [leaf]);
    LeafWellFormed(c.rest[0]);
    Single(leaf);
  }

  // Replacing the last trees by a node over them keeps what is derived, and applies the action to their values.
  lemma NodeOver(low: seq<Tree>, kids: seq<Tree>, r: nat, vals: seq<Value>)
    requires 1 <= r <= 39 && Meanings(low + kids) == Some(vals) && |vals| == |low| + |kids| && |kids| == |Rhs(r)|
    ensures Yields(low + [Node(r, kids)]) == Yields(low + kids)
    ensures Act(r, vals[|low|..]).Some? ==>
              Meanings(low + [Node(r, kids)]) == Some(vals[..|low|] + [Act(r, vals[|low|..]).value])
  {
    hide Act, Rhs;
    var node := Node(r, kids);
    YieldsConcat(low, kids);
    MeaningsConcat(low, kids);
    YieldsConcat(low, [node]);
    MeaningsConcat(low, [node]);
    MeaningsLength(low);
    MeaningsLength(kids);
    assert Meanings(kids).value == vals[|low|..] && Meanings(low).value == vals[..|low|];
    Single(node);
  }

  // A reduction, spelled out.
  lemma ReduceIsStep(c: Config, r: nat)
    requires Ready(c) && |c.states| < c.depth
    requires Automaton(Top(c.states), Kind(c.rest)) == Reduce(r) && Top(c.states) != 25
    ensures 2 <= r <= 39 && r != 4 && 0 < |Rhs(r)| <= |c.vals|
    ensures var n := |c.vals| - |Rhs(r)|;
            Step(c) == match Act(r, c.vals[n..])
                       case None => Done(Rejected)
                       case Some(v) =>
                         Next(Config(c.states[..n + 1] + [Goto(c.states[n], YyR1(r))], c.vals[..n] + [v], c.rest,
                                     c.depth))
    ensures Linked(c.states[..|c.vals| - |Rhs(r)| + 1])
    ensures 36 <= YyR1(r) <= 50
  {
    hide Automaton, YyStos, Link, Linked, Rhs, Act, Goto, YyR1;
    ReduceSpells(c.states, Kind(c.rest));
  }

  lemma KidsSpell(forest: seq<Tree>, c: Config, shifted: seq<Token>, r: int)
    requires Explains(forest, c, shifted) && Spells(c.states, r)
    ensures WellFormed(Node(r, forest[|forest| - |Rhs(r)|..]))
  {
    hide YyStos, YyR1, Rhs, Link, Goto, Linked, Meanings, Yields;
    var k := |Rhs(r)|;
    var n := |forest| - k;
    var kids := forest[n..];
    forall i | 0 <= i < k
      ensures Symbols(kids)[i] == Rhs(r)[i]
    {
      assert Symbol(forest[n + i]) == YyStos(c.states[n + i + 1]);
      assert YyStos(c.states[|c.states| - k + i]) == Rhs(r)[i];
    }
    assert Symbols(kids) == Rhs(r);
  }

  lemma ReduceExplained(forest: seq<Tree>, c: Config, shifted: seq<Token>, r: nat)
    requires Ready(c) && Explains(forest, c, shifted) && Step(c).Next?
    requires Automaton(Top(c.states), Kind(c.rest)) == Reduce(r)
    ensures var n := |forest| - |Rhs(r)|;
            n >= 0 && Explains(forest[..n] + [Node(r, forest[n..])], Step(c).c, shifted)
  {
    hide Automaton, YyStos, YyR1, Rhs, Link, Act, Goto, Linked, Meanings, Yields, Spells, WellFormed, Reduced;
    ReduceIsStep(c, r);
    hide Step;
    ReduceShape(c, r);
    KidsSpell(forest, c, shifted, r);
    var n := |forest| - |Rhs(r)|;
    var low, kids := forest[..n], forest[n..];
    assert forest == low + kids;
    NodeOver(low, kids, r, c.vals);
    var d := Step(c).c;
    TreesInStep(forest, n, Node(r, kids), c.states, d.states);
  }

  // The trees below are those below the states, and the new one has the symbol of the new state.
  lemma TreesInStep(forest: seq<Tree>, n: nat, node: Tree, before: seq<State>, after: seq<State>)
    requires n <= |forest| == |before| - 1 && |after| == n + 2 && after[..n + 1] == before[..n + 1]
    requires forall i :: 0 <= i < |forest| ==> WellFormed(forest[i]) && Symbol(forest[i]) == YyStos(before[i + 1])
    requires WellFormed(node) && Symbol(node) == YyStos(after[n + 1])
    ensures forall i :: 0 <= i < n + 1 ==>
              WellFormed((forest[..n] + [node])[i]) && Symbol((forest[..n] + [node])[i]) == YyStos(after[i + 1])
  {
    hide WellFormed, Symbol, YyStos;
    forall i | 0 <= i < n + 1
      ensures WellFormed((forest[..n] + [node])[i]) && Symbol((forest[..n] + [node])[i]) == YyStos(after[i + 1])
    {
      if i < n { assert after[i + 1] == after[..n + 1][i + 1] == before[..n + 1][i + 1] == before[i + 1]; }
    }
  }

  lemma {:induction false} MeaningsLength(ts: seq<Tree>)
    requires Meanings(ts).Some?
    ensures |Meanings(ts).value| == |ts|
  {
    if ts != [] { MeaningsLength(ts[1..]); }
  }

  lemma ZeroAtBottom(states: seq<State>, i: nat)
    requires Linked(states) && i < |states|
    ensures states[i] == 0 ==> i == 0
  {
    if i > 0 { assert Link(states[i - 1], states[i - 1 + 1]); }
  }

  // The end of input can only be shifted when the whole input has become one tree.
  lemma EndExplained(forest: seq<Tree>, c: Config, shifted: seq<Token>)
    requires Ready(c) && Explains(forest, c, shifted) && Automaton(Top(c.states), Kind(c.rest)) == Shift(25)
    ensures c.rest == [] && |c.vals| == 1 && Derives(shifted, c.vals[0])
  {
    ShiftLinks(Top(c.states), Kind(c.rest));
    UnderTop(c.states);
    ZeroAtBottom(c.states, |c.states| - 2);
    Single(forest[0]);
    assert forest == [forest[0]];
    assert DerivedBy(forest[0], shifted, c.vals[0]);
  }

  // Every run that accepts has found a derivation of the whole input.
  lemma {:induction false} AcceptsOnlyDerived(forest: seq<Tree>, c: Config, shifted: seq<Token>)
    requires Ready(c) && Top(c.states) != 25 && Explains(forest, c, shifted) && Run(c).Accepted?
    ensures Derives(shifted + c.rest, Run(c).v)
    decreases ToShift(c), |c.states|, TopWeight(c)
  {
    hide Automaton, YyStos, YyR1, Rhs, Link, Act, Goto, Linked, Explains, Derives, Weight;
    StepShrinks(c);
    match Automaton(Top(c.states), Kind(c.rest))
    case Shift(s) =>
      ShiftLinks(Top(c.states), Kind(c.rest));
      if s == 25 {
        EndExplained(forest, c, shifted);
        assert shifted + c.rest == shifted;
        EndAccepts(c);
      } else {
        ShiftExplained(forest, c, shifted);
        AcceptsOnlyDerived(forest + [Leaf(c.rest[0])], Step(c).c, shifted + [c.rest[0]]);
        assert shifted + [c.rest[0]] + c.rest[1..] == shifted + c.rest;
      }
    case Reduce(r) =>
      ReduceExplained(forest, c, shifted, r);
      ReduceShrinks(c, r);
      var n := |forest| - |Rhs(r)|;
      AcceptsOnlyDerived(forest[..n] + [Node(r, forest[n..])], Step(c).c, shifted);
    case Error =>
  }

  lemma EndAccepts(c: Config)
    requires Ready(c) && |c.vals| == 1 && Automaton(Top(c.states), Kind(c.rest)) == Shift(25) && Top(c.states) != 25
    ensures Run(c).Accepted? ==> Run(c).v == c.vals[0]
  {
    hide Automaton;
    if Step(c).Next? {
      StepShrinks(c);
      assert Run(c) == Run(Step(c).c);
    }
  }
}
