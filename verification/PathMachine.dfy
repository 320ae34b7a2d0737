// The parser as a machine: configurations, steps and whole runs.
module PathMachine {
  import opened Wrappers
  import opened PathTables
  import opened PathGrammar

  const YYINITDEPTH: nat := 200
  const YYMAXDEPTH: nat := 10000

  datatype Outcome = Accepted(v: Value) | Rejected | Exhausted

  // The stacks, the tokens not yet shifted, and how many states the stacks can take.
  datatype Config = Config(states: seq<State>, vals: seq<Value>, rest: seq<Token>, depth: nat)

  // The lookahead; past the last token it is the end of input.
  function Kind(rest: seq<Token>): nat
  {
    if rest == [] then 0 else rest[0].kind
  }

  ghost predicate Tokens(ts: seq<Token>)
  {
    forall i :: 0 <= i < |ts| ==> 2 <= ts[i].kind <= 34
  }

  // The one state that can lie below s, for a state that can be entered from one state only.
  function Below(s: State): State
  {
    match s
    case 1 => 0 case 13 => 0 case 24 => 0 case 25 => 13 case 26 => 14 case 27 => 16 case 28 => 18 case 29 => 20
    case 30 => 23 case 31 => 24 case 32 => 26 case 33 => 27 case 34 => 28 case 35 => 29
    case 48 => 31 case 49 => 31 case 50 => 32 case 51 => 33 case 52 => 34 case 53 => 35 case 54 => 49 case 55 => 51
    case 56 => 52 case 57 => 53 case 58 => 54 case 59 => 55 case 60 => 56 case 61 => 57 case 62 => 60 case 63 => 62
    case _ => 30
  }

  // State s can lie on top of state p.
  predicate Link(p: State, s: State)
  {
    if s == 0 then false
    else if 2 <= s <= 12 || 14 <= s <= 23 then ValueStart(p)
    else if 45 <= s <= 47 then p == 31 || p == 54
    else p == Below(s)
  }

  ghost predicate Linked(states: seq<State>)
  {
    && states != [] && states[0] == 0
    && forall i :: 0 <= i < |states| - 1 ==> Link(states[i], states[i + 1])
  }

  ghost predicate Good(c: Config)
  {
    Linked(c.states) && |c.states| == |c.vals| + 1 && Tokens(c.rest)
  }

  function Top(states: seq<State>): State
    requires states != []
  {
    states[|states| - 1]
  }

  ghost predicate ShiftTo(p: State, tok: nat, to: State)
  {
    && Link(p, to) && YyStos(to) == tok && to != 0 && to != 1 && tok != 2 && tok <= 34 && (tok == 0 <==> to == 25)
  }

  lemma ValueShifts(p: State, tok: nat)
    requires Automaton(p, tok).Shift? && tok != 1 && ValueStart(p)
    ensures ShiftTo(p, tok, Automaton(p, tok).to)
  {
  }

  lemma OtherShifts(p: State, tok: nat)
    requires Automaton(p, tok).Shift? && tok != 1 && !ValueStart(p)
    ensures ShiftTo(p, tok, Automaton(p, tok).to)
  {
  }

  lemma ShiftLinks(p: State, tok: nat)
    requires Automaton(p, tok).Shift? && tok != 1
    ensures ShiftTo(p, tok, Automaton(p, tok).to)
  {
    if ValueStart(p) { ValueShifts(p, tok); } else { OtherShifts(p, tok); }
  }

  lemma UnderTop(states: seq<State>)
    requires Linked(states) && Top(states) != 0
    ensures |states| >= 2 && Link(states[|states| - 2], Top(states)) && Linked(states[..|states| - 1])
  {
    assert |states| >= 2;
    assert Link(states[|states| - 2], states[|states| - 2 + 1]);
  }

  // Reducing by a rule of one symbol in state s on top of p: the head's state can follow p.
  ghost predicate UnitReduction(p: State, s: State, r: int)
  {
    && 2 <= r <= 39 && r != 4 && |Rhs(r)| == 1 && YyStos(s) == Rhs(r)[0]
    && Link(p, Goto(p, YyR1(r))) && YyStos(Goto(p, YyR1(r))) == YyR1(r) && 36 <= YyR1(r) <= 50
  }

  lemma UnitRule2(p: State, s: State, tok: nat)
    requires 2 <= s < 6 && Link(p, s) && Automaton(s, tok).Reduce?
    ensures UnitReduction(p, s, Automaton(s, tok).rule)
  {
  }

  lemma UnitRule6(p: State, s: State, tok: nat)
    requires 6 <= s < 13 && Link(p, s) && Automaton(s, tok).Reduce?
    ensures UnitReduction(p, s, Automaton(s, tok).rule)
  {
  }

  lemma UnitRule14(p: State, s: State, tok: nat)
    requires 14 <= s < 18 && Link(p, s) && Automaton(s, tok).Reduce?
    ensures UnitReduction(p, s, Automaton(s, tok).rule)
  {
  }

  lemma UnitRule18(p: State, s: State, tok: nat)
    requires 18 <= s < 22 && Link(p, s) && Automaton(s, tok).Reduce?
    ensures UnitReduction(p, s, Automaton(s, tok).rule)
  {
  }

  lemma UnitRule22(p: State, s: State, tok: nat)
    requires s == 22 && Link(p, s) && Automaton(s, tok).Reduce?
    ensures UnitReduction(p, s, Automaton(s, tok).rule)
  {
  }

  lemma UnitRule23(p: State, s: State, tok: nat)
    requires 23 <= s < 25 && Link(p, s) && Automaton(s, tok).Reduce?
    ensures UnitReduction(p, s, Automaton(s, tok).rule)
  {
  }

  lemma UnitRule36(p: State, s: State, tok: nat)
    requires 36 <= s < 44 && Link(p, s) && Automaton(s, tok).Reduce?
    ensures UnitReduction(p, s, Automaton(s, tok).rule)
  {
  }

  lemma UnitRule45(p: State, s: State, tok: nat)
    requires 45 <= s < 49 && Link(p, s) && Automaton(s, tok).Reduce?
    ensures UnitReduction(p, s, Automaton(s, tok).rule)
  {
  }

  lemma UnitRule(p: State, s: State, tok: nat)
    requires Link(p, s) && s != 25 && s != 1 && Automaton(s, tok).Reduce?
    requires s != 44 && s != 49 && s != 50 && s != 58 && s != 59 && s != 61 && s != 63
    ensures UnitReduction(p, s, Automaton(s, tok).rule)
  {
    hide UnitReduction;
    if s < 6 { UnitRule2(p, s, tok); }
    else if s < 13 { UnitRule6(p, s, tok); }
    else if s < 18 { UnitRule14(p, s, tok); }
    else if s < 22 { UnitRule18(p, s, tok); }
    else if s < 23 { UnitRule22(p, s, tok); }
    else if s < 25 { UnitRule23(p, s, tok); }
    else if s < 44 { UnitRule36(p, s, tok); }
    else { UnitRule45(p, s, tok); }
  }

  // Reducing in one of the other states: the states below it are known down to the one that begins the rule.
  lemma LongRule(s: State, tok: nat)
    requires s == 44 || s == 49 || s == 50 || s == 58 || s == 59 || s == 61 || s == 63
    requires Automaton(s, tok).Reduce?
    ensures Automaton(s, tok).rule == (if s == 44 then 37 else if s == 49 then 2 else if s == 50 then 14
            else if s == 58 then 8 else if s == 59 then 16 else if s == 61 then 20 else 18)
  {
  }

  // path is what lies on top of the stack.
  ghost predicate OnTop(states: seq<State>, path: seq<State>)
  {
    |path| <= |states| && states[|states| - |path|..] == path
  }

  // Only q can lie directly below s.
  ghost predicate OnlyBelow(q: State, s: State)
  {
    s != 0 && forall p: State :: Link(p, s) ==> p == q
  }

  // Each state of the path but the first can only lie on the one before it.
  ghost predicate Forced(path: seq<State>)
  {
    && path != [] && path[0] != 0
    && forall i :: 0 <= i < |path| - 1 ==> OnlyBelow(path[i], path[i + 1])
  }

  lemma {:induction false} ForcedOnTop(states: seq<State>, path: seq<State>)
    requires Linked(states) && Forced(path) && Top(states) == Top(path)
    ensures var n, k := |states|, |path|;
            n > k && OnTop(states, path) && Linked(states[..n - k]) && Link(states[n - k - 1], path[0])
    decreases |path|
  {
    hide Linked, Link;
    var n, k := |states|, |path|;
    if k > 1 {
      assert OnlyBelow(path[k - 2], path[k - 2 + 1]);
      UnderTop(states);
      var low, shorter := states[..n - 1], path[..k - 1];
      ForcedOnTop(low, shorter);
      assert low[n - 1 - (k - 1)..] == shorter;
      assert states[n - k..] == low[n - k..] + [Top(states)];
      assert path == shorter + [Top(path)];
      assert states[..n - k] == low[..n - k];
    } else {
      UnderTop(states);
      assert states[n - 1..] == path;
    }
  }

  // The path below a state that reduces by a rule of several symbols.
  function LongPath(s: State): seq<State>
  {
    match s
    case 44 => [23, 30, 44]
    case 49 => [24, 31, 49]
    case 58 => [49, 54, 58]
    case 50 => [14, 26, 32, 50]
    case 59 => [16, 27, 33, 51, 55, 59]
    case 61 => [20, 29, 35, 53, 57, 61]
    case 63 => [18, 28, 34, 52, 56, 60, 62, 63]
    case _ => []
  }

  predicate IsLong(s: State)
  {
    s == 44 || s == 49 || s == 50 || s == 58 || s == 59 || s == 61 || s == 63
  }

  // A state that Below describes.
  predicate EnteredOnce(s: State)
  {
    s == 1 || s == 13 || 24 <= s <= 44 || 48 <= s
  }

  lemma SingleBelow(s: State)
    requires EnteredOnce(s)
    ensures OnlyBelow(Below(s), s)
  {
    hide Below;
  }

  lemma LongPathBelow(s: State)
    requires s == 44 || s == 49 || s == 58 || s == 50
    ensures var path := LongPath(s);
            forall i {:trigger path[i]} :: 0 <= i < |path| - 1 ==>
              path[i] == Below(path[i + 1]) && EnteredOnce(path[i + 1])
  {
  }

  lemma LongerPathBelow(s: State)
    requires s == 59 || s == 61 || s == 63
    ensures var path := LongPath(s);
            forall i {:trigger path[i]} :: 0 <= i < |path| - 1 ==>
              path[i] == Below(path[i + 1]) && EnteredOnce(path[i + 1])
  {
  }

  lemma LongPathForced(s: State)
    requires IsLong(s)
    ensures Forced(LongPath(s)) && Top(LongPath(s)) == s
  {
    if s == 59 || s == 61 || s == 63 { LongerPathBelow(s); } else { LongPathBelow(s); }
    hide OnlyBelow, Below, EnteredOnce, Link;
    var path := LongPath(s);
    forall i | 0 <= i < |path| - 1
      ensures OnlyBelow(path[i], path[i + 1])
    {
      SingleBelow(path[i + 1]);
    }
  }

  ghost predicate LongReduction(p: State, s: State, r: int)
  {
    var path := LongPath(s);
    && 2 <= r <= 39 && r != 4 && |path| == |Rhs(r)|
    && (forall i :: 0 <= i < |path| ==> YyStos(path[i]) == Rhs(r)[i])
    && Link(p, Goto(p, YyR1(r))) && YyStos(Goto(p, YyR1(r))) == YyR1(r) && 36 <= YyR1(r) <= 50
  }

  lemma LongPathSpells(s: State, r: int)
    requires (s == 44 && r == 37) || (s == 49 && r == 2) || (s == 50 && r == 14) || (s == 58 && r == 8)
    ensures |LongPath(s)| == |Rhs(r)| && forall i :: 0 <= i < |LongPath(s)| ==> YyStos(LongPath(s)[i]) == Rhs(r)[i]
  {
  }

  lemma LongerPathSpells(s: State, r: int)
    requires (s == 59 && r == 16) || (s == 61 && r == 20) || (s == 63 && r == 18)
    ensures |LongPath(s)| == |Rhs(r)| && forall i :: 0 <= i < |LongPath(s)| ==> YyStos(LongPath(s)[i]) == Rhs(r)[i]
  {
  }

  lemma LongHead(p: State, s: State, r: int)
    requires IsLong(s) && Link(p, LongPath(s)[0])
    requires (s == 44 && r == 37) || (s == 49 && r == 2) || (s == 50 && r == 14) || (s == 58 && r == 8)
          || (s == 59 && r == 16) || (s == 61 && r == 20) || (s == 63 && r == 18)
    ensures Link(p, Goto(p, YyR1(r))) && YyStos(Goto(p, YyR1(r))) == YyR1(r) && 36 <= YyR1(r) <= 50
  {
  }

  lemma LongRuleFits(p: State, s: State, tok: nat)
    requires IsLong(s) && Automaton(s, tok).Reduce? && Link(p, LongPath(s)[0])
    ensures LongReduction(p, s, Automaton(s, tok).rule)
  {
    LongRule(s, tok);
    hide YyStos, Rhs, LongPath, Goto, YyR1, Automaton, Link;
    var r := Automaton(s, tok).rule;
    LongHead(p, s, r);
    if s == 59 || s == 61 || s == 63 { LongerPathSpells(s, r); } else { LongPathSpells(s, r); }
  }

  // The symbols on top of the stack spell out the right-hand side, above a state that the head's state can follow.
  ghost predicate Spells(states: seq<State>, r: int)
  {
    var n, k := |states|, |Rhs(r)|;
    && 2 <= r <= 39 && r != 4 && 0 < k < n && Linked(states[..n - k])
    && (forall i :: 0 <= i < k ==> YyStos(states[n - k + i]) == Rhs(r)[i])
    && Link(states[n - k - 1], Goto(states[n - k - 1], YyR1(r))) && YyStos(Goto(states[n - k - 1], YyR1(r))) == YyR1(r)
    && 36 <= YyR1(r) <= 50
  }

  // Whenever the machine reduces, the stack spells out the rule.
  lemma ReduceSpells(states: seq<State>, tok: nat)
    requires Linked(states) && Top(states) != 25 && Top(states) != 1 && Automaton(Top(states), tok).Reduce?
    ensures Spells(states, Automaton(Top(states), tok).rule)
  {
    hide Automaton, Link, Goto, YyStos, YyR1, Rhs, LongPath;
    var s := Top(states);
    var r := Automaton(s, tok).rule;
    var n := |states|;
    if IsLong(s) {
      var path := LongPath(s);
      LongPathForced(s);
      ForcedOnTop(states, path);
      var p := states[n - |path| - 1];
      LongRuleFits(p, s, tok);
      forall i | 0 <= i < |path|
        ensures YyStos(states[n - |path| + i]) == Rhs(r)[i]
      {
        assert states[n - |path|..][i] == path[i];
      }
    } else {
      NoReduceAtStart(tok);
      UnderTop(states);
      UnitRule(states[n - 2], s, tok);
    }
  }

  lemma NoReduceAtStart(tok: nat)
    ensures !Automaton(0, tok).Reduce?
  {
  }

  // ------------------------------------------------------------------------------------ steps

  datatype StepResult = Next(c: Config) | Done(o: Outcome)

  // One move. The end of input is never used up; an error of either kind ends the run with a rejection.
  ghost function Step(c: Config): StepResult
    requires Good(c)
  {
    var top, n := Top(c.states), |c.vals|;
    if |c.states| >= c.depth then Done(Exhausted)
    else if top == 25 then Done(Accepted(c.vals[0]))
    else
      match Automaton(top, Kind(c.rest))
      case Error => Done(Rejected)
      case Shift(s) =>
        Next(Config(c.states + [s], c.vals + [if c.rest == [] then NoValue else c.rest[0].val],
                    if c.rest == [] then [] else c.rest[1..], c.depth))
      case Reduce(r) => Reduced(c, r)
  }

  ghost function Reduced(c: Config, r: int): StepResult
  {
    var k := |Rhs(r)|;
    if !(1 <= r <= 39 && k <= |c.vals| == |c.states| - 1) then Done(Rejected) else
      var n := |c.vals| - k;
      match Act(r, c.vals[n..])
      case None => Done(Rejected)
      case Some(v) => Next(Config(c.states[..n + 1] + [Goto(c.states[n], YyR1(r))], c.vals[..n] + [v], c.rest, c.depth))
  }

  lemma LinkedPush(states: seq<State>, s: State)
    requires Linked(states) && Link(Top(states), s)
    ensures Linked(states + [s])
  {
    var t := states + [s];
    forall i | 0 <= i < |t| - 1
      ensures Link(t[i], t[i + 1])
    {
      if i < |states| - 1 { assert Link(states[i], states[i + 1]); }
    }
  }

  lemma StepGood(c: Config)
    requires Good(c) && Top(c.states) != 1 && Step(c).Next?
    ensures Good(Step(c).c) && Top(Step(c).c.states) != 1 && Step(c).c.depth == c.depth
  {
    hide Automaton, Goto, YyStos, YyR1, Rhs, Link, Act;
    var top, tok := Top(c.states), Kind(c.rest);
    match Automaton(top, tok)
    case Shift(s) =>
      ShiftLinks(top, tok);
      LinkedPush(c.states, s);
    case Reduce(r) =>
      ReduceSpells(c.states, tok);
      var n := |c.vals| - |Rhs(r)|;
      LinkedPush(c.states[..n + 1], Goto(c.states[n], YyR1(r)));
      GotoNotOne(c.states[n], YyR1(r));
    case Error =>
  }

  lemma GotoNotOne(p: State, a: int)
    requires 36 <= a <= 50
    ensures Goto(p, a) != 1 && Goto(p, a) != 25
  {
  }
}
