// The compressed LALR tables of the path-selection parser, and the automaton they encode.
module PathTables {

  type State = s: int | 0 <= s < 64

  // Where the row of a state starts in YyTable; -27 for a state that always reduces by default.
  function YyPact(i: int): int
  {
    match i
    case 0 => 3 case 1 => -27 case 2 => -27 case 3 => -27 case 4 => -27 case 5 => -27 case 6 => -27 case 7 => -27
    case 8 => -27 case 9 => -27 case 10 => -27 case 11 => -27 case 12 => -27 case 13 => 13 case 14 => -2
    case 15 => -27 case 16 => 7 case 17 => -27 case 18 => 16 case 19 => -27 case 20 => 17 case 21 => -27
    case 22 => -27 case 23 => 19 case 24 => 21 case 25 => -27 case 26 => 32 case 27 => 32 case 28 => 32 case 29 => 32
    case 30 => 5 case 31 => -22 case 32 => 31 case 33 => 30 case 34 => 33 case 35 => 36 case 36 => -27 case 37 => -27
    case 38 => -27 case 39 => -27 case 40 => -27 case 41 => -27 case 42 => -27 case 43 => -27 case 44 => -27
    case 45 => -27 case 46 => -27 case 47 => -27 case 48 => -27 case 49 => 42 case 50 => -27 case 51 => 38
    case 52 => 32 case 53 => 39 case 54 => -22 case 55 => 45 case 56 => 44 case 57 => 47 case 58 => -27 case 59 => -27
    case 60 => 53 case 61 => -27 case 62 => 49 case 63 => -27
    case _ => 0
  }

  // The rule a state reduces by default; 0 is an error.
  function YyDefact(i: int): int
  {
    match i
    case 0 => 0 case 1 => 4 case 2 => 34 case 3 => 33 case 4 => 35 case 5 => 39 case 6 => 10 case 7 => 11
    case 8 => 12 case 9 => 17 case 10 => 13 case 11 => 15 case 12 => 19 case 13 => 0 case 14 => 0 case 15 => 21
    case 16 => 0 case 17 => 23 case 18 => 0 case 19 => 22 case 20 => 0 case 21 => 24 case 22 => 36 case 23 => 38
    case 24 => 3 case 25 => 1 case 26 => 0 case 27 => 0 case 28 => 0 case 29 => 0 case 30 => 0 case 31 => 0
    case 32 => 0 case 33 => 0 case 34 => 0 case 35 => 0 case 36 => 31 case 37 => 25 case 38 => 26 case 39 => 27
    case 40 => 28 case 41 => 29 case 42 => 30 case 43 => 32 case 44 => 37 case 45 => 5 case 46 => 6 case 47 => 7
    case 48 => 9 case 49 => 2 case 50 => 14 case 51 => 0 case 52 => 0 case 53 => 0 case 54 => 0 case 55 => 0
    case 56 => 0 case 57 => 0 case 58 => 8 case 59 => 16 case 60 => 0 case 61 => 20 case 62 => 0 case 63 => 18
    case _ => 0
  }

  // Where the column of a nonterminal starts in YyTable.
  function YyPgoto(i: int): int
  {
    match i
    case 0 => -27 case 1 => -27 case 2 => 4 case 3 => -27 case 4 => -27 case 5 => -27 case 6 => -27 case 7 => -27
    case 8 => -27 case 9 => -27 case 10 => -27 case 11 => -27 case 12 => -27 case 13 => -27 case 14 => -27
    case 15 => -26
    case _ => 0
  }

  // The state a nonterminal leads to by default.
  function YyDefgoto(i: int): int
  {
    match i
    case 0 => -1 case 1 => 13 case 2 => 48 case 3 => 49 case 4 => 14 case 5 => 15 case 6 => 16 case 7 => 17
    case 8 => 18 case 9 => 19 case 10 => 20 case 11 => 21 case 12 => 22 case 13 => 44 case 14 => 23 case 15 => 24
    case _ => 0
  }

  // The states to go to, rows and columns overlaid.
  function YyTable(i: int): int
  {
    match i
    case 0 => 32 case 1 => 33 case 2 => 34 case 3 => 35 case 4 => 1 case 5 => 26 case 6 => 2 case 7 => 3
    case 8 => 4 case 9 => 5 case 10 => 45 case 11 => 46 case 12 => 47 case 13 => 25 case 14 => 27 case 15 => 6
    case 16 => 7 case 17 => 36 case 18 => 8 case 19 => 9 case 20 => 10 case 21 => 11 case 22 => 12 case 23 => 28
    case 24 => 29 case 25 => 37 case 26 => 56 case 27 => 38 case 28 => 30 case 29 => 39 case 30 => 40 case 31 => 41
    case 32 => 31 case 33 => 42 case 34 => 43 case 35 => 2 case 36 => 3 case 37 => 4 case 38 => 5 case 39 => 50
    case 40 => 51 case 41 => 55 case 42 => 57 case 43 => 52 case 44 => 6 case 45 => 7 case 46 => 53 case 47 => 8
    case 48 => 9 case 49 => 10 case 50 => 11 case 51 => 12 case 52 => 54 case 53 => 59 case 54 => 60 case 55 => 61
    case 56 => 62 case 57 => 63 case 58 => 58
    case _ => 0
  }

  // Whose entry each one of YyTable is.
  function YyCheck(i: int): int
  {
    match i
    case 0 => 26 case 1 => 27 case 2 => 28 case 3 => 29 case 4 => 1 case 5 => 7 case 6 => 3 case 7 => 4
    case 8 => 5 case 9 => 6 case 10 => 32 case 11 => 33 case 12 => 34 case 13 => 0 case 14 => 7 case 15 => 12
    case 16 => 13 case 17 => 12 case 18 => 15 case 19 => 16 case 20 => 17 case 21 => 18 case 22 => 19 case 23 => 7
    case 24 => 7 case 25 => 20 case 26 => 52 case 27 => 22 case 28 => 9 case 29 => 24 case 30 => 25 case 31 => 26
    case 32 => 11 case 33 => 28 case 34 => 29 case 35 => 3 case 36 => 4 case 37 => 5 case 38 => 6 case 39 => 8
    case 40 => 10 case 41 => 3 case 42 => 3 case 43 => 10 case 44 => 12 case 45 => 13 case 46 => 10 case 47 => 15
    case 48 => 16 case 49 => 17 case 50 => 18 case 51 => 19 case 52 => 10 case 53 => 8 case 54 => 10 case 55 => 8
    case 56 => 3 case 57 => 8 case 58 => 54
    case _ => 0
  }

  // The symbol that leads to a state.
  function YyStos(i: int): int
  {
    match i
    case 0 => 0 case 1 => 1 case 2 => 3 case 3 => 4 case 4 => 5 case 5 => 6 case 6 => 12 case 7 => 13
    case 8 => 15 case 9 => 16 case 10 => 17 case 11 => 18 case 12 => 19 case 13 => 36 case 14 => 39 case 15 => 40
    case 16 => 41 case 17 => 42 case 18 => 43 case 19 => 44 case 20 => 45 case 21 => 46 case 22 => 47 case 23 => 49
    case 24 => 50 case 25 => 0 case 26 => 7 case 27 => 7 case 28 => 7 case 29 => 7 case 30 => 9 case 31 => 11
    case 32 => 50 case 33 => 50 case 34 => 50 case 35 => 50 case 36 => 12 case 37 => 20 case 38 => 22 case 39 => 24
    case 40 => 25 case 41 => 26 case 42 => 28 case 43 => 29 case 44 => 48 case 45 => 32 case 46 => 33 case 47 => 34
    case 48 => 37 case 49 => 38 case 50 => 8 case 51 => 10 case 52 => 10 case 53 => 10 case 54 => 10 case 55 => 3
    case 56 => 50 case 57 => 3 case 58 => 37 case 59 => 8 case 60 => 10 case 61 => 8 case 62 => 3 case 63 => 8
    case _ => 0
  }

  // The nonterminal a rule derives.
  function YyR1(i: int): int
  {
    match i
    case 0 => 0 case 1 => 35 case 2 => 36 case 3 => 36 case 4 => 36 case 5 => 37 case 6 => 37 case 7 => 37
    case 8 => 38 case 9 => 38 case 10 => 39 case 11 => 39 case 12 => 39 case 13 => 39 case 14 => 40 case 15 => 41
    case 16 => 42 case 17 => 43 case 18 => 44 case 19 => 45 case 20 => 46 case 21 => 47 case 22 => 47 case 23 => 47
    case 24 => 47 case 25 => 48 case 26 => 48 case 27 => 48 case 28 => 48 case 29 => 48 case 30 => 48 case 31 => 48
    case 32 => 48 case 33 => 49 case 34 => 49 case 35 => 49 case 36 => 49 case 37 => 50 case 38 => 50 case 39 => 50
    case _ => 0
  }

  // The number of symbols on its right-hand side.
  function YyR2(i: int): int
  {
    match i
    case 0 => 0 case 1 => 2 case 2 => 3 case 3 => 1 case 4 => 1 case 5 => 1 case 6 => 1 case 7 => 1
    case 8 => 3 case 9 => 1 case 10 => 1 case 11 => 1 case 12 => 1 case 13 => 1 case 14 => 4 case 15 => 1
    case 16 => 6 case 17 => 1 case 18 => 8 case 19 => 1 case 20 => 6 case 21 => 1 case 22 => 1 case 23 => 1
    case 24 => 1 case 25 => 1 case 26 => 1 case 27 => 1 case 28 => 1 case 29 => 1 case 30 => 1 case 31 => 1
    case 32 => 1 case 33 => 1 case 34 => 1 case 35 => 1 case 36 => 1 case 37 => 3 case 38 => 1 case 39 => 1
    case _ => 0
  }

  datatype Move = Shift(to: State) | Reduce(rule: nat) | Error

  predicate InTable(n: int) { 0 <= n <= 58 }

  // What the driver does in state p with lookahead tok: the row of the state if it has an entry for the
  // token, and the default reduction otherwise.
  function LookupMove(p: State, tok: nat): Move
  {
    var n := YyPact(p) + tok;
    if YyPact(p) == -27 || !InTable(n) || YyCheck(n) != tok then
      if YyDefact(p) <= 0 then Error else Reduce(YyDefact(p))
    else if YyTable(n) <= 0 then
      Reduce(-YyTable(n))
    else if YyTable(n) < 64 then
      Shift(YyTable(n))
    else
      Error
  }

  // The state a nonterminal leads to from state p.
  function LookupGoto(p: State, a: int): int
  {
    var n := YyPgoto(a - 35) + p;
    if InTable(n) && YyCheck(n) == p then YyTable(n) else YyDefgoto(a - 35)
  }

  // ------------------------------------------------------------------------ the automaton, uncompressed

  // The states in which a value can begin.
  predicate ValueStart(p: int) { p == 0 || 26 <= p <= 29 || p == 52 }

  function ValueMove(p: State, tok: nat): Move
  {
    match tok
    case 3 => Shift(2) case 4 => Shift(3) case 5 => Shift(4) case 6 => Shift(5)
    case 12 => Shift(6) case 13 => Shift(7) case 15 => Shift(8) case 16 => Shift(9)
    case 17 => Shift(10) case 18 => Shift(11) case 19 => Shift(12)
    case _ => if p == 0 && tok == 1 then Shift(1) else Error
  }

  function ModifierMove(tok: nat): Move
  {
    match tok
    case 12 => Shift(36) case 20 => Shift(37) case 22 => Shift(38) case 24 => Shift(39)
    case 25 => Shift(40) case 26 => Shift(41) case 28 => Shift(42) case 29 => Shift(43)
    case _ => Error
  }

  function OptionMove(tok: nat): Move
  {
    if 32 <= tok <= 34 then Shift(tok + 13) else Error
  }

  function Only(tok: nat, want: nat, to: State, other: Move): Move
  {
    if tok == want then Shift(to) else other
  }

  function Automaton(p: State, tok: nat): Move
  {
    if ValueStart(p) then ValueMove(p, tok) else
    match p
    case 13 => Only(tok, 0, 25, Error)
    case 14 => Only(tok, 7, 26, Error)
    case 16 => Only(tok, 7, 27, Error)
    case 18 => Only(tok, 7, 28, Error)
    case 20 => Only(tok, 7, 29, Error)
    case 23 => Only(tok, 9, 30, Reduce(38))
    case 24 => Only(tok, 11, 31, Reduce(3))
    case 30 => ModifierMove(tok)
    case 31 => OptionMove(tok)
    case 32 => Only(tok, 8, 50, Error)
    case 33 => Only(tok, 10, 51, Error)
    case 34 => Only(tok, 10, 52, Error)
    case 35 => Only(tok, 10, 53, Error)
    case 49 => Only(tok, 10, 54, Reduce(2))
    case 51 => Only(tok, 3, 55, Error)
    case 53 => Only(tok, 3, 57, Error)
    case 54 => OptionMove(tok)
    case 55 => Only(tok, 8, 59, Error)
    case 56 => Only(tok, 10, 60, Error)
    case 57 => Only(tok, 8, 61, Error)
    case 60 => Only(tok, 3, 62, Error)
    case 62 => Only(tok, 8, 63, Error)
    case _ => if YyDefact(p) <= 0 then Error else Reduce(YyDefact(p))
  }

  lemma ValueRows0(p: State, tok: nat)
    requires (26 <= p <= 29 || p == 52) && 0 <= tok < 7
    ensures LookupMove(p, tok) == Automaton(p, tok)
  {
    assert YyPact(p) == 32;
  }

  lemma ValueRows1(p: State, tok: nat)
    requires (26 <= p <= 29 || p == 52) && 7 <= tok < 12
    ensures LookupMove(p, tok) == Automaton(p, tok)
  {
    assert YyPact(p) == 32;
  }

  lemma ValueRows2(p: State, tok: nat)
    requires (26 <= p <= 29 || p == 52) && 12 <= tok < 16
    ensures LookupMove(p, tok) == Automaton(p, tok)
  {
    assert YyPact(p) == 32;
  }

  lemma ValueRows3(p: State, tok: nat)
    requires (26 <= p <= 29 || p == 52) && 16 <= tok
    ensures LookupMove(p, tok) == Automaton(p, tok)
  {
    assert YyPact(p) == 32;
  }

  lemma Rows0(p: State, tok: nat)
    requires p == 0 && tok < 8
    ensures LookupMove(p, tok) == Automaton(p, tok)
  {
  }

  lemma Rows0Above(p: State, tok: nat)
    requires p == 0 && tok >= 8
    ensures LookupMove(p, tok) == Automaton(p, tok)
  {
  }

  lemma Rows1(p: State, tok: nat)
    requires 1 <= p < 13
    ensures LookupMove(p, tok) == Automaton(p, tok)
  {
  }

  lemma Rows13(p: State, tok: nat)
    requires 13 <= p < 16
    ensures LookupMove(p, tok) == Automaton(p, tok)
  {
  }

  lemma Rows16(p: State, tok: nat)
    requires 16 <= p < 20
    ensures LookupMove(p, tok) == Automaton(p, tok)
  {
  }

  lemma Rows20(p: State, tok: nat)
    requires 20 <= p < 23
    ensures LookupMove(p, tok) == Automaton(p, tok)
  {
  }

  lemma Rows23(p: State, tok: nat)
    requires 23 <= p < 26
    ensures LookupMove(p, tok) == Automaton(p, tok)
  {
  }

  lemma Rows30(p: State, tok: nat)
    requires 30 <= p < 31
    ensures LookupMove(p, tok) == Automaton(p, tok)
  {
  }

  lemma Rows31(p: State, tok: nat)
    requires 31 <= p < 33
    ensures LookupMove(p, tok) == Automaton(p, tok)
  {
  }

  lemma Rows33(p: State, tok: nat)
    requires 33 <= p < 35
    ensures LookupMove(p, tok) == Automaton(p, tok)
  {
  }

  lemma Rows35(p: State, tok: nat)
    requires 35 <= p < 43
    ensures LookupMove(p, tok) == Automaton(p, tok)
  {
  }

  lemma Rows43(p: State, tok: nat)
    requires 43 <= p < 50
    ensures LookupMove(p, tok) == Automaton(p, tok)
  {
  }

  lemma Rows50(p: State, tok: nat)
    requires 50 <= p < 52
    ensures LookupMove(p, tok) == Automaton(p, tok)
  {
  }

  lemma Rows53(p: State, tok: nat)
    requires 53 <= p < 54
    ensures LookupMove(p, tok) == Automaton(p, tok)
  {
  }

  lemma Rows54(p: State, tok: nat)
    requires 54 <= p < 55
    ensures LookupMove(p, tok) == Automaton(p, tok)
  {
  }

  lemma Rows55(p: State, tok: nat)
    requires 55 <= p < 57
    ensures LookupMove(p, tok) == Automaton(p, tok)
  {
  }

  lemma Rows57(p: State, tok: nat)
    requires 57 <= p < 60
    ensures LookupMove(p, tok) == Automaton(p, tok)
  {
  }

  lemma Rows60(p: State, tok: nat)
    requires 60 <= p < 62
    ensures LookupMove(p, tok) == Automaton(p, tok)
  {
  }

  lemma Rows62(p: State, tok: nat)
    requires 62 <= p < 64
    ensures LookupMove(p, tok) == Automaton(p, tok)
  {
  }

  // The compressed tables encode the automaton, entry for entry.
  lemma TablesEncodeAutomaton(p: State, tok: nat)
    ensures LookupMove(p, tok) == Automaton(p, tok)
  {
    hide LookupMove, Automaton;
    if 26 <= p <= 29 || p == 52 {
      if tok < 7 { ValueRows0(p, tok); }
      else if tok < 12 { ValueRows1(p, tok); }
      else if tok < 16 { ValueRows2(p, tok); }
      else { ValueRows3(p, tok); }
    }
    else if p == 0 {
      if tok < 8 { Rows0(p, tok); } else { Rows0Above(p, tok); }
    }
    else if p < 13 { Rows1(p, tok); }
    else if p < 16 { Rows13(p, tok); }
    else if p < 20 { Rows16(p, tok); }
    else if p < 23 { Rows20(p, tok); }
    else if p < 26 { Rows23(p, tok); }
    else if p < 31 { Rows30(p, tok); }
    else if p < 33 { Rows31(p, tok); }
    else if p < 35 { Rows33(p, tok); }
    else if p < 43 { Rows35(p, tok); }
    else if p < 50 { Rows43(p, tok); }
    else if p < 52 { Rows50(p, tok); }
    else if p < 54 { Rows53(p, tok); }
    else if p < 55 { Rows54(p, tok); }
    else if p < 57 { Rows55(p, tok); }
    else if p < 60 { Rows57(p, tok); }
    else if p < 62 { Rows60(p, tok); }
    else { Rows62(p, tok); }
  }

  function Goto(p: State, a: int): State
  {
    match a
    case 36 => 13 case 37 => if p == 54 then 58 else 48 case 38 => 49 case 39 => 14 case 40 => 15
    case 41 => 16 case 42 => 17 case 43 => 18 case 44 => 19 case 45 => 20 case 46 => 21 case 47 => 22
    case 48 => 44 case 49 => 23
    case 50 => if p == 26 then 32 else if p == 27 then 33 else if p == 28 then 34 else if p == 29 then 35
               else if p == 52 then 56 else 24
    case _ => 0
  }

  lemma GotosEncodeAutomaton(p: State, a: int)
    requires 36 <= a <= 50
    ensures LookupGoto(p, a) == Goto(p, a)
  {
  }
}
