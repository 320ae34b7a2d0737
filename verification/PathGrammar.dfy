// The grammar of path selections, its parse trees and what they mean.
module PathGrammar {
  import opened Wrappers
  import opened PathTables

  // The objects a selection is built from; Func holds the function type and its arguments.
  datatype Object =
    | Str(s: string)
    | IdmefPath(path: string)
    | Int(n: int)
    | Func(ftype: int, args: seq<Object>)

  // A semantic value; Selection is what the start symbol stands for: an object, and flags if given.
  datatype Value =
    | NoValue
    | Obj(o: Object)
    | Type(t: int)
    | Flag(f: bv8)
    | Modifier(n: int)
    | Err(code: int)
    | Selection(o: Object, flags: Option<bv8>)

  // kind is the internal symbol number.
  datatype Token = Token(kind: nat, val: Value)

  const TYPE_MIN := 1
  const TYPE_MAX := 2
  const TYPE_AVG := 3
  const TYPE_COUNT := 4
  const TYPE_INTERVAL := 5
  const TYPE_EXTRACT := 6
  const TYPE_TIMEZONE := 10

  const GROUP_BY: bv8 := 0x20
  const ORDER_ASC: bv8 := 0x40
  const ORDER_DESC: bv8 := 0x80

  const EXTRACT_UNITS: seq<(string, nat)> :=
    [("year", 8), ("month", 1), ("yday", 2), ("mday", 3), ("wday", 4), ("hour", 5), ("min", 6), ("sec", 7),
     ("msec", 9), ("usec", 10), ("quarter", 11)]

  const INTERVAL_UNITS: seq<(string, nat)> :=
    [("year", 1), ("month", 3), ("day", 5), ("hour", 6), ("min", 7), ("sec", 8)]

  // The flag of a unit: that of its first entry in the table.
  function UnitFlag(table: seq<(string, nat)>, unit: string): Option<nat>
  {
    if table == [] then None
    else if table[0].0 == unit then Some(table[0].1)
    else UnitFlag(table[1..], unit)
  }

  // A unit has a flag exactly when it is in the table.
  lemma {:induction false} UnitFlagKnown(table: seq<(string, nat)>, unit: string)
    ensures UnitFlag(table, unit).Some? <==> exists i :: 0 <= i < |table| && table[i].0 == unit
    ensures UnitFlag(table, unit).Some? ==> (unit, UnitFlag(table, unit).value) in table
  {
    if table != [] && table[0].0 != unit {
      UnitFlagKnown(table[1..], unit);
      if UnitFlag(table, unit).Some? {
        var i :| 0 <= i < |table[1..]| && table[1..][i].0 == unit;
        assert table[i + 1].0 == unit;
      }
      if exists i :: 0 <= i < |table| && table[i].0 == unit {
        var i :| 0 <= i < |table| && table[i].0 == unit;
        assert table[1..][i - 1].0 == unit;
      }
    }
  }

  // The right-hand side of each rule; 0 is the end of input and 1 the error symbol.
  function Rhs(r: int): seq<nat>
  {
    match r
    case 1 => [36, 0]
    case 2 => [50, 11, 38]
    case 3 => [50]
    case 4 => [1]
    case 5 => [32] case 6 => [33] case 7 => [34]
    case 8 => [38, 10, 37]
    case 9 => [37]
    case 10 => [12] case 11 => [13] case 12 => [15] case 13 => [17]
    case 14 => [39, 7, 50, 8]
    case 15 => [18]
    case 16 => [41, 7, 50, 10, 3, 8]
    case 17 => [16]
    case 18 => [43, 7, 50, 10, 50, 10, 3, 8]
    case 19 => [19]
    case 20 => [45, 7, 50, 10, 3, 8]
    case 21 => [40] case 22 => [44] case 23 => [42] case 24 => [46]
    case 25 => [20] case 26 => [22] case 27 => [24] case 28 => [25]
    case 29 => [26] case 30 => [28] case 31 => [12] case 32 => [29]
    case 33 => [4] case 34 => [3] case 35 => [5] case 36 => [47]
    case 37 => [49, 9, 48]
    case 38 => [49]
    case 39 => [6]
    case _ => []
  }

  lemma RuleLengths(r: int)
    requires 1 <= r <= 39
    ensures |Rhs(r)| == YyR2(r) && 35 <= YyR1(r) <= 50
  {
  }

  // What the action of a rule makes of the values of its right-hand side; None when it raises an error.
  function Act(r: int, v: seq<Value>): Option<Value>
    requires 1 <= r <= 39 && |v| == |Rhs(r)|
  {
    match r
    case 2 => if v[0].Obj? && v[2].Flag? then Some(Selection(v[0].o, Some(v[2].f))) else Some(NoValue)
    case 3 => if v[0].Obj? then Some(Selection(v[0].o, None)) else Some(NoValue)
    case 5 => Some(Flag(ORDER_ASC))
    case 6 => Some(Flag(ORDER_DESC))
    case 7 => Some(Flag(GROUP_BY))
    case 8 => if v[0].Flag? && v[2].Flag? then Some(Flag(v[0].f | v[2].f)) else Some(NoValue)
    case 10 => Some(Type(TYPE_MIN))
    case 11 => Some(Type(TYPE_MAX))
    case 12 => Some(Type(TYPE_COUNT))
    case 13 => Some(Type(TYPE_AVG))
    case 14 => if v[0].Type? && v[2].Obj? then Some(Obj(Func(v[0].t, [v[2].o]))) else Some(NoValue)
    case 15 => Some(Type(TYPE_EXTRACT))
    case 16 =>
      if v[0].Type? && v[2].Obj? && v[4].Obj? && v[4].o.Str? then
        match UnitFlag(EXTRACT_UNITS, v[4].o.s)
        case None => None
        case Some(tf) => Some(Obj(Func(v[0].t, [v[2].o, Int(tf)])))
      else Some(NoValue)
    case 17 => Some(Type(TYPE_INTERVAL))
    case 18 =>
      if v[0].Type? && v[2].Obj? && v[4].Obj? && v[6].Obj? && v[6].o.Str? then
        match UnitFlag(INTERVAL_UNITS, v[6].o.s)
        case None => None
        case Some(tf) => Some(Obj(Func(v[0].t, [v[2].o, v[4].o, Int(tf)])))
      else Some(NoValue)
    case 19 => Some(Type(TYPE_TIMEZONE))
    case 20 => if v[0].Type? && v[2].Obj? && v[4].Obj? then Some(Obj(Func(v[0].t, [v[2].o, v[4].o]))) else Some(NoValue)
    case 25 => Some(Modifier(8)) case 26 => Some(Modifier(1)) case 27 => Some(Modifier(2)) case 28 => Some(Modifier(3))
    case 29 => Some(Modifier(4)) case 30 => Some(Modifier(5)) case 31 => Some(Modifier(6)) case 32 => Some(Modifier(7))
    case 37 =>
      if v[0].Obj? && v[2].Modifier? then Some(Obj(Func(TYPE_EXTRACT, [v[0].o, Int(v[2].n)]))) else Some(NoValue)
    case 4 => None
    case 39 => None
    // The others pass on the value of their first symbol.
    case _ => Some(v[0])
  }

  // ---------------------------------------------------------------------------------- parse trees

  datatype Tree = Leaf(tok: Token) | Node(rule: int, kids: seq<Tree>)

  function Symbol(t: Tree): int
  {
    match t
    case Leaf(tok) => tok.kind
    case Node(r, _) => YyR1(r)
  }

  function Symbols(ts: seq<Tree>): seq<int>
  {
    seq(|ts|, i requires 0 <= i < |ts| => Symbol(ts[i]))
  }

  // Every node applies a rule of the grammar. Rule 1 only adds the end of input, rule 4 only serves recovery.
  ghost predicate WellFormed(t: Tree)
  {
    match t
    case Leaf(tok) => 3 <= tok.kind <= 34
    case Node(r, kids) => 2 <= r <= 39 && r != 4 && Symbols(kids) == Rhs(r) && forall k :: k in kids ==> WellFormed(k)
  }

  // The tokens a tree derives.
  function Yield(t: Tree): seq<Token>
  {
    match t
    case Leaf(tok) => [tok]
    case Node(_, kids) => Yields(kids)
  }

  function Yields(ts: seq<Tree>): seq<Token>
  {
    if ts == [] then [] else Yield(ts[0]) + Yields(ts[1..])
  }

  // The meaning of a tree, from the actions of its rules; None if one of them raises an error.
  function Meaning(t: Tree): Option<Value>
  {
    match t
    case Leaf(tok) => Some(tok.val)
    case Node(r, kids) =>
      match Meanings(kids)
      case None => None
      case Some(vs) => if 1 <= r <= 39 && |vs| == |Rhs(r)| then Act(r, vs) else None
  }

  function Meanings(ts: seq<Tree>): Option<seq<Value>>
  {
    if ts == [] then Some([]) else
    match Meaning(ts[0])
    case None => None
    case Some(v) =>
      match Meanings(ts[1..])
      case None => None
      case Some(vs) => Some([v] + vs)
  }

  // The grammar derives the tokens as a selection with this meaning.
  ghost predicate Derives(input: seq<Token>, v: Value)
  {
    exists t :: DerivedBy(t, input, v)
  }

  ghost predicate DerivedBy(t: Tree, input: seq<Token>, v: Value)
  {
    WellFormed(t) && Symbol(t) == 36 && Yield(t) == input && Meaning(t) == Some(v)
  }

  lemma Single(t: Tree)
    ensures Yields([t]) == Yield(t)
    ensures Meanings([t]) == if Meaning(t).Some? then Some([Meaning(t).value]) else None
  {
    assert [t][1..] == [] && Yields([]) == [] && Meanings([]) == Some([]);
    assert Yield(t) + [] == Yield(t);
    if Meaning(t).Some? { assert [Meaning(t).value] + [] == [Meaning(t).value]; }
  }

  lemma {:induction false} YieldsConcat(ts: seq<Tree>, us: seq<Tree>)
    ensures Yields(ts + us) == Yields(ts) + Yields(us)
  {
    if ts == [] {
      assert ts + us == us;
    } else {
      assert (ts + us)[1..] == ts[1..] + us;
      YieldsConcat(ts[1..], us);
    }
  }

  lemma {:induction false} MeaningsConcat(ts: seq<Tree>, us: seq<Tree>)
    ensures Meanings(ts + us) == match (Meanings(ts), Meanings(us)) {
      case (Some(vs), Some(ws)) => Some(vs + ws)
      case _ => None
    }
  {
    if ts == [] {
      assert ts + us == us;
      if Meanings(us).Some? { assert [] + Meanings(us).value == Meanings(us).value; }
    } else {
      assert (ts + us)[1..] == ts[1..] + us;
      MeaningsConcat(ts[1..], us);
      if Meanings(ts).Some? && Meanings(us).Some? {
        assert [Meaning(ts[0]).value] + (Meanings(ts[1..]).value + Meanings(us).value)
            == ([Meaning(ts[0]).value] + Meanings(ts[1..]).value) + Meanings(us).value;
      }
    }
  }
}
