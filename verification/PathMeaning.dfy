// What a derivation means: its type, and when it has a meaning at all.
module PathMeaning {
  import opened Wrappers
  import opened PathTables
  import opened PathGrammar
  import opened PathMachine
  import opened PathRuns
  import opened PathComplete

  // The type of value the grammar declares for a symbol.
  ghost predicate Typed(x: int, v: Value)
  {
    match x
    case 3 => v.Obj? && v.o.Str?
    case 4 => v.Obj? && v.o.IdmefPath?
    case 5 => v.Obj? && v.o.Int?
    case 36 => v.Selection?
    case 37 => v.Flag? case 38 => v.Flag?
    case 39 => v.Type? case 41 => v.Type? case 43 => v.Type? case 45 => v.Type?
    case 48 => v.Modifier?
    case 40 => v.Obj? case 42 => v.Obj? case 44 => v.Obj? case 46 => v.Obj?
    case 47 => v.Obj? case 49 => v.Obj? case 50 => v.Obj?
    case _ => true
  }

  ghost predicate TypedTokens(ts: seq<Token>)
  {
    forall i :: 0 <= i < |ts| ==> Typed(ts[i].kind, ts[i].val)
  }

  predicate Known(table: seq<(string, nat)>, v: Value)
  {
    v.Obj? && v.o.Str? && UnitFlag(table, v.o.s).Some?
  }

  // The units of extract and interval are in their tables, and no token stands for an error.
  predicate RuleAllowed(r: int, kids: seq<Tree>)
  {
    && r != 39
    && (r == 16 ==> |kids| == 6 && kids[4].Leaf? && Known(EXTRACT_UNITS, kids[4].tok.val))
    && (r == 18 ==> |kids| == 8 && kids[6].Leaf? && Known(INTERVAL_UNITS, kids[6].tok.val))
  }

  ghost predicate UnitsKnown(t: Tree)
  {
    match t
    case Leaf(_) => true
    case Node(r, kids) => RuleAllowed(r, kids) && forall k :: k in kids ==> UnitsKnown(k)
  }

  lemma ActTyped(r: int, vs: seq<Value>)
    requires 2 <= r <= 39 && r != 4 && |vs| == |Rhs(r)|
    requires forall i :: 0 <= i < |vs| ==> Typed(Rhs(r)[i], vs[i])
    ensures Act(r, vs).Some? <==>
            r != 39 && (r == 16 ==> Known(EXTRACT_UNITS, vs[4])) && (r == 18 ==> Known(INTERVAL_UNITS, vs[6]))
    ensures Act(r, vs).Some? ==> Typed(YyR1(r), Act(r, vs).value)
  {
    hide UnitFlag;
    assert Typed(Rhs(r)[0], vs[0]);
    if |vs| > 2 { assert Typed(Rhs(r)[2], vs[2]); }
    if |vs| > 4 { assert Typed(Rhs(r)[4], vs[4]); }
    if |vs| > 6 { assert Typed(Rhs(r)[6], vs[6]); }
  }

  // A tree over well-typed tokens has a meaning exactly when its units are known; the meaning is of the symbol's type.
  lemma {:induction false} MeaningTyped(t: Tree)
    requires WellFormed(t) && TypedTokens(Yield(t))
    ensures Meaning(t).Some? <==> UnitsKnown(t)
    ensures Meaning(t).Some? ==> Typed(Symbol(t), Meaning(t).value)
  {
    match t
    case Leaf(tok) =>
      assert Yield(t)[0] == tok;
    case Node(r, kids) =>
      hide Act, Typed, Rhs, YyR1;
      MeaningsTyped(kids);
      assert |Symbols(kids)| == |kids|;
      if Meanings(kids).Some? {
        var vs := Meanings(kids).value;
        forall i | 0 <= i < |vs|
          ensures Typed(Rhs(r)[i], vs[i])
        {
          assert Symbols(kids)[i] == Rhs(r)[i];
        }
        ActTyped(r, vs);
        UnitKids(r, kids, vs);
      }
  }

  lemma UnitKids(r: int, kids: seq<Tree>, vs: seq<Value>)
    requires (forall t :: t in kids ==> WellFormed(t)) && Symbols(kids) == Rhs(r) && Meanings(kids) == Some(vs)
    requires |vs| == |kids|
    ensures r == 16 ==> |kids| == 6 && kids[4].Leaf? && kids[4].tok.val == vs[4]
    ensures r == 18 ==> |kids| == 8 && kids[6].Leaf? && kids[6].tok.val == vs[6]
  {
    hide WellFormed, Meanings, YyR1, Symbol;
    assert |Symbols(kids)| == |kids|;
    if r == 16 {
      assert Symbols(kids)[4] == 3;
      LeafKid(kids, 4, vs);
    }
    if r == 18 {
      assert Symbols(kids)[6] == 3;
      LeafKid(kids, 6, vs);
    }
  }

  lemma LeafKid(kids: seq<Tree>, i: nat, vs: seq<Value>)
    requires i < |kids| == |vs| && WellFormed(kids[i]) && Symbol(kids[i]) == 3 && Meanings(kids) == Some(vs)
    ensures kids[i].Leaf? && kids[i].tok.val == vs[i]
  {
    KidMeans(kids, i, vs);
    if kids[i].Node? { HeadIsNonterminal(kids[i].rule); }
  }

  lemma {:induction false} MeaningsTyped(ts: seq<Tree>)
    requires (forall t :: t in ts ==> WellFormed(t)) && TypedTokens(Yields(ts))
    ensures Meanings(ts).Some? <==> forall t :: t in ts ==> UnitsKnown(t)
    ensures Meanings(ts).Some? ==>
            |Meanings(ts).value| == |ts| && forall i :: 0 <= i < |ts| ==> Typed(Symbol(ts[i]), Meanings(ts).value[i])
  {
    hide Typed, UnitsKnown;
    if ts != [] {
      var a, b := Yield(ts[0]), Yields(ts[1..]);
      TypedParts(a, b);
      MeaningTyped(ts[0]);
      MeaningsTyped(ts[1..]);
      assert forall t :: t in ts <==> t == ts[0] || t in ts[1..];
      if Meanings(ts).Some? {
        forall i | 0 <= i < |ts|
          ensures Typed(Symbol(ts[i]), Meanings(ts).value[i])
        {
          if i > 0 { assert ts[1..][i - 1] == ts[i]; }
        }
      }
    }
  }

  lemma TypedParts(a: seq<Token>, b: seq<Token>)
    requires TypedTokens(a + b)
    ensures TypedTokens(a) && TypedTokens(b)
  {
    hide Typed;
    assert forall i :: 0 <= i < |a| ==> a[i] == (a + b)[i];
    assert forall i :: 0 <= i < |b| ==> b[i] == (a + b)[|a| + i];
  }

  lemma TypedSelection(v: Value)
    requires Typed(36, v)
    ensures v.Selection?
  {
  }

  // A path selection: a tree of the grammar over the whole input, with known units.
  ghost predicate IsSelection(input: seq<Token>)
  {
    exists t :: IsSelectionTree(t, input)
  }

  ghost predicate IsSelectionTree(t: Tree, input: seq<Token>)
  {
    WellFormed(t) && Symbol(t) == 36 && Yield(t) == input && UnitsKnown(t)
  }

  // The parser accepts exactly the sentences of the grammar whose units are known, and hands over an object tree.
  lemma AcceptsExactlySelections(input: seq<Token>, depth: nat)
    requires Tokens(input) && TypedTokens(input) && Ready(Start(input, depth)) && Run(Start(input, depth)) != Exhausted
    ensures Run(Start(input, depth)).Accepted? <==> IsSelection(input)
    ensures Run(Start(input, depth)).Accepted? ==> Run(Start(input, depth)).v.Selection?
  {
    hide Run, WellFormed, Yield, Meaning, UnitsKnown, Typed;
    var o := Run(Start(input, depth));
    if o.Accepted? {
      AcceptsExactlyDerived(input, o.v, depth);
      var t :| DerivedBy(t, input, o.v);
      MeaningTyped(t);
      assert IsSelectionTree(t, input);
      TypedSelection(o.v);
    }
    if IsSelection(input) {
      var t :| IsSelectionTree(t, input);
      MeaningTyped(t);
      var v := Meaning(t).value;
      assert DerivedBy(t, input, v);
      AcceptsExactlyDerived(input, v, depth);
    }
  }
}
