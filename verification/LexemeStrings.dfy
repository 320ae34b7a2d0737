// Strings and white space: what the scanner takes for them, and what the token of a string holds.
module LexemeStrings {
  import opened ScannerTables
  import opened ScannerMoves
  import opened PathGrammar
  import opened PathScanner
  import opened LexemeWords

  // ------------------------------------------------------------------------------------ how words start

  // A word in a state with a role was in that role from its first character on.
  lemma {:induction false} RoleStarts(w: string)
    requires Clean(w) && w != "" && 2 <= Role(Reach(w)) <= 5
    ensures Enters(Class(w[0])) && Role(Reach(w[..1])) == Role(Reach(w))
  {
    hide YyNxt, YyChk, YyBase, YyDef, YyMeta, YyEc, Delta, Reach, Role, Enters, Class;
    var p, c := w[..|w| - 1], w[|w| - 1];
    assert w == p + [c];
    ReachMore(p, c);
    ClassPositive(c);
    StartOnly(p);
    RoleMoves(Reach(p), Class(c));
    DefaultRole(1);
    if p == "" {
      assert w[..1] == w;
    } else {
      RoleStarts(p);
      assert p[..1] == w[..1];
    }
  }

  // ------------------------------------------------------------------------------------ strings

  // Every quote in w but the first character has a backslash before it.
  predicate Escaped(w: string, q: char)
  {
    forall i :: 0 < i < |w| && w[i] == q ==> w[i - 1] == '\\'
  }

  // A string literal: the quotes inside it, and only they need it, have a backslash before them.
  predicate Quoted(w: string, q: char)
  {
    |w| >= 2 && w[0] == q == w[|w| - 1] && Escaped(w[..|w| - 1], q)
  }

  // What has been read of a string: 1 so far no end of it, 2 after a backslash, 3 its end, 4 its end or a quote
  // within it; 0 for states that are not within strings.
  function Part(s: int): int
  {
    match s
    case 7 => 1 case 32 => 1 case 64 => 1 case 8 => 1 case 35 => 1 case 67 => 1
    case 34 => 2 case 66 => 2 case 37 => 2 case 69 => 2
    case 33 => 3 case 36 => 3
    case 65 => 4 case 68 => 4
    case _ => 0
  }

  // The roles of strings, and the classes of their quotes.
  function QuoteOf(role: int): char { if role == 2 then '"' else '\'' }

  function NextPart(part: int, c: int, quote: int): int
  {
    if part == 3 then 0
    else if c == quote then (if part == 2 then 4 else 3)
    else if c == 18 then 2
    else 1
  }

  lemma PartMoves(s: int, c: int)
    requires (Role(s) == 2 || Role(s) == 3) && 1 <= s < 160 && 1 <= c <= 43
    ensures 1 <= Part(s) <= 4
    ensures Part(Delta(s, c)) == NextPart(Part(s), c, Role(s) + 2)
    ensures if Part(s) == 3 then Delta(s, c) == 160 else Role(Delta(s, c)) == Role(s)
  {
    hide Delta;
    RoleStates(s);
    match s
    case 7 => Move7(c);
    case 32 => Move32(c);
    case 64 => Move64(c);
    case 65 => Move65(c);
    case 34 => Move34(c);
    case 66 => Move66(c);
    case 8 => Move8(c);
    case 35 => Move35(c);
    case 67 => Move67(c);
    case 68 => Move68(c);
    case 37 => Move37(c);
    case 69 => Move69(c);
    case _ =>
      StringEnds(s);
      StopJams(s, c);
  }

  lemma StringEnds(s: int)
    requires s == 33 || s == 36
    ensures YyBase(s) == 234
  {
  }

  lemma RoleStates(s: int)
    requires s < 160
    ensures Role(s) == 2 <==> s in {7, 32, 33, 34, 64, 65, 66}
    ensures Role(s) == 3 <==> s in {8, 35, 36, 37, 67, 68, 69}
  {
  }

  // What has been read when w is read from a quote on.
  function Seen(w: string, q: char): int
    requires w != ""
  {
    var n := |w|;
    if !Escaped(w[..n - 1], q) then 0
    else if n == 1 then 1
    else if w[n - 1] == q then (if w[n - 2] == '\\' then 4 else 3)
    else if w[n - 1] == '\\' then 2
    else 1
  }

  lemma SeenMore(w: string, q: char, c: char)
    requires w != "" && w[0] == q && q != '\\'
    ensures Escaped(w, q) <==> Escaped(w[..|w| - 1], q) && Seen(w, q) != 3
    ensures Escaped(w, q) ==>
            Seen(w + [c], q) == if c == q then (if Seen(w, q) == 2 then 4 else 3) else if c == '\\' then 2 else 1
    ensures !Escaped(w, q) ==> Seen(w + [c], q) == 0
  {
    var n := |w|;
    assert (w + [c])[..n] == w;
    if Escaped(w[..n - 1], q) && Seen(w, q) != 3 {
      forall i | 0 < i < n && w[i] == q
        ensures w[i - 1] == '\\'
      {
        if i < n - 1 { assert w[..n - 1][i] == q; }
      }
    }
    if Escaped(w, q) {
      var p := w[..n - 1];
      forall i | 0 < i < n - 1 && p[i] == q
        ensures p[i - 1] == '\\'
      {
        assert w[i] == q;
      }
    }
  }

  lemma QuoteClass(c: char, role: int)
    requires (role == 2 || role == 3) && 1 <= c as int <= 255
    ensures c == QuoteOf(role) <==> Class(c) == role + 2
    ensures c == '\\' <==> Class(c) == 18
  {
  }

  lemma StringStarts(role: int)
    requires role == 2 || role == 3
    ensures Part(Delta(1, role + 2)) == 1 && Role(Delta(1, role + 2)) == role
  {
  }

  // The states of a string say what has been read of it.
  lemma {:induction false} StringReach(w: string, role: int)
    requires Clean(w) && w != "" && (role == 2 || role == 3) && w[0] == QuoteOf(role)
    ensures Part(Reach(w)) == Seen(w, w[0])
    ensures if Escaped(w[..|w| - 1], w[0]) then Role(Reach(w)) == role else Reach(w) == 160
  {
    hide YyEc, Delta, Reach, Role, Class, Part, Escaped, Seen;
    var q, p, c := w[0], w[..|w| - 1], w[|w| - 1];
    assert w == p + [c];
    ReachMore(p, c);
    ClassPositive(c);
    QuoteClass(c, role);
    StartIsFirst();
    if p == "" {
      StringStarts(role);
      OneSeen(q);
      assert w == [q];
    } else {
      StringReach(p, role);
      SeenMore(p, q, c);
      JamIsNoPart();
      var s := Reach(p);
      if s == 160 {
        JamStays(Class(c));
      } else {
        DeltaRange(s, Class(c));
        PartMoves(s, Class(c));
      }
    }
  }

  lemma OneSeen(q: char)
    ensures Seen([q], q) == 1 && Escaped([q][..0], q)
  {
  }

  lemma JamIsNoPart()
    ensures Part(160) == 0 && Role(160) == 0
  {
  }

  lemma StringAccepts(s: int, role: int)
    requires IsState(s) && (role == 2 || role == 3)
    ensures YyAccept(s) == role - 1 <==> Role(s) == role && Part(s) >= 3
  {
  }

  lemma StartClass(c: int, role: int)
    requires 1 <= c <= 43 && (role == 2 || role == 3)
    ensures Role(Delta(1, c)) == role <==> c == role + 2
  {
  }

  // The first string rule accepts exactly what is quoted with ", the second what is quoted with '.
  lemma StringRule(w: string, role: int)
    requires Clean(w) && (role == 2 || role == 3)
    ensures Rule(w) == role - 1 <==> Quoted(w, QuoteOf(role))
  {
    hide YyAccept, YyEc, Delta, Reach, Role, Enters, Class, Part, Escaped;
    StringAccepts(Reach(w), role);
    StartIsFirst();
    StringAccepts(1, role);
    StartIsNoString();
    if w != "" {
      if Rule(w) == role - 1 {
        RoleStarts(w);
        assert w[..1] == "" + [w[0]];
        ReachMore("", w[0]);
        ClassPositive(w[0]);
        StartClass(Class(w[0]), role);
        QuoteClass(w[0], role);
      }
      if w[0] == QuoteOf(role) { StringReach(w, role); }
    }
  }

  lemma StartIsNoString()
    ensures Part(1) == 0
  {
  }

  // The token of a string literal holds what is between its quotes.
  lemma StringTokens(s: string, role: int, pathError: string -> int)
    requires Clean(s) && (role == 2 || role == 3)
    ensures var q := QuoteOf(role);
            var w := [q] + s + [q];
            Rule(w) == role - 1 <==> forall i :: 0 <= i < |s| && s[i] == q ==> 0 < i && s[i - 1] == '\\'
    ensures var q := QuoteOf(role);
            var w := [q] + s + [q];
            Rule(w) == role - 1 ==>
              TokenOf(Lexeme(Rule(w), w), pathError) == Token(KIND_STRING, Obj(Str(s)))
  {
    hide Rule;
    var q := QuoteOf(role);
    var w := [q] + s + [q];
    StringRule(w, role);
    assert w[..|w| - 1] == [q] + s && w[1..|w| - 1] == s;
    if Escaped([q] + s, q) {
      forall i | 0 <= i < |s| && s[i] == q
        ensures 0 < i && s[i - 1] == '\\'
      {
        assert ([q] + s)[i + 1] == q;
      }
    }
  }

  // Every lexeme of the string rules is such a literal.
  lemma StringLexemes(w: string, role: int, pathError: string -> int)
    requires Clean(w) && (role == 2 || role == 3) && Rule(w) == role - 1
    ensures exists s :: w == [QuoteOf(role)] + s + [QuoteOf(role)]
                        && TokenOf(Lexeme(Rule(w), w), pathError) == Token(KIND_STRING, Obj(Str(s)))
  {
    hide Rule, Escaped;
    StringRule(w, role);
    var s := w[1..|w| - 1];
    assert w == [QuoteOf(role)] + s + [QuoteOf(role)];
    StringTokens(s, role, pathError);
  }

  // ------------------------------------------------------------------------------------ white space

  predicate IsSpace(c: char)
  {
    9 <= c as int <= 13 || c == ' '
  }

  lemma SpaceClass(c: char)
    requires 1 <= c as int <= 255
    ensures IsSpace(c) <==> Class(c) == 2 || Class(c) == 3
  {
  }

  lemma SpaceStates(s: int)
    requires IsState(s)
    ensures YyAccept(s) == 32 <==> Role(s) == 5
    ensures Role(s) == 5 <==> s == 5 || s == 6 || s == 31
  {
  }

  lemma SpaceStart(c: int)
    requires 1 <= c <= 43
    ensures Role(Delta(1, c)) == 5 <==> c == 2 || c == 3
  {
  }

  // The white-space rule accepts exactly the nonempty runs of white space.
  lemma {:induction false} SpaceRule(w: string)
    requires Clean(w)
    ensures Rule(w) == 32 <==> w != "" && forall i :: 0 <= i < |w| ==> IsSpace(w[i])
  {
    hide YyAccept, YyEc, Delta, Reach, Role, Enters, Class, IsSpace;
    SpaceStates(Reach(w));
    StartIsFirst();
    DefaultRole(1);
    if w != "" {
      var p, c := w[..|w| - 1], w[|w| - 1];
      assert w == p + [c];
      ReachMore(p, c);
      ClassPositive(c);
      SpaceClass(c);
      StartOnly(p);
      SpaceStates(Reach(p));
      if p == "" {
        SpaceStart(Class(c));
      } else {
        SpaceRule(p);
        if Rule(w) == 32 && Role(Reach(p)) != 5 {
          RoleMoves(Reach(p), Class(c));
          assert false;
        }
        if Role(Reach(p)) == 5 {
          Move5(Class(c));
          Move6(Class(c));
          Move31(Class(c));
        }
      }
    }
  }
}
