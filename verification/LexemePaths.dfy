// IDMEF paths: what the scanner takes for one.
module LexemePaths {
  import opened ScannerTables
  import opened ScannerMoves
  import opened PathGrammar
  import opened PathScanner
  import opened LexemeWords
  import opened DecimalDigit

  // ------------------------------------------------------------------------------------ the shape of paths

  predicate IsNameChar(c: char)
  {
    'a' <= c <= 'z' || 'A' <= c <= 'Z' || IsDigit(c) || c == '_' || c == '-'
  }

  predicate IsName(s: string)
  {
    s != "" && forall i :: 0 <= i < |s| ==> IsNameChar(s[i])
  }

  predicate AllStars(y: string)
  {
    y != "" && forall i :: 0 <= i < |y| ==> IsDigit(y[i]) || y[i] == '*'
  }

  // A position, or stars, with a minus sign if need be.
  predicate IsStars(y: string)
  {
    AllStars(y) || (y != "" && y[0] == '-' && AllStars(y[1..]))
  }

  // A key without quotes in it.
  predicate IsKey(y: string, q: char)
  {
    y != "" && forall i :: 0 <= i < |y| ==> y[i] != q
  }

  predicate IsQuotedKey(x: string, q: char)
  {
    |x| >= 2 && x[0] == q == x[|x| - 1] && IsKey(x[1..|x| - 1], q)
  }

  // What stands behind a name in parentheses.
  predicate IsIndex(x: string)
  {
    && |x| >= 2 && x[0] == '(' && x[|x| - 1] == ')'
    && var y := x[1..|x| - 1];
       IsStars(y) || IsQuotedKey(y, '"') || IsQuotedKey(y, '\'')
  }

  // A name, an index if there is one, and a dot if there is one.
  ghost predicate IsPart(s: string)
  {
    exists i, j :: 0 <= i <= j <= |s| && IsName(s[..i]) && (i == j || IsIndex(s[i..j]))
                   && (s[j..] == "" || s[j..] == ".")
  }

  ghost predicate IsParts(b: string)
    decreases |b|
  {
    exists i :: 0 <= i < |b| && (i == 0 || IsParts(b[..i])) && IsPart(b[i..])
  }

  // An IDMEF path: the name of a message class, a dot, and at least one part.
  ghost predicate IsPath(w: string)
  {
    (|w| >= 6 && w[..6] == "alert." && IsParts(w[6..])) || (|w| >= 10 && w[..10] == "heartbeat." && IsParts(w[10..]))
  }

  // ------------------------------------------------------------------------------------ reading them

  // The text may be followed by a name.
  ghost predicate Ready(b: string) { b == "" || IsParts(b) }

  ghost predicate EndsInName(b: string)
  {
    exists i :: 0 <= i < |b| && Ready(b[..i]) && IsName(b[i..])
  }

  // How far an index has been read from its parenthesis on.
  predicate IndexPhase(x: string, phase: int)
  {
    match phase
    case 4 => x == "("
    case 5 => x == "(-"
    case 6 => x != "" && x[0] == '(' && IsStars(x[1..])
    case 7 => x == "(\""
    case 8 => x == "('"
    case 9 => |x| >= 2 && x[..2] == "(\"" && IsKey(x[2..], '"')
    case 10 => |x| >= 2 && x[..2] == "('" && IsKey(x[2..], '\'')
    case 11 => x != "" && x[0] == '(' && (IsQuotedKey(x[1..], '"') || IsQuotedKey(x[1..], '\''))
    case _ => false
  }

  ghost predicate InIndex(b: string, phase: int)
  {
    exists i :: 0 <= i < |b| && EndsInName(b[..i]) && IndexPhase(b[i..], phase)
  }

  ghost predicate EndsInIndex(b: string)
  {
    b != "" && b[|b| - 1] == ')' && (InIndex(b[..|b| - 1], 6) || InIndex(b[..|b| - 1], 11))
  }

  // How far the parts of a path have been read: 0 nothing, 1 up to a name, 2 an index, 3 a dot, from 4 on within
  // an index.
  ghost predicate IsPhase(b: string, phase: int)
  {
    match phase
    case 0 => b == ""
    case 1 => EndsInName(b)
    case 2 => EndsInIndex(b)
    case 3 => b != "" && b[|b| - 1] == '.' && (EndsInName(b[..|b| - 1]) || EndsInIndex(b[..|b| - 1]))
    case _ => InIndex(b, phase)
  }

  function NextPhase(phase: int, c: char): int
  {
    match phase
    case 0 => if IsNameChar(c) then 1 else -1
    case 1 => if IsNameChar(c) then 1 else if c == '(' then 4 else if c == '.' then 3 else -1
    case 2 => if IsNameChar(c) then 1 else if c == '.' then 3 else -1
    case 3 => if IsNameChar(c) then 1 else -1
    case 4 =>
      if c == '"' then 7 else if c == '\'' then 8 else if IsDigit(c) || c == '*' then 6 else if c == '-' then 5 else -1
    case 5 => if IsDigit(c) || c == '*' then 6 else -1
    case 6 => if IsDigit(c) || c == '*' then 6 else if c == ')' then 2 else -1
    case 7 => if c == '"' then -1 else 9
    case 8 => if c == '\'' then -1 else 10
    case 9 => if c == '"' then 11 else 9
    case 10 => if c == '\'' then 11 else 10
    case 11 => if c == ')' then 2 else -1
    case _ => -1
  }

  // ------------------------------------------------------------------------------------ one character more

  lemma NameMore(s: string, c: char)
    ensures IsName(s + [c]) <==> (s == "" || IsName(s)) && IsNameChar(c)
  {
    var t := s + [c];
    if IsName(t) {
      assert IsNameChar(t[|s|]);
      forall i | 0 <= i < |s|
        ensures IsNameChar(s[i])
      {
        assert IsNameChar(t[i]);
      }
    }
  }

  lemma StarsMore(y: string, c: char)
    ensures AllStars(y + [c]) <==> (y == "" || AllStars(y)) && (IsDigit(c) || c == '*')
  {
    var t := y + [c];
    if AllStars(t) {
      assert t[|y|] == c;
      forall i | 0 <= i < |y|
        ensures IsDigit(y[i]) || y[i] == '*'
      {
        assert t[i] == y[i];
      }
    }
  }

  lemma KeyMore(y: string, q: char, c: char)
    ensures IsKey(y + [c], q) <==> (y == "" || IsKey(y, q)) && c != q
  {
    var t := y + [c];
    if IsKey(t, q) {
      assert t[|y|] == c;
      forall i | 0 <= i < |y|
        ensures y[i] != q
      {
        assert t[i] == y[i];
      }
    }
  }

  lemma SignedStarsMore(y: string, c: char)
    ensures IsStars(y + [c]) <==> (y == "" || y == "-" || IsStars(y)) && (IsDigit(c) || c == '*')
  {
    hide AllStars;
    StarsMore(y, c);
    if y == "" {
      StarsMore("", c);
      NoStars();
      assert (y + [c])[1..] == "";
    } else {
      assert (y + [c])[1..] == y[1..] + [c];
      StarsMore(y[1..], c);
      if y[1..] == "" { assert y == [y[0]]; }
      NoMinus(y);
    }
  }

  lemma NoStars()
    ensures !AllStars("")
  {
  }

  lemma NoMinus(y: string)
    ensures y != "" && y[0] == '-' ==> !AllStars(y)
  {
  }

  lemma KeyNotEmpty(y: string)
    ensures IsKey(y, '"') || IsKey(y, '\'') ==> y != ""
  {
  }

  lemma IndexOn(x: string, c: char, phase: int)
    requires IndexPhase(x, phase) && NextPhase(phase, c) >= 4
    ensures IndexPhase(x + [c], NextPhase(phase, c))
  {
    if phase <= 6 {
      hide AllStars, IsStars;
      assert (x + [c])[1..] == x[1..] + [c];
      SignedStarsMore(x[1..], c);
    } else {
      KeyOn(x, c, phase);
    }
  }

  lemma KeyOn(x: string, c: char, phase: int)
    requires IndexPhase(x, phase) && 7 <= phase <= 10
    ensures IndexPhase(x + [c], NextPhase(phase, c)) || NextPhase(phase, c) == -1
  {
    hide IsKey, IsStars;
    var d, y := x + [c], x[2..];
    var q := if phase == 7 || phase == 9 then '"' else '\'';
    assert d[..2] == x[..2] == ['(', q] && d[2..] == y + [c];
    KeyMore(y, q, c);
    if (phase == 9 || phase == 10) && c == q {
      assert d[1..][1..|d| - 2] == y && d[1] == x[..2][1];
    }
  }

  lemma IndexBack(x: string, c: char, phase: int) returns (before: int)
    requires IndexPhase(x + [c], phase) && x != ""
    ensures 4 <= before <= 11 && IndexPhase(x, before) && NextPhase(before, c) == phase
  {
    hide AllStars, IsStars, IsKey;
    var d, y := x + [c], x[1..];
    assert d[1..] == y + [c] && x == [x[0]] + y && d[|x|] == c;
    if phase == 6 {
      SignedStarsMore(y, c);
      before := if y == "" then 4 else if y == "-" then 5 else 6;
    } else if phase == 9 || phase == 10 {
      assert d[..2] == [d[0], d[1]];
      KeyNotEmpty(d[2..]);
      assert d[..2] == x[..2] && d[2..] == x[2..] + [c];
      var q := if phase == 9 then '"' else '\'';
      KeyMore(x[2..], q, c);
      before := if x[2..] == "" then phase - 2 else phase;
      assert x == x[..2] + x[2..];
    } else if phase == 11 {
      var q := if IsQuotedKey(d[1..], '"') then '"' else '\'';
      assert d[1..][1..|d| - 2] == x[2..] && x[..2] == ['(', q];
      before := if q == '"' then 9 else 10;
    } else {
      before := 4;
      assert x == [d[0]];
    }
  }

  lemma IndexEnds(x: string, c: char)
    ensures IsIndex(x + [c]) <==> c == ')' && (IndexPhase(x, 6) || IndexPhase(x, 11))
  {
    var d := x + [c];
    if x != "" { assert d[1..|d| - 1] == x[1..]; }
  }

  // ------------------------------------------------------------------------------------ parts

  // A text whose last part has its name from i to j and its index from j to k; a dot may follow.
  ghost predicate LastPart(b: string, i: int, j: int, k: int)
  {
    && 0 <= i <= j <= k <= |b| && Ready(b[..i]) && IsName(b[i..j]) && (j == k || IsIndex(b[j..k]))
    && (k == |b| || b[k..] == ".")
  }

  lemma Slices(b: string, i: nat, j: nat, k: nat)
    requires i <= j <= k <= |b|
    ensures var s := b[i..];
            s[..j - i] == b[i..j] && s[j - i..k - i] == b[j..k] && s[k - i..] == b[k..]
  {
  }

  lemma PartIsLast(b: string, i: nat) returns (j: int, k: int)
    requires i < |b| && Ready(b[..i]) && IsPart(b[i..])
    ensures LastPart(b, i, j, k)
  {
    hide IsName, IsIndex, Ready;
    var s := b[i..];
    var j0, k0 :| 0 <= j0 <= k0 <= |s| && IsName(s[..j0]) && (j0 == k0 || IsIndex(s[j0..k0]))
                  && (s[k0..] == "" || s[k0..] == ".");
    j, k := i + j0, i + k0;
    Slices(b, i, j, k);
  }

  lemma LastIsPart(b: string, i: int, j: int, k: int)
    requires LastPart(b, i, j, k)
    ensures i < |b| && IsPart(b[i..])
  {
    hide IsName, IsIndex, Ready;
    Slices(b, i, j, k);
    NameIsText(b[i..j]);
    var s, j0, k0 := b[i..], j - i, k - i;
    assert IsName(s[..j0]) && (j0 == k0 || IsIndex(s[j0..k0])) && (s[k0..] == "" || s[k0..] == ".");
  }

  lemma PartsUnfold(b: string)
    ensures IsParts(b) <==> exists i :: 0 <= i < |b| && Ready(b[..i]) && IsPart(b[i..])
  {
    hide IsPart;
  }

  lemma PartsEnd(b: string)
    ensures IsParts(b) <==> exists i, j, k :: LastPart(b, i, j, k)
  {
    hide IsName, IsIndex, Ready, IsPart, IsParts;
    PartsUnfold(b);
    if IsParts(b) {
      var i :| 0 <= i < |b| && Ready(b[..i]) && IsPart(b[i..]);
      var j, k := PartIsLast(b, i);
    }
    if exists i, j, k :: LastPart(b, i, j, k) {
      var i, j, k :| LastPart(b, i, j, k);
      LastIsPart(b, i, j, k);
    }
  }

  lemma NameIsText(s: string)
    ensures IsName(s) ==> s != ""
  {
  }

  lemma NameEnds(b: string)
    ensures EndsInName(b) <==> exists i :: LastPart(b, i, |b|, |b|)
  {
    hide IsName;
    if EndsInName(b) {
      var i :| 0 <= i < |b| && Ready(b[..i]) && IsName(b[i..]);
      assert b[i..|b|] == b[i..];
      assert LastPart(b, i, |b|, |b|);
    }
    if exists i :: LastPart(b, i, |b|, |b|) {
      var i :| LastPart(b, i, |b|, |b|);
      assert b[i..|b|] == b[i..];
      NameIsText(b[i..]);
    }
  }

  // A name up to j and an index from j to the end.
  lemma NameThenIndex(b: string, i: int, j: int)
    requires 0 <= j < |b|
    ensures LastPart(b, i, j, |b|) <==> LastPart(b[..j], i, j, j) && IsIndex(b[j..])
  {
    hide IsName, IsIndex, Ready;
    assert b[j..|b|] == b[j..];
    if 0 <= i <= j { assert b[..j][..i] == b[..i] && b[..j][i..j] == b[i..j]; }
  }

  lemma IndexAtEnd(b: string, j: int)
    requires 0 <= j < |b|
    ensures var p := b[..|b| - 1];
            IsIndex(b[j..]) <==> b[|b| - 1] == ')' && (IndexPhase(p[j..], 6) || IndexPhase(p[j..], 11))
  {
    hide IsIndex, IndexPhase;
    var p := b[..|b| - 1];
    assert b[j..] == p[j..] + [b[|b| - 1]];
    IndexEnds(p[j..], b[|b| - 1]);
  }

  lemma IndexHasEnd(b: string)
    ensures EndsInIndex(b) <==> exists i, j :: 0 <= j < |b| && LastPart(b, i, j, |b|)
  {
    if b != "" {
      if EndsInIndex(b) {
        var i, j := IndexIsLast(b);
      }
      if exists i, j :: 0 <= j < |b| && LastPart(b, i, j, |b|) {
        var i, j :| 0 <= j < |b| && LastPart(b, i, j, |b|);
        LastIsIndex(b, i, j);
      }
    }
  }

  lemma IndexIsLast(b: string) returns (i: int, j: int)
    requires EndsInIndex(b)
    ensures 0 <= j < |b| && LastPart(b, i, j, |b|)
  {
    hide IsIndex, IndexPhase, LastPart, EndsInName;
    var p := b[..|b| - 1];
    var phase := if InIndex(p, 6) then 6 else 11;
    j :| 0 <= j < |p| && EndsInName(p[..j]) && IndexPhase(p[j..], phase);
    assert p[..j] == b[..j];
    NameEnds(b[..j]);
    i :| LastPart(b[..j], i, j, j);
    IndexAtEnd(b, j);
    NameThenIndex(b, i, j);
  }

  lemma LastIsIndex(b: string, i: int, j: int)
    requires 0 <= j < |b| && LastPart(b, i, j, |b|)
    ensures EndsInIndex(b)
  {
    hide IsIndex, IndexPhase, LastPart, EndsInName;
    var p := b[..|b| - 1];
    NameThenIndex(b, i, j);
    IndexAtEnd(b, j);
    NameEnds(b[..j]);
    NoIndexYet(p[j..]);
    assert p[..j] == b[..j];
    assert InIndex(p, if IndexPhase(p[j..], 6) then 6 else 11);
  }

  lemma NoIndexYet(x: string)
    ensures IndexPhase(x, 6) || IndexPhase(x, 11) ==> |x| > 0
  {
  }

  lemma DotAfter(b: string, i: int, j: int)
    requires b != "" && b[|b| - 1] == '.'
    ensures var p := b[..|b| - 1];
            LastPart(p, i, j, |p|) <==> LastPart(b, i, j, |p|)
  {
    hide IsName, IsIndex;
    var p := b[..|b| - 1];
    assert b[|p|..] == ".";
    if 0 <= i <= j <= |p| {
      assert p[..i] == b[..i] && p[i..j] == b[i..j] && p[j..|p|] == b[j..|p|];
    }
  }

  // Parts are complete after a name, an index or a dot.
  lemma PartsPhases(b: string)
    ensures IsParts(b) <==> IsPhase(b, 1) || IsPhase(b, 2) || IsPhase(b, 3)
  {
    hide IsParts, EndsInName, EndsInIndex, Ready, IsName, IsIndex;
    PartsEnd(b);
    NameEnds(b);
    IndexHasEnd(b);
    var p := if b == "" then "" else b[..|b| - 1];
    NameEnds(p);
    IndexHasEnd(p);
    if IsParts(b) {
      var i, j, k :| LastPart(b, i, j, k);
      if k < |b| {
        assert b[k..][0] == '.';
        DotAfter(b, i, j);
      }
    }
    if IsPhase(b, 3) {
      var i, j :| LastPart(p, i, j, |p|);
      DotAfter(b, i, j);
    }
  }

  // ------------------------------------------------------------------------------------ phases of a path

  lemma NameOn(b: string, c: char)
    requires IsNameChar(c) && (Ready(b) || EndsInName(b))
    ensures EndsInName(b + [c])
  {
    hide IsName, IsNameChar, IsParts;
    var d := b + [c];
    if Ready(b) {
      assert d[..|b|] == b && d[|b|..] == "" + [c];
      NameMore("", c);
    } else {
      var i :| 0 <= i < |b| && Ready(b[..i]) && IsName(b[i..]);
      assert d[..i] == b[..i] && d[i..] == b[i..] + [c];
      NameMore(b[i..], c);
    }
  }

  lemma NameBack(b: string, c: char)
    requires EndsInName(b + [c])
    ensures IsNameChar(c) && (Ready(b) || EndsInName(b))
  {
    hide IsName, IsNameChar, IsParts;
    var d := b + [c];
    var i :| 0 <= i < |d| && Ready(d[..i]) && IsName(d[i..]);
    assert d[..i] == b[..i] && d[i..] == b[i..] + [c];
    NameMore(b[i..], c);
    if i == |b| { assert b[..i] == b; }
  }

  lemma InIndexOn(b: string, c: char, phase: int)
    requires InIndex(b, phase) && NextPhase(phase, c) >= 4
    ensures InIndex(b + [c], NextPhase(phase, c))
  {
    hide EndsInName, IndexPhase, NextPhase;
    var d := b + [c];
    var i :| 0 <= i < |b| && EndsInName(b[..i]) && IndexPhase(b[i..], phase);
    assert d[..i] == b[..i] && d[i..] == b[i..] + [c];
    IndexOn(b[i..], c, phase);
  }

  lemma InIndexBack(b: string, c: char, phase: int) returns (before: int)
    requires InIndex(b + [c], phase)
    ensures if before == 1 then EndsInName(b) else 4 <= before <= 11 && InIndex(b, before)
    ensures NextPhase(before, c) == phase
  {
    hide EndsInName, IndexPhase, NextPhase;
    var d := b + [c];
    var i :| 0 <= i < |d| && EndsInName(d[..i]) && IndexPhase(d[i..], phase);
    assert d[..i] == b[..i] && d[i..] == b[i..] + [c];
    if i == |b| {
      IndexStarts(c, phase);
      assert b[i..] + [c] == [c] && b[..i] == b;
      before := 1;
    } else {
      before := IndexBack(b[i..], c, phase);
    }
  }

  lemma IndexStarts(c: char, phase: int)
    ensures IndexPhase([c], phase) <==> c == '(' && phase == 4
    ensures NextPhase(1, '(') == 4
  {
  }

  // A phase and a character more make the next phase,
  lemma PhaseOn(b: string, c: char, phase: int)
    requires IsPhase(b, phase) && NextPhase(phase, c) >= 0
    ensures IsPhase(b + [c], NextPhase(phase, c))
  {
    hide EndsInName, InIndex, IsParts, IsNameChar;
    var d := b + [c];
    assert d[..|d| - 1] == b;
    PartsPhases(b);
    if NextPhase(phase, c) == 1 {
      NameOn(b, c);
    } else if phase >= 4 && NextPhase(phase, c) >= 4 {
      InIndexOn(b, c, phase);
    } else if phase == 1 && c == '(' {
      IndexStarts(c, 4);
      assert d[..|b|] == b && d[|b|..] == [c];
      IndexOpens(b, c);
    }
  }

  lemma IndexOpens(b: string, c: char)
    requires EndsInName(b) && c == '('
    ensures InIndex(b + [c], 4)
  {
    hide EndsInName, IndexPhase;
    var d := b + [c];
    assert d[..|b|] == b && d[|b|..] == [c];
    IndexStarts(c, 4);
  }

  // and there is no other way to get there.
  lemma PhaseBack(b: string, c: char, phase: int) returns (before: int)
    requires 1 <= phase <= 11 && IsPhase(b + [c], phase)
    ensures 0 <= before <= 11 && IsPhase(b, before) && NextPhase(before, c) == phase
  {
    hide EndsInName, InIndex, IsParts;
    var d := b + [c];
    assert d[..|d| - 1] == b;
    PartsPhases(b);
    match phase
    case 1 =>
      NameBack(b, c);
      before := if b == "" then 0 else if EndsInName(b) then 1 else if EndsInIndex(b) then 2 else 3;
    case 2 => before := if InIndex(b, 6) then 6 else 11;
    case 3 => before := if EndsInName(b) then 1 else 2;
    case _ => before := InIndexBack(b, c, phase);
  }

  // ------------------------------------------------------------------------------------ states of a path

  // The phase each state stands for; 0 once the message class and its dot have been read.
  function Phase(s: int): int
  {
    match s
    case 124 => 0 case 132 => 1 case 157 => 2 case 142 => 3 case 141 => 4 case 152 => 5 case 151 => 6
    case 149 => 7 case 150 => 8 case 155 => 9 case 156 => 10 case 159 => 11
    case _ => -1
  }

  lemma PathStates(s: int)
    requires IsState(s)
    ensures Role(s) == 6 <==> 0 <= Phase(s) <= 11
    ensures Phase(s) == -1 || 0 <= Phase(s) <= 11
    ensures YyAccept(s) == 26 <==> 1 <= Phase(s) <= 3
  {
  }

  lemma PathClass(c: char)
    requires 1 <= c as int <= 255
    ensures IsNameChar(c) <==> InName(Class(c))
    ensures IsDigit(c) || c == '*' <==> Class(c) == 14 || Class(c) == 8
    ensures c == '"' <==> Class(c) == 4
    ensures c == '\'' <==> Class(c) == 5
  {
  }

  lemma PathMarks(c: char)
    requires 1 <= c as int <= 255
    ensures c == '(' <==> Class(c) == 6
    ensures c == ')' <==> Class(c) == 7
    ensures c == '.' <==> Class(c) == 12
    ensures c == '-' <==> Class(c) == 11
  {
  }

  lemma PathMoves(s: int, c: char)
    requires IsState(s) && Phase(s) >= 0 && 1 <= c as int <= 255
    ensures Phase(Delta(s, Class(c))) == NextPhase(Phase(s), c)
  {
    hide Delta, Class, YyEc, IsNameChar;
    ClassPositive(c);
    PathClass(c);
    PathMarks(c);
    match s
    case 124 => Move124(Class(c));
    case 132 => Move132(Class(c));
    case 142 => Move142(Class(c));
    case 157 => Move157(Class(c));
    case 141 => Move141(Class(c));
    case 149 => Move149(Class(c));
    case 150 => Move150(Class(c));
    case 151 => Move151(Class(c));
    case 152 => Move152(Class(c));
    case 155 => Move155(Class(c));
    case 156 => Move156(Class(c));
    case 159 => Move159(Class(c));
  }

  lemma Aler()
    ensures Trie(96) && Reads(96, "aler", 4)
  {
    hide Reads;
    var w := "aler";
    NothingRead(w); Step(1, 17, w, 1); Step(17, 41, w, 2); Step(41, 71, w, 3); Step(71, 96, w, 4);
  }

  lemma Heartbea()
    ensures Trie(144) && Reads(144, "heartbea", 8)
  {
    hide Reads;
    var w := "heartbea";
    NothingRead(w); Step(1, 21, w, 1); Step(21, 46, w, 2); Step(46, 76, w, 3); Step(76, 100, w, 4);
    Step(100, 118, w, 5); Step(118, 127, w, 6); Step(127, 135, w, 7); Step(135, 144, w, 8);
  }

  lemma ClassOfT(c: char)
    requires 1 <= c as int <= 255
    ensures c == 't' <==> Class(c) == 37
  {
  }

  // The first word of a path.
  lemma FirstWord(w: string)
    requires Clean(w)
    ensures Reach(w) == 114 <==> w == "alert" || w == "heartbeat"
  {
    hide Reach, Delta, Class, Reads, Trie;
    StartIsFirst();
    if w != "" {
      var p, c := w[..|w| - 1], w[|w| - 1];
      assert w == p + [c];
      ReachMore(p, c);
      StartOnly(p);
      ClassPositive(c);
      ClassOfT(c);
      FirstWordMoves(Reach(p), Class(c));
      Aler();
      Heartbea();
      LeadsThere(p, 96, "aler");
      LeadsThere(p, 144, "heartbea");
      assert "alert" == "aler" + ['t'] && "heartbeat" == "heartbea" + ['t'];
      if w == "alert" { assert p == "aler"; }
      if w == "heartbeat" { assert p == "heartbea"; }
    }
  }

  predicate IsHead(h: string) { h == "alert." || h == "heartbeat." }

  lemma HeadLeads(h: string)
    requires IsHead(h)
    ensures Clean(h) && Reach(h) == 124
  {
    hide Reach, Delta, Class;
    var p := h[..|h| - 1];
    assert h == p + ['.'];
    FirstWord(p);
    ReachMore(p, '.');
    PathMarks('.');
    DotMove();
  }

  lemma NoRoleFromStart(c: int)
    requires 1 <= c <= 43 && Enters(c)
    ensures Role(Delta(1, c)) != 6
  {
  }

  // What leads into a path from outside is the dot after its first word.
  lemma PathEntered(w: string)
    requires Clean(w) && w != "" && Role(Reach(w)) == 6 && Role(Reach(w[..|w| - 1])) != 6
    ensures IsHead(w)
  {
    hide Reach, Delta, Class, Role, Enters;
    var p, c := w[..|w| - 1], w[|w| - 1];
    assert w == p + [c];
    ReachMore(p, c);
    StartOnly(p);
    ClassPositive(c);
    PathMarks(c);
    RoleMoves(Reach(p), Class(c));
    if Reach(p) == 1 { NoRoleFromStart(Class(c)); }
    FirstWord(p);
  }

  lemma {:induction false} PathStarts(w: string)
    requires Clean(w) && Role(Reach(w)) == 6
    ensures exists h :: IsHead(h) && h <= w
  {
    hide Reach, Role;
    StartIsFirst();
    DefaultRole(1);
    var p := w[..|w| - 1];
    if Role(Reach(p)) == 6 {
      PathStarts(p);
      var h :| IsHead(h) && h <= p;
      assert h <= w;
    } else {
      PathEntered(w);
      assert w <= w;
    }
  }

  // The state after a message class, its dot and b says how far parts of a path have been read.
  lemma {:induction false} PathReach(h: string, b: string, phase: int)
    requires IsHead(h) && Clean(h + b) && 0 <= phase <= 11
    ensures IsPhase(b, phase) <==> Phase(Reach(h + b)) == phase
    decreases |b|
  {
    hide Reach, Delta, Class, IsPhase, Phase, NextPhase, YyAccept, Role;
    HeadLeads(h);
    if b == "" {
      assert h + b == h;
      NothingYet(phase);
    } else {
      var p, c := b[..|b| - 1], b[|b| - 1];
      assert b == p + [c] && h + b == (h + p) + [c];
      var s := Reach(h + p);
      ReachMore(h + p, c);
      assert (h + b)[|h + p|] == c && (h + b)[..|h + p|] == h + p;
      assert Clean(h + p);
      PathStates(s);
      PathStates(Reach(h + b));
      forall k | 0 <= k <= 11
        ensures IsPhase(p, k) <==> Phase(s) == k
      {
        PathReach(h, p, k);
      }
      if Phase(s) >= 0 {
        PathMoves(s, c);
      } else if Phase(Reach(h + b)) >= 0 {
        PathEntered(h + b);
        OneHead(h, b);
        assert false;
      }
      if IsPhase(b, phase) {
        NotNothing(b, phase);
        var k := PhaseBack(p, c, phase);
      }
      if Phase(Reach(h + b)) == phase {
        PhaseOn(p, c, Phase(s));
      }
    }
  }

  lemma OneHead(h: string, b: string)
    requires IsHead(h) && IsHead(h + b)
    ensures b == ""
  {
    assert (h + b)[|h| - 1] == '.';
  }

  lemma NothingYet(phase: int)
    ensures IsPhase("", phase) <==> phase == 0
    ensures Phase(124) == 0
  {
  }

  lemma NotNothing(b: string, phase: int)
    requires b != ""
    ensures IsPhase(b, phase) ==> phase != 0
  {
  }

  // The rule of IDMEF paths accepts exactly the paths.
  lemma PathRule(w: string)
    requires Clean(w)
    ensures Rule(w) == 26 <==> IsPath(w)
  {
    hide Reach, YyAccept, Role, IsParts, IsPhase;
    PathStates(Reach(w));
    if Rule(w) == 26 {
      PathStarts(w);
      var h :| IsHead(h) && h <= w;
      PathOf(w, h);
    }
    if |w| >= 6 && w[..6] == "alert." { PathOf(w, "alert."); }
    if |w| >= 10 && w[..10] == "heartbeat." { PathOf(w, "heartbeat."); }
  }

  lemma PathOf(w: string, h: string)
    requires Clean(w) && IsHead(h) && h <= w
    ensures Rule(w) == 26 <==> IsParts(w[|h|..])
  {
    hide Reach, YyAccept, Role, IsParts, IsPhase;
    var b := w[|h|..];
    assert w == h + b;
    PathStates(Reach(w));
    PartsPhases(b);
    PathReach(h, b, 1);
    PathReach(h, b, 2);
    PathReach(h, b, 3);
  }

  // The token of a path holds its text, or what is wrong with it.
  lemma PathTokens(w: string, pathError: string -> int)
    requires Clean(w) && IsPath(w)
    ensures TokenOf(Lexeme(Rule(w), w), pathError) ==
            if pathError(w) < 0 then Token(KIND_ERROR, Err(pathError(w))) else Token(KIND_IDMEF, Obj(IdmefPath(w)))
  {
    hide Rule, IsPath;
    PathRule(w);
  }
}
