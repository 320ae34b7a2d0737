// Numbers: what the scanner takes for a number, and the value of its token.
module LexemeNumbers {
  import opened ScannerTables
  import opened ScannerMoves
  import opened PathGrammar
  import opened PathScanner
  import opened LexemeWords
  import opened DecimalDigit
  import opened Decimal
  import opened NumberText

  // ------------------------------------------------------------------------------------ the shape of numbers

  // Digits.
  ghost predicate IsWhole(b: string) { b != "" && AllDigits(b) }

  // Digits, which may be left out, and a decimal point.
  ghost predicate UpToPoint(b: string) { b != "" && b[|b| - 1] == '.' && AllDigits(b[..|b| - 1]) }

  // These, and digits after the point.
  ghost predicate IsDecimal(b: string)
  {
    exists i :: 0 <= i < |b| && UpToPoint(b[..i]) && AllDigits(b[i..])
  }

  // A decimal number and the letter of an exponent.
  ghost predicate UpToLetter(b: string)
  {
    b != "" && (b[|b| - 1] == 'e' || b[|b| - 1] == 'E') && IsDecimal(b[..|b| - 1])
  }

  // A sign, which may be left out, and the digits of the exponent.
  ghost predicate IsExponent(x: string)
  {
    IsWhole(x) || (x != "" && (x[0] == '+' || x[0] == '-') && IsWhole(x[1..]))
  }

  ghost predicate HasExponent(b: string)
  {
    exists i :: 0 <= i < |b| && UpToLetter(b[..i]) && IsExponent(b[i..])
  }

  // A number: an optional minus sign, and digits or a decimal number with or without an exponent.
  ghost predicate IsNumber(w: string)
  {
    IsUnsigned(Body(w))
  }

  ghost predicate IsUnsigned(b: string)
  {
    IsWhole(b) || IsDecimal(b) || HasExponent(b)
  }

  function Body(w: string): string
  {
    if w != "" && w[0] == '-' then w[1..] else w
  }

  // ------------------------------------------------------------------------------------ reading them

  // How far a number without its sign has been read; 0 is nothing yet, and -1 for what does not start a number.
  ghost predicate IsPhase(b: string, phase: int)
  {
    match phase
    case 0 => b == ""
    case 1 => IsWhole(b)
    case 2 => UpToPoint(b)
    case 3 => IsDecimal(b)
    case 4 => UpToLetter(b)
    case 5 => b != "" && (b[|b| - 1] == '+' || b[|b| - 1] == '-') && UpToLetter(b[..|b| - 1])
    case 6 => HasExponent(b)
    case _ => false
  }

  // The phase each state stands for.
  function Phase(s: int): int
  {
    match s
    case 1 => 0 case 12 => 0 case 15 => 1 case 39 => 1 case 13 => 2 case 38 => 2 case 40 => 3 case 70 => 4
    case 94 => 5 case 95 => 6
    case _ => -1
  }

  function NextPhase(phase: int, c: char): int
  {
    if IsDigit(c) then
      match phase
      case 0 => 1 case 1 => 1 case 2 => 3 case 3 => 3 case 4 => 6 case 5 => 6 case 6 => 6
      case _ => -1
    else if c == '.' then (if phase == 0 || phase == 1 then 2 else -1)
    else if c == 'e' || c == 'E' then (if phase == 3 then 4 else -1)
    else if c == '+' || c == '-' then (if phase == 4 then 5 else -1)
    else -1
  }

  lemma NumberClass(c: char)
    requires 1 <= c as int <= 255
    ensures IsDigit(c) <==> Class(c) == 14
    ensures c == '.' <==> Class(c) == 12
    ensures c == 'e' || c == 'E' <==> Class(c) == 17 || Class(c) == 24
    ensures c == '+' <==> Class(c) == 9
    ensures c == '-' <==> Class(c) == 11
  {
  }

  lemma NumberStates(s: int)
    requires IsState(s)
    ensures Role(s) == 4 <==> Phase(s) >= 0 && s != 1
    ensures YyAccept(s) == 3 <==> Phase(s) == 1 || Phase(s) == 3 || Phase(s) == 6
  {
  }

  lemma NumberStart(c: int)
    requires 1 <= c <= 43
    ensures Role(Delta(1, c)) == 4 <==> c == 11 || c == 12 || c == 14
  {
  }

  lemma FirstOfNumber()
    ensures Delta(1, 11) == 12 && Delta(1, 12) == 13 && Delta(1, 14) == 15
  {
  }

  lemma PhaseMoves(s: int, c: char)
    requires IsState(s) && s != 2 && 1 <= c as int <= 255 && !(s == 1 && c == '-')
    ensures Phase(Delta(s, Class(c))) == NextPhase(Phase(s), c)
  {
    hide YyEc, YyAccept, Delta, Class, Role;
    ClassPositive(c);
    NumberClass(c);
    NumberStates(s);
    DeltaRange(s, Class(c));
    NumberStates(Delta(s, Class(c)));
    if s == 1 {
      NumberStart(Class(c));
      FirstOfNumber();
    } else if Role(s) == 4 {
      NumberMoves(s, Class(c));
    } else if Role(Delta(s, Class(c))) == 4 {
      RoleMoves(s, Class(c));
      assert false;
    }
  }

  lemma NumberMoves(s: int, c: int)
    requires Phase(s) >= 0 && s != 1 && 1 <= c <= 43
    ensures Phase(Delta(s, c)) ==
      if c == 14 then NextPhase(Phase(s), '0')
      else if c == 12 then NextPhase(Phase(s), '.')
      else if c == 17 || c == 24 then NextPhase(Phase(s), 'e')
      else if c == 9 || c == 11 then NextPhase(Phase(s), '+')
      else -1
  {
    hide Delta;
    match s
    case 12 => Move12(c);
    case 13 => Move13(c);
    case 15 => Move15(c);
    case 38 => Move38(c);
    case 39 => Move39(c);
    case 40 => Move40(c);
    case 70 => Move70(c);
    case 94 => Move94(c);
    case 95 => Move95(c);
  }

  // ------------------------------------------------------------------------------------ one character more

  lemma DigitsMore(b: string, c: char)
    ensures AllDigits(b + [c]) <==> AllDigits(b) && IsDigit(c)
  {
    var d := b + [c];
    if AllDigits(d) {
      assert IsDigit(d[|b|]);
      forall i | 0 <= i < |b|
        ensures IsDigit(b[i])
      {
        assert IsDigit(d[i]);
      }
    }
  }

  lemma WholeMore(b: string, c: char)
    ensures IsPhase(b + [c], 1) <==> IsDigit(c) && (b == "" || IsPhase(b, 1))
    ensures IsPhase(b + [c], 2) <==> c == '.' && (b == "" || IsPhase(b, 1))
  {
    DigitsMore(b, c);
    assert (b + [c])[..|b|] == b;
  }

  lemma DecimalMore(b: string, c: char)
    ensures IsDecimal(b + [c]) <==> IsDigit(c) && (UpToPoint(b) || IsDecimal(b))
  {
    var d := b + [c];
    if IsDecimal(d) {
      var i :| 0 <= i < |d| && UpToPoint(d[..i]) && AllDigits(d[i..]);
      assert d[i..] == b[i..] + [c] && d[..i] == b[..i];
      DigitsMore(b[i..], c);
      if i == |b| { assert b[..i] == b; }
    }
    if IsDigit(c) && UpToPoint(b) {
      assert d[..|b|] == b && d[|b|..] == [c];
    }
    if IsDigit(c) && IsDecimal(b) {
      var i :| 0 <= i < |b| && UpToPoint(b[..i]) && AllDigits(b[i..]);
      DigitsMore(b[i..], c);
      assert d[..i] == b[..i] && d[i..] == b[i..] + [c];
    }
  }

  lemma LetterMore(b: string, c: char)
    ensures IsPhase(b + [c], 4) <==> (c == 'e' || c == 'E') && IsPhase(b, 3)
    ensures IsPhase(b + [c], 5) <==> (c == '+' || c == '-') && IsPhase(b, 4)
  {
    assert (b + [c])[..|b|] == b;
  }

  // An exponent grows by digits; it starts as nothing or as a sign.
  lemma ExponentDigits(x: string, c: char)
    ensures IsExponent(x + [c]) <==> IsDigit(c) && (x == "" || x == "+" || x == "-" || IsExponent(x))
  {
    DigitsMore(x, c);
    if x != "" {
      assert (x + [c])[1..] == x[1..] + [c];
      DigitsMore(x[1..], c);
      if x[1..] == "" { assert x == [x[0]]; }
    } else {
      assert (x + [c]) == [c] && [c][1..] == "";
    }
  }

  lemma ExponentMore(b: string, c: char)
    ensures IsPhase(b + [c], 6) <==> IsDigit(c) && (IsPhase(b, 4) || IsPhase(b, 5) || IsPhase(b, 6))
  {
    hide UpToLetter, IsExponent;
    var d := b + [c];
    if HasExponent(d) {
      var i :| 0 <= i < |d| && UpToLetter(d[..i]) && IsExponent(d[i..]);
      assert d[i..] == b[i..] + [c] && d[..i] == b[..i];
      ExponentDigits(b[i..], c);
      if i == |b| {
        assert b[..i] == b;
      } else if b[i..] == "+" || b[i..] == "-" {
        assert b[|b| - 1] == b[i..][0] && b[..i] == b[..|b| - 1];
      } else {
        assert HasExponent(b);
      }
    }
    if IsDigit(c) && (IsPhase(b, 4) || IsPhase(b, 5) || IsPhase(b, 6)) {
      ExponentGrows(b, c);
    }
  }

  lemma ExponentGrows(b: string, c: char)
    requires IsDigit(c) && (IsPhase(b, 4) || IsPhase(b, 5) || IsPhase(b, 6))
    ensures HasExponent(b + [c])
  {
    hide UpToLetter, IsExponent;
    var d := b + [c];
    var i;
    if IsPhase(b, 4) {
      i := |b|;
      assert b[..i] == b && b[i..] == "";
    } else if IsPhase(b, 5) {
      i := |b| - 1;
      assert b[i..] == [b[i]];
    } else {
      i :| 0 <= i < |b| && UpToLetter(b[..i]) && IsExponent(b[i..]);
    }
    ExponentDigits(b[i..], c);
    assert d[..i] == b[..i] && d[i..] == b[i..] + [c];
  }

  lemma PhaseMore(b: string, c: char, before: int, phase: int)
    requires 0 <= phase <= 6
    requires forall k :: 0 <= k <= 6 ==> (IsPhase(b, k) <==> before == k)
    ensures IsPhase(b + [c], phase) <==> NextPhase(before, c) == phase
  {
    assert (IsPhase(b, 0) <==> before == 0) && (IsPhase(b, 1) <==> before == 1) && (IsPhase(b, 2) <==> before == 2);
    assert (IsPhase(b, 3) <==> before == 3) && (IsPhase(b, 4) <==> before == 4) && (IsPhase(b, 5) <==> before == 5);
    assert IsPhase(b, 6) <==> before == 6;
    hide UpToPoint, IsDecimal, IsWhole, UpToLetter, HasExponent;
    WholeMore(b, c);
    DecimalMore(b, c);
    LetterMore(b, c);
    ExponentMore(b, c);
  }

  // The state after a word says how far a number has been read.
  lemma {:induction false} NumberReach(w: string, phase: int)
    requires Clean(w) && 0 <= phase <= 6
    ensures IsPhase(Body(w), phase) <==> Phase(Reach(w)) == phase
  {
    hide YyEc, Delta, Reach, Class, NextPhase, IsPhase;
    StartIsFirst();
    if w == "" {
      NothingRead(phase);
    } else {
      var p, c := w[..|w| - 1], w[|w| - 1];
      assert w == p + [c];
      ReachMore(p, c);
      StartOnly(p);
      if p == "" && c == '-' {
        NumberClass(c);
        FirstOfNumber();
        NothingRead(phase);
        assert Body(w) == "";
      } else {
        PhaseMoves(Reach(p), c);
        forall k | 0 <= k <= 6
          ensures IsPhase(Body(p), k) <==> Phase(Reach(p)) == k
        {
          NumberReach(p, k);
        }
        PhaseMore(Body(p), c, Phase(Reach(p)), phase);
        assert Body(w) == Body(p) + [c];
      }
    }
  }

  lemma NothingRead(phase: int)
    ensures IsPhase("", phase) <==> phase == 0
  {
  }

  // The number rule accepts exactly the numbers.
  lemma NumberRule(w: string)
    requires Clean(w)
    ensures Rule(w) == 3 <==> IsNumber(w)
  {
    hide YyAccept, Reach, IsWhole, IsDecimal, HasExponent, Phase, Body;
    NumberStates(Reach(w));
    NumberReach(w, 1);
    NumberReach(w, 3);
    NumberReach(w, 6);
  }

  // ------------------------------------------------------------------------------------ their values

  // What stops the digits of a number.
  predicate Stops(rest: string) { rest == "" || !IsDigit(rest[0]) }

  lemma {:induction false} OneDigitMore(d: string, c: char, rest: string, acc: int)
    requires AllDigits(d) && IsDigit(c) && Stops(rest)
    ensures Digits(d + [c] + rest, acc) == 10 * Digits(d, acc) + Digit(c)
  {
    var t := d + [c] + rest;
    if d == "" {
      assert t[1..] == rest;
    } else {
      assert t[1..] == d[1..] + [c] + rest;
      OneDigitMore(d[1..], c, rest, 10 * acc + Digit(d[0]));
    }
  }

  // The digits of n are read as n.
  lemma {:induction false} NatTextRead(n: nat, rest: string)
    requires Stops(rest)
    ensures Digits(NatText(n) + rest, 0) == n
  {
    NatTextDigits(n);
    var c := DigitChar(n % 10);
    if n < 10 {
      OneDigitMore("", c, rest, 0);
      assert NatText(n) == "" + [c];
    } else {
      NatTextRead(n / 10, "");
      NatTextDigits(n / 10);
      assert NatText(n / 10) + "" == NatText(n / 10);
      OneDigitMore(NatText(n / 10), c, rest, 0);
    }
  }

  lemma {:induction false} ZerosRead(z: nat, t: string)
    ensures Digits(Repeat('0', z) + t, 0) == Digits(t, 0)
  {
    if z > 0 {
      assert (Repeat('0', z) + t)[1..] == Repeat('0', z - 1) + t;
      ZerosRead(z - 1, t);
    } else {
      assert Repeat('0', z) + t == t;
    }
  }

  // The digits before anything else write n, with zeros in front.
  ghost predicate Writes(b: string, z: nat, n: nat, rest: string)
  {
    b == Repeat('0', z) + NatText(n) + rest && Stops(rest)
  }

  // The value of a number is that of its digits up to the point, negative after a minus sign; without digits before
  // the point it is 0.
  ghost predicate HasValue(w: string, v: int)
  {
    if Stops(Body(w)) then v == 0
    else exists z: nat, n: nat, rest :: Writes(Body(w), z, n, rest) && v == if w[0] == '-' then 0 - n else n
  }

  lemma ValueIsRead(w: string, z: nat, n: nat, rest: string)
    requires w != "" && Writes(Body(w), z, n, rest)
    ensures Atoi(w) == if w[0] == '-' then 0 - n else n
  {
    hide Repeat;
    ZerosRead(z, NatText(n) + rest);
    NatTextRead(n, rest);
    assert Repeat('0', z) + NatText(n) + rest == Repeat('0', z) + (NatText(n) + rest);
  }

  // A number has one value, and its token holds that value.
  lemma NumberTokens(w: string, v: int, pathError: string -> int)
    requires Clean(w) && Rule(w) == 3
    ensures HasValue(w, v) <==> TokenOf(Lexeme(Rule(w), w), pathError) == Token(KIND_NUMBER, Obj(Int(v)))
  {
    hide Rule, Repeat;
    NotEmpty(w);
    var b := Body(w);
    if !Stops(b) {
      var z, n, rest := DigitsWrite(b);
      ValueIsRead(w, z, n, rest);
      if HasValue(w, v) {
        var z1: nat, n1: nat, rest1 :| Writes(b, z1, n1, rest1) && v == if w[0] == '-' then 0 - n1 else n1;
        ValueIsRead(w, z1, n1, rest1);
      }
    }
  }

  lemma NotEmpty(w: string)
    requires Rule(w) == 3
    ensures w != ""
  {
  }

  // Digits that do not start with a superfluous zero are those of some number.
  lemma {:induction false} DigitsAreText(d: string) returns (n: nat)
    requires d != "" && AllDigits(d) && (|d| > 1 ==> d[0] != '0')
    ensures d == NatText(n) && (d[0] != '0' ==> n > 0)
  {
    var c := d[|d| - 1];
    assert d == d[..|d| - 1] + [c] && c == DigitChar(Digit(c));
    if |d| == 1 {
      n := Digit(c);
    } else {
      var m := DigitsAreText(d[..|d| - 1]);
      n := 10 * m + Digit(c);
    }
  }

  // How many digits a text starts with.
  function Run(b: string): (k: nat)
    ensures k <= |b| && AllDigits(b[..k]) && Stops(b[k..])
  {
    if Stops(b) then 0 else
      assert forall i :: 0 < i <= Run(b[1..]) ==> b[i] == b[1..][i - 1];
      1 + Run(b[1..])
  }

  lemma {:induction false} DigitsWrite(b: string) returns (z: nat, n: nat, rest: string)
    requires !Stops(b)
    ensures Writes(b, z, n, rest)
  {
    if b[0] == '0' && !Stops(b[1..]) {
      z, n, rest := DigitsWrite(b[1..]);
      z := z + 1;
    } else {
      var k := Run(b);
      assert k > 0;
      assert k > 1 ==> !Stops(b[1..]) by { if k > 1 { assert IsDigit(b[..k][1]); } }
      z, rest := 0, b[k..];
      n := DigitsAreText(b[..k]);
      assert b == Repeat('0', 0) + b[..k] + rest;
    }
  }
}
