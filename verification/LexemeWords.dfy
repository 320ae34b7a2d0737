// Keywords and punctuation: the spelling of each token that has one, and that nothing else is scanned as that token.
module LexemeWords {
  import opened ScannerTables
  import opened ScannerMoves
  import opened PathGrammar
  import opened PathScanner

  // The kinds of token that have one spelling.
  predicate HasSpelling(kind: int)
  {
    7 <= kind <= 34 && kind != 27
  }

  function Spelling(kind: int): string
    requires HasSpelling(kind)
  {
    match kind
    case 7 => "(" case 8 => ")" case 9 => ":" case 10 => "," case 11 => "/"
    case 12 => "min" case 13 => "max" case 14 => "sum" case 15 => "count" case 16 => "interval" case 17 => "avg"
    case 18 => "extract" case 19 => "timezone"
    case 20 => "year" case 21 => "quarter" case 22 => "month" case 23 => "week" case 24 => "yday" case 25 => "mday"
    case 26 => "wday" case 28 => "hour" case 29 => "sec" case 30 => "msec" case 31 => "usec"
    case 32 => "order_asc" case 33 => "order_desc"
    case _ => "group_by"
  }

  // The state that accepts it.
  function Final(kind: int): int
    requires HasSpelling(kind)
  {
    match kind
    case 7 => 9 case 8 => 10 case 9 => 16 case 10 => 11 case 11 => 14
    case 12 => 81 case 13 => 79 case 14 => 87 case 15 => 115 case 16 => 145 case 17 => 72
    case 18 => 133 case 19 => 148
    case 20 => 113 case 21 => 139 case 22 => 120 case 23 => 111 case 24 => 112 case 25 => 103
    case 26 => 110 case 28 => 101 case 29 => 86 case 30 => 105 case 31 => 109
    case 32 => 153 case 33 => 158
    case _ => 143
  }

  lemma AloneInClass(ch: char, c: char)
    requires 1 <= ch as int <= 255 && Alone(c) && YyEc(c as int) == Class(ch)
    ensures ch == c
  {
  }

  lemma AloneIsClean(c: char)
    requires Alone(c)
    ensures 1 <= c as int <= 255 && 1 <= YyEc(c as int) == Class(c) <= 43
  {
  }

  // The first n characters of w are the word that leads to state t.
  predicate Reads(t: int, w: string, n: nat)
    requires n <= |w|
    decreases n
  {
    if n == 0 then t == 1 else Trie(t) && w[n - 1] == Letter(t) && Reads(Before(t), w, n - 1)
  }

  lemma StartIsFirst()
    ensures Reach("") == 1
  {
  }

  // A word leads to its state.
  lemma {:induction false} WordLeads(t: int, w: string, n: nat)
    requires n <= |w| && Reads(t, w, n)
    ensures Clean(w[..n]) && Reach(w[..n]) == t
    decreases n
  {
    hide YyNxt, YyChk, YyBase, YyDef, YyMeta, YyEc, Delta, Reach, Before, Letter, Trie, Entry, Class, Alone;
    StartIsFirst();
    if n == 0 {
      assert w[..n] == "";
    } else {
      TrieRange(t);
      Leads(t);
      var p, c := w[..n - 1], w[n - 1];
      assert w[..n] == p + [c];
      WordLeads(Before(t), w, n - 1);
      AloneIsClean(c);
      ReachMore(p, c);
      DeltaUnfolds(Before(t), Class(c));
    }
  }

  // Nothing else leads there.
  lemma {:induction false} OnlyWord(w: string, n: nat)
    requires n <= |w| && Clean(w) && (n == 0 || Trie(Reach(w[..n])))
    ensures Reads(Reach(w[..n]), w, n)
    decreases n
  {
    hide YyNxt, YyChk, YyBase, YyDef, YyMeta, YyEc, Delta, Reach, Before, Letter, Trie, Entry, Class, Alone;
    StartIsFirst();
    if n == 0 {
      assert w[..n] == "";
    } else {
      var t, p, c := Reach(w[..n]), w[..n - 1], w[n - 1];
      TrieRange(t);
      assert w[..n] == p + [c];
      ReachMore(p, c);
      ClassPositive(c);
      StartOnly(p);
      OneMove(Reach(p), Class(c));
      AloneInClass(c, Letter(t));
      BeforeTrie(t);
      if n > 1 { StartOnly(p); }
      OnlyWord(w, n - 1);
    }
  }

  lemma {:induction false} OneWord(t: int, w: string, m: nat, v: string, n: nat)
    requires m <= |w| && n <= |v| && Reads(t, w, m) && Reads(t, v, n)
    ensures w[..m] == v[..n]
    decreases m
  {
    hide Before, Letter, Trie;
    TrieRange(t);
    if m > 0 && n > 0 {
      OneWord(Before(t), w, m - 1, v, n - 1);
      assert w[..m] == w[..m - 1] + [w[m - 1]] && v[..n] == v[..n - 1] + [v[n - 1]];
    }
  }

  // Exactly its word leads to such a state.
  lemma LeadsThere(w: string, t: int, v: string)
    requires Clean(w) && Trie(t) && Reads(t, v, |v|)
    ensures Reach(w) == t <==> w == v
  {
    hide Reach, Trie, Reads;
    assert w[..|w|] == w && v[..|v|] == v;
    WordLeads(t, v, |v|);
    if Reach(w) == t {
      OnlyWord(w, |w|);
      OneWord(t, w, |w|, v, |v|);
    }
  }

  lemma ClassPositive(c: char)
    requires 1 <= c as int <= 255
    ensures 1 <= Class(c) <= 43
  {
    hide YyEc;
    ClassInRange(c as int);
  }

  // Only the empty text leads to the start state, and none to the other start state.
  lemma StartOnly(w: string)
    requires Clean(w)
    ensures Reach(w) == 1 <==> w == ""
    ensures Reach(w) != 2
  {
    hide Delta, Class;
    if w != "" { DeltaRange(Reach(w[..|w| - 1]), Class(w[|w| - 1])); }
  }

  // ------------------------------------------------------------------------------------ spellings

  // The word that leads to the accepting state of a kind is its spelling.
  predicate IsSpelled(kind: int)
  {
    HasSpelling(kind) && Reads(Final(kind), Spelling(kind), |Spelling(kind)|)
  }

  lemma NothingRead(w: string)
    ensures Reads(1, w, 0)
  {
  }

  lemma Step(p: int, t: int, w: string, n: nat)
    requires 0 < n <= |w| && Reads(p, w, n - 1)
    requires Trie(t) && Before(t) == p && Letter(t) == w[n - 1]
    ensures Reads(t, w, n)
  {
  }

  lemma OrderRead(w: string)
    requires "order_" <= w
    ensures Reads(129, w, 6)
  {
    hide Reads;
    assert forall i :: 0 <= i < 6 ==> w[i] == "order_"[i];
    NothingRead(w); Step(1, 24, w, 1); Step(24, 54, w, 2); Step(54, 84, w, 3); Step(84, 106, w, 4);
    Step(106, 121, w, 5); Step(121, 129, w, 6);
  }

  lemma Spelled7()
    ensures IsSpelled(7)
  {
    hide Reads;
    var w := "(";
    NothingRead(w); Step(1, 9, w, 1);
  }

  lemma Spelled8()
    ensures IsSpelled(8)
  {
    hide Reads;
    var w := ")";
    NothingRead(w); Step(1, 10, w, 1);
  }

  lemma Spelled9()
    ensures IsSpelled(9)
  {
    hide Reads;
    var w := ":";
    NothingRead(w); Step(1, 16, w, 1);
  }

  lemma Spelled10()
    ensures IsSpelled(10)
  {
    hide Reads;
    var w := ",";
    NothingRead(w); Step(1, 11, w, 1);
  }

  lemma Spelled11()
    ensures IsSpelled(11)
  {
    hide Reads;
    var w := "/";
    NothingRead(w); Step(1, 14, w, 1);
  }

  lemma Spelled12()
    ensures IsSpelled(12)
  {
    hide Reads;
    var w := "min";
    NothingRead(w); Step(1, 23, w, 1); Step(23, 51, w, 2); Step(51, 81, w, 3);
  }

  lemma Spelled13()
    ensures IsSpelled(13)
  {
    hide Reads;
    var w := "max";
    NothingRead(w); Step(1, 23, w, 1); Step(23, 49, w, 2); Step(49, 79, w, 3);
  }

  lemma Spelled14()
    ensures IsSpelled(14)
  {
    hide Reads;
    var w := "sum";
    NothingRead(w); Step(1, 26, w, 1); Step(26, 57, w, 2); Step(57, 87, w, 3);
  }

  lemma Spelled15()
    ensures IsSpelled(15)
  {
    hide Reads;
    var w := "count";
    NothingRead(w); Step(1, 18, w, 1); Step(18, 43, w, 2); Step(43, 73, w, 3); Step(73, 97, w, 4); Step(97, 115, w, 5);
  }

  lemma Spelled16()
    ensures IsSpelled(16)
  {
    hide Reads;
    var w := "interval";
    NothingRead(w); Step(1, 22, w, 1); Step(22, 48, w, 2); Step(48, 78, w, 3); Step(78, 102, w, 4);
    Step(102, 119, w, 5); Step(119, 128, w, 6); Step(128, 136, w, 7); Step(136, 145, w, 8);
  }

  lemma Spelled17()
    ensures IsSpelled(17)
  {
    hide Reads;
    var w := "avg";
    NothingRead(w); Step(1, 17, w, 1); Step(17, 42, w, 2); Step(42, 72, w, 3);
  }

  lemma Spelled18()
    ensures IsSpelled(18)
  {
    hide Reads;
    var w := "extract";
    NothingRead(w); Step(1, 19, w, 1); Step(19, 44, w, 2); Step(44, 74, w, 3); Step(74, 98, w, 4); Step(98, 116, w, 5);
    Step(116, 125, w, 6); Step(125, 133, w, 7);
  }

  lemma Spelled19()
    ensures IsSpelled(19)
  {
    hide Reads;
    var w := "timezone";
    NothingRead(w); Step(1, 27, w, 1); Step(27, 58, w, 2); Step(58, 88, w, 3); Step(88, 108, w, 4);
    Step(108, 123, w, 5); Step(123, 131, w, 6); Step(131, 140, w, 7); Step(140, 148, w, 8);
  }

  lemma Spelled20()
    ensures IsSpelled(20)
  {
    hide Reads;
    var w := "year";
    NothingRead(w); Step(1, 30, w, 1); Step(30, 63, w, 2); Step(63, 93, w, 3); Step(93, 113, w, 4);
  }

  lemma Spelled21()
    ensures IsSpelled(21)
  {
    hide Reads;
    var w := "quarter";
    NothingRead(w); Step(1, 25, w, 1); Step(25, 55, w, 2); Step(55, 85, w, 3); Step(85, 107, w, 4);
    Step(107, 122, w, 5); Step(122, 130, w, 6); Step(130, 139, w, 7);
  }

  lemma Spelled22()
    ensures IsSpelled(22)
  {
    hide Reads;
    var w := "month";
    NothingRead(w); Step(1, 23, w, 1); Step(23, 52, w, 2); Step(52, 82, w, 3); Step(82, 104, w, 4);
    Step(104, 120, w, 5);
  }

  lemma Spelled23()
    ensures IsSpelled(23)
  {
    hide Reads;
    var w := "week";
    NothingRead(w); Step(1, 29, w, 1); Step(29, 61, w, 2); Step(61, 91, w, 3); Step(91, 111, w, 4);
  }

  lemma Spelled24()
    ensures IsSpelled(24)
  {
    hide Reads;
    var w := "yday";
    NothingRead(w); Step(1, 30, w, 1); Step(30, 62, w, 2); Step(62, 92, w, 3); Step(92, 112, w, 4);
  }

  lemma Spelled25()
    ensures IsSpelled(25)
  {
    hide Reads;
    var w := "mday";
    NothingRead(w); Step(1, 23, w, 1); Step(23, 50, w, 2); Step(50, 80, w, 3); Step(80, 103, w, 4);
  }

  lemma Spelled26()
    ensures IsSpelled(26)
  {
    hide Reads;
    var w := "wday";
    NothingRead(w); Step(1, 29, w, 1); Step(29, 60, w, 2); Step(60, 90, w, 3); Step(90, 110, w, 4);
  }

  lemma Spelled28()
    ensures IsSpelled(28)
  {
    hide Reads;
    var w := "hour";
    NothingRead(w); Step(1, 21, w, 1); Step(21, 47, w, 2); Step(47, 77, w, 3); Step(77, 101, w, 4);
  }

  lemma Spelled29()
    ensures IsSpelled(29)
  {
    hide Reads;
    var w := "sec";
    NothingRead(w); Step(1, 26, w, 1); Step(26, 56, w, 2); Step(56, 86, w, 3);
  }

  lemma Spelled30()
    ensures IsSpelled(30)
  {
    hide Reads;
    var w := "msec";
    NothingRead(w); Step(1, 23, w, 1); Step(23, 53, w, 2); Step(53, 83, w, 3); Step(83, 105, w, 4);
  }

  lemma Spelled31()
    ensures IsSpelled(31)
  {
    hide Reads;
    var w := "usec";
    NothingRead(w); Step(1, 28, w, 1); Step(28, 59, w, 2); Step(59, 89, w, 3); Step(89, 109, w, 4);
  }

  lemma Spelled32()
    ensures IsSpelled(32)
  {
    hide Reads;
    var w := "order_asc";
    OrderRead(w); Step(129, 137, w, 7); Step(137, 146, w, 8); Step(146, 153, w, 9);
  }

  lemma Spelled33()
    ensures IsSpelled(33)
  {
    hide Reads;
    var w := "order_desc";
    OrderRead(w); Step(129, 138, w, 7); Step(138, 147, w, 8); Step(147, 154, w, 9); Step(154, 158, w, 10);
  }

  lemma Spelled34()
    ensures IsSpelled(34)
  {
    hide Reads;
    var w := "group_by";
    NothingRead(w); Step(1, 20, w, 1); Step(20, 45, w, 2); Step(45, 75, w, 3); Step(75, 99, w, 4); Step(99, 117, w, 5);
    Step(117, 126, w, 6); Step(126, 134, w, 7); Step(134, 143, w, 8);
  }

  lemma AllSpelled(kind: int)
    requires HasSpelling(kind)
    ensures IsSpelled(kind)
  {
    hide IsSpelled;
    Spelled7(); Spelled8(); Spelled9(); Spelled10(); Spelled11(); Spelled12();
    Spelled13(); Spelled14(); Spelled15(); Spelled16(); Spelled17(); Spelled18();
    Spelled19(); Spelled20(); Spelled21(); Spelled22(); Spelled23(); Spelled24();
    Spelled25(); Spelled26(); Spelled28(); Spelled29(); Spelled30(); Spelled31();
    Spelled32(); Spelled33(); Spelled34();
  }

  lemma FinalIsTrie(kind: int)
    requires HasSpelling(kind)
    ensures Trie(Final(kind)) && Final(kind) != 1
  {
  }

  // The accepting state of a kind accepts the rule of that kind,
  lemma FinalAccepts(kind: int)
    requires HasSpelling(kind)
    ensures var r := YyAccept(Final(kind));
            4 <= r <= 31 && r != 26 && PlainKind(r) == kind
  {
  }

  // and no other state does.
  lemma OnlyFinalAccepts(s: int)
    requires HasSpelling(PlainKind(YyAccept(s)))
    ensures s == Final(PlainKind(YyAccept(s)))
  {
  }

  // A lexeme is of a kind with a spelling exactly when it is that spelling, and its token has no value.
  lemma SpellingTokens(w: string, kind: int, pathError: string -> int)
    requires Clean(w) && HasSpelling(kind)
    ensures TokenOf(Lexeme(Rule(w), w), pathError).kind == kind <==> w == Spelling(kind)
    ensures w == Spelling(kind) ==>
            !Skipped(Rule(w)) && TokenOf(Lexeme(Rule(w), w), pathError) == Token(kind, NoValue)
  {
    hide YyAccept, Reach, Trie, Reads, Final, Spelling;
    AllSpelled(kind);
    FinalAccepts(kind);
    if PlainKind(Rule(w)) == kind { OnlyFinalAccepts(Reach(w)); }
    FinalIsTrie(kind);
    LeadsThere(w, Final(kind), Spelling(kind));
    hide HasSpelling, Skipped;
  }

  // ------------------------------------------------------------------------------------ what no other rule takes

  lemma OtherEntries(i: int)
    requires 44 <= i <= 277
    ensures YyAccept(YyNxt(i)) != 33
  {
  }

  lemma StartEntries(i: int)
    requires 1 <= i <= 43
    ensures YyChk(i) == 1
  {
  }

  lemma OtherMoves(s: int, c: int)
    requires IsState(s) && s != 2 && 1 <= c <= 43 && YyAccept(Delta(s, c)) == 33
    ensures s == 1
  {
    hide YyNxt, YyChk, YyBase, YyDef, YyMeta, YyAccept, Delta;
    DefaultRole(s);
    InBounds(s, c);
    DeltaUnfolds(s, c);
    JamStays(c);
    AcceptRange(160);
    var i, d, m := YyBase(s) + c, YyDef(s), YyMeta(c);
    MetaOfClass(c);
    if s != 160 && YyChk(i) != s && d != 160 {
      i := YyBase(d) + m;
      InBounds(d, m);
      DeltaUnfolds(d, m);
      TemplateDefault(d);
      JamStays(m);
    }
    if s != 160 {
      ChkPositive(i);
      if i >= 44 { OtherEntries(i); } else if i >= 1 { StartEntries(i); }
    }
  }

  // The last rule accepts only single characters, and every single character is accepted by some rule: it accepts
  // those which no other rule does.
  lemma OtherRule(w: string)
    requires Clean(w)
    ensures Rule(w) == 33 ==> |w| == 1
    ensures |w| == 1 ==> 1 <= Rule(w) <= 33
  {
    hide YyAccept, Reach, Delta, Class;
    StartIsFirst();
    StartAccepts();
    if w != "" {
      var p, c := w[..|w| - 1], w[|w| - 1];
      assert w == p + [c];
      ReachMore(p, c);
      ClassPositive(c);
      StartOnly(p);
      if Rule(w) == 33 { OtherMoves(Reach(p), Class(c)); }
      if |w| == 1 { FirstAccepts(Class(c)); }
    }
  }

  lemma StartAccepts()
    ensures YyAccept(1) == 0
  {
  }
}
