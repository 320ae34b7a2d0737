// Which moves of the scanner's automaton lead where: its tables, read backwards.
module ScannerMoves {
  import opened ScannerTables

  // ------------------------------------------------------------------------------------ states that spell one word

  function Before0(t: int): int
  {
    match t
    case 9 => 1 case 10 => 1 case 11 => 1 case 14 => 1 case 16 => 1 case 17 => 1 case 18 => 1 case 19 => 1
    case 20 => 1 case 21 => 1 case 22 => 1 case 23 => 1 case 24 => 1 case 25 => 1 case 26 => 1 case 27 => 1
    case 28 => 1 case 29 => 1 case 30 => 1
    case _ => 0
  }

  function Before40(t: int): int
  {
    match t
    case 41 => 17 case 42 => 17 case 43 => 18 case 44 => 19 case 45 => 20 case 46 => 21 case 47 => 21 case 48 => 22
    case 49 => 23 case 50 => 23 case 51 => 23 case 52 => 23 case 53 => 23 case 54 => 24 case 55 => 25 case 56 => 26
    case 57 => 26 case 58 => 27 case 59 => 28 case 60 => 29 case 61 => 29 case 62 => 30 case 63 => 30
    case _ => 0
  }

  function Before64(t: int): int
  {
    match t
    case 71 => 41 case 72 => 42 case 73 => 43 case 74 => 44 case 75 => 45 case 76 => 46 case 77 => 47 case 78 => 48
    case 79 => 49 case 80 => 50 case 81 => 51 case 82 => 52 case 83 => 53 case 84 => 54 case 85 => 55 case 86 => 56
    case 87 => 57 case 88 => 58 case 89 => 59
    case _ => 0
  }

  function Before90(t: int): int
  {
    match t
    case 90 => 60 case 91 => 61 case 92 => 62 case 93 => 63 case 96 => 71 case 97 => 73 case 98 => 74 case 99 => 75
    case 100 => 76 case 101 => 77 case 102 => 78 case 103 => 80 case 104 => 82 case 105 => 83 case 106 => 84
    case 107 => 85 case 108 => 88 case 109 => 89 case 110 => 90 case 111 => 91 case 112 => 92 case 113 => 93
    case 115 => 97 case 116 => 98 case 117 => 99 case 118 => 100 case 119 => 102
    case _ => 0
  }

  function Before120(t: int): int
  {
    match t
    case 120 => 104 case 121 => 106 case 122 => 107 case 123 => 108 case 125 => 116 case 126 => 117 case 127 => 118
    case 128 => 119 case 129 => 121 case 130 => 122 case 131 => 123 case 133 => 125 case 134 => 126 case 135 => 127
    case 136 => 128 case 137 => 129 case 138 => 129 case 139 => 130 case 140 => 131 case 143 => 134 case 144 => 135
    case 145 => 136 case 146 => 137 case 147 => 138 case 148 => 140 case 153 => 146 case 154 => 147 case 158 => 154
    case _ => 0
  }

  // The only state before a state that one word leads to; 0 for other states.
  function Before(t: int): int
  {
    if t < 40 then Before0(t)
    else if t < 64 then Before40(t)
    else if t < 90 then Before64(t)
    else if t < 120 then Before90(t)
    else Before120(t)
  }

  function Letter0(t: int): char
  {
    match t
    case 9 => '(' case 10 => ')' case 11 => ',' case 14 => '/' case 16 => ':' case 17 => 'a' case 18 => 'c'
    case 19 => 'e' case 20 => 'g' case 21 => 'h' case 22 => 'i' case 23 => 'm' case 24 => 'o' case 25 => 'q'
    case 26 => 's' case 27 => 't' case 28 => 'u' case 29 => 'w' case 30 => 'y'
    case _ => ' '
  }

  function Letter40(t: int): char
  {
    match t
    case 41 => 'l' case 42 => 'v' case 43 => 'o' case 44 => 'x' case 45 => 'r' case 46 => 'e' case 47 => 'o'
    case 48 => 'n' case 49 => 'a' case 50 => 'd' case 51 => 'i' case 52 => 'o' case 53 => 's' case 54 => 'r'
    case 55 => 'u' case 56 => 'e' case 57 => 'u' case 58 => 'i' case 59 => 's' case 60 => 'd' case 61 => 'e'
    case 62 => 'd' case 63 => 'e'
    case _ => ' '
  }

  function Letter64(t: int): char
  {
    match t
    case 71 => 'e' case 72 => 'g' case 73 => 'u' case 74 => 't' case 75 => 'o' case 76 => 'a' case 77 => 'u'
    case 78 => 't' case 79 => 'x' case 80 => 'a' case 81 => 'n' case 82 => 'n' case 83 => 'e' case 84 => 'd'
    case 85 => 'a' case 86 => 'c' case 87 => 'm' case 88 => 'm' case 89 => 'e'
    case _ => ' '
  }

  function Letter90(t: int): char
  {
    match t
    case 90 => 'a' case 91 => 'e' case 92 => 'a' case 93 => 'a' case 96 => 'r' case 97 => 'n' case 98 => 'r'
    case 99 => 'u' case 100 => 'r' case 101 => 'r' case 102 => 'e' case 103 => 'y' case 104 => 't' case 105 => 'c'
    case 106 => 'e' case 107 => 'r' case 108 => 'e' case 109 => 'c' case 110 => 'y' case 111 => 'k' case 112 => 'y'
    case 113 => 'r' case 115 => 't' case 116 => 'a' case 117 => 'p' case 118 => 't' case 119 => 'r'
    case _ => ' '
  }

  function Letter120(t: int): char
  {
    match t
    case 120 => 'h' case 121 => 'r' case 122 => 't' case 123 => 'z' case 125 => 'c' case 126 => '_' case 127 => 'b'
    case 128 => 'v' case 129 => '_' case 130 => 'e' case 131 => 'o' case 133 => 't' case 134 => 'b' case 135 => 'e'
    case 136 => 'a' case 137 => 'a' case 138 => 'd' case 139 => 'r' case 140 => 'n' case 143 => 'y' case 144 => 'a'
    case 145 => 'l' case 146 => 's' case 147 => 'e' case 148 => 'e' case 153 => 'c' case 154 => 's' case 158 => 'c'
    case _ => ' '
  }

  // The only character that leads from there.
  function Letter(t: int): char
  {
    if t < 40 then Letter0(t)
    else if t < 64 then Letter40(t)
    else if t < 90 then Letter64(t)
    else if t < 120 then Letter90(t)
    else Letter120(t)
  }

  function Entry0(t: int): int
  {
    match t
    case 9 => 6 case 10 => 7 case 11 => 10 case 14 => 13 case 16 => 15 case 17 => 20 case 18 => 22 case 19 => 24
    case 20 => 25 case 21 => 26 case 22 => 27 case 23 => 30 case 24 => 32 case 25 => 34 case 26 => 36 case 27 => 37
    case 28 => 38 case 29 => 40 case 30 => 42
    case _ => 0
  }

  function Entry40(t: int): int
  {
    match t
    case 41 => 55 case 42 => 65 case 43 => 231 case 44 => 230 case 45 => 229 case 46 => 53 case 47 => 61
    case 48 => 228 case 49 => 57 case 50 => 60 case 51 => 64 case 52 => 69 case 53 => 73 case 54 => 227 case 55 => 226
    case 56 => 56 case 57 => 70 case 58 => 225 case 59 => 224 case 60 => 58 case 61 => 59 case 62 => 66 case 63 => 67
    case _ => 0
  }

  function Entry64(t: int): int
  {
    match t
    case 71 => 222 case 72 => 221 case 73 => 220 case 74 => 219 case 75 => 218 case 76 => 217 case 77 => 216
    case 78 => 215 case 79 => 214 case 80 => 213 case 81 => 212 case 82 => 211 case 83 => 210 case 84 => 209
    case 85 => 208 case 86 => 207 case 87 => 206 case 88 => 205 case 89 => 204
    case _ => 0
  }

  function Entry90(t: int): int
  {
    match t
    case 90 => 203 case 91 => 202 case 92 => 201 case 93 => 200 case 96 => 199 case 97 => 198 case 98 => 197
    case 99 => 196 case 100 => 195 case 101 => 194 case 102 => 193 case 103 => 192 case 104 => 191 case 105 => 190
    case 106 => 189 case 107 => 188 case 108 => 187 case 109 => 186 case 110 => 185 case 111 => 184 case 112 => 183
    case 113 => 182 case 115 => 178 case 116 => 177 case 117 => 176 case 118 => 175 case 119 => 174
    case _ => 0
  }

  function Entry120(t: int): int
  {
    match t
    case 120 => 173 case 121 => 172 case 122 => 171 case 123 => 170 case 125 => 168 case 126 => 167 case 127 => 166
    case 128 => 165 case 129 => 164 case 130 => 163 case 131 => 162 case 133 => 161 case 134 => 160 case 135 => 159
    case 136 => 158 case 137 => 104 case 138 => 107 case 139 => 157 case 140 => 156 case 143 => 155 case 144 => 154
    case 145 => 153 case 146 => 152 case 147 => 151 case 148 => 150 case 153 => 143 case 154 => 124 case 158 => 123
    case _ => 0
  }

  // Where the tables say so.
  function Entry(t: int): int
  {
    if t < 40 then Entry0(t)
    else if t < 64 then Entry40(t)
    else if t < 90 then Entry64(t)
    else if t < 120 then Entry90(t)
    else Entry120(t)
  }

  predicate Trie(t: int) { Before(t) != 0 }

  // The characters that are alone in their class.
  predicate Alone(c: char) { c in "(),/:_" || ('a' <= c <= 'z' && c != 'f' && c != 'j') }

  lemma TrieRange(t: int)
    ensures Trie(t) ==> 9 <= t <= 158 && 1 <= Before(t) < t && Alone(Letter(t))
    ensures !Trie(1) && !Trie(160)
  {
  }

  lemma BeforeTrie(t: int)
    requires Trie(t)
    ensures Before(t) == 1 || Trie(Before(t))
  {
  }

  lemma Leads0(t: int)
    requires Trie(t) && 0 <= t < 40
    ensures YyNxt(Entry(t)) == t && YyChk(Entry(t)) == Before(t)
  {
  }

  lemma Leads40(t: int)
    requires Trie(t) && 40 <= t < 52
    ensures YyNxt(Entry(t)) == t && YyChk(Entry(t)) == Before(t)
  {
  }

  lemma Leads52(t: int)
    requires Trie(t) && 52 <= t < 64
    ensures YyNxt(Entry(t)) == t && YyChk(Entry(t)) == Before(t)
  {
  }

  lemma Leads64(t: int)
    requires Trie(t) && 64 <= t < 90
    ensures YyNxt(Entry(t)) == t && YyChk(Entry(t)) == Before(t)
  {
  }

  lemma Leads90(t: int)
    requires Trie(t) && 90 <= t < 120
    ensures YyNxt(Entry(t)) == t && YyChk(Entry(t)) == Before(t)
  {
  }

  lemma Leads120(t: int)
    requires Trie(t) && 120 <= t < 140
    ensures YyNxt(Entry(t)) == t && YyChk(Entry(t)) == Before(t)
  {
  }

  lemma Leads140(t: int)
    requires Trie(t) && 140 <= t < 161
    ensures YyNxt(Entry(t)) == t && YyChk(Entry(t)) == Before(t)
  {
  }

  lemma Entered0(t: int)
    requires Trie(t) && 0 <= t < 40
    ensures Entry(t) == YyBase(Before(t)) + YyEc(Letter(t) as int) && 1 <= Entry(t) <= 277
  {
  }

  lemma Entered40(t: int)
    requires Trie(t) && 40 <= t < 64
    ensures Entry(t) == YyBase(Before(t)) + YyEc(Letter(t) as int) && 1 <= Entry(t) <= 277
  {
  }

  lemma Entered64(t: int)
    requires Trie(t) && 64 <= t < 90
    ensures Entry(t) == YyBase(Before(t)) + YyEc(Letter(t) as int) && 1 <= Entry(t) <= 277
  {
  }

  lemma Entered90(t: int)
    requires Trie(t) && 90 <= t < 120
    ensures Entry(t) == YyBase(Before(t)) + YyEc(Letter(t) as int) && 1 <= Entry(t) <= 277
  {
  }

  lemma Entered120(t: int)
    requires Trie(t) && 120 <= t < 161
    ensures Entry(t) == YyBase(Before(t)) + YyEc(Letter(t) as int) && 1 <= Entry(t) <= 277
  {
  }

  // The entry for that character leads there.
  lemma Leads(t: int)
    requires Trie(t)
    ensures YyNxt(Entry(t)) == t && YyChk(Entry(t)) == Before(t)
    ensures Entry(t) == YyBase(Before(t)) + YyEc(Letter(t) as int)
  {
    hide YyNxt, YyChk, YyBase, YyEc, Entry, Letter;
    TrieRange(t);
    hide Trie, Before;
    if t < 40 { Leads0(t); }
    else if t < 52 { Leads40(t); }
    else if t < 64 { Leads52(t); }
    else if t < 90 { Leads64(t); }
    else if t < 120 { Leads90(t); }
    else if t < 140 { Leads120(t); }
    else { Leads140(t); }
    if t < 40 { Entered0(t); }
    else if t < 64 { Entered40(t); }
    else if t < 90 { Entered64(t); }
    else if t < 120 { Entered90(t); }
    else { Entered120(t); }
  }

  lemma Only1(i: int)
    requires 1 <= i < 35 && Trie(YyNxt(i))
    ensures i == Entry(YyNxt(i))
  {
  }

  lemma Only35(i: int)
    requires 35 <= i < 70 && Trie(YyNxt(i))
    ensures i == Entry(YyNxt(i))
  {
  }

  lemma Only70(i: int)
    requires 70 <= i < 105 && Trie(YyNxt(i))
    ensures i == Entry(YyNxt(i))
  {
  }

  lemma Only105(i: int)
    requires 105 <= i < 140 && Trie(YyNxt(i))
    ensures i == Entry(YyNxt(i))
  {
  }

  lemma Only140(i: int)
    requires 140 <= i < 175 && Trie(YyNxt(i))
    ensures i == Entry(YyNxt(i))
  {
  }

  lemma Only175(i: int)
    requires 175 <= i < 210 && Trie(YyNxt(i))
    ensures i == Entry(YyNxt(i))
  {
  }

  lemma Only210(i: int)
    requires 210 <= i < 278 && Trie(YyNxt(i))
    ensures i == Entry(YyNxt(i))
  {
  }

  // No other entry does.
  lemma Only(i: int)
    requires 1 <= i <= 277 && Trie(YyNxt(i))
    ensures i == Entry(YyNxt(i))
  {
    hide YyNxt, YyChk, Entry, Before, Trie;
    if i < 35 { Only1(i); }
    else if i < 70 { Only35(i); }
    else if i < 105 { Only70(i); }
    else if i < 140 { Only105(i); }
    else if i < 175 { Only140(i); }
    else if i < 210 { Only175(i); }
    else { Only210(i); }
  }

  // ------------------------------------------------------------------------------------ the other states

  function Role0(s: int): int
  {
    match s
    case 5 => 5 case 6 => 5 case 7 => 2 case 8 => 3 case 12 => 4 case 13 => 4 case 15 => 4 case 31 => 5 case 32 => 2
    case 33 => 2 case 34 => 2 case 35 => 3 case 36 => 3 case 37 => 3 case 38 => 4 case 39 => 4 case 40 => 4
    case _ => 0
  }

  function Role64(s: int): int
  {
    match s
    case 64 => 2 case 65 => 2 case 66 => 2 case 67 => 3 case 68 => 3 case 69 => 3 case 70 => 4 case 94 => 4
    case 95 => 4
    case _ => 0
  }

  function Role120(s: int): int
  {
    match s
    case 124 => 6 case 132 => 6 case 141 => 6 case 142 => 6 case 149 => 6 case 150 => 6 case 151 => 6 case 152 => 6
    case 155 => 6 case 156 => 6 case 157 => 6 case 159 => 6 case 161 => 2 case 162 => 3 case 163 => 2 case 164 => 3
    case 165 => 6 case 166 => 6 case 167 => 6
    case _ => 0
  }

  // What a state is for: 2 and 3 within a string, by its quote; 4 within a number; 5 white space; 6 within an IDMEF
  // path. Rows above 160 are templates for the states of their role.
  function Role(s: int): int
  {
    if s < 64 then Role0(s)
    else if s < 120 then Role64(s)
    else Role120(s)
  }

  // The entries that lead to a state with a role from a state without it.
  predicate Enters(i: int)
  {
    i == 2 || i == 3 || i == 4 || i == 5 || i == 11 || i == 12 || i == 14 || i == 169
  }

  lemma Roles1(i: int)
    requires 1 <= i < 35 && Role(YyNxt(i)) >= 2
    ensures Role(YyChk(i)) == Role(YyNxt(i)) || Enters(i)
  {
  }

  lemma Roles35(i: int)
    requires 35 <= i < 70 && Role(YyNxt(i)) >= 2
    ensures Role(YyChk(i)) == Role(YyNxt(i)) || Enters(i)
  {
  }

  lemma Roles70(i: int)
    requires 70 <= i < 105 && Role(YyNxt(i)) >= 2
    ensures Role(YyChk(i)) == Role(YyNxt(i)) || Enters(i)
  {
  }

  lemma Roles105(i: int)
    requires 105 <= i < 140 && Role(YyNxt(i)) >= 2
    ensures Role(YyChk(i)) == Role(YyNxt(i)) || Enters(i)
  {
  }

  lemma Roles140(i: int)
    requires 140 <= i < 175 && Role(YyNxt(i)) >= 2
    ensures Role(YyChk(i)) == Role(YyNxt(i)) || Enters(i)
  {
  }

  lemma Roles175(i: int)
    requires 175 <= i < 210 && Role(YyNxt(i)) >= 2
    ensures Role(YyChk(i)) == Role(YyNxt(i)) || Enters(i)
  {
  }

  lemma Roles210(i: int)
    requires 210 <= i < 278 && Role(YyNxt(i)) >= 2
    ensures Role(YyChk(i)) == Role(YyNxt(i)) || Enters(i)
  {
  }

  lemma Roles(i: int)
    requires 1 <= i <= 277 && Role(YyNxt(i)) >= 2
    ensures Role(YyChk(i)) == Role(YyNxt(i)) || Enters(i)
  {
    hide YyNxt, YyChk, Role, Enters;
    if i < 35 { Roles1(i); }
    else if i < 70 { Roles35(i); }
    else if i < 105 { Roles70(i); }
    else if i < 140 { Roles105(i); }
    else if i < 175 { Roles140(i); }
    else if i < 210 { Roles175(i); }
    else { Roles210(i); }
  }

  // ------------------------------------------------------------------------------------ moves

  lemma DefaultRole(s: int)
    requires IsRow(s)
    ensures Role(YyDef(s)) >= 2 ==> Role(YyDef(s)) == Role(s)
    ensures YyDef(s) == 0 || YyDef(s) == 1 || YyDef(s) == 160 || YyDef(s) >= 161
    ensures YyDef(s) == 1 ==> s == 2
    ensures Role(1) == Role(160) == 0
  {
  }

  // The one move to a state that one word leads to.
  lemma OneMove(s: int, c: int)
    requires IsState(s) && s != 2 && IsClass(c) && c != 0 && Trie(Delta(s, c))
    ensures s == Before(Delta(s, c)) && c == YyEc(Letter(Delta(s, c)) as int)
  {
    hide YyNxt, YyChk, YyBase, YyDef, YyMeta, YyEc, Delta, Before, Letter, Entry, Trie;
    var t := Delta(s, c);
    DefaultRole(s);
    InBounds(s, c);
    DeltaUnfolds(s, c);
    JamStays(c);
    TrieRange(t);
    if Trie(t) { Leads(t); }
    if s != 160 && YyChk(YyBase(s) + c) != s {
      var d, m := YyDef(s), YyMeta(c);
      MetaOfClass(c);
      if d == 160 { JamStays(c); assert false; }
      InBounds(d, m);
      DeltaUnfolds(d, m);
      TemplateDefault(d);
      if YyChk(YyBase(d) + m) != d { JamStays(m); assert false; }
      LookedUp(d, m);
      Only(YyBase(d) + m);
      assert false;
    }
    if s != 160 {
      LookedUp(s, c);
      Only(YyBase(s) + c);
    }
  }

  lemma LookedUp(s: int, c: int)
    requires IsRow(s) && IsClass(c) && YyChk(YyBase(s) + c) == s
    ensures 1 <= YyBase(s) + c <= 277
  {
    hide YyNxt, YyBase, YyChk;
    InBounds(s, c);
    ChkPositive(YyBase(s) + c);
  }

  lemma TemplateDefault(s: int)
    requires IsRow(s) && s >= 161
    ensures YyDef(s) == 160
  {
  }

  // A state with a role is entered from a start, or from a state of its role.
  lemma RoleMoves(s: int, c: int)
    requires IsState(s) && s != 2 && IsClass(c) && c != 0 && Role(Delta(s, c)) >= 2
    ensures Role(s) == Role(Delta(s, c)) || (s == 1 && Enters(c)) || (s == 114 && c == 12 && Role(Delta(s, c)) == 6)
  {
    hide YyNxt, YyChk, YyBase, YyDef, YyMeta, Delta, Role, Enters;
    DefaultRole(s);
    InBounds(s, c);
    DeltaUnfolds(s, c);
    JamStays(c);
    Entering(YyBase(s) + c);
    if s != 160 && YyChk(YyBase(s) + c) == s {
      LookedUp(s, c);
      Roles(YyBase(s) + c);
    } else {
      var d, m := YyDef(s), YyMeta(c);
      MetaOfClass(c);
      if d == 160 { JamStays(c); assert false; }
      InBounds(d, m);
      DeltaUnfolds(d, m);
      TemplateDefault(d);
      if YyChk(YyBase(d) + m) != d { JamStays(m); assert false; }
      LookedUp(d, m);
      Roles(YyBase(d) + m);
      Entering(YyBase(d) + m);
    }
  }

  lemma Entering(i: int)
    ensures Enters(i) ==> if i == 169 then YyChk(i) == 114 && Role(YyNxt(i)) == 6 else YyChk(i) == 1
    ensures YyBase(1) == 0 && YyBase(114) == 157
  {
  }

  // ------------------------------------------------------------------------------------ within what is not a word

  lemma MetaRange(c: int)
    requires 1 <= c <= 43
    ensures 1 <= YyMeta(c) <= 4
  {
  }

  lemma Move7(c: int)
    requires 1 <= c <= 43
    ensures Delta(7, c) == if c == 4 then 33 else if c == 18 then 34 else 32
  {
    hide Delta;
    DeltaUnfolds(7, c);
    MetaRange(c);
    DeltaUnfolds(161, YyMeta(c));
  }

  lemma Move32(c: int)
    requires 1 <= c <= 43
    ensures Delta(32, c) == if c == 4 then 33 else if c == 18 then 34 else 32
  {
    hide Delta;
    DeltaUnfolds(32, c);
    MetaRange(c);
    DeltaUnfolds(161, YyMeta(c));
  }

  lemma Move64(c: int)
    requires 1 <= c <= 43
    ensures Delta(64, c) == if c == 4 then 33 else if c == 18 then 34 else 32
  {
    hide Delta;
    DeltaUnfolds(64, c);
    MetaRange(c);
    DeltaUnfolds(161, YyMeta(c));
  }

  lemma Move65(c: int)
    requires 1 <= c <= 43
    ensures Delta(65, c) == if c == 4 then 33 else if c == 18 then 34 else 32
  {
    hide Delta;
    DeltaUnfolds(65, c);
    MetaRange(c);
    DeltaUnfolds(161, YyMeta(c));
  }

  lemma Move34(c: int)
    requires 1 <= c <= 43
    ensures Delta(34, c) == if c == 3 then 32 else if c == 4 then 65 else if c == 18 then 66 else 64
  {
    hide Delta;
    DeltaUnfolds(34, c);
    MetaRange(c);
    DeltaUnfolds(163, YyMeta(c));
  }

  lemma Move66(c: int)
    requires 1 <= c <= 43
    ensures Delta(66, c) == if c == 3 then 32 else if c == 4 then 65 else if c == 18 then 66 else 64
  {
    hide Delta;
    DeltaUnfolds(66, c);
    MetaRange(c);
    DeltaUnfolds(163, YyMeta(c));
  }

  lemma Move8(c: int)
    requires 1 <= c <= 43
    ensures Delta(8, c) == if c == 5 then 36 else if c == 18 then 37 else 35
  {
    hide Delta;
    DeltaUnfolds(8, c);
    MetaRange(c);
    DeltaUnfolds(162, YyMeta(c));
  }

  lemma Move35(c: int)
    requires 1 <= c <= 43
    ensures Delta(35, c) == if c == 5 then 36 else if c == 18 then 37 else 35
  {
    hide Delta;
    DeltaUnfolds(35, c);
    MetaRange(c);
    DeltaUnfolds(162, YyMeta(c));
  }

  lemma Move67(c: int)
    requires 1 <= c <= 43
    ensures Delta(67, c) == if c == 5 then 36 else if c == 18 then 37 else 35
  {
    hide Delta;
    DeltaUnfolds(67, c);
    MetaRange(c);
    DeltaUnfolds(162, YyMeta(c));
  }

  lemma Move68(c: int)
    requires 1 <= c <= 43
    ensures Delta(68, c) == if c == 5 then 36 else if c == 18 then 37 else 35
  {
    hide Delta;
    DeltaUnfolds(68, c);
    MetaRange(c);
    DeltaUnfolds(162, YyMeta(c));
  }

  lemma Move37(c: int)
    requires 1 <= c <= 43
    ensures Delta(37, c) == if c == 3 then 35 else if c == 5 then 68 else if c == 18 then 69 else 67
  {
    hide Delta;
    DeltaUnfolds(37, c);
    MetaRange(c);
    DeltaUnfolds(164, YyMeta(c));
  }

  lemma Move69(c: int)
    requires 1 <= c <= 43
    ensures Delta(69, c) == if c == 3 then 35 else if c == 5 then 68 else if c == 18 then 69 else 67
  {
    hide Delta;
    DeltaUnfolds(69, c);
    MetaRange(c);
    DeltaUnfolds(164, YyMeta(c));
  }

  lemma Move12(c: int)
    requires 1 <= c <= 43
    ensures Delta(12, c) == if c == 12 then 38 else if c == 14 then 39 else 160
  {
    hide Delta;
    DeltaUnfolds(12, c);
    JamStays(c);
  }

  lemma Move13(c: int)
    requires 1 <= c <= 43
    ensures Delta(13, c) == if c == 14 then 40 else 160
  {
    hide Delta;
    DeltaUnfolds(13, c);
    JamStays(c);
  }

  lemma Move15(c: int)
    requires 1 <= c <= 43
    ensures Delta(15, c) == if c == 12 then 38 else if c == 14 then 39 else 160
  {
    hide Delta;
    DeltaUnfolds(15, c);
    JamStays(c);
  }

  lemma Move38(c: int)
    requires 1 <= c <= 43
    ensures Delta(38, c) == if c == 14 then 40 else 160
  {
    hide Delta;
    DeltaUnfolds(38, c);
    JamStays(c);
  }

  lemma Move39(c: int)
    requires 1 <= c <= 43
    ensures Delta(39, c) == if c == 12 then 38 else if c == 14 then 39 else 160
  {
    hide Delta;
    DeltaUnfolds(39, c);
    JamStays(c);
  }

  lemma Move40(c: int)
    requires 1 <= c <= 43
    ensures Delta(40, c) == if c == 14 then 40 else if c == 17 || c == 24 then 70 else 160
  {
    hide Delta;
    DeltaUnfolds(40, c);
    JamStays(c);
  }

  lemma Move70(c: int)
    requires 1 <= c <= 43
    ensures Delta(70, c) == if c == 9 || c == 11 then 94 else if c == 14 then 95 else 160
  {
    hide Delta;
    DeltaUnfolds(70, c);
    JamStays(c);
  }

  lemma Move94(c: int)
    requires 1 <= c <= 43
    ensures Delta(94, c) == if c == 14 then 95 else 160
  {
    hide Delta;
    DeltaUnfolds(94, c);
    JamStays(c);
  }

  lemma Move95(c: int)
    requires 1 <= c <= 43
    ensures Delta(95, c) == if c == 14 then 95 else 160
  {
    hide Delta;
    DeltaUnfolds(95, c);
    JamStays(c);
  }

  lemma Move5(c: int)
    requires 1 <= c <= 43
    ensures Delta(5, c) == if c == 2 || c == 3 then 31 else 160
  {
    hide Delta;
    DeltaUnfolds(5, c);
    JamStays(c);
  }

  lemma Move6(c: int)
    requires 1 <= c <= 43
    ensures Delta(6, c) == if c == 2 || c == 3 then 31 else 160
  {
    hide Delta;
    DeltaUnfolds(6, c);
    JamStays(c);
  }

  lemma Move31(c: int)
    requires 1 <= c <= 43
    ensures Delta(31, c) == if c == 2 || c == 3 then 31 else 160
  {
    hide Delta;
    DeltaUnfolds(31, c);
    JamStays(c);
  }

  // The classes of the characters of names.
  predicate InName(c: int) { c == 11 || c == 14 || c == 16 || c == 17 || c >= 19 }

  lemma Move124(c: int)
    requires 1 <= c <= 43
    ensures Delta(124, c) == if InName(c) then 132 else 160
  {
    hide Delta;
    DeltaUnfolds(124, c);
    MetaRange(c);
    DeltaUnfolds(165, YyMeta(c));
    JamStays(YyMeta(c));
  }

  lemma Move132(c: int)
    requires 1 <= c <= 43
    ensures Delta(132, c) == if c == 6 then 141 else if c == 12 then 142 else if InName(c) then 132 else 160
  {
    hide Delta;
    DeltaUnfolds(132, c);
    MetaRange(c);
    DeltaUnfolds(165, YyMeta(c));
    JamStays(YyMeta(c));
  }

  lemma Move142(c: int)
    requires 1 <= c <= 43
    ensures Delta(142, c) == if InName(c) then 132 else 160
  {
    hide Delta;
    DeltaUnfolds(142, c);
    MetaRange(c);
    DeltaUnfolds(165, YyMeta(c));
    JamStays(YyMeta(c));
  }

  lemma Move157(c: int)
    requires 1 <= c <= 43
    ensures Delta(157, c) == if c == 12 then 142 else if InName(c) then 132 else 160
  {
    hide Delta;
    DeltaUnfolds(157, c);
    MetaRange(c);
    DeltaUnfolds(165, YyMeta(c));
    JamStays(YyMeta(c));
  }

  lemma Move141(c: int)
    requires 1 <= c <= 43
    ensures Delta(141, c) ==
      if c == 4 then 149 else if c == 5 then 150 else if c == 8 || c == 14 then 151 else if c == 11 then 152 else 160
  {
    hide Delta;
    DeltaUnfolds(141, c);
    JamStays(c);
  }

  lemma Move149(c: int)
    requires 1 <= c <= 43
    ensures Delta(149, c) == if c == 4 then 160 else 155
  {
    hide Delta;
    DeltaUnfolds(149, c);
    MetaRange(c);
    DeltaUnfolds(166, YyMeta(c));
    JamStays(YyMeta(c));
  }

  lemma Move150(c: int)
    requires 1 <= c <= 43
    ensures Delta(150, c) == if c == 5 then 160 else 156
  {
    hide Delta;
    DeltaUnfolds(150, c);
    MetaRange(c);
    DeltaUnfolds(167, YyMeta(c));
    JamStays(YyMeta(c));
  }

  lemma Move151(c: int)
    requires 1 <= c <= 43
    ensures Delta(151, c) == if c == 7 then 157 else if c == 8 || c == 14 then 151 else 160
  {
    hide Delta;
    DeltaUnfolds(151, c);
    JamStays(c);
  }

  lemma Move152(c: int)
    requires 1 <= c <= 43
    ensures Delta(152, c) == if c == 8 || c == 14 then 151 else 160
  {
    hide Delta;
    DeltaUnfolds(152, c);
    JamStays(c);
  }

  lemma Move155(c: int)
    requires 1 <= c <= 43
    ensures Delta(155, c) == if c == 4 then 159 else 155
  {
    hide Delta;
    DeltaUnfolds(155, c);
    MetaRange(c);
    DeltaUnfolds(166, YyMeta(c));
    JamStays(YyMeta(c));
  }

  lemma Move156(c: int)
    requires 1 <= c <= 43
    ensures Delta(156, c) == if c == 5 then 159 else 156
  {
    hide Delta;
    DeltaUnfolds(156, c);
    MetaRange(c);
    DeltaUnfolds(167, YyMeta(c));
    JamStays(YyMeta(c));
  }

  lemma Move159(c: int)
    requires 1 <= c <= 43
    ensures Delta(159, c) == if c == 7 then 157 else 160
  {
    hide Delta;
    DeltaUnfolds(159, c);
    JamStays(c);
  }

  // The two entries that lead to the state after the first word of an IDMEF path.
  lemma TwoEntries(i: int)
    requires 0 <= i <= 277
    ensures YyNxt(i) == 114 <==> i == 148 || i == 179
  {
  }

  lemma TwoFrom()
    ensures YyBase(96) == 142 && YyChk(179) == 96 && YyBase(144) == 111 && YyChk(148) == 144
  {
  }

  lemma FirstWordMoves(s: int, c: int)
    requires IsState(s) && s != 2 && 1 <= c <= 43
    ensures Delta(s, c) == 114 <==> (s == 96 || s == 144) && c == 37
  {
    hide YyNxt, YyChk, YyBase, YyDef, YyMeta, Delta;
    TwoFrom();
    DefaultRole(s);
    InBounds(s, c);
    DeltaUnfolds(s, c);
    TwoEntries(YyBase(s) + c);
    JamStays(c);
    if s != 160 && YyChk(YyBase(s) + c) != s {
      var d, m := YyDef(s), YyMeta(c);
      MetaOfClass(c);
      if d != 160 {
        InBounds(d, m);
        DeltaUnfolds(d, m);
        TemplateDefault(d);
        TwoEntries(YyBase(d) + m);
        JamStays(m);
      }
    }
  }

  lemma DotMove()
    ensures Delta(114, 12) == 124
  {
  }
}
