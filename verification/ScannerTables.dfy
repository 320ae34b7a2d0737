// The compressed tables of the path-selection scanner, and the automaton they encode.
module ScannerTables {

  // The long tables are given in parts: an entry is looked up within its part.

  // The rule a state accepts, 0 for none; 35 is the end of the buffer.
  function YyAccept(i: int): int
  {
    match i
    case 3 => 35 case 4 => 33 case 5 => 32 case 6 => 32 case 7 => 33 case 8 => 33 case 9 => 27 case 10 => 28
    case 11 => 29 case 12 => 33 case 13 => 33 case 14 => 31 case 15 => 3 case 16 => 30 case 17 => 33 case 18 => 33
    case 19 => 33 case 20 => 33 case 21 => 33 case 22 => 33 case 23 => 33 case 24 => 33 case 25 => 33 case 26 => 33
    case 27 => 33 case 28 => 33 case 29 => 33 case 30 => 33 case 31 => 32 case 33 => 1 case 36 => 2 case 39 => 3
    case 40 => 3 case 65 => 1 case 68 => 2 case 72 => 7 case 79 => 4 case 81 => 19 case 86 => 20 case 87 => 6
    case 95 => 3 case 101 => 18 case 103 => 16 case 105 => 21 case 109 => 22 case 110 => 17 case 111 => 14
    case 112 => 15 case 113 => 11 case 115 => 5 case 120 => 13 case 132 => 26 case 133 => 9 case 139 => 12
    case 142 => 26 case 143 => 25 case 145 => 8 case 148 => 10 case 153 => 23 case 157 => 26 case 158 => 24
    case _ => 0
  }

  function YyEc0(i: int): int
  {
    match i
    case 0 => 0 case 9 => 2 case 10 => 3 case 11 => 2 case 12 => 2 case 13 => 2 case 32 => 2 case 34 => 4
    case _ => 1
  }

  function YyEc35(i: int): int
  {
    match i
    case 39 => 5 case 40 => 6 case 41 => 7 case 42 => 8 case 43 => 9 case 44 => 10 case 45 => 11 case 46 => 12
    case 47 => 13 case 48 => 14 case 49 => 14 case 50 => 14 case 51 => 14 case 52 => 14 case 53 => 14 case 54 => 14
    case 55 => 14 case 56 => 14 case 57 => 14 case 58 => 15 case 65 => 16 case 66 => 16 case 67 => 16 case 68 => 16
    case 69 => 17
    case _ => 1
  }

  function YyEc70(i: int): int
  {
    match i
    case 70 => 16 case 71 => 16 case 72 => 16 case 73 => 16 case 74 => 16 case 75 => 16 case 76 => 16 case 77 => 16
    case 78 => 16 case 79 => 16 case 80 => 16 case 81 => 16 case 82 => 16 case 83 => 16 case 84 => 16 case 85 => 16
    case 86 => 16 case 87 => 16 case 88 => 16 case 89 => 16 case 90 => 16 case 92 => 18 case 95 => 19 case 97 => 20
    case 98 => 21 case 99 => 22 case 100 => 23 case 101 => 24 case 102 => 16 case 103 => 25 case 104 => 26
    case _ => 1
  }

  function YyEc105(i: int): int
  {
    match i
    case 105 => 27 case 106 => 16 case 107 => 28 case 108 => 29 case 109 => 30 case 110 => 31 case 111 => 32
    case 112 => 33 case 113 => 34 case 114 => 35 case 115 => 36 case 116 => 37 case 117 => 38 case 118 => 39
    case 119 => 40 case 120 => 41 case 121 => 42 case 122 => 43
    case _ => 1
  }

  // The equivalence class of a character; only NUL has class 0.
  function YyEc(i: int): int
  {
    if i < 35 then YyEc0(i)
    else if i < 70 then YyEc35(i)
    else if i < 105 then YyEc70(i)
    else YyEc105(i)
  }

  // The class of a class, for the templates.
  function YyMeta(i: int): int
  {
    match i
    case 1 => 1 case 2 => 1 case 3 => 1 case 4 => 2 case 5 => 3 case 6 => 1 case 7 => 1 case 8 => 1
    case 9 => 1 case 10 => 1 case 11 => 4 case 12 => 1 case 13 => 1 case 14 => 4 case 15 => 1 case 16 => 4
    case 17 => 4 case 18 => 1 case 19 => 4 case 20 => 4 case 21 => 4 case 22 => 4 case 23 => 4 case 24 => 4
    case 25 => 4 case 26 => 4 case 27 => 4 case 28 => 4 case 29 => 4 case 30 => 4 case 31 => 4 case 32 => 4
    case 33 => 4 case 34 => 4 case 35 => 4 case 36 => 4 case 37 => 4 case 38 => 4 case 39 => 4 case 40 => 4
    case 41 => 4 case 42 => 4 case 43 => 4
    case _ => 0
  }

  function YyBase0(i: int): int
  {
    match i
    case 0 => 0 case 1 => 0 case 2 => 0 case 3 => 233 case 5 => 42 case 6 => 44 case 7 => 44 case 8 => 45
    case 12 => 37 case 13 => 218 case 15 => 40 case 17 => 26 case 18 => 199 case 19 => 189 case 20 => 194
    case 21 => 29 case 22 => 197 case 23 => 37 case 24 => 192 case 25 => 188 case 26 => 32 case 27 => 198
    case 28 => 188 case 29 => 35 case 30 => 43 case 31 => 69 case 32 => 64 case 34 => 71
    case _ => 234
  }

  function YyBase35(i: int): int
  {
    match i
    case 35 => 72 case 37 => 73 case 38 => 209 case 39 => 67 case 40 => 69 case 41 => 198 case 42 => 196
    case 43 => 182 case 44 => 182 case 45 => 186 case 46 => 197 case 47 => 178 case 48 => 178 case 49 => 173
    case 50 => 193 case 51 => 181 case 52 => 180 case 53 => 186 case 54 => 186 case 55 => 188 case 56 => 185
    case 57 => 176 case 58 => 175 case 59 => 180 case 60 => 183 case 61 => 178 case 62 => 181 case 63 => 180
    case 64 => 76 case 65 => 80 case 66 => 84 case 67 => 87 case 68 => 90 case 69 => 94
    case _ => 234
  }

  function YyBase70(i: int): int
  {
    match i
    case 70 => 92 case 71 => 164 case 73 => 167 case 74 => 162 case 75 => 158 case 76 => 160 case 77 => 159
    case 78 => 169 case 80 => 150 case 82 => 154 case 83 => 168 case 84 => 165 case 85 => 153 case 88 => 163
    case 89 => 164 case 90 => 143 case 91 => 156 case 92 => 141 case 93 => 147 case 94 => 167 case 95 => 166
    case 96 => 142 case 97 => 141 case 98 => 157 case 99 => 143 case 100 => 138 case 102 => 139 case 104 => 147
    case _ => 234
  }

  function YyBase105(i: int): int
  {
    match i
    case 106 => 137 case 107 => 134 case 108 => 127 case 114 => 157 case 116 => 146 case 117 => 148 case 118 => 145
    case 119 => 126 case 121 => 145 case 122 => 139 case 123 => 130 case 124 => 0 case 125 => 124 case 126 => 139
    case 127 => 135 case 128 => 138 case 129 => 84 case 130 => 122 case 131 => 125 case 132 => 103 case 134 => 113
    case 135 => 134 case 136 => 124 case 137 => 116 case 138 => 127
    case _ => 234
  }

  function YyBase140(i: int): int
  {
    match i
    case 140 => 126 case 141 => 106 case 142 => 0 case 144 => 111 case 146 => 121 case 147 => 88 case 149 => 0
    case 150 => 0 case 151 => 111 case 152 => 108 case 154 => 101 case 155 => 117 case 156 => 108 case 157 => 88
    case 159 => 89 case 161 => 125 case 162 => 129 case 163 => 133 case 164 => 137 case 165 => 81 case 166 => 141
    case 167 => 145
    case _ => 234
  }

  // Where the row of a state starts; 234 for a state that nothing leaves.
  function YyBase(i: int): int
  {
    if i < 35 then YyBase0(i)
    else if i < 70 then YyBase35(i)
    else if i < 105 then YyBase70(i)
    else if i < 140 then YyBase105(i)
    else YyBase140(i)
  }

  // The state that decides what the row of a state does not.
  function YyDef(i: int): int
  {
    match i
    case 0 => 0 case 2 => 1 case 7 => 161 case 8 => 162 case 32 => 161 case 34 => 163 case 35 => 162 case 37 => 164
    case 64 => 161 case 65 => 161 case 66 => 163 case 67 => 162 case 68 => 162 case 69 => 164 case 124 => 165
    case 132 => 165 case 142 => 165 case 149 => 166 case 150 => 167 case 155 => 166 case 156 => 167 case 157 => 165
    case 160 => 0
    case _ => 160
  }

  function YyNxt0(i: int): int
  {
    match i
    case 0 => 0 case 1 => 4 case 2 => 5 case 3 => 6 case 4 => 7 case 5 => 8 case 6 => 9 case 7 => 10 case 8 => 4
    case 9 => 4 case 10 => 11 case 11 => 12 case 12 => 13 case 13 => 14 case 14 => 15 case 15 => 16 case 16 => 4
    case 17 => 4 case 18 => 4 case 19 => 4 case 20 => 17 case 21 => 4 case 22 => 18 case 23 => 4 case 24 => 19
    case 25 => 20 case 26 => 21 case 27 => 22 case 28 => 4 case 29 => 4 case 30 => 23 case 31 => 4 case 32 => 24
    case 33 => 4 case 34 => 25
    case _ => 160
  }

  function YyNxt35(i: int): int
  {
    match i
    case 35 => 4 case 36 => 26 case 37 => 27 case 38 => 28 case 39 => 4 case 40 => 29 case 41 => 4 case 42 => 30
    case 43 => 4 case 44 => 31 case 45 => 31 case 46 => 31 case 47 => 31 case 48 => 33 case 49 => 38 case 50 => 36
    case 51 => 39 case 52 => 38 case 53 => 46 case 54 => 39 case 55 => 41 case 56 => 56 case 57 => 49 case 58 => 60
    case 59 => 61 case 60 => 50 case 61 => 47 case 62 => 34 case 63 => 37 case 64 => 51 case 65 => 42 case 66 => 62
    case 67 => 63 case 68 => 33 case 69 => 52
    case _ => 160
  }

  function YyNxt70(i: int): int
  {
    match i
    case 70 => 57 case 71 => 31 case 72 => 31 case 73 => 53 case 74 => 32 case 75 => 65 case 76 => 35 case 77 => 36
    case 78 => 68 case 79 => 38 case 80 => 33 case 81 => 39 case 82 => 34 case 83 => 40 case 84 => 33 case 85 => 132
    case 86 => 70 case 87 => 32 case 88 => 65 case 89 => 66 case 90 => 37 case 91 => 69 case 92 => 36 case 93 => 70
    case 94 => 34 case 95 => 36 case 96 => 157 case 97 => 35 case 98 => 34 case 99 => 68 case 100 => 142
    case 101 => 94 case 102 => 66 case 103 => 94 case 104 => 137
    case _ => 160
  }

  function YyNxt105(i: int): int
  {
    match i
    case 105 => 37 case 106 => 95 case 107 => 138 case 108 => 37 case 109 => 141 case 110 => 149 case 111 => 150
    case 112 => 69 case 113 => 159 case 114 => 151 case 115 => 142 case 116 => 151 case 117 => 152 case 118 => 157
    case 119 => 151 case 120 => 151 case 121 => 159 case 122 => 151 case 123 => 158 case 124 => 154 case 125 => 151
    case 126 => 32 case 127 => 32 case 128 => 32 case 129 => 32 case 130 => 35 case 131 => 35 case 132 => 35
    case 133 => 35 case 134 => 64 case 135 => 64 case 136 => 64 case 137 => 64 case 138 => 67 case 139 => 67
    case _ => 160
  }

  function YyNxt140(i: int): int
  {
    match i
    case 140 => 67 case 141 => 67 case 142 => 155 case 143 => 153 case 144 => 155 case 145 => 155 case 146 => 156
    case 147 => 156 case 148 => 114 case 149 => 156 case 150 => 148 case 151 => 147 case 152 => 146 case 153 => 145
    case 154 => 144 case 155 => 143 case 156 => 140 case 157 => 139 case 158 => 136 case 159 => 135 case 160 => 134
    case 161 => 133 case 162 => 131 case 163 => 130 case 164 => 129 case 165 => 128 case 166 => 127 case 167 => 126
    case 168 => 125 case 169 => 124 case 170 => 123 case 171 => 122 case 172 => 121 case 173 => 120 case 174 => 119
    case _ => 160
  }

  function YyNxt175(i: int): int
  {
    match i
    case 175 => 118 case 176 => 117 case 177 => 116 case 178 => 115 case 179 => 114 case 180 => 95 case 181 => 95
    case 182 => 113 case 183 => 112 case 184 => 111 case 185 => 110 case 186 => 109 case 187 => 108 case 188 => 107
    case 189 => 106 case 190 => 105 case 191 => 104 case 192 => 103 case 193 => 102 case 194 => 101 case 195 => 100
    case 196 => 99 case 197 => 98 case 198 => 97 case 199 => 96 case 200 => 93 case 201 => 92 case 202 => 91
    case 203 => 90 case 204 => 89 case 205 => 88 case 206 => 87 case 207 => 86 case 208 => 85 case 209 => 84
    case _ => 160
  }

  function YyNxt210(i: int): int
  {
    match i
    case 210 => 83 case 211 => 82 case 212 => 81 case 213 => 80 case 214 => 79 case 215 => 78 case 216 => 77
    case 217 => 76 case 218 => 75 case 219 => 74 case 220 => 73 case 221 => 72 case 222 => 71 case 223 => 40
    case 224 => 59 case 225 => 58 case 226 => 55 case 227 => 54 case 228 => 48 case 229 => 45 case 230 => 44
    case 231 => 43 case 232 => 40 case 234 => 3
    case _ => 160
  }

  function YyNxt245(i: int): int
  {
    match i
    case _ => 160
  }

  // The next states, rows overlaid.
  function YyNxt(i: int): int
  {
    if i < 35 then YyNxt0(i)
    else if i < 70 then YyNxt35(i)
    else if i < 105 then YyNxt70(i)
    else if i < 140 then YyNxt105(i)
    else if i < 175 then YyNxt140(i)
    else if i < 210 then YyNxt175(i)
    else if i < 245 then YyNxt210(i)
    else YyNxt245(i)
  }

  function YyChk0(i: int): int
  {
    match i
    case 0 => 0 case 1 => 1 case 2 => 1 case 3 => 1 case 4 => 1 case 5 => 1 case 6 => 1 case 7 => 1 case 8 => 1
    case 9 => 1 case 10 => 1 case 11 => 1 case 12 => 1 case 13 => 1 case 14 => 1 case 15 => 1 case 16 => 1
    case 17 => 1 case 18 => 1 case 19 => 1 case 20 => 1 case 21 => 1 case 22 => 1 case 23 => 1 case 24 => 1
    case 25 => 1 case 26 => 1 case 27 => 1 case 28 => 1 case 29 => 1 case 30 => 1 case 31 => 1 case 32 => 1
    case 33 => 1 case 34 => 1
    case _ => 160
  }

  function YyChk35(i: int): int
  {
    match i
    case 35 => 1 case 36 => 1 case 37 => 1 case 38 => 1 case 39 => 1 case 40 => 1 case 41 => 1 case 42 => 1
    case 43 => 1 case 44 => 5 case 45 => 5 case 46 => 6 case 47 => 6 case 48 => 7 case 49 => 12 case 50 => 8
    case 51 => 12 case 52 => 15 case 53 => 21 case 54 => 15 case 55 => 17 case 56 => 26 case 57 => 23 case 58 => 29
    case 59 => 29 case 60 => 23 case 61 => 21 case 62 => 7 case 63 => 8 case 64 => 23 case 65 => 17 case 66 => 30
    case 67 => 30 case 68 => 32 case 69 => 23
    case _ => 160
  }

  function YyChk70(i: int): int
  {
    match i
    case 70 => 26 case 71 => 31 case 72 => 31 case 73 => 23 case 74 => 34 case 75 => 34 case 76 => 37 case 77 => 35
    case 78 => 37 case 79 => 39 case 80 => 64 case 81 => 39 case 82 => 32 case 83 => 40 case 84 => 65 case 85 => 165
    case 86 => 40 case 87 => 66 case 88 => 66 case 89 => 34 case 90 => 35 case 91 => 37 case 92 => 67 case 93 => 40
    case 94 => 64 case 95 => 68 case 96 => 159 case 97 => 69 case 98 => 65 case 99 => 69 case 100 => 157
    case 101 => 70 case 102 => 66 case 103 => 70 case 104 => 129
    case _ => 160
  }

  function YyChk105(i: int): int
  {
    match i
    case 105 => 67 case 106 => 70 case 107 => 129 case 108 => 68 case 109 => 132 case 110 => 141 case 111 => 141
    case 112 => 69 case 113 => 156 case 114 => 141 case 115 => 132 case 116 => 152 case 117 => 141 case 118 => 151
    case 119 => 151 case 120 => 141 case 121 => 155 case 122 => 152 case 123 => 154 case 124 => 147 case 125 => 151
    case 126 => 161 case 127 => 161 case 128 => 161 case 129 => 161 case 130 => 162 case 131 => 162 case 132 => 162
    case 133 => 162 case 134 => 163 case 135 => 163 case 136 => 163 case 137 => 163 case 138 => 164 case 139 => 164
    case _ => 160
  }

  function YyChk140(i: int): int
  {
    match i
    case 140 => 164 case 141 => 164 case 142 => 166 case 143 => 146 case 144 => 166 case 145 => 166 case 146 => 167
    case 147 => 167 case 148 => 144 case 149 => 167 case 150 => 140 case 151 => 138 case 152 => 137 case 153 => 136
    case 154 => 135 case 155 => 134 case 156 => 131 case 157 => 130 case 158 => 128 case 159 => 127 case 160 => 126
    case 161 => 125 case 162 => 123 case 163 => 122 case 164 => 121 case 165 => 119 case 166 => 118 case 167 => 117
    case 168 => 116 case 169 => 114 case 170 => 108 case 171 => 107 case 172 => 106 case 173 => 104 case 174 => 102
    case _ => 160
  }

  function YyChk175(i: int): int
  {
    match i
    case 175 => 100 case 176 => 99 case 177 => 98 case 178 => 97 case 179 => 96 case 180 => 95 case 181 => 94
    case 182 => 93 case 183 => 92 case 184 => 91 case 185 => 90 case 186 => 89 case 187 => 88 case 188 => 85
    case 189 => 84 case 190 => 83 case 191 => 82 case 192 => 80 case 193 => 78 case 194 => 77 case 195 => 76
    case 196 => 75 case 197 => 74 case 198 => 73 case 199 => 71 case 200 => 63 case 201 => 62 case 202 => 61
    case 203 => 60 case 204 => 59 case 205 => 58 case 206 => 57 case 207 => 56 case 208 => 55 case 209 => 54
    case _ => 160
  }

  function YyChk210(i: int): int
  {
    match i
    case 210 => 53 case 211 => 52 case 212 => 51 case 213 => 50 case 214 => 49 case 215 => 48 case 216 => 47
    case 217 => 46 case 218 => 45 case 219 => 44 case 220 => 43 case 221 => 42 case 222 => 41 case 223 => 38
    case 224 => 28 case 225 => 27 case 226 => 25 case 227 => 24 case 228 => 22 case 229 => 20 case 230 => 19
    case 231 => 18 case 232 => 13 case 233 => 3
    case _ => 160
  }

  function YyChk245(i: int): int
  {
    match i
    case _ => 160
  }

  // Whose entry each one of YyNxt is.
  function YyChk(i: int): int
  {
    if i < 35 then YyChk0(i)
    else if i < 70 then YyChk35(i)
    else if i < 105 then YyChk70(i)
    else if i < 140 then YyChk105(i)
    else if i < 175 then YyChk140(i)
    else if i < 210 then YyChk175(i)
    else if i < 245 then YyChk210(i)
    else YyChk245(i)
  }

  // ------------------------------------------------------------------------------------ the automaton

  // How long the chain of defaults from a state can be.
  function Depth(s: int): nat
  {
    if s == 160 then 0 else if s == 1 || s >= 161 then 1 else 2
  }

  predicate IsState(s: int) { 1 <= s <= 160 }

  predicate IsRow(s: int) { 1 <= s <= 167 }

  predicate IsClass(c: int) { 0 <= c <= 43 }

  lemma DefShortens(s: int)
    requires IsRow(s) && s != 160
    ensures IsRow(YyDef(s)) && YyDef(s) != 3 && Depth(YyDef(s)) < Depth(s)
  {
  }

  lemma InBounds(s: int, c: int)
    requires IsRow(s) && IsClass(c)
    ensures 0 <= YyBase(s) + c <= 277 && 0 <= YyMeta(c) <= 4
  {
  }

  lemma JamBase()
    ensures YyBase(160) == 234
  {
  }

  lemma JamRow(c: int)
    requires IsClass(c)
    ensures YyChk(234 + c) == 160 && YyNxt(234 + c) == if c == 0 then 3 else 160
  {
  }

  // The transition the tables encode: the entry of the state, or else that of its default.
  function Delta(s: int, c: int): int
    requires IsRow(s) && IsClass(c)
    decreases Depth(s)
  {
    if s == 160 || YyChk(YyBase(s) + c) == s then YyNxt(YyBase(s) + c)
    else
      DefShortens(s);
      InBounds(s, c);
      Delta(YyDef(s), if YyDef(s) >= 161 then YyMeta(c) else c)
  }

  lemma NxtRange(i: int)
    requires 0 <= i <= 277
    ensures YyChk(i) == 0 <==> i == 0
    ensures i != 0 ==> 3 <= YyNxt(i) <= 160
    ensures YyNxt(i) == 3 ==> i == 234
  {
    ChkPositive(i);
    hide YyChk;
  }

  lemma DeltaUnfolds(s: int, c: int)
    requires IsRow(s) && IsClass(c)
    ensures s == 160 || YyChk(YyBase(s) + c) == s ==> Delta(s, c) == YyNxt(YyBase(s) + c)
    ensures s != 160 && YyChk(YyBase(s) + c) != s ==>
            IsRow(YyDef(s)) && IsClass(YyMeta(c)) && YyDef(s) != 3 && Depth(YyDef(s)) < Depth(s)
            && Delta(s, c) == Delta(YyDef(s), if YyDef(s) >= 161 then YyMeta(c) else c)
  {
    hide YyNxt, YyChk, YyBase, YyDef, YyMeta;
    InBounds(s, c);
    if s != 160 { DefShortens(s); }
  }

  lemma ChkPositive(i: int)
    requires 0 <= i <= 277
    ensures YyChk(i) == 0 <==> i == 0
  {
  }

  // No move leads to a start state, and only the end of the buffer leads to state 3.
  lemma {:induction false} DeltaRange(s: int, c: int)
    requires IsRow(s) && IsClass(c)
    ensures IsState(Delta(s, c)) && Delta(s, c) > 2
    ensures c != 0 ==> Delta(s, c) != 3
    decreases Depth(s)
  {
    hide YyNxt, YyChk, YyBase, YyDef, YyMeta, Delta;
    InBounds(s, c);
    NxtRange(YyBase(s) + c);
    JamBase();
    JamRow(c);
    JamRow(0);
    DeltaUnfolds(s, c);
    if s != 160 && YyChk(YyBase(s) + c) != s {
      MetaOfClass(c);
      DeltaRange(YyDef(s), if YyDef(s) >= 161 then YyMeta(c) else c);
    }
  }

  lemma MetaOfClass(c: int)
    requires IsClass(c)
    ensures YyMeta(c) == 0 <==> c == 0
  {
  }

  // State 160 is the jam: nothing leaves it.
  lemma JamStays(c: int)
    requires IsClass(c) && c != 0
    ensures Delta(160, c) == 160
  {
    JamBase();
    JamRow(c);
    DeltaUnfolds(160, c);
    hide YyNxt, YyChk, YyBase, YyDef, YyMeta, Delta;
  }

  lemma StopDefault(s: int)
    requires IsState(s) && YyBase(s) == 234
    ensures YyDef(s) == if s == 160 then 0 else 160
  {
  }

  // Every move from a state where the match loop stops is to the jam.
  lemma StopJams(s: int, c: int)
    requires IsState(s) && YyBase(s) == 234 && IsClass(c) && c != 0
    ensures Delta(s, c) == 160
  {
    hide YyNxt, YyChk, YyBase, YyDef, YyMeta, Delta;
    StopDefault(s);
    JamRow(c);
    JamStays(c);
    DeltaUnfolds(s, c);
  }

  lemma OwnEndLow(s: int)
    requires 1 <= s < 80 && s != 3
    ensures YyChk(YyBase(s)) != s
  {
  }

  lemma OwnEndHigh(s: int)
    requires 80 <= s <= 167 && s != 160
    ensures YyChk(YyBase(s)) != s
  {
  }

  lemma EndEntry(i: int)
    ensures i == 233 ==> YyChk(i) == 3 && YyNxt(i) == 160
    ensures i == 3 ==> YyBase(i) == 233
  {
  }

  lemma EndTwice()
    ensures Delta(3, 0) == 160
  {
    hide YyNxt, YyChk, YyBase, YyDef, YyMeta, Delta;
    EndEntry(3);
    EndEntry(233);
    DeltaUnfolds(3, 0);
  }

  // The end of the buffer leads from every state to state 3, and from there to the jam.
  lemma {:induction false} EndOfBuffer(s: int)
    requires IsRow(s)
    ensures Delta(s, 0) == if s == 3 then 160 else 3
    decreases Depth(s)
  {
    hide YyNxt, YyChk, YyBase, YyDef, YyMeta, Delta;
    if s == 3 {
      EndTwice();
    } else {
      JamBase();
      JamRow(0);
      DeltaUnfolds(s, 0);
      if s != 160 {
        if s < 80 { OwnEndLow(s); } else { OwnEndHigh(s); }
        MetaOfClass(0);
        EndOfBuffer(YyDef(s));
      }
    }
  }

  // Every character is accepted by itself.
  lemma FirstAccepts(c: int)
    requires IsClass(c) && c != 0
    ensures 1 <= YyAccept(Delta(1, c)) <= 33
  {
    assert YyBase(1) == 0 && YyChk(c) == 1;
    assert 4 <= YyNxt(c) <= 30;
  }

  lemma AcceptRange(s: int)
    requires IsState(s)
    ensures 0 <= YyAccept(s) <= 35 && YyAccept(s) != 34 && (YyAccept(s) == 35 <==> s == 3)
    ensures s == 160 ==> YyAccept(s) == 0
  {
  }
}
