# Verified models of libpreludedb's hard parts

This project models, in Dafny, the parts of libpreludedb and of the gnulib code it ships that are easy to get wrong,
and proves what they promise. Nothing here is executed; `dafny verify dfyconfig.toml` checks everything.

**Numbers to text** (`libmissing/vasnprintf.c`). Limb arrays hold bignums. `Multiplication` and `LongDivision` are the
in-place array algorithms, with every 32- and 64-bit intermediate in range; `Decimal` and `Scale10` turn 2^e * m * 10^n
into correctly rounded digits; `Significand` settles the exponent guess; `FloatPrint` and `HexFloat` print `%f`, `%e`,
`%g` and `%a`. `NumberText` contains readers of such texts, written independently of the printers: the printers are
proved by reading back what they print.

**Path selections** (`src/preludedb-path-selection-parser.*`). `ScannerTables` and `PathTables` hold the generated
tables. `PathScanner` runs the scanner's match loop over them. `ScannerMoves` reads its tables backwards, and
`LexemeWords`, `LexemeStrings`, `LexemeNumbers` and `LexemePaths` prove what each of its rules accepts and what the
tokens hold, in terms of the text alone. `PathTables` proves that the compressed action and goto tables encode a plain
automaton; `PathGrammar` has the grammar, its parse trees and their meaning; `PathMachine`, `PathRuns`, `PathComplete`
and `PathMeaning` prove that the automaton ends on every input and accepts exactly what the grammar derives;
`PathSpelling` is an account of the tokens of an object that knows neither rules nor actions, and proves that the
grammar and its actions agree with it; `PathText` writes objects as text and proves that they are read back.
`PathParser` is the driver with its growing stacks, its semantic actions and its error recovery.

**Copying and moving messages** (`preludedb-admin.c`). `CopyMove` describes batches, transactions and deletions under
every choice of failing calls and stop signals, and proves what survives; `CopyTable` says when a run stays inside the
table of messages to delete; `CopyTransactions` what a message that cannot be retrieved or inserted undoes;
`CopyCommand` has the loops themselves.

**Format strings** (`libmissing/printf-parse.c`, `printf-args.c`, `xsize.h`, and the walk in `vasnprintf.c`).
`PrintfFormat` says what the directives of a format are and which argument slots they use; `PrintfParse` is the one-pass
parser with its two growing arrays; `PrintfSpelling` describes directives and argument types without the parser, and
proves that what is parsed is what is spelled; `PrintfResult` puts literal text and converted arguments together;
`Memory` decides which requests are granted.

**Searching memory** (`libmissing/memchr.c`, `memrchr.c`). `WordSearch` proves the word test in bit-vector arithmetic,
and the searches for both word sizes and both byte orders.

Main results:

- `LongDivision.Divide`, `Scale10.ScaleRoundDecimal`: exact quotients and scalings, rounded to nearest with ties to even.
- `FloatPrint.FormatF`, `FormatE`, `FormatG`, `HexFloat.FormatA`: the printed text reads back as the correctly rounded number,
  in the notation and with the digits the conversion asks for.
- `PathParser.PathSelectionParse`: a string is accepted exactly when its tokens spell a path selection; the root then
  holds the one object they spell, and the flags of the options among them (`PathSpelling.DerivesExactlySpelled`,
  `SpellingIsUnique`).
- `PathText.SelectionReadsBack`: every object that can be written, with any options, is what its text selects.
- `LexemeStrings.StringRule`, `LexemeNumbers.NumberRule`, `LexemePaths.PathRule`, `LexemeWords.SpellingTokens`: the
  compressed tables accept exactly the texts the rules of the scanner describe.
- `CopyMove.MoveSafeExactly`: a move can lose no message exactly when a transaction is of less than 1024 messages.
- `CopyTable.TableSafeExactly`: a move stays inside its table exactly when a transaction is of at most 1024 messages.
- `CopyMove.CopiesSlice`, `MovesSlice`: wherever a command ends, the destination has gained exactly the counted messages, in order.
- `CopyMove.ResumeCompletes`, `ResumeMoveExactly`: an interrupted copy is completed by resuming at the reported offset, an
  interrupted move only if nothing or everything had been moved.
- `CopyTransactions.CopyKeepsWholeTransactions`, `MoveKeepsWholeTransactions`: a command that ends because a message cannot
  be retrieved or inserted has kept whole transactions only.
- `PrintfParse.Parse`: a format is accepted exactly when it is good, and its argument table is then safe to use; directives
  and types are what the format spells (`PrintfSpelling.ParsedExactly`, `ParsedSaysAll`, `TypeIsTaken`).

Where the code and what one would expect of it differ:

- The test in `copy_iterate` that compares the event counter with the transaction size can never hold
  (`CopyTable.CounterNeverFull`), since the counter is reset when it reaches that size; the table of 1024 idents is what
  forces a deletion inside a batch. That deletion comes before the commit, which is why larger transactions are not safe
  even when nothing fails (`CopyMove.LargeBatchesLose`).
- An interrupted move prints the same advice as an interrupted copy, to resume at an offset behind the messages it has
  dealt with. The source no longer has these, so as many others are skipped (`CopyMove.ResumeMoveExactly`); repeating
  the command as it was completes the move (`CopyMove.RepeatCompletesMove`).
- `convert_to_decimal` allocates room for the digits only. When they fill it, the NUL goes behind its end
  (`Decimal.TerminatorFits`, `Decimal.TerminatorNeedNotFit`).
- After a failed deletion inside a batch the table stays full, and the next message is stored behind its end
  (`CopyTable.LargeBatchesOverrun`). This can happen exactly with transactions of more than 1024 messages
  (`CopyTable.TableSafeExactly`); the default is 1000.
- The scanner has tokens for `sum`, `quarter`, `week`, `msec` and `usec`, but no rule of the grammar uses them; `day` has a token number that the scanner never returns.
- `yyabortlab` cannot be reached from any of its three places: the stacks always grow enough, no second syntax error
  arises while the first is recovered from, and the start state can always shift the error token.

## Model

| member | source | states |
|---|---|---|
| Limbs.ValInjective | libmissing/vasnprintf.c:332-337 | two normalised limb sequences with the same value are the same sequence |
| Limbs.ProductFits | libmissing/vasnprintf.c:389-395 | limb times limb plus limb plus carry fits in two limbs, for all limbs |
| Limbs.Normalise | libmissing/vasnprintf.c:398-400 | finds the length without leading zero limbs; the value is unchanged |
| LimbTimes.ShiftLeft | libmissing/vasnprintf.c:638-661 | the shifted limbs and the last carry together are src * 2^s, whatever s below 32 |
| LimbTimes.TimesInPlace | libmissing/vasnprintf.c:1131-1141 | the limbs in place and the carry together are the old value times the factor |
| Multiplication.AddRow | libmissing/vasnprintf.c:386-396 | adds digit * p at place i of the product so far, and the row's carry ends it |
| Multiplication.Multiply | libmissing/vasnprintf.c:342-405 | the normalised product of any two limb sequences, the empty ones included; none exactly when memory is refused |
| LongDivision.EstimateDigit | libmissing/vasnprintf.c:674-720 | the corrected estimate is the exact quotient digit of the top three limbs by the top two of the divisor, capped at beta - 1 |
| LongDivision.LowerDigit | libmissing/vasnprintf.c:705-720 | at most two decrements bring the two-limb estimate down to that digit |
| LongDivision.EstimateBounds | libmissing/vasnprintf.c:672-776 | the estimate from three limbs is the true digit or one more, for every divisor with its top bit set |
| LongDivision.SubtractMultiple | libmissing/vasnprintf.c:722-741 | the complement trick subtracts q * b in place; window and carry account for the exact difference |
| LongDivision.AddBack | libmissing/vasnprintf.c:750-766 | adds b back in place, with the carry that is thrown away |
| LongDivision.DivideStep | libmissing/vasnprintf.c:672-773 | one step replaces r by r - q[j] * b * beta^j, stores the true digit q[j] over r[n+j], and leaves r below b * beta^j |
| LongDivision.DivideLoop | libmissing/vasnprintf.c:664-776 | quotient limbs take the place of remainder limbs in one buffer: a == q * b + r with 0 <= r < b at the end |
| LongDivision.DivideShort | libmissing/vasnprintf.c:518-531 | exact quotient and remainder by one limb |
| LongDivision.LeadingZeros | libmissing/vasnprintf.c:554-610 | the shift that sets the top bit of the leading limb: 2^31 <= msd * 2^s < 2^32 |
| LongDivision.CompareTwice | libmissing/vasnprintf.c:801-820 | comparing limbs of r << 1 with b from the top decides the sign of 2r - b |
| LongDivision.Increment | libmissing/vasnprintf.c:823-831 | adds one to the quotient; a new limb appears exactly on overflow |
| LongDivision.DivideByMany | libmissing/vasnprintf.c:548-800 | long division by two or more limbs, the shift undone: quotient and remainder in a buffer of a_len + 1 limbs |
| LongDivision.RoundQuotientUp | libmissing/vasnprintf.c:801-831 | rounds up exactly when 2r > b, or 2r == b and q is odd |
| LongDivision.Divide | libmissing/vasnprintf.c:414-838 | a / b to nearest, ties to even, normalised, for all a and all b > 0 and in all three size cases, within a buffer of a_len + 2 limbs |
| Rounding.RoundUnique | libmissing/vasnprintf.c:407-413 | to nearest, ties to even, determines the rounded quotient |
| Rounding.RoundNearest | libmissing/vasnprintf.c:407-413 | no other integer is closer to a / d than its rounding |
| Rounding.RoundScale | libmissing/vasnprintf.c:1089-1103 | rounding does not change when numerator and denominator are multiplied by the same number |
| Decimal.ChunksFit | libmissing/vasnprintf.c:850-851 | a bignum of len limbs never needs more 9-digit chunks than are allocated |
| Decimal.CanonicalUnique | libmissing/vasnprintf.c:839-843 | a number has only one digit string without superfluous leading zeros, of whatever length |
| Decimal.CanonicalLengthUnique | libmissing/vasnprintf.c:4168-4184 | the number of digits tells the power of ten the number is below |
| Decimal.NextChunk | libmissing/vasnprintf.c:858-880 | one round divides in place by 10^9 and appends the nine digits of the remainder, inside the allocated space |
| Decimal.ConvertToDecimal | libmissing/vasnprintf.c:845-891 | the digits of a * 10^extra_zeroes, low to high, without superfluous leading zeros, for every normalised a; whether there is room for the NUL behind them |
| Decimal.TerminatorFits | libmissing/vasnprintf.c:850-888 | the allocation has room for the NUL if and only if the number has fewer digits than its limbs are given room for |
| Decimal.TerminatorNeedNotFit | libmissing/vasnprintf.c:850-888 | for 13 limbs with the top limb 2^32 - 1 it has not: the 126 digits fill the allocation |
| Scale10.FiveFits | libmissing/vasnprintf.c:1104-1110 | 5^n is below beta^c for the number c of limbs allocated for it, for every n |
| Scale10.PowerOfFive | libmissing/vasnprintf.c:1116-1143 | ends with exactly 5^abs_n, never beyond the limbs allocated for it |
| Scale10.TimesPowerOfTwo | libmissing/vasnprintf.c:1144-1180 | multiplies by 2^abs_s in place, by bits and then by whole limbs, in the room allocated |
| Scale10.PowerOfTwoAt | libmissing/vasnprintf.c:1212-1221 | builds 2^abs_s behind the power of five in the same buffer, leaving that unchanged |
| Scale10.ShiftedCopy | libmissing/vasnprintf.c:1226-1269 | the numerator m * 2^abs_s |
| Scale10.RoundScaled | libmissing/vasnprintf.c:1089-1092 | rounding 2^(e+n) * 5^n * m is rounding 2^e * 10^n * m, as fractions in either sign case |
| Scale10.FactorTen | libmissing/vasnprintf.c:1094-1103 | factoring out a common power of ten commutes with rounding |
| Scale10.ScaleBySigns | libmissing/vasnprintf.c:1104-1276 | each of the four sign cases yields round(2^s * 5^n * m), normalised |
| Scale10.ScaleRoundDecimal | libmissing/vasnprintf.c:1071-1284 | the decimal digits of round(2^e * m * 10^n), ties to even, for all integers e and n and every m |
| Significand.IsBorderline | libmissing/vasnprintf.c:1506-1517 | holds exactly when the digits are 10^precision |
| Significand.SignificandUnique | libmissing/vasnprintf.c:4160-4212 | a positive number has one rounded significand and exponent |
| Significand.AdjustExponent | libmissing/vasnprintf.c:4160-4190 | with a guess that is good in the relative sense, at most two tries and neither abort; then exactly precision + 1 digits |
| Significand.SettledKeep | libmissing/vasnprintf.c:4190-4212 | keeping the exponent after the borderline test is right, whenever the test keeps it |
| Significand.SettledLower | libmissing/vasnprintf.c:4190-4212 | so is lowering it |
| Significand.SignificantDigits | libmissing/vasnprintf.c:4160-4212 | exactly precision + 1 digits, the first not zero: the correctly rounded significand with its exponent |
| NumberText.FixedDenotes | libmissing/vasnprintf.c:4103-4137 | a text in fixed notation reads as its digits, with exactly precision of them after the point and no exponent |
| NumberText.ScientificDenotes | libmissing/vasnprintf.c:4213-4270 | a text in exponential notation reads as its significand, all digits but one after the point, with its exponent |
| NumberText.GeneralDenotes | libmissing/vasnprintf.c:4361-4463 | dropping trailing zeros keeps the value, in fixed and in exponential notation |
| NumberText.GeneralWritten | libmissing/vasnprintf.c:4361-4463 | no zero in front that could be left out; a decimal point exactly when digits follow it or '#' asks for it |
| NumberText.GeneralDropsAll | libmissing/vasnprintf.c:4361-4463 | without '#' no zero is left at the end of a fraction, with '#' none is dropped |
| NumberText.GeneralNotation | libmissing/vasnprintf.c:4372-4463 | exponential notation exactly when x < -4 or x >= precision |
| NumberText.PaddedShape | libmissing/vasnprintf.c:4526-4557 | padding fills up to the width and no further: behind for '-', between sign and digits for '0', in front otherwise |
| NumberText.PaddedReads | libmissing/vasnprintf.c:4526-4557 | no padding changes the number that is read |
| NumberText.SignShown | libmissing/vasnprintf.c:4072-4085 | a minus sign exactly for negative numbers, otherwise a plus sign or a space as the flags ask, whatever the padding |
| NumberText.WrittenExponent | libmissing/vasnprintf.c:4229-4262 | the exponent of any number is a letter, a sign and at least two digits, with a leading zero only if they are two |
| FloatPrint.TextBuffer.Widen | libmissing/vasnprintf.c:4538-4556 | moving the text up in place, top down, opens the gap without losing a character |
| FloatPrint.TextBuffer.Pad | libmissing/vasnprintf.c:4526-4557 | the buffer then holds the padded text |
| FloatPrint.FormatF | libmissing/vasnprintf.c:4103-4137 | reading the text gives round(x * 10^P) / 10^P in fixed notation, with exactly P digits after the point; a point only with digits or '#', no superfluous zero in front; the temporary buffer is long enough |
| FloatPrint.FormatE | libmissing/vasnprintf.c:4138-4270 | reading the text gives the (P+1)-digit rounding of x, one digit before and P after the point, and the exponent; that is written as the letter, a sign and at least two digits, with a leading zero only if they are two; zero included |
| FloatPrint.FormatG | libmissing/vasnprintf.c:4271-4463 | reading the text gives the P-digit rounding of x; without '#' all zeros at the end of a fraction are dropped, with it none; fixed notation exactly when -4 <= exponent < P; the exponent is written as in %e |
| HexFloat.RoundMantissa | libmissing/vasnprintf.c:3250-3275 | the nearest multiple of 16^-precision, ties to even |
| HexFloat.PutFractionDigits | libmissing/vasnprintf.c:3284-3310 | the digit loop ends, and its digits denote the mantissa exactly, padded to the precision |
| HexFloat.FormatA | libmissing/vasnprintf.c:3200-3343 | the hexadecimal text of any finite number reads back as sign, rounded mantissa with the requested digits after one before the point, and exponent; with 0x and p, or 0X and P, and a signed exponent without leading zeros |
| ScannerTables.InBounds | src/preludedb-path-selection-parser.lex.c:424-545 | every index a state and a class can form lies in the transition tables |
| ScannerTables.DefShortens | src/preludedb-path-selection-parser.lex.c:446-466 | the chain of default states gets shorter with every link, so the transition loop ends |
| ScannerTables.DeltaRange | src/preludedb-path-selection-parser.lex.c:846-852 | transitions lead to states, and only the end of the buffer leads to the end-of-buffer state |
| ScannerTables.StopJams | src/preludedb-path-selection-parser.lex.c:853-854 | a state at which the match loop stops could not have gone on: every further character jams |
| ScannerTables.EndOfBuffer | src/preludedb-path-selection-parser.lex.c:1134-1143 | every state moves on the end-of-buffer character, and the second one jams |
| ScannerTables.FirstAccepts | src/preludedb-path-selection-parser.lex.c:836-856 | every character other than NUL is accepted by itself, so lexemes are nonempty |
| PathScanner.NextState | src/preludedb-path-selection-parser.lex.c:846-852 | the walk over the compressed tables computes the automaton's transition |
| PathScanner.JamForever | src/preludedb-path-selection-parser.lex.c:853-854 | beyond a stop nothing longer is accepted, however the text goes on |
| PathScanner.StopIsLongest | src/preludedb-path-selection-parser.lex.c:855-863 | at a stop, the position or the remembered one is the longest accepted prefix |
| PathScanner.LongestUnique | src/preludedb-path-selection-parser.lex.c:835-863 | there is one longest accepted prefix |
| PathScanner.LexemesJoin | src/preludedb-path-selection-parser.lex.c:816-1091 | the lexemes, skipped ones included, are nonempty, are accepted by their rules and concatenate to the text |
| PathScanner.Guts.Match | src/preludedb-path-selection-parser.lex.c:836-854 | the state reached and the last accepting one, or the end of the buffer after both NULs |
| PathScanner.Guts.GetPreviousState | src/preludedb-path-selection-parser.lex.c:1368-1394 | recomputes the state at the end of the text and the last accepting position before it |
| PathScanner.Guts.MatchLexeme | src/preludedb-path-selection-parser.lex.c:816-863 | moves past the longest accepted prefix and tells its rule, also when the text ends inside a lexeme |
| PathScanner.Guts.Yylex | src/preludedb-path-selection-parser.lex.c:816-1091 | returns the next token of the text, skipping white space and unknown characters; 0 exactly at the end; the rows for the modules of lexemes say which token that is |
| PathScanner.ScannedIsGood | src/preludedb-path-selection-parser.lex.c:878-1091 | every token is one the parser knows, with a value of the type the grammar declares for it |
| ScannerMoves.OneMove | src/preludedb-path-selection-parser.lex.c:383-545 | a state that one word leads to is entered by one move of the whole automaton only, from its one state and by its one class |
| ScannerMoves.RoleMoves | src/preludedb-path-selection-parser.lex.c:383-545 | the states of strings, of numbers, of white space and of IDMEF paths are entered only from the start, from their own kind, or after a message class and a dot |
| LexemeWords.SpellingTokens | src/preludedb-path-selection-parser.lex.c:925-1074 | for each keyword and punctuation mark: a lexeme becomes that token exactly when it is that spelling, without a value |
| LexemeWords.OtherRule | src/preludedb-path-selection-parser.lex.c:1082-1085 | the rule for unknown characters takes single characters only, and every character is taken by some rule |
| LexemeStrings.StringRule | src/preludedb-path-selection-parser.lex.c:878-908 | each string rule accepts exactly the texts between its quotes in which every quote inside has a backslash before it |
| LexemeStrings.StringTokens | src/preludedb-path-selection-parser.lex.c:878-908 | the token of such a text holds what is between its quotes |
| LexemeStrings.StringLexemes | src/preludedb-path-selection-parser.lex.c:878-908 | every lexeme of a string rule is such a text |
| LexemeStrings.SpaceRule | src/preludedb-path-selection-parser.lex.c:1076-1080 | the rule for white space accepts exactly the nonempty runs of white space |
| LexemeNumbers.NumberRule | src/preludedb-path-selection-parser.lex.c:910-923 | the number rule accepts exactly the digits, and the decimals with or without exponent, after an optional minus sign |
| LexemeNumbers.NumberTokens | src/preludedb-path-selection-parser.lex.c:910-923 | the token holds the value of the digits up to the point, negative after a minus sign, and 0 without digits there |
| LexemePaths.PathRule | src/preludedb-path-selection-parser.lex.c:1035-1049 | the rule of IDMEF paths accepts exactly a message class, a dot, and names with optional indexes and dots |
| LexemePaths.PathTokens | src/preludedb-path-selection-parser.lex.c:1035-1049 | the token of a path holds its text, or what is wrong with it |
| PathTables.TablesEncodeAutomaton | src/preludedb-path-selection-parser.yac.c:1306-1374 | what the driver finds in the compressed action tables is the move of a plain automaton, for every state and token |
| PathTables.GotosEncodeAutomaton | src/preludedb-path-selection-parser.yac.c:1695-1704 | the same for the goto tables, for every state and nonterminal |
| PathGrammar.RuleLengths | src/preludedb-path-selection-parser.yac.c:702-717 | the right-hand sides of the grammar have the lengths the tables say; every head is a nonterminal |
| PathGrammar.UnitFlagKnown | src/preludedb-path-selection-parser.yac.c:231-276 | a unit has a flag exactly when it is in the table, and then it is one of its entries |
| PathMachine.ReduceSpells | src/preludedb-path-selection-parser.yac.c:1382-1395 | whenever the automaton reduces, the states on the stack spell out the rule's right-hand side, above one its head can follow |
| PathMachine.StepGood | src/preludedb-path-selection-parser.yac.c:1226-1706 | every shift and every reduction keeps the stack a path of the automaton, values and states in step |
| PathRuns.StepShrinks | src/preludedb-path-selection-parser.yac.c:1226-1706 | every move lowers a measure on tokens left, stack height and top symbol, so parsing ends on every input |
| PathRuns.AcceptsOnlyDerived | src/preludedb-path-selection-parser.yac.c:1226-1706 | soundness: an accepting run has built a derivation of the whole input with the accepted meaning |
| PathComplete.RuleMoves | src/preludedb-path-selection-parser.yac.c:626-717 | in a state ready for the head of a rule, its right-hand side can be read symbol by symbol |
| PathComplete.RuleEnds | src/preludedb-path-selection-parser.yac.c:626-717 | after the right-hand side the automaton reduces by that rule, under every lookahead that fits |
| PathComplete.Complete | src/preludedb-path-selection-parser.yac.c:1226-1706 | from a state ready for its symbol, the machine reads the yield of any tree and pushes its symbol and meaning |
| PathComplete.AcceptsExactlyDerived | src/preludedb-path-selection-parser.yac.c:1226-1706 | for every depth of the stacks: unless they are exhausted, acceptance with a value if and only if the grammar derives the input with that meaning |
| PathComplete.MeaningIsUnique | src/preludedb-path-selection-parser.yac.c:702-717 | two derivations of one input mean the same, for every input |
| PathComplete.ShortInputsFit | src/preludedb-path-selection-parser.yac.c:1234-1293 | stacks three deeper than the input is long are never exhausted |
| PathMeaning.MeaningTyped | src/preludedb-path-selection-parser.yac.c:1396-1672 | over well-typed tokens a tree has a meaning if and only if all its units are known and no token is an error; the meaning has the symbol's type |
| PathMeaning.AcceptsExactlySelections | src/preludedb-path-selection-parser.yac.c:1226-1706 | acceptance if and only if the input is a path selection with known units |
| PathSpelling.ExtractUnits | src/preludedb-path-selection-parser.yac.c:244-261 | a unit has a number in extract exactly when the table of unit names gives it that number |
| PathSpelling.IntervalUnits | src/preludedb-path-selection-parser.yac.c:263-276 | the same for interval |
| PathSpelling.ActMeans | src/preludedb-path-selection-parser.yac.c:1396-1673 | the action of every rule gives the value that the tokens under the rule spell |
| PathSpelling.DerivesExactlySpelled | src/preludedb-path-selection-parser.yac.c:1396-1706 | the grammar derives an object with flags from exactly the tokens that spell it: keyword, parentheses, arguments in order, units, modifiers and options |
| PathSpelling.SelectionsAreSpelled | src/preludedb-path-selection-parser.yac.c:1226-1706 | tokens are a path selection if and only if they spell some object and flags |
| PathSpelling.SpellingIsUnique | src/preludedb-path-selection-parser.yac.c:1226-1706 | tokens spell at most one object and one set of flags |
| PathSpelling.FlagsOfInput | src/preludedb-path-selection-parser.yac.c:1400-1449 | flags are given exactly when there is a slash, and are those of the options that occur in the input |
| PathSpelling.FlagBits | src/preludedb-path-selection-parser.yac.c:1421-1437 | each bit of the flags is set exactly when its keyword occurs, and there are no others |
| PathSpelling.ColonIsExtract | src/preludedb-path-selection-parser.yac.c:1583-1663 | a value, a colon and a keyword spell what extract with that value and unit does |
| PathText.TokensReadBack | src/preludedb-path-selection-parser.lex.c:816-1091 | tokens written one after the other with spaces between are scanned as they were, for every sequence of tokens that can be written |
| PathText.SelectionReadsBack | src/preludedb-path-selection-parser.yac.c:1903-1914 | for every object that can be written, and any options: its text selects that object and those flags, and nothing else |
| PathParser.Stacks.Push | src/preludedb-path-selection-parser.yac.c:1226-1293 | pushes in range of the stacks, which double up to YYMAXDEPTH with their contents kept |
| PathParser.GetFilter | src/preludedb-path-selection-parser.yac.c:231-241 | the flag of the first entry with that name, negative if there is none |
| PathParser.Action | src/preludedb-path-selection-parser.yac.c:1396-1673 | raises an error exactly when the rule's meaning is undefined; only rules 2 and 3 touch the root |
| PathParser.Backup | src/preludedb-path-selection-parser.yac.c:1306-1374 | decides on the automaton's move, and reads a token only when the state needs one |
| PathParser.OnlyStartTakesErrors | src/preludedb-path-selection-parser.yac.c:1808-1829 | the start state is the only one that can shift the error token |
| PathParser.Recover | src/preludedb-path-selection-parser.yac.c:1806-1845 | recovery always finds that state, never reaching the abort, and leaves exactly it and the error state |
| PathParser.Unwind | src/preludedb-path-selection-parser.yac.c:1784-1845 | after an error the stack holds exactly the start state and the error state, the error status is 3, and every token still to come is where it was |
| PathParser.SyntaxErrorDetected | src/preludedb-path-selection-parser.yac.c:1712-1781 | the error status is 0 when a syntax error is detected, so the lookahead is kept and the abort at the end of input is never reached |
| PathParser.OnlyRecoveryReturns | src/preludedb-path-selection-parser.yac.c:1416-1419 | the reduction that returns the error is made after a recovery and at no other time, whatever the lookahead |
| PathParser.NoSelectionYet | src/preludedb-path-selection-parser.yac.c:1398-1413 | while reductions remain to be done, no selection is on the stack, so the root is set at most once |
| PathParser.Yyparse | src/preludedb-path-selection-parser.yac.c:1153-1900 | 0, a negative value or 2 exactly as the run accepts, rejects or exhausts the stacks; on 0 the root has the accepted object and flags; a rejection goes through the loop once more, with one recovery and no second error |
| PathParser.PathSelectionParse | src/preludedb-path-selection-parser.yac.c:1903-1914 | from string to result: success exactly on path selections the stacks can take; the root then has the object the tokens spell and the flags of the options among them, and on a rejection they spell nothing |
| CopyMove.WithoutKeeps | preludedb-admin.c:655-664 | a deletion, also one that fails half-way, removes only listed messages, and all of them if it succeeds |
| CopyMove.IterateDone | preludedb-admin.c:624-685 | a batch that reports success has counted every message copied, or deleted every message moved, from the source |
| CopyMove.BatchProgress | preludedb-admin.c:719-731 | every batch that lets the loop go on leaves less to fetch, so the command ends |
| CopyMove.LoopKeeps | preludedb-admin.c:719-731 | with less than 1024 messages a transaction, each message is in the source or durable in the destination at every moment, whatever fails |
| CopyMove.LargeBatchesLose | preludedb-admin.c:651-666 | with 1024 or more, a run in which nothing fails passes through a moment at which a message is in neither |
| CopyMove.MoveSafeExactly | preludedb-admin.c:624-742 | moves are safe for all databases, limits and failures if and only if a transaction is of less than 1024 messages |
| CopyMove.IterateCopies | preludedb-admin.c:624-685 | a batch adds its messages in order as far as it gets, counted ones durable and the others in the open transaction; a move then removes exactly them |
| CopyMove.LoopCopies | preludedb-admin.c:719-734 | so for the whole loop, from the offset on, for copies and for moves of less than 1024 messages a transaction |
| CopyMove.CopiesSlice | preludedb-admin.c:689-742 | at every exit of a copy the durable gain is exactly source[offset, offset + cur_count), never beyond the limit; all there is if it ends well |
| CopyMove.MovesSlice | preludedb-admin.c:689-742 | at every exit of a move of distinct messages the durable gain is the same slice; if it ends well the source has lost exactly it |
| CopyMove.LoopSucceeds | preludedb-admin.c:719-731 | a run in which no call fails ends well |
| CopyMove.ResumeCompletes | preludedb-admin.c:1402-1404 | resuming at the reported offset, in a run without trouble, completes the copy, wherever the first run ended |
| CopyMove.ResumeMoveExactly | preludedb-admin.c:1402-1404 | resuming an interrupted move at the reported offset completes it if and only if nothing, or everything, had been moved |
| CopyMove.ResumedMoveSkips | preludedb-admin.c:1402-1404 | three messages, stopped after the first and resumed as told: the second one stays behind |
| CopyMove.RepeatCompletesMove | preludedb-admin.c:689-742 | repeating an interrupted move with the offset it had completes it, wherever it was interrupted |
| CopyTransactions.FailedMessageUndoes | preludedb-admin.c:624-685 | if a message of a batch cannot be retrieved or inserted, the batch counts nothing, and leaves the destination and the source as they were at its start |
| CopyTransactions.CopyKeepsWholeTransactions | preludedb-admin.c:209-245 | a copy that ends because a message cannot be retrieved or inserted has counted a multiple of the transaction size, and exactly these messages are durable |
| CopyTransactions.MoveKeepsWholeTransactions | preludedb-admin.c:209-245 | the same for a move of distinct messages with less than 1024 a transaction |
| CopyCommand.Admin.FlushTransactionIfNeeded | preludedb-admin.c:209-224 | the counters and the transaction change as the specification says, for every increment |
| CopyCommand.Admin.FetchMessageIdentsLimited | preludedb-admin.c:292-311 | fetches the next batch within limit and offset; the limit goes down by what was fetched |
| CopyCommand.Admin.CopyIterate | preludedb-admin.c:624-685 | the loop with its table of idents refines the recursive description of a batch, for every batch, and reports an overrun exactly when a message would be stored behind the table |
| CopyCommand.Admin.DoCmdCopyMove | preludedb-admin.c:689-742 | the command ends in the state the specification gives, for every choice of failures and signals, unless the table is overrun; only a move of more than 1024 messages a transaction can overrun it |
| CopyTable.LargeBatchesOverrun | preludedb-admin.c:651-666 | with transactions of more than 1024 messages, a move of 1025 in which only the deletion forced by the full table fails stores behind the table |
| CopyTable.TableSafeExactly | preludedb-admin.c:638-666 | no move stores outside the table, for all databases, limits and failures, if and only if a transaction is of at most 1024 messages |
| CopyTable.FairStaysInside | preludedb-admin.c:638-666 | when no call fails the table is never overrun, whatever the transaction size |
| CopyTable.CounterNeverFull | preludedb-admin.c:656-657 | the event counter is below the transaction size at every test of a move, in every run |
| Xsize.Xsum | libmissing/xsize.h:62-67 | the sum that may wrap around is min(a + b, SIZE_MAX) |
| Xsize.Xsum3 | libmissing/xsize.h:74-77 | saturation is not lost in a sum of three sizes |
| Xsize.Xsum4 | libmissing/xsize.h:83-87 | saturation is not lost in a chain of sums |
| Xsize.Xmax | libmissing/xsize.h:93-99 | an overflow in an operand is an overflow in the maximum |
| Xsize.Xtimes | libmissing/xsize.h:105-106 | min(n * elsize, SIZE_MAX), also for counts beyond SIZE_MAX |
| PrintfFormat.DigitsSaturate | libmissing/printf-parse.c:154-176 | a digit string evaluates to min(value, SIZE_MAX) |
| PrintfFormat.CoversRebuilds | libmissing/printf-parse.c:136-150 | directives are in order and disjoint, and with the literal text between them rebuild the format |
| PrintfFormat.RegisterAllDescribes | libmissing/printf-parse.c:100-132 | registering succeeds if and only if no slot is used with two types, and each slot then has the type of all its uses |
| PrintfFormat.DirectiveSlots | libmissing/printf-parse.c:222-576 | the slots of a directive: int for each '*', a type that suits the conversion for the value, none for a percent sign |
| PrintfFormat.ParseIsProper | libmissing/printf-parse.c:134-611 | so for every directive of a format; literal text has no percent sign; widths and precisions are digits |
| PrintfFormat.GoodFormat | libmissing/vasnprintf.c:1897-1911 | after a parse every slot a directive refers to is in the table with a type it can take, so the printer's guards never abort |
| PrintfSpelling.TypeIsTaken | libmissing/printf-parse.c:334-560 | the type of an argument is the one whose kind, sign and width the conversion and its size modifiers call for, for all combinations |
| PrintfSpelling.SizesCount | libmissing/printf-parse.c:334-401 | what is kept of the size modifiers says how many h and l there are, and whether there is an L |
| PrintfSpelling.FlagsAreBits | libmissing/printf-parse.c:180-220 | each bit of the flags is set exactly when its character occurs |
| PrintfSpelling.ParsedAsSpelled | libmissing/printf-parse.c:139-575 | a directive that is parsed is well spelled: its parts are where they are spelled, and stars and value take the slots that are named or the next ones, in order |
| PrintfSpelling.SpelledIsParsed | libmissing/printf-parse.c:139-575 | every well spelled directive is parsed, and in no other way |
| PrintfSpelling.ParsedExactly | libmissing/printf-parse.c:134-611 | a format is parsed if and only if every percent sign begins a well spelled directive, or is within one |
| PrintfSpelling.ParsedSaysAll | libmissing/printf-parse.c:134-611 | the directives and uses of a parsed format are what it spells, from the first to the last |
| PrintfParse.Arguments.RegisterArg | libmissing/printf-parse.c:100-132 | the table grows to the slot within its capacity and keeps the other slots; an error exactly on a clash of types, unless memory is refused or the slot is so far out that sizes overflow |
| PrintfParse.Directives.Add | libmissing/printf-parse.c:577-599 | the array of directives always keeps room for one more; it fails only if memory is refused or its size overflows |
| PrintfParse.TestPositional | libmissing/printf-parse.c:154-176 | recognises exactly a number followed by '$', neither zero nor too large |
| PrintfParse.ReadDirective | libmissing/printf-parse.c:139-575 | reads exactly the directive the format has there and registers its slots; an error exactly if it is malformed or clashes |
| PrintfParse.Parse | libmissing/printf-parse.c:81-637 | unless memory is refused or the format is outsized, success exactly on good formats: all directives, as they are spelled, the end marker, the table of types and the longest width and precision |
| PrintfParse.MaximaAre | libmissing/printf-parse.c:222-332 | the longest width and precision are at least as long as each of their kind, and one of them |
| PrintfParse.StoredMeans | libmissing/printf-args.c:41-186 | values passed for narrow types are stored with their low bits, in range; others as they are, with a text for a null string |
| PrintfParse.FetchArgs | libmissing/printf-args.c:32-186 | fails exactly when a slot below the count has no type; otherwise every slot has the value passed for it |
| PrintfParse.FetchSucceedsExactly | libmissing/printf-args.c:41-186 | after a parse the arguments can be fetched if and only if every slot below the count is used |
| PrintfResult.Accumulator.EnsureAllocation | libmissing/vasnprintf.c:1847-1868 | room for what is needed, the text kept; it fails only if memory is refused or the size can overflow; an overflowed size never passes |
| PrintfResult.Accumulator.Append | libmissing/vasnprintf.c:1872-1890 | the text is the old one and the piece, wherever the buffer had to move |
| PrintfResult.ExpandedVerbatim | libmissing/vasnprintf.c:1870-1893 | if every directive printed itself, the result would be the format: nothing between directives is lost or repeated |
| PrintfResult.EscapedPrints | libmissing/vasnprintf.c:1870-1911 | every text, with its percent signs doubled, is a format that needs no arguments and prints that text |
| PrintfResult.PutTogether | libmissing/vasnprintf.c:1870-1911 | the result is the format with each directive replaced by the text given for it and each %% by a percent sign, and then a NUL in range; it fails only if memory is refused or the result is half the address space long |
| WordSearch.ZeroByte64 | libmissing/memchr.c:107-135 | the subtract-and-mask test is nonzero if and only if a byte of the word is zero, for all 2^64 words |
| WordSearch.ZeroByte32 | libmissing/memchr.c:107-135 | the same for 32-bit words |
| WordSearch.WordTest64 | libmissing/memchr.c:137-147 | the test on a word read in either byte order finds byte c if and only if it is there |
| WordSearch.WordTest32 | libmissing/memchr.c:137-147 | the same for 32-bit words |
| WordSearch.Memchr | libmissing/memchr.c:57-168 | the first of the n bytes that is c, or none, for every buffer, address and length; words are read aligned and in range |
| WordSearch.Memrchr | libmissing/memrchr.c:44-157 | the last of them, likewise |

## Left out

- Sizes and exponents in the number printers are unbounded integers, so overflow of `size_t` and `int` there is not modelled; limbs and their double-width products are bounded.
- Exponents are printed with two digits at least, as everywhere but on Windows, where they would have three.
- `0.03345f` and `2.322f` are the rationals 669/20000 and 2322/1000.
- The terminating NUL of `convert_to_decimal` is not stored, since there is not always room for it; nor are those of the printed texts.
- `frexp`, `decode_double`, `floorlog10`, infinities, NaN and the locale's decimal point: a number comes in as 2^e * m, and the exponent guess with its accuracy as a hypothesis.
- FloatPrint.FormatF: the exponent guess is assumed good: 10^g * (1 - 10^-6) <= x < 10^(g+1) * (1 + 10^-6).
- FloatPrint.FormatE: assumes the same of the guess, and that it is less than nine million in size.
- FloatPrint.FormatG: assumes the same as FormatE.
- HexFloat.FormatA: the arithmetic of `double` on the mantissa is exact for its values and is done over reals.
- PrintfResult.PutTogether: what the conversions print is given; the retry loop around `snprintf`, `%ls`, `%n` stores and the unistdio conversions are not modelled, and neither is the final shrinking of the result.
- Freeing memory, `alloca` and leaks; allocation may fail wherever the code allows for it, and failure is final.
- In the scanner: refilling the buffer, start conditions, NUL bytes inside the text, and the NUL written behind each lexeme while its action runs.
- PathScanner.Guts.Yylex: `atoi` is taken over unbounded integers, and what makes an IDMEF path invalid is a parameter.
- Token numbers are the parser's internal ones; `yytranslate` is not modelled. Error message texts, debugging output and the allocations inside semantic actions are left out too.
- PathText.SelectionReadsBack: leaves out objects with a string that has quotes of both kinds without a backslash before them, or that ends in a backslash, which makes the scanner take the closing quote for one inside.
- PathParser.Yyparse: the value left over from the scanner at the end of input is a fixed one; nothing looks at it.
- CopyMove.ResumeMoveExactly: for moves stopped by a signal; after a failed deletion the source may have lost any part of the last batch.
- CopyMove.MoveSafeExactly: commits and the start of transactions are taken to succeed, and fetches to honour their limit.
- CopyCommand.Admin.CopyIterate: what the program does after a store behind its table is undefined; the method ends there and says so.
- CopyMove.Iterate: describes the table as unbounded, which is what the program does as long as no store is outside it.
- CopyCommand.Admin.DoCmdCopyMove: the database, option parsing, help and statistics; casts of limit and offset to `int`.
- The commands `load`, `delete`, `save`, `print` and `count`, which share the transaction helpers.
- PrintfParse.Parse: sizes are those of a 64-bit machine on which `intmax_t`, `size_t` and `ptrdiff_t` are `long`, with the glibc flag `I`; the count of `l` modifiers is unbounded. With memory refused, a format that is not good may be reported either way. The bound for outsized formats is sufficient for sizes not to overflow, not necessary.
- `longword` wider than 64 bits in the memory searches.
