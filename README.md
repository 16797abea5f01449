# Infix calculator with a caller-extensible grammar, in Dafny

This project models the two calculator classes of the CalculatorLibrary
project.

- `CalculatorLibrary.Calculator` (CalculatorLibrary/Calculator.cs) is the newer
  version. It has binary operations, unary operations and bracket pairs.
- `calculator.Calculator` (CalculatorLibrary/Class1.cs) is the older version.
  It has binary operations and bracket pairs only.

Both versions work in four stages:

1. Registration keeps lists of operations and bracket pairs. It refuses
   symbols that are blank, hold whitespace or a number, or clash with a
   symbol already registered.
2. `Seporate` splits an expression into parts. At each position it skips
   blanks, then takes a number literal `\d+(,\d+)?` or the longest registered
   bracket or binary symbol. The newer version also rewrites a binary symbol
   in prefix position to its `"UNARY" + symbol` form.
3. `Postfix` turns the parts into postfix form with an operator stack
   (shunting yard). Before an operation is pushed, every stack entry of at
   least its priority is popped. Open brackets carry priority 0.
4. `Solve` evaluates the postfix text on a stack of numbers. Exactly one
   number must remain.

Modules:

- `Common`: results, the messages of `CalculationException` as a datatype, and
  the double arithmetic left abstract. Values are a type parameter `V`. Parsing
  a literal, the NaN test and the default actions are fields of an
  `Arithmetic<V>` record.
- `Text`: whitespace and digits, `Trim`, `Split`, `StringBuilder` output
  (`Render`), and the number-literal grammar with its greedy match.
- `Symbols`: the record classes (`Operand`, `Bracket`, `BinaryOperation`,
  `UnaryOperation`) as datatypes, and `List.FindIndex`.
- `Scanner`: the part regular expression `^\s*(number|alt1|alt2|...)`, with
  the alternatives sorted longest first.
- `ShuntingYard`: the three operator-stack loops that both `Postfix` methods
  share. Each is a specification function plus a method with a loop proved
  equal to it.
- `Library` and `LibraryProperties`: the newer class and what is proved
  about it.
- `Legacy` and `LegacyProperties`: the older class and what is proved
  about it.

Each version's class is a Dafny `class` with its lists as `seq` fields. The
registration methods update those fields. `Seporate`, `Postfix` and `Solve`
are methods with the loops of the original. Each is proved equal to a
specification function of the list contents. The lemmas state the
properties of those functions.

Notes on the code's behaviour:

- An operation pops every stack entry whose priority is at least its own (the
  code's `<` break test), so operations of one priority group to the left.
- `ValidateBrackets` in Calculator.cs declares its parameters as
  `(close, open)`, but `AddBrackets` passes `(open, close)`. The swap has no
  effect on what is accepted.
- In Calculator.cs, re-adding a registered pair throws "Error while adding
  brackets", because the overlap check comes first. In Class1.cs the same
  call changes nothing.

## Model

| member | source | states |
|---|---|---|
| Common.Remaining | CalculatorLibrary/Calculator.cs:236-239 | Solve's result is Ok exactly when one number is left on the stack, and is then that number; any other count is "Error in expression" |
| Symbols.FirstIndex | CalculatorLibrary/Calculator.cs:319-323 | List.FindIndex: the index found holds the symbol and no earlier index does; none exactly when the symbol is absent |
| Symbols.ClosedBy | CalculatorLibrary/Calculator.cs:343-348 | GetBracketByCloseSymbol of both versions: a registered pair closed by the symbol, and no earlier pair is closed by it |
| Text.Trim | CalculatorLibrary/Calculator.cs:249-254 | the trimmed expression is the expression with a blank prefix and a blank suffix cut off; it is empty exactly when the expression is blank, and otherwise starts and ends with non-whitespace |
| Text.TrimmedEnds | CalculatorLibrary/Calculator.cs:249-254 | cutting the longest blank prefix and then the longest blank suffix leaves a piece between blank ends: nothing exactly for a blank expression, otherwise a text that starts and ends with a non-blank |
| Text.Split | CalculatorLibrary/Calculator.cs:205 | String.Split(' '): no piece holds the separator, and joining the pieces gives back the string |
| Text.SplitJoin | CalculatorLibrary/Calculator.cs:205 | splitting joined pieces that hold no separator gives the pieces back |
| Text.SplitOfCons | CalculatorLibrary/Calculator.cs:205 | a leading separator gives an empty first piece; any other leading character starts the first piece |
| Text.Render | CalculatorLibrary/Calculator.cs:265 | the StringBuilder text: a blank followed by the lexemes joined by blanks, or nothing |
| Text.RenderTrimSplit | CalculatorLibrary/Calculator.cs:205 | splitting the trimmed postfix text of words at blanks gives back exactly those words (one empty piece when there are none) |
| Text.NumberLength | CalculatorLibrary/Calculator.cs:17 | the match of \d+(,\d+)? at the start of a string is non-empty exactly when the string starts with a digit |
| Text.NumberLengthIsLongest | CalculatorLibrary/Calculator.cs:17 | that match is a number literal, and no longer prefix is one |
| Text.NumeralIsWholeMatch | CalculatorLibrary/Calculator.cs:17 | a string is a number literal exactly when the greedy match takes all of it |
| Text.DigitRunOfDigits | CalculatorLibrary/Calculator.cs:17 | \d+ takes exactly the digits before the first non-digit |
| Text.NumeralFollowedBySpace | CalculatorLibrary/Class1.cs:292 | a number literal followed by a blank or by the end is matched whole |
| Text.NumeralIsWord | CalculatorLibrary/Class1.cs:292 | a number literal holds no whitespace and starts with a digit |
| Scanner.SortByLength | CalculatorLibrary/Calculator.cs:387 | List.Sort by descending length: a permutation of its input, sorted longest first |
| Scanner.PartAlternatives | CalculatorLibrary/Calculator.cs:380-392 | the alternatives are sorted longest first and are exactly the open symbols, the close symbols and the binary symbols |
| Scanner.FirstPrefix | CalculatorLibrary/Calculator.cs:389 | the alternation tries alternatives in order: the result is a registered prefix; none exactly when no alternative is a prefix |
| Scanner.FirstPrefixIsLongest | CalculatorLibrary/Calculator.cs:387-389 | with the alternatives sorted, the first prefix found is a longest one |
| Scanner.FirstPrefixOrderFree | CalculatorLibrary/Calculator.cs:387 | the order the sort leaves among equally long alternatives does not change the match |
| Scanner.MatchPart | CalculatorLibrary/Calculator.cs:358-363 | a match is a blank run followed by the group, and the group is a number literal or an alternative |
| Scanner.MatchPartIsGreedy | CalculatorLibrary/Calculator.cs:380-392 | after the blanks, a digit gives the longest number literal; otherwise a longest alternative that is a prefix is taken; no match exactly when neither exists |
| Scanner.MatchOfNumeral | CalculatorLibrary/Class1.cs:291-306 | a blank, a number literal, then a blank or the end: the match is that literal |
| Scanner.MatchOfSymbol | CalculatorLibrary/Class1.cs:291-306 | a blank, a registered symbol, then a blank or the end: the match is that symbol |
| ShuntingYard.PopWhileAtLeast | CalculatorLibrary/Calculator.cs:276-282 | pops the longest run of top entries with priority at least the operation's, appending them top first; the entry left on top has lower priority |
| ShuntingYard.PopUntilOpen | CalculatorLibrary/Calculator.cs:287-304 | a close bracket leaves a shorter prefix of the stack, or fails with "Error in brackets" |
| ShuntingYard.PopUntilOpenFails | CalculatorLibrary/Calculator.cs:290-301 | it fails exactly when no stack entry holds its open symbol with no other open bracket above it |
| ShuntingYard.PopUntilOpenPops | CalculatorLibrary/Calculator.cs:290-303 | otherwise it appends the entries above that one, top first, and drops that one |
| ShuntingYard.Drain | CalculatorLibrary/Calculator.cs:308-314 | the final loop succeeds exactly when no open bracket is left; it then appends the whole stack top first; otherwise "Error in brackets" |
| ShuntingYard.PopOperators | CalculatorLibrary/Calculator.cs:276-282 | the loop computes PopWhileAtLeast |
| ShuntingYard.PopToOpen | CalculatorLibrary/Calculator.cs:290-303 | the loop computes PopUntilOpen |
| ShuntingYard.PopAll | CalculatorLibrary/Calculator.cs:308-314 | the loop computes Drain |
| Library.ValidateOperation | CalculatorLibrary/Calculator.cs:100-114 | "Error while adding operations" exactly for a blank symbol, one with whitespace or a digit, or a bracket symbol; otherwise whether the symbol is new to the binary list |
| Library.AddBinary | CalculatorLibrary/Calculator.cs:116-121 | the same errors; a registered binary symbol leaves the lists unchanged; otherwise exactly the operation is appended |
| Library.UnaryKey | CalculatorLibrary/Calculator.cs:147-149 | a unary symbol that is a binary symbol is stored as "UNARY" + symbol, any other as itself |
| Library.AddUnary | CalculatorLibrary/Calculator.cs:123-128 | the key is validated with the same rules; on success the unary operation is appended under the key unless the key is a binary symbol |
| Library.ValidateBrackets | CalculatorLibrary/Calculator.cs:154-174 | "Error while adding brackets" exactly for blank, whitespace, digit, equal, bracket or binary symbols; despite the swapped parameters a valid pair is always new |
| Library.AddBracketPair | CalculatorLibrary/Calculator.cs:176-192 | the same errors; on success exactly the pair is appended |
| Library.AddBinaryKeepsWellFormed | CalculatorLibrary/Calculator.cs:116-121 | adding an operation keeps symbols valid, binary symbols unique and apart from brackets |
| Library.AddUnaryKeepsWellFormed | CalculatorLibrary/Calculator.cs:147-152 | adding a unary operation keeps the lists well formed |
| Library.AddBracketPairKeepsWellFormed | CalculatorLibrary/Calculator.cs:176-182 | adding brackets keeps all bracket symbols distinct and apart from binary symbols |
| Library.GetLexemeType | CalculatorLibrary/Calculator.cs:76-98 | each kind exactly when the lexeme is it and none of the kinds tested before it, in the order number, binary, unary, open, close; "Number too big" exactly for a lexeme with a digit that is none of these; Unknown exactly for the rest |
| Library.BinaryOf | CalculatorLibrary/Calculator.cs:319-323 | the first binary operation with the symbol |
| Library.UnaryOf | CalculatorLibrary/Calculator.cs:325-329 | the first unary operation with the symbol |
| Library.OperationOf | CalculatorLibrary/Calculator.cs:331-341 | binary operations are looked up first; the entry carries the symbol and that operation's priority |
| Library.Alternatives | CalculatorLibrary/Calculator.cs:380-392 | the alternatives are sorted longest first and are exactly the bracket and binary symbols |
| Library.AlternativesAreSymbols | CalculatorLibrary/Calculator.cs:383-385 | every alternative is a symbol without whitespace or digits |
| Library.NextPart | CalculatorLibrary/Calculator.cs:356-376 | each turn advances the position by at least one and yields a number literal or a registered symbol; it fails, always with "Illegal expression", exactly when nothing matches or a binary symbol where an operand is expected has no "UNARY" form registered; such a symbol is yielded as "UNARY" + symbol with the match's length, and any other match is yielded as it is |
| Library.Lexemes | CalculatorLibrary/Calculator.cs:350-378 | every part is a number literal or a registered symbol; a binary symbol that is no unary one is never first and only follows a number or a close bracket; the only failure is "Illegal expression"; turn by turn it is what LibraryProperties.LexemesRewrite states |
| Library.OperandExpected | CalculatorLibrary/Calculator.cs:365-366 | the prefix-position test of Seporate: an operand is expected at the start and after anything but a number or a close bracket |
| Library.LexemesStep | CalculatorLibrary/Calculator.cs:356-376 | one turn of Seporate on a non-empty rest: a failing NextPart stops it with "Illegal expression"; otherwise the part is yielded and the scan goes on after the match, with that part as the last one |
| Library.Step | CalculatorLibrary/Calculator.cs:262-305 | one turn of the Postfix loop by lexeme type: a number goes to the output, an open bracket is pushed with priority 0, an operation pops every entry of at least its priority and is pushed, a close bracket pops up to its open bracket or fails with "Error in brackets", a lexeme of no kind is passed over, and GetLexemeType's "Number too big" is thrown; its properties are in StepKeepsWords, RunErrors and PrefixSteps |
| Library.Run | CalculatorLibrary/Calculator.cs:259-307 | the Postfix loop: Step over the parts in order, stopping at the first exception (RunErrors, RunKeepsEvaluable) |
| Library.PostfixLexemes | CalculatorLibrary/Calculator.cs:247-314 | the lexemes Postfix appends: "Empty expression" for a blank expression, then the first exception of the loop, of Seporate or of the final popping; otherwise the output followed by the stack top first (PostfixNotEmpty, PostfixLexemesAreWords, PostfixLexemesAreEvaluable) |
| Library.PostfixText | CalculatorLibrary/Calculator.cs:316 | the appended lexemes, each after a blank, with the text trimmed (PostfixTextSplits) |
| Library.Apply | CalculatorLibrary/Calculator.cs:207-231 | one turn of the Solve loop: a number is pushed, a binary operation replaces the two top numbers by action(x, y), a unary one the top number by its action, "Error in expression" when too few are there, "Something wrong!" for any other lexeme (OperandOrder, UnaryOperand, ApplyUnknown) |
| Library.Evaluate | CalculatorLibrary/Calculator.cs:205-233 | the Solve loop: Apply over the parts in order, stopping at the first exception (EvaluateErrors, EvaluateHeight) |
| Library.Solution | CalculatorLibrary/Calculator.cs:199-240 | Solve: Postfix's exception, or the postfix text split at blanks, evaluated, with exactly one number left (SolveEvaluatesPostfix, SolveSucceedsIff) |
| Library.DefaultsRegister | CalculatorLibrary/Calculator.cs:29-43 | each registration of the constructor succeeds, in order, and the result is the default lists with unary minus under "UNARY-" |
| Library.DefaultBinariesRegister | CalculatorLibrary/Calculator.cs:35-38 | each of the four binary registrations succeeds and appends its operation |
| Library.DefaultUnaryAndBracketsRegister | CalculatorLibrary/Calculator.cs:40-42 | unary minus is then stored under "UNARY-", and the round brackets complete the default lists |
| Library.DefaultSymbols | CalculatorLibrary/Calculator.cs:35-42 | every symbol the constructor registers, "UNARY-" included, holds no whitespace and no digit |
| Library.Calculator.constructor | CalculatorLibrary/Calculator.cs:29-43 | the new calculator holds the default lists and is well formed |
| Library.Calculator.AddBinaryOperation | CalculatorLibrary/Calculator.cs:136-139 | throws what AddBinary throws and leaves the lists unchanged then; otherwise the lists become AddBinary's |
| Library.Calculator.AddUnaryOperation | CalculatorLibrary/Calculator.cs:147-152 | throws what AddUnary throws and leaves the lists unchanged then; otherwise the lists become AddUnary's |
| Library.Calculator.AddBrackets | CalculatorLibrary/Calculator.cs:189-192 | throws what AddBracketPair throws and leaves the lists unchanged then; otherwise the lists become AddBracketPair's |
| Library.Calculator.Seporate | CalculatorLibrary/Calculator.cs:350-378 | the loop over the unread text, expression.Substring(position), yields the parts of Lexemes and its failure |
| Library.Calculator.Postfix | CalculatorLibrary/Calculator.cs:247-317 | the loop over the parts, the operator stack and the final popping give PostfixText |
| Library.Calculator.PostfixPart | CalculatorLibrary/Calculator.cs:262-305 | one turn of the loop, by lexeme type, computes Step: output, push, pop by priority, or pop to the open bracket |
| Library.Calculator.Solve | CalculatorLibrary/Calculator.cs:199-240 | the result is Solution: the postfix text split at blanks is evaluated and one number must remain |
| Library.Calculator.EvaluateParts | CalculatorLibrary/Calculator.cs:203-233 | the loop over the number stack computes Evaluate |
| LibraryProperties.BracketPairNeverIgnored | CalculatorLibrary/Calculator.cs:154-178 | re-adding a registered pair throws "Error while adding brackets" instead of being a no-op |
| LibraryProperties.UnaryRegisteredTwice | CalculatorLibrary/Calculator.cs:123-128 | registering the same unary operation twice stores it twice, since only binary symbols are checked for existence |
| LibraryProperties.DefaultConfigWellFormed | CalculatorLibrary/Calculator.cs:29-43 | the default lists are well formed and unary minus is registered under "UNARY-" |
| LibraryProperties.DefaultBinariesWellFormed | CalculatorLibrary/Calculator.cs:35-38 | the four default binary symbols are distinct symbols and none is a bracket |
| LibraryProperties.SymbolIsNoNumeral | CalculatorLibrary/Calculator.cs:107 | a symbol without digits is never a number literal |
| LibraryProperties.RegisteredAreSymbols | CalculatorLibrary/Calculator.cs:100-110 | every registered symbol is a word without digits and so no number literal |
| LibraryProperties.PostfixLexemesAreWords | CalculatorLibrary/Calculator.cs:259-314 | every lexeme Postfix appends is a non-empty word without whitespace |
| LibraryProperties.PostfixTextSplits | CalculatorLibrary/Calculator.cs:205 | splitting Postfix's text at blanks recovers exactly the appended lexemes |
| LibraryProperties.SolveEvaluatesPostfix | CalculatorLibrary/Calculator.cs:199-240 | Solve throws what Postfix throws, or evaluates exactly its lexemes; an empty postfix text gives "Something wrong!" |
| LibraryProperties.ApplyUnknown | CalculatorLibrary/Calculator.cs:229-231 | a lexeme of no known kind is "Something wrong!" in Solve |
| LibraryProperties.RunErrors | CalculatorLibrary/Calculator.cs:259-305 | the Postfix loop throws only "Number too big" or "Error in brackets" |
| LibraryProperties.EvaluateErrors | CalculatorLibrary/Calculator.cs:205-233 | the Solve loop throws only "Number too big", "Error in expression" or "Something wrong!" |
| LibraryProperties.EmptyExpressionIff | CalculatorLibrary/Calculator.cs:249-254 | Solve throws "Empty expression" exactly for a blank expression |
| LibraryProperties.PostfixNotEmpty | CalculatorLibrary/Calculator.cs:249-254 | Postfix reports "Empty expression" only for a blank expression |
| LibraryProperties.Precedence | CalculatorLibrary/Calculator.cs:272-285 | x o1 y o2 z becomes x y o1 z o2 when o1's priority is at least o2's, otherwise x y z o2 o1 |
| LibraryProperties.EvaluateHeight | CalculatorLibrary/Calculator.cs:213-227 | over numbers and operations, the Solve loop fails exactly when an operation finds too few numbers, always with "Error in expression"; otherwise the stack height changes by the net count |
| LibraryProperties.PostfixLexemesAreEvaluable | CalculatorLibrary/Calculator.cs:287-314 | with positive priorities, the output holds only numbers and operations, no brackets |
| LibraryProperties.SolveSucceedsIff | CalculatorLibrary/Calculator.cs:199-240 | Solve on a non-empty postfix form succeeds exactly when no operation runs short of numbers and exactly one number is left; otherwise "Error in expression" |
| LibraryProperties.RemainingOfEvaluable | CalculatorLibrary/Calculator.cs:205-239 | over numbers and operations, the Solve loop leaves one number exactly when no operation runs short and the net count is one; otherwise "Error in expression" |
| LibraryProperties.OperandOrder | CalculatorLibrary/Calculator.cs:213-220 | a binary operation pops y, then x, and pushes action(x, y) |
| LibraryProperties.UnaryOperand | CalculatorLibrary/Calculator.cs:222-227 | a unary operation replaces the top number by its action on it |
| LibraryProperties.ApplyUnary | CalculatorLibrary/Calculator.cs:222-227 | a unary operation replaces the only number by its action on it |
| LibraryProperties.LexemesAreScannable | CalculatorLibrary/Calculator.cs:350-392 | every part is a number literal, a bracket or binary symbol, or "UNARY" + a binary symbol |
| LibraryProperties.UnaryNeverScanned | CalculatorLibrary/Calculator.cs:383-385 | a unary operation whose symbol is no bracket or binary symbol, and no "UNARY" form, is never yielded |
| LibraryProperties.LexemesRewrite | CalculatorLibrary/Calculator.cs:356-376 | one turn of Seporate: no match stops it with "Illegal expression"; a binary symbol where an operand is expected is yielded as "UNARY" + symbol, or stops it with "Illegal expression" when that is no unary operation; any other match is yielded as it is; the scan goes on after the match |
| LibraryProperties.DoublePrefix | CalculatorLibrary/Calculator.cs:272-285 | two prefix operations in a row become u x u, because the second pops the first; evaluation then fails with "Error in expression" |
| LibraryProperties.DriverMinusMinusEight | Calculator/Program.cs:12 | with the constructor's lists, "--8" is read as "UNARY-", "UNARY-", 8, Postfix gives "UNARY- 8 UNARY-", and Solve throws "Error in expression" instead of giving 8 |
| LibraryProperties.DriverScan | CalculatorLibrary/Calculator.cs:356-376 | Seporate on "--8" with the constructor's lists yields "UNARY-" twice, then 8, and does not fail |
| LibraryProperties.ScanOfMinusMinusEight | CalculatorLibrary/Calculator.cs:356-376 | the same scan in any configuration where '-' is matched alone as a binary symbol and "UNARY-" is a unary operation |
| LibraryProperties.DefaultAlternatives | CalculatorLibrary/Calculator.cs:380-392 | the constructor's part pattern has exactly the alternatives ( ) + - * / |
| LibraryProperties.DefaultMatchOfMinus | CalculatorLibrary/Calculator.cs:380-392 | with the constructor's lists, a rest starting with '-' matches the one-character minus |
| LibraryProperties.DriverTrim | CalculatorLibrary/Calculator.cs:249 | "--8" has nothing to trim |
| LibraryProperties.PrefixSteps | CalculatorLibrary/Calculator.cs:272-285 | a prefix operation goes onto the empty stack, and a second one first pops it to the output |
| Legacy.WithOperation | CalculatorLibrary/Class1.cs:69-87 | the checks in order: empty symbol, whitespace, already registered (no change), bracket symbol, digit or comma; on success exactly the operation is appended |
| Legacy.WithBracketPair | CalculatorLibrary/Class1.cs:99-124 | the checks in order: empty, whitespace, same pair (no change), overlap, operation symbol, equal symbols, digit or comma; accepted exactly when none of them throws, and then the same pair is a no-op and a new pair is appended |
| Legacy.WithOperationKeepsWellFormed | CalculatorLibrary/Class1.cs:69-87 | registration keeps operation symbols plain, unique and apart from brackets |
| Legacy.WithBracketPairKeepsWellFormed | CalculatorLibrary/Class1.cs:99-124 | registration keeps bracket symbols plain and distinct |
| Legacy.OperationOf | CalculatorLibrary/Class1.cs:256-263 | the first operation with the symbol |
| Legacy.Alternatives | CalculatorLibrary/Class1.cs:291-306 | the alternatives are sorted longest first and are exactly the bracket and operation symbols |
| Legacy.AlternativesArePlain | CalculatorLibrary/Class1.cs:294-297 | every alternative is a word without digits or commas |
| Legacy.Lexemes | CalculatorLibrary/Class1.cs:274-289 | every part is a number literal or a registered symbol; the only failure is "Illegal expression" |
| Legacy.LexemesStep | CalculatorLibrary/Class1.cs:278-288 | one turn of the older Seporate on a non-empty rest: no match stops it with "Illegal expression"; otherwise the match's group is yielded as it is, the position advances by at least one and the scan goes on after the match |
| Legacy.IsNumber | CalculatorLibrary/Class1.cs:151 | double.TryParse succeeds: a number literal whose value fits a double; the same test is at Class1.cs:196 |
| Legacy.HasNumberOrComma | CalculatorLibrary/Class1.cs:82 | the unanchored pattern for a number literal or a comma finds a match exactly when a digit or a comma occurs; the same test is at Class1.cs:119 |
| Legacy.Step | CalculatorLibrary/Class1.cs:195-243 | one turn of the older Postfix loop, tests in the order number, open bracket, operation, close bracket: output, push with priority 0, pop by priority and push, pop to the open bracket or "Error in brackets"; otherwise "Number too big" for a lexeme starting with a digit and "Something wrong!" for the rest (StepKeepsTokens, RunErrors) |
| Legacy.Run | CalculatorLibrary/Class1.cs:195-244 | the older Postfix loop: Step over the parts in order, stopping at the first exception (RunErrors) |
| Legacy.PostfixLexemes | CalculatorLibrary/Class1.cs:184-253 | the lexemes the older Postfix writes: "Empty expression" for a blank expression, then the first exception of the loop, of Seporate or of the final popping; otherwise the output followed by the stack top first (PostfixNotEmpty, PostfixLexemesAreTokens) |
| Legacy.Apply | CalculatorLibrary/Class1.cs:151-169 | one turn of the older Solve loop: a number is pushed, an operation replaces the two top numbers by action(x, y), "Error in expression" when fewer than two are there, "Result is too big" for NaN, "Something wrong!" for any other lexeme (OperandOrder, EvaluateKeepsNumbers) |
| Legacy.Evaluate | CalculatorLibrary/Class1.cs:150-170 | the older Solve loop: Apply over the parts in order, stopping at the first exception (EvaluateErrors) |
| Legacy.Solution | CalculatorLibrary/Class1.cs:140-177 | the older Solve: Postfix's exception, or the postfix text scanned again and evaluated, with exactly one number left (SolveEvaluatesPostfix, SolveNeverNaN) |
| Legacy.PostfixText | CalculatorLibrary/Class1.cs:253 | the postfix text is returned untrimmed: each lexeme preceded by a blank |
| Legacy.DefaultsRegister | CalculatorLibrary/Class1.cs:57-67 | each registration of the constructor succeeds, in order, and gives the default lists |
| Legacy.DefaultOperationsRegister | CalculatorLibrary/Class1.cs:61-64 | each of the four operation registrations succeeds and appends its operation |
| Legacy.DefaultBracketsRegister | CalculatorLibrary/Class1.cs:66 | the round brackets then pass validation and complete the default lists |
| Legacy.Calculator.constructor | CalculatorLibrary/Class1.cs:57-67 | the new calculator holds the default lists and is well formed |
| Legacy.Calculator.AddOperation | CalculatorLibrary/Class1.cs:69-87 | throws what WithOperation throws and leaves the lists unchanged then; otherwise the lists become WithOperation's |
| Legacy.Calculator.AddBrackets | CalculatorLibrary/Class1.cs:99-124 | throws what WithBracketPair throws and leaves the lists unchanged then; otherwise the lists become WithBracketPair's |
| Legacy.Calculator.GetOperationBySymbol | CalculatorLibrary/Class1.cs:256-263 | the for loop returns the first operation with the symbol, or "Something wrong!" when there is none |
| Legacy.Calculator.GetBracketByCloseSymbol | CalculatorLibrary/Class1.cs:265-272 | the for loop returns the first pair closed by the symbol, or "Something wrong!" when there is none |
| Legacy.Calculator.Seporate | CalculatorLibrary/Class1.cs:274-289 | the loop over the unread text yields the parts of Lexemes and its failure |
| Legacy.Calculator.Postfix | CalculatorLibrary/Class1.cs:184-254 | the loop, with its tests in the original order, and the final popping give PostfixText |
| Legacy.Calculator.Solve | CalculatorLibrary/Class1.cs:140-177 | the result is Solution: the postfix text is scanned again, evaluated, and one number must remain |
| Legacy.Calculator.EvaluateParts | CalculatorLibrary/Class1.cs:150-170 | the loop over the number stack computes Evaluate |
| LegacyProperties.BracketPairReAddIsNoOp | CalculatorTest/UnitTest1.cs:53-55 | re-adding a registered pair changes nothing and throws nothing |
| LegacyProperties.OperationReAddIsNoOp | CalculatorLibrary/Class1.cs:76-78 | re-adding a registered operation symbol changes nothing and throws nothing |
| LegacyProperties.DefaultConfigWellFormed | CalculatorLibrary/Class1.cs:57-67 | the default lists are well formed |
| LegacyProperties.PostfixLexemesAreTokens | CalculatorLibrary/Class1.cs:195-252 | every lexeme Postfix writes is a number literal or a registered symbol |
| LegacyProperties.MatchOfToken | CalculatorLibrary/Class1.cs:279-287 | on a blank, a token, then a blank or the end, the part pattern matches exactly that token |
| LegacyProperties.Rescan | CalculatorLibrary/Class1.cs:150 | Seporate on the text Postfix writes yields exactly the lexemes written, without failure |
| LegacyProperties.SolveEvaluatesPostfix | CalculatorLibrary/Class1.cs:140-177 | Solve throws what Postfix throws, or evaluates exactly its lexemes; an empty postfix text gives "Error in expression" |
| LegacyProperties.EvaluateKeepsNumbers | CalculatorLibrary/Class1.cs:150-170 | the number stack never holds NaN, given that parsed literals are not NaN |
| LegacyProperties.SolveNeverNaN | CalculatorLibrary/Class1.cs:163-165 | Solve never returns NaN |
| LegacyProperties.RunErrors | CalculatorLibrary/Class1.cs:195-244 | the Postfix loop throws only "Number too big", "Error in brackets" or "Something wrong!" |
| LegacyProperties.EvaluateErrors | CalculatorLibrary/Class1.cs:150-170 | the Solve loop throws only "Error in expression", "Result is too big" or "Something wrong!" |
| LegacyProperties.EmptyExpressionIff | CalculatorLibrary/Class1.cs:184-189 | Solve throws "Empty expression" exactly for a blank expression |
| LegacyProperties.PostfixNotEmpty | CalculatorLibrary/Class1.cs:184-189 | Postfix reports "Empty expression" only for a blank expression |
| LegacyProperties.EvaluationNotEmpty | CalculatorLibrary/Class1.cs:140-177 | neither the rescan of the postfix text nor the Solve loop reports "Empty expression" |
| LegacyProperties.OperandOrder | CalculatorLibrary/Class1.cs:154-166 | an operation pops y, then x, and pushes action(x, y); a NaN result is "Result is too big" |
| LegacyProperties.Precedence | CalculatorLibrary/Class1.cs:203-216 | x o1 y o2 z becomes x y o1 z o2 when o1's priority is at least o2's, otherwise x y z o2 o1; so 2+2*2 becomes 2 2 2 * +, as CalculatorTest/UnitTest1.cs:16 expects |

## Left out

- Double arithmetic is left abstract. Values are a type parameter, and each
  operation's action is an uninterpreted function. `Math.Pow`, infinities
  and rounding are not modelled.
- `double.TryParse` and `Convert.ToDouble` are left abstract. The model
  recognises number literals by the grammar `\d+(,\d+)?`. An abstract `parse`
  function says whether a literal fits a double: when it does not, the lexeme
  is "Number too big". TryParse's acceptance of signs, exponents, "NaN",
  "Infinity" and culture-specific separators is not modelled.
- `\s` and `\d` are ASCII whitespace and ASCII digits. The Unicode classes of
  the .NET regular expressions are not modelled. The same ASCII test stands
  for `char.IsWhiteSpace` in `String.Trim` (Calculator.cs:249 and 316,
  Class1.cs:185) and in `string.IsNullOrWhiteSpace` (Calculator.cs:102 and
  156). So for an expression such as a lone no-break space (U+00A0) the
  model keeps the character where .NET trims it: the source throws "Empty
  expression", the model "Illegal expression". Both `EmptyExpressionIff`
  lemmas hold for ASCII whitespace only.
- The .NET regular expression engine, `Regex.Escape` and the pattern string
  are not modelled. The scanner the pattern denotes is modelled instead.
- `Seporate` yields its parts lazily. The model computes all the parts and
  the exception that stops it, and its consumers check their own exception
  on each part first. So the same first exception is reported.
- Null arguments and a null action are not modelled, since Dafny strings and
  functions are never null. This includes the null checks of
  Class1.cs:70, 100 and 141-143.
- The exception classes become the `CalcError` datatype, one constructor per
  message. The unit test at CalculatorTest/UnitTest1.cs:62 expects
  "owerlaps"; the code's message is followed.
- `uint` priorities are `nat`: the model puts no upper bound on a priority.
- Program.cs and Calculator/Program.cs are not part of this model. The
  second is a console driver. The start of its expression, `--8`, is
  followed from scanning to the result by
  `LibraryProperties.DriverMinusMinusEight`.
- The lookups of Calculator.cs (`GetBinaryOperationBySymbol`,
  `GetUnaryOperationBySymbol`, `GetOperationBySymbol`,
  `GetBracketByCloseSymbol`) use `FindIndex` rather than loops. They are
  modelled as functions. Their callers only call them on registered symbols,
  so the out-of-range index of a missing symbol is not modelled.
- LibraryProperties.PostfixLexemesAreEvaluable: proved only when every
  registered operation has a positive priority. An operation of priority 0
  pops open brackets into the output, and the property then fails.
- LibraryProperties.SolveSucceedsIff: proved under the same hypothesis.
- LibraryProperties.DoublePrefix: stated for a unary operation whose symbol
  is neither a binary symbol nor an open bracket. `--8` reaches it in its
  `"UNARY-"` form (`LibraryProperties.DriverMinusMinusEight`).
- LibraryProperties.DriverMinusMinusEight: covers `--8` alone, not the whole
  expression of the driver, which also registers `**` and goes on with
  `+1/((1+((3+3)-8)/5)-12)`.
- LibraryProperties.Precedence and LegacyProperties.Precedence: stated for
  one shape, x o1 y o2 z, not for expressions in general.
- Concurrency is not modelled. The classes are not synchronised.
