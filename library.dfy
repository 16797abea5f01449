/** CalculatorLibrary/Calculator.cs: the calculator with binary and unary
    operations. The specification functions of this module describe what each
    operation of the class computes from the three lists it holds; the class
    Calculator below implements them with the loops of the original. */
module Library {
  import opened Common
  import opened Text
  import opened Symbols
  import opened Scanner
  import opened ShuntingYard

  /** The lists a Calculator holds, and the double arithmetic it works with. */
  datatype Config<!V> = Config(
    binary: seq<BinaryOperation<V>>,
    unary: seq<UnaryOperation<V>>,
    brackets: seq<Bracket>,
    arith: Arithmetic<V>)

  predicate IsBinaryOperation<V>(c: Config<V>, lexeme: string) {
    lexeme in BinarySymbols(c.binary)
  }

  predicate IsUnaryOperation<V>(c: Config<V>, lexeme: string) {
    lexeme in UnarySymbols(c.unary)
  }

  predicate IsOpenBracket<V>(c: Config<V>, lexeme: string) {
    lexeme in Opens(c.brackets)
  }

  predicate IsCloseBracket<V>(c: Config<V>, lexeme: string) {
    lexeme in Closes(c.brackets)
  }

  predicate IsBracket<V>(c: Config<V>, lexeme: string) {
    IsOpenBracket(c, lexeme) || IsCloseBracket(c, lexeme)
  }

  /** double.TryParse succeeds on a number literal that fits a double. */
  predicate IsNumber<V>(c: Config<V>, lexeme: string) {
    IsNumeral(lexeme) && c.arith.parse(lexeme).Some?
  }

  /** What registration keeps true of the lists: every symbol is a word
      without digits, binary symbols are registered once and are no bracket
      symbol, and the symbols of the bracket pairs are all different. */
  predicate WellFormed<V>(c: Config<V>) {
    && (forall i :: 0 <= i < |c.binary| ==> IsSymbol(c.binary[i].symbol) && !IsBracket(c, c.binary[i].symbol))
    && (forall i, j :: 0 <= i < j < |c.binary| ==> c.binary[i].symbol != c.binary[j].symbol)
    && (forall i :: 0 <= i < |c.unary| ==> IsSymbol(c.unary[i].symbol))
    && (forall i :: 0 <= i < |c.brackets| ==> IsSymbol(c.brackets[i].open) && IsSymbol(c.brackets[i].close))
    && (forall i :: 0 <= i < |c.brackets| ==> c.brackets[i].open != c.brackets[i].close)
    && (forall i, j :: 0 <= i < j < |c.brackets| ==>
          && c.brackets[i].open != c.brackets[j].open && c.brackets[i].open != c.brackets[j].close
          && c.brackets[i].close != c.brackets[j].open && c.brackets[i].close != c.brackets[j].close)
  }

  // ---------------------------------------------------------------------
  // Registration

  /** ValidateOperation: "Error while adding operations" for a blank symbol,
      one holding whitespace or a digit, or a bracket symbol; otherwise
      whether the symbol is new to the binary list. */
  function ValidateOperation<V>(c: Config<V>, symbol: string): (r: Result<bool>)
    ensures r.Err? <==> !IsSymbol(symbol) || IsBracket(c, symbol)
    ensures r.Err? ==> r.error == ErrorAddingOperations
    ensures r.Ok? ==> (r.value <==> !IsBinaryOperation(c, symbol))
  {
    if IsBlank(symbol) then
      assert |symbol| > 0 ==> IsSpace(symbol[0]);
      Err(ErrorAddingOperations)
    else if HasSpace(symbol) || IsBracket(c, symbol) || HasDigit(symbol) then Err(ErrorAddingOperations)
    else Ok(!IsBinaryOperation(c, symbol))
  }

  /** AddOperation with a binary action. */
  function AddBinary<V>(c: Config<V>, op: BinaryOperation<V>): (r: Result<Config<V>>)
    ensures r.Err? <==> !IsSymbol(op.symbol) || IsBracket(c, op.symbol)
    ensures r.Err? ==> r.error == ErrorAddingOperations
    ensures r.Ok? && IsBinaryOperation(c, op.symbol) ==> r.value == c
    ensures r.Ok? && !IsBinaryOperation(c, op.symbol) ==> r.value == c.(binary := c.binary + [op])
  {
    match ValidateOperation(c, op.symbol)
    case Err(e) => Err(e)
    case Ok(isNew) => if isNew then Ok(c.(binary := c.binary + [op])) else Ok(c)
  }

  /** The symbol a unary operation is registered under: a symbol that is
      already a binary operation gets the prefix "UNARY", the form Seporate
      gives it where an operand is expected. */
  function UnaryKey<V>(c: Config<V>, symbol: string): (r: string)
    ensures IsBinaryOperation(c, symbol) ==> r == "UNARY" + symbol
    ensures !IsBinaryOperation(c, symbol) ==> r == symbol
  {
    if IsBinaryOperation(c, symbol) then "UNARY" + symbol else symbol
  }

  /** AddOperation with a unary action. Validation asks whether the key is a
      binary symbol, not whether it is a unary one, so registering the same
      unary operation twice appends it twice. */
  function AddUnary<V>(c: Config<V>, symbol: string, action: V -> V, priority: nat): (r: Result<Config<V>>)
    ensures var key := UnaryKey(c, symbol);
      && (r.Err? <==> !IsSymbol(key) || IsBracket(c, key))
      && (r.Err? ==> r.error == ErrorAddingOperations)
      && (r.Ok? && IsBinaryOperation(c, key) ==> r.value == c)
      && (r.Ok? && !IsBinaryOperation(c, key) ==>
            r.value == c.(unary := c.unary + [UnaryOperation(key, action, priority)]))
  {
    var key := UnaryKey(c, symbol);
    match ValidateOperation(c, key)
    case Err(e) => Err(e)
    case Ok(isNew) =>
      if isNew then Ok(c.(unary := c.unary + [UnaryOperation(key, action, priority)])) else Ok(c)
  }

  /** ValidateBrackets. Its parameters are declared (close, open) but
      AddBrackets passes (open, close); every check but the last is symmetric,
      and the last can only hold when the overlap check has already failed, so
      the swap has no effect and a valid pair is always new. */
  function ValidateBrackets<V>(c: Config<V>, close: string, open: string): (r: Result<bool>)
    ensures r.Err? <==>
      || !IsSymbol(open) || !IsSymbol(close) || open == close
      || IsBracket(c, open) || IsBracket(c, close)
      || IsBinaryOperation(c, open) || IsBinaryOperation(c, close)
    ensures r.Err? ==> r.error == ErrorAddingBrackets
    ensures r.Ok? ==> r.value
  {
    if IsBlank(close) || IsBlank(open) then
      assert |open| > 0 ==> IsSpace(open[0]) || !IsBlank(open);
      assert |close| > 0 ==> IsSpace(close[0]) || !IsBlank(close);
      Err(ErrorAddingBrackets)
    else
      var isIncludeWhitespaces := HasSpace(open) || HasSpace(close);
      var isOverlap := IsBracket(c, open) || IsBracket(c, close);
      var isOperation := IsBinaryOperation(c, open) || IsBinaryOperation(c, close);
      var isEqual := open == close;
      var isNumber := HasDigit(open) || HasDigit(close);
      if isOverlap || isOperation || isEqual || isNumber || isIncludeWhitespaces then Err(ErrorAddingBrackets)
      else
        var isExist := exists i :: 0 <= i < |c.brackets| && c.brackets[i] == Bracket(open, close);
        assert !isExist by {
          forall i | 0 <= i < |c.brackets| ensures c.brackets[i] != Bracket(open, close) {
            assert Opens(c.brackets)[i] == c.brackets[i].open;
          }
        }
        Ok(!isExist)
  }

  /** AddBrackets: the pair is appended, or "Error while adding brackets" is
      thrown when a symbol is blank, holds whitespace or a digit, when the two
      are equal, or when one is already a bracket or binary symbol. */
  function AddBracketPair<V>(c: Config<V>, open: string, close: string): (r: Result<Config<V>>)
    ensures r.Err? <==>
      || !IsSymbol(open) || !IsSymbol(close) || open == close
      || IsBracket(c, open) || IsBracket(c, close)
      || IsBinaryOperation(c, open) || IsBinaryOperation(c, close)
    ensures r.Err? ==> r.error == ErrorAddingBrackets
    ensures r.Ok? ==> r.value == c.(brackets := c.brackets + [Bracket(open, close)])
  {
    match ValidateBrackets(c, open, close)
    case Err(e) => Err(e)
    case Ok(isNew) => if isNew then Ok(c.(brackets := c.brackets + [Bracket(open, close)])) else Ok(c)
  }

  lemma AddBinaryKeepsWellFormed<V>(c: Config<V>, op: BinaryOperation<V>)
    requires WellFormed(c)
    ensures AddBinary(c, op).Ok? ==> WellFormed(AddBinary(c, op).value)
  {
  }

  lemma AddUnaryKeepsWellFormed<V>(c: Config<V>, symbol: string, action: V -> V, priority: nat)
    requires WellFormed(c)
    ensures AddUnary(c, symbol, action, priority).Ok? ==> WellFormed(AddUnary(c, symbol, action, priority).value)
  {
  }

  lemma AddBracketPairKeepsWellFormed<V>(c: Config<V>, open: string, close: string)
    requires WellFormed(c)
    ensures AddBracketPair(c, open, close).Ok? ==> WellFormed(AddBracketPair(c, open, close).value)
  {
  }

  /** What the constructor registers: + and - of priority 10, * and / of
      priority 20, unary minus of priority 30 (under the key "UNARY-") and
      the round brackets. */
  function DefaultConfig<V>(arith: Arithmetic<V>): Config<V> {
    Config(
      [ BinaryOperation("+", arith.add, 10), BinaryOperation("-", arith.subtract, 10),
        BinaryOperation("*", arith.multiply, 20), BinaryOperation("/", arith.divide, 20) ],
      [UnaryOperation("UNARY-", arith.negate, 30)],
      [Bracket("(", ")")],
      arith)
  }

  /** The symbols the constructor registers, the key of unary minus
      included, hold neither whitespace nor a digit. */
  lemma DefaultSymbols()
    ensures IsSymbol("+") && IsSymbol("-") && IsSymbol("*") && IsSymbol("/")
    ensures IsSymbol("(") && IsSymbol(")") && IsSymbol("UNARY-")
  {
    assert !HasSpace("UNARY-") by {
      forall i | 0 <= i < 6 ensures !IsSpace("UNARY-"[i]) {
      }
    }
    assert !HasDigit("UNARY-") by {
      forall i | 0 <= i < 6 ensures !IsDigit("UNARY-"[i]) {
      }
    }
  }

  // ---------------------------------------------------------------------
  // Lexemes

  datatype LexemeType = OpenBracket | CloseBracket | BinaryOp | UnaryOp | Number | Unknown

  /** GetLexemeType: the first of number, binary operation, unary operation,
      open bracket and close bracket the lexeme is; "Number too big" for a
      lexeme holding a digit that is none of these. */
  function GetLexemeType<V>(c: Config<V>, lexeme: string): (r: Result<LexemeType>)
    ensures r == Ok(Number) <==> IsNumber(c, lexeme)
    ensures r == Ok(BinaryOp) <==> !IsNumber(c, lexeme) && IsBinaryOperation(c, lexeme)
    ensures r == Ok(UnaryOp) <==> !IsNumber(c, lexeme) && !IsBinaryOperation(c, lexeme) && IsUnaryOperation(c, lexeme)
    ensures r == Ok(OpenBracket) <==>
      !IsNumber(c, lexeme) && !IsBinaryOperation(c, lexeme) && !IsUnaryOperation(c, lexeme) && IsOpenBracket(c, lexeme)
    ensures r == Ok(CloseBracket) <==>
      && !IsNumber(c, lexeme) && !IsBinaryOperation(c, lexeme) && !IsUnaryOperation(c, lexeme)
      && !IsOpenBracket(c, lexeme) && IsCloseBracket(c, lexeme)
    ensures r == Ok(Unknown) <==>
      && !IsNumber(c, lexeme) && !IsBinaryOperation(c, lexeme) && !IsUnaryOperation(c, lexeme)
      && !IsBracket(c, lexeme) && !HasDigit(lexeme)
    ensures r.Err? <==> (HasDigit(lexeme) && !IsNumber(c, lexeme) && !IsBinaryOperation(c, lexeme)
      && !IsUnaryOperation(c, lexeme) && !IsBracket(c, lexeme))
    ensures r.Err? ==> r.error == NumberTooBig
  {
    if IsNumber(c, lexeme) then Ok(Number)
    else if IsBinaryOperation(c, lexeme) then Ok(BinaryOp)
    else if IsUnaryOperation(c, lexeme) then Ok(UnaryOp)
    else if IsOpenBracket(c, lexeme) then Ok(OpenBracket)
    else if IsCloseBracket(c, lexeme) then Ok(CloseBracket)
    else if HasDigit(lexeme) then Err(NumberTooBig)
    else Ok(Unknown)
  }

  /** GetBinaryOperationBySymbol: the first binary operation with the symbol. */
  function BinaryOf<V>(c: Config<V>, symbol: string): (r: BinaryOperation<V>)
    requires IsBinaryOperation(c, symbol)
    ensures r in c.binary && r.symbol == symbol
    ensures exists i :: 0 <= i < |c.binary| && c.binary[i] == r && forall j :: 0 <= j < i ==> c.binary[j].symbol != symbol
  {
    var i := FirstIndex(BinarySymbols(c.binary), symbol).value;
    c.binary[i]
  }

  /** GetUnaryOperationBySymbol: the first unary operation with the symbol. */
  function UnaryOf<V>(c: Config<V>, symbol: string): (r: UnaryOperation<V>)
    requires IsUnaryOperation(c, symbol)
    ensures r in c.unary && r.symbol == symbol
    ensures exists i :: 0 <= i < |c.unary| && c.unary[i] == r && forall j :: 0 <= j < i ==> c.unary[j].symbol != symbol
  {
    var i := FirstIndex(UnarySymbols(c.unary), symbol).value;
    c.unary[i]
  }

  /** GetOperationBySymbol: the stack entry of an operation, looked up among
      the binary operations first. */
  function OperationOf<V>(c: Config<V>, symbol: string): (r: Operand)
    requires IsBinaryOperation(c, symbol) || IsUnaryOperation(c, symbol)
    ensures r.symbol == symbol
    ensures IsBinaryOperation(c, symbol) ==> r.priority == BinaryOf(c, symbol).priority
    ensures !IsBinaryOperation(c, symbol) ==> r.priority == UnaryOf(c, symbol).priority
  {
    if IsBinaryOperation(c, symbol) then
      var op := BinaryOf(c, symbol);
      Operand(op.symbol, op.priority)
    else
      var op := UnaryOf(c, symbol);
      Operand(op.symbol, op.priority)
  }

  /** CreatePartRegex: the alternatives of the part pattern. */
  function Alternatives<V>(c: Config<V>): (r: seq<string>)
    ensures SortedByLength(r)
    ensures forall a :: a in r <==> IsBracket(c, a) || IsBinaryOperation(c, a)
  {
    PartAlternatives(c.brackets, BinarySymbols(c.binary))
  }

  /** A lexeme Seporate can yield: a word that is a number literal or a
      registered symbol. */
  predicate IsToken<V>(c: Config<V>, lexeme: string) {
    IsWord(lexeme) &&
      (IsNumeral(lexeme) || IsBinaryOperation(c, lexeme) || IsUnaryOperation(c, lexeme) || IsBracket(c, lexeme))
  }

  /** In a well-formed configuration every alternative is a symbol. */
  lemma AlternativesAreSymbols<V>(c: Config<V>)
    requires WellFormed(c)
    ensures forall a :: a in Alternatives(c) ==> IsSymbol(a)
  {
    forall a | a in Alternatives(c) ensures IsSymbol(a) {
      if IsBinaryOperation(c, a) {
        var i :| 0 <= i < |c.binary| && BinarySymbols(c.binary)[i] == a;
      } else if IsOpenBracket(c, a) {
        var i :| 0 <= i < |c.brackets| && Opens(c.brackets)[i] == a;
      } else {
        var i :| 0 <= i < |c.brackets| && Closes(c.brackets)[i] == a;
      }
    }
  }

  /** Whether Seporate reads a binary symbol as unary: when it comes first
      or follows anything but a number or a close bracket. */
  predicate OperandExpected<V>(c: Config<V>, last: Option<string>) {
    last.None? || (!IsNumber(c, last.value) && !IsCloseBracket(c, last.value))
  }

  /** One turn of the Seporate loop on the rest s of the expression, `last`
      being the part yielded before: the part to yield and the length of the
      match. A binary symbol where an operand is expected becomes
      "UNARY" + symbol; "Illegal expression" is thrown when that is no unary
      operation or when nothing matches. */
  function NextPart<V>(c: Config<V>, s: string, last: Option<string>): (r: Result<Part>)
    requires WellFormed(c)
    ensures r.Err? ==> r.error == IllegalExpression
    ensures r.Ok? ==> 0 < r.value.length <= |s| && IsToken(c, r.value.group)
    ensures r.Ok? && IsBinaryOperation(c, r.value.group) && !IsUnaryOperation(c, r.value.group) ==>
      !OperandExpected(c, last)
    ensures var m := MatchPart(s, Alternatives(c));
      r.Err? <==> (m.None? ||
        (IsBinaryOperation(c, m.value.group) && OperandExpected(c, last) && !IsUnaryOperation(c, "UNARY" + m.value.group)))
    ensures var m := MatchPart(s, Alternatives(c));
      m.Some? && IsBinaryOperation(c, m.value.group) && OperandExpected(c, last) && r.Ok? ==>
        r.value == Part("UNARY" + m.value.group, m.value.length)
    ensures var m := MatchPart(s, Alternatives(c));
      m.Some? && !(IsBinaryOperation(c, m.value.group) && OperandExpected(c, last)) ==> r == Ok(m.value)
  {
    match MatchPart(s, Alternatives(c))
    case None => Err(IllegalExpression)
    case Some(p) =>
      assert IsWord(p.group) by {
        AlternativesAreSymbols(c);
        if p.group !in Alternatives(c) {
          NumeralIsWord(p.group);
        }
      }
      var rewrite := IsBinaryOperation(c, p.group) && OperandExpected(c, last);
      if !rewrite then Ok(p)
      else if !IsUnaryOperation(c, "UNARY" + p.group) then Err(IllegalExpression)
      else
        assert IsWord("UNARY" + p.group) by {
          var i :| 0 <= i < |c.unary| && UnarySymbols(c.unary)[i] == "UNARY" + p.group;
        }
        Ok(Part("UNARY" + p.group, p.length))
  }

  /** Seporate on s, `last` being the part yielded before it. */
  function Lexemes<V>(c: Config<V>, s: string, last: Option<string>): (r: Scan)
    requires WellFormed(c)
    ensures r.failure.Some? ==> r.failure.value == IllegalExpression
    ensures forall i :: 0 <= i < |r.parts| ==> IsToken(c, r.parts[i])
    ensures |r.parts| > 0 && IsBinaryOperation(c, r.parts[0]) && !IsUnaryOperation(c, r.parts[0]) ==>
      !OperandExpected(c, last)
    ensures forall i :: 0 < i < |r.parts| && IsBinaryOperation(c, r.parts[i]) && !IsUnaryOperation(c, r.parts[i]) ==>
      !OperandExpected(c, Some(r.parts[i - 1]))
    decreases |s|
  {
    if |s| == 0 then Scan([], None)
    else
      match NextPart(c, s, last)
      case Err(e) => Scan([], Some(e))
      case Ok(p) =>
        var rest := Lexemes(c, s[p.length..], Some(p.group));
        var parts := [p.group] + rest.parts;
        assert parts[0] == p.group && forall i :: 0 < i < |parts| ==> parts[i] == rest.parts[i - 1];
        Scan(parts, rest.failure)
  }

  // ---------------------------------------------------------------------
  // Postfix

  /** One turn of the Postfix loop on a part: a number goes to the output,
      an open bracket is pushed with priority 0, an operation first pops
      every entry of at least its priority, a close bracket pops up to its
      open bracket. A part of no known kind is passed over. */
  function Step<V>(c: Config<V>, st: Converter, part: string): (r: Result<Converter>)
  {
    match GetLexemeType(c, part)
    case Err(e) => Err(e)
    case Ok(Number) => Ok(Converter(st.output + [part], st.stack))
    case Ok(OpenBracket) => Ok(Converter(st.output, st.stack + [Operand(part, 0)]))
    case Ok(BinaryOp) | Ok(UnaryOp) =>
      var op := OperationOf(c, part);
      var popped := PopWhileAtLeast(st, op.priority);
      Ok(Converter(popped.output, popped.stack + [op]))
    case Ok(CloseBracket) => PopUntilOpen(st, ClosedBy(c.brackets, part).open, Opens(c.brackets))
    case Ok(Unknown) => Ok(st)
  }

  /** The Postfix loop over parts, stopping at the first exception. */
  function Run<V>(c: Config<V>, st: Converter, parts: seq<string>): (r: Result<Converter>)
    decreases |parts|
  {
    if parts == [] then Ok(st)
    else
      match Step(c, st, parts[0])
      case Err(e) => Err(e)
      case Ok(next) => Run(c, next, parts[1..])
  }

  /** The lexemes Postfix appends, in order: "Empty expression" for a blank
      expression, then the first exception of the loop over the parts, of
      Seporate, or of the final popping. */
  function PostfixLexemes<V>(c: Config<V>, expression: string): (r: Result<seq<string>>)
    requires WellFormed(c)
  {
    var e := Trim(expression);
    if |e| == 0 then Err(EmptyExpression)
    else
      var scan := Lexemes(c, e, None);
      match Run(c, Converter([], []), scan.parts)
      case Err(err) => Err(err)
      case Ok(st) =>
        if scan.failure.Some? then Err(scan.failure.value)
        else Drain(st, Opens(c.brackets))
  }

  /** Postfix: the lexemes, each after a blank, with the leading blank
      trimmed. */
  function PostfixText<V>(c: Config<V>, expression: string): (r: Result<string>)
    requires WellFormed(c)
  {
    match PostfixLexemes(c, expression)
    case Err(e) => Err(e)
    case Ok(ls) => Ok(Trim(Render(ls)))
  }

  // ---------------------------------------------------------------------
  // Solve

  /** One turn of the Solve loop: a number is pushed; a binary operation pops
      y, then x, and pushes action(x, y); a unary operation replaces the top;
      "Error in expression" when the stack is too short, "Something wrong!"
      for any other lexeme. The stack's top is its last element. */
  function Apply<V>(c: Config<V>, numbers: seq<V>, part: string): (r: Result<seq<V>>)
  {
    match GetLexemeType(c, part)
    case Err(e) => Err(e)
    case Ok(Number) => Ok(numbers + [c.arith.parse(part).value])
    case Ok(BinaryOp) =>
      var n := |numbers|;
      if n < 2 then Err(ErrorInExpression)
      else Ok(numbers[..n - 2] + [BinaryOf(c, part).action(numbers[n - 2], numbers[n - 1])])
    case Ok(UnaryOp) =>
      var n := |numbers|;
      if n < 1 then Err(ErrorInExpression)
      else Ok(numbers[..n - 1] + [UnaryOf(c, part).action(numbers[n - 1])])
    case Ok(_) => Err(SomethingWrong)
  }

  /** The Solve loop over parts, stopping at the first exception. */
  function Evaluate<V>(c: Config<V>, numbers: seq<V>, parts: seq<string>): (r: Result<seq<V>>)
    decreases |parts|
  {
    if parts == [] then Ok(numbers)
    else
      match Apply(c, numbers, parts[0])
      case Err(e) => Err(e)
      case Ok(next) => Evaluate(c, next, parts[1..])
  }

  /** Solve: the postfix text split at blanks is evaluated. */
  function Solution<V>(c: Config<V>, expression: string): (r: Result<V>)
    requires WellFormed(c)
  {
    match PostfixText(c, expression)
    case Err(e) => Err(e)
    case Ok(text) => Remaining(Evaluate(c, [], Split(text, ' ')))
  }

  // ---------------------------------------------------------------------
  // The class

  /** One turn of Seporate on a non-empty rest. */
  lemma LexemesStep<V>(c: Config<V>, s: string, last: Option<string>)
    requires WellFormed(c) && |s| > 0
    ensures NextPart(c, s, last).Err? ==> Lexemes(c, s, last) == Scan([], Some(IllegalExpression))
    ensures NextPart(c, s, last).Ok? ==>
      var p := NextPart(c, s, last).value;
      Lexemes(c, s, last) == Prefixed([p.group], Lexemes(c, s[p.length..], Some(p.group)))
  {
  }

  /** One turn of the Postfix loop. */
  lemma RunTurn<V>(c: Config<V>, st: Converter, parts: seq<string>)
    requires parts != []
    ensures Run(c, st, parts) ==
      match Step(c, st, parts[0])
      case Err(e) => Err(e)
      case Ok(next) => Run(c, next, parts[1..])
  {
  }

  /** One turn of the Solve loop. */
  lemma EvaluateTurn<V>(c: Config<V>, numbers: seq<V>, parts: seq<string>)
    requires parts != []
    ensures Evaluate(c, numbers, parts) ==
      match Apply(c, numbers, parts[0])
      case Err(e) => Err(e)
      case Ok(next) => Evaluate(c, next, parts[1..])
  {
  }

  /** The parts the constructor registers pass validation, in order. */
  lemma DefaultsRegister<V>(arith: Arithmetic<V>)
    ensures var c0 := Config([], [], [], arith);
      && AddBinary(c0, BinaryOperation("+", arith.add, 10)).Ok?
      && var c1 := AddBinary(c0, BinaryOperation("+", arith.add, 10)).value;
      && AddBinary(c1, BinaryOperation("-", arith.subtract, 10)).Ok?
      && var c2 := AddBinary(c1, BinaryOperation("-", arith.subtract, 10)).value;
      && AddBinary(c2, BinaryOperation("*", arith.multiply, 20)).Ok?
      && var c3 := AddBinary(c2, BinaryOperation("*", arith.multiply, 20)).value;
      && AddBinary(c3, BinaryOperation("/", arith.divide, 20)).Ok?
      && var c4 := AddBinary(c3, BinaryOperation("/", arith.divide, 20)).value;
      && AddUnary(c4, "-", arith.negate, 30).Ok?
      && var c5 := AddUnary(c4, "-", arith.negate, 30).value;
      && AddBracketPair(c5, "(", ")").Ok?
      && AddBracketPair(c5, "(", ")").value == DefaultConfig(arith)
  {
    var c0 := Config([], [], [], arith);
    var plus, minus := BinaryOperation("+", arith.add, 10), BinaryOperation("-", arith.subtract, 10);
    var times, over := BinaryOperation("*", arith.multiply, 20), BinaryOperation("/", arith.divide, 20);
    DefaultBinariesRegister(arith);
    DefaultUnaryAndBracketsRegister(arith);
  }

  /** Unary minus, under the key "UNARY-" since "-" is a binary symbol by
      then, and the round brackets pass validation after the four binary
      operations. */
  lemma DefaultUnaryAndBracketsRegister<V>(arith: Arithmetic<V>)
    ensures var c4 := Config(DefaultConfig(arith).binary, [], [], arith);
      var c5 := c4.(unary := DefaultConfig(arith).unary);
      && AddUnary(c4, "-", arith.negate, 30) == Ok(c5)
      && AddBracketPair(c5, "(", ")") == Ok(DefaultConfig(arith))
  {
    var c4 := Config(DefaultConfig(arith).binary, [], [], arith);
    assert BinarySymbols(c4.binary) == ["+", "-", "*", "/"];
    assert Opens([]) == [] && Closes([]) == [];
    assert AddUnary(c4, "-", arith.negate, 30) == Ok(c4.(unary := [UnaryOperation("UNARY-", arith.negate, 30)])) by {
      DefaultSymbols();
      assert UnaryKey(c4, "-") == "UNARY-";
      assert "UNARY-" !in ["+", "-", "*", "/"];
      assert !IsBracket(c4, "UNARY-") && !IsBinaryOperation(c4, "UNARY-");
      assert c4.unary + [UnaryOperation("UNARY-", arith.negate, 30)] == [UnaryOperation("UNARY-", arith.negate, 30)];
    }
    var c5 := c4.(unary := [UnaryOperation("UNARY-", arith.negate, 30)]);
    assert AddBracketPair(c5, "(", ")") == Ok(DefaultConfig(arith)) by {
      assert IsSymbol("(") && IsSymbol(")");
      assert !IsBracket(c5, "(") && !IsBracket(c5, ")");
      assert !IsBinaryOperation(c5, "(") && !IsBinaryOperation(c5, ")");
      assert c5.brackets + [Bracket("(", ")")] == [Bracket("(", ")")];
    }
  }

  /** The four binary operations of the constructor pass validation in
      order, each extending the list. */
  lemma DefaultBinariesRegister<V>(arith: Arithmetic<V>)
    ensures var c0 := Config([], [], [], arith);
      var plus, minus := BinaryOperation("+", arith.add, 10), BinaryOperation("-", arith.subtract, 10);
      var times, over := BinaryOperation("*", arith.multiply, 20), BinaryOperation("/", arith.divide, 20);
      && AddBinary(c0, plus) == Ok(c0.(binary := [plus]))
      && AddBinary(c0.(binary := [plus]), minus) == Ok(c0.(binary := [plus, minus]))
      && AddBinary(c0.(binary := [plus, minus]), times) == Ok(c0.(binary := [plus, minus, times]))
      && AddBinary(c0.(binary := [plus, minus, times]), over) == Ok(c0.(binary := [plus, minus, times, over]))
  {
    var c0 := Config([], [], [], arith);
    var plus, minus := BinaryOperation("+", arith.add, 10), BinaryOperation("-", arith.subtract, 10);
    var times, over := BinaryOperation("*", arith.multiply, 20), BinaryOperation("/", arith.divide, 20);
    assert IsSymbol("+") && IsSymbol("-") && IsSymbol("*") && IsSymbol("/");
    assert Opens(c0.brackets) == [] && Closes(c0.brackets) == [];
    assert BinarySymbols([plus]) == ["+"];
    assert BinarySymbols([plus, minus]) == ["+", "-"];
    assert BinarySymbols([plus, minus, times]) == ["+", "-", "*"];
    assert [] + [plus] == [plus] && [plus] + [minus] == [plus, minus];
    assert [plus, minus] + [times] == [plus, minus, times];
    assert [plus, minus, times] + [over] == [plus, minus, times, over];
  }

  /** The calculator. Registration updates its three lists in place; Solve
      and the private methods it calls only read them. */
  class Calculator<V> {
    const arith: Arithmetic<V>
    var binaryOperations: seq<BinaryOperation<V>>
    var unaryOperations: seq<UnaryOperation<V>>
    var brackets: seq<Bracket>

    function State(): Config<V>
      reads this
    {
      Config(binaryOperations, unaryOperations, brackets, arith)
    }

    predicate Valid()
      reads this
    {
      WellFormed(State())
    }

    /** Registers the four binary operations, unary minus and the round
      brackets through the public registration methods. */
    constructor (arith: Arithmetic<V>)
      ensures Valid()
      ensures State() == DefaultConfig(arith)
    {
      this.arith := arith;
      binaryOperations, unaryOperations, brackets := [], [], [];
      new;
      ghost var plus, minus := BinaryOperation("+", arith.add, 10), BinaryOperation("-", arith.subtract, 10);
      ghost var times, over := BinaryOperation("*", arith.multiply, 20), BinaryOperation("/", arith.divide, 20);
      ghost var c0 := State();
      DefaultBinariesRegister(arith);
      var r := AddBinaryOperation("+", arith.add, 10);
      assert State() == c0.(binary := [plus]);
      r := AddBinaryOperation("-", arith.subtract, 10);
      assert State() == c0.(binary := [plus, minus]);
      r := AddBinaryOperation("*", arith.multiply, 20);
      assert State() == c0.(binary := [plus, minus, times]);
      r := AddBinaryOperation("/", arith.divide, 20);
      assert State() == Config(DefaultConfig(arith).binary, [], [], arith);
      DefaultUnaryAndBracketsRegister(arith);
      r := AddUnaryOperation("-", arith.negate, 30);
      r := AddBrackets("(", ")");
    }

    /** AddOperation(symbol, Func<double, double, double>, priority). */
    method AddBinaryOperation(symbol: string, action: (V, V) -> V, priority: nat) returns (r: Outcome)
      requires Valid()
      modifies this
      ensures Valid()
      ensures var next := AddBinary(old(State()), BinaryOperation(symbol, action, priority));
        && (next.Err? ==> r == Fail(next.error) && State() == old(State()))
        && (next.Ok? ==> r == Pass && State() == next.value)
    {
      var valid := ValidateOperation(State(), symbol);
      if valid.Err? {
        return Fail(valid.error);
      }
      AddBinaryKeepsWellFormed(State(), BinaryOperation(symbol, action, priority));
      if valid.value {
        binaryOperations := binaryOperations + [BinaryOperation(symbol, action, priority)];
      }
      return Pass;
    }

    /** AddOperation(symbol, Func<double, double>, priority). */
    method AddUnaryOperation(symbol: string, action: V -> V, priority: nat) returns (r: Outcome)
      requires Valid()
      modifies this
      ensures Valid()
      ensures var next := AddUnary(old(State()), symbol, action, priority);
        && (next.Err? ==> r == Fail(next.error) && State() == old(State()))
        && (next.Ok? ==> r == Pass && State() == next.value)
    {
      var key := symbol;
      if IsBinaryOperation(State(), symbol) {
        key := "UNARY" + symbol;
      }
      var valid := ValidateOperation(State(), key);
      if valid.Err? {
        return Fail(valid.error);
      }
      AddUnaryKeepsWellFormed(State(), symbol, action, priority);
      if valid.value {
        unaryOperations := unaryOperations + [UnaryOperation(key, action, priority)];
      }
      return Pass;
    }

    /** AddBrackets(open, close). */
    method AddBrackets(open: string, close: string) returns (r: Outcome)
      requires Valid()
      modifies this
      ensures Valid()
      ensures var next := AddBracketPair(old(State()), open, close);
        && (next.Err? ==> r == Fail(next.error) && State() == old(State()))
        && (next.Ok? ==> r == Pass && State() == next.value)
    {
      var valid := ValidateBrackets(State(), open, close);
      if valid.Err? {
        return Fail(valid.error);
      }
      AddBracketPairKeepsWellFormed(State(), open, close);
      if valid.value {
        brackets := brackets + [Bracket(open, close)];
      }
      return Pass;
    }

    /** Seporate: the parts of the expression, matched one after the other.
        `rest` is the text from the current position on, which each match
        is tried against; advancing the position drops the matched text. */
    method Seporate(expression: string) returns (r: Scan)
      requires Valid()
      ensures r == Lexemes(State(), expression, None)
    {
      var c := State();
      var rest := expression;
      var lastPart: Option<string> := None;
      var parts: seq<string> := [];
      PrefixedTwice([], [], Lexemes(c, expression, None));
      while |rest| > 0
        invariant Lexemes(c, expression, None) == Prefixed(parts, Lexemes(c, rest, lastPart))
        decreases |rest|
      {
        var next := NextPart(c, rest, lastPart);
        if next.Err? {
          assert Lexemes(c, expression, None) == Scan(parts, Some(next.error)) by {
            LexemesStep(c, rest, lastPart);
            assert parts + [] == parts;
          }
          return Scan(parts, Some(next.error));
        }
        var part := next.value;
        assert Lexemes(c, expression, None) ==
          Prefixed(parts + [part.group], Lexemes(c, rest[part.length..], Some(part.group))) by {
          LexemesStep(c, rest, lastPart);
          PrefixedTwice(parts, [part.group], Lexemes(c, rest[part.length..], Some(part.group)));
        }
        parts := parts + [part.group];
        lastPart := Some(part.group);
        rest := rest[part.length..];
      }
      assert parts + [] == parts;
      return Scan(parts, None);
    }

    /** Postfix: the infix expression in postfix form, lexemes separated by
      single blanks. */
    method Postfix(expression: string) returns (r: Result<string>)
      requires Valid()
      ensures r == PostfixText(State(), expression)
    {
      var c := State();
      var e := Trim(expression);
      if |e| == 0 {
        return Err(EmptyExpression);
      }
      var scan := Seporate(e);
      var opens := Opens(brackets);
      var output: seq<string> := [];
      var stack: seq<Operand> := [];
      var rest := scan.parts;
      while rest != []
        invariant Run(c, Converter([], []), scan.parts) == Run(c, Converter(output, stack), rest)
        decreases |rest|
      {
        var next := PostfixPart(output, stack, rest[0]);
        RunTurn(c, Converter(output, stack), rest);
        if next.Err? {
          return Err(next.error);
        }
        output, stack := next.value.output, next.value.stack;
        rest := rest[1..];
      }
      if scan.failure.Some? {
        return Err(scan.failure.value);
      }
      var drained := PopAll(output, stack, opens);
      if drained.Err? {
        return Err(drained.error);
      }
      output := drained.value;
      return Ok(Trim(Render(output)));
    }

    /** One turn of the Postfix loop: the part goes to the output, onto the
      stack, or pops operators first, by its lexeme type. */
    method PostfixPart(output: seq<string>, stack: seq<Operand>, part: string) returns (r: Result<Converter>)
      requires Valid()
      ensures r == Step(State(), Converter(output, stack), part)
    {
      var c := State();
      var kind := GetLexemeType(c, part);
      if kind.Err? {
        return Err(kind.error);
      }
      var output', stack' := output, stack;
      match kind.value {
        case Number =>
          output' := output' + [part];
        case OpenBracket =>
          stack' := stack' + [Operand(part, 0)];
        case BinaryOp | UnaryOp =>
          var currentOperation := OperationOf(c, part);
          output', stack' := PopOperators(output', stack', currentOperation.priority);
          stack' := stack' + [currentOperation];
        case CloseBracket =>
          var popped := PopToOpen(output', stack', ClosedBy(c.brackets, part).open, Opens(brackets));
          if popped.Err? {
            return Err(popped.error);
          }
          output', stack' := popped.value.output, popped.value.stack;
        case Unknown =>
      }
      return Ok(Converter(output', stack'));
    }

    /** Solve: the value of the expression. */
    method Solve(expression: string) returns (r: Result<V>)
      requires Valid()
      ensures r == Solution(State(), expression)
    {
      var postfixExpression := Postfix(expression);
      if postfixExpression.Err? {
        return Err(postfixExpression.error);
      }
      var numbers := EvaluateParts(Split(postfixExpression.value, ' '));
      if numbers.Err? {
        return Err(numbers.error);
      }
      if |numbers.value| != 1 {
        return Err(ErrorInExpression);
      }
      return Ok(numbers.value[0]);
    }

    /** The loop of Solve over the parts of the postfix text, with the
      number stack it leaves. */
    method EvaluateParts(parts: seq<string>) returns (r: Result<seq<V>>)
      ensures r == Evaluate(State(), [], parts)
    {
      var c := State();
      var numbersStack: seq<V> := [];
      var rest := parts;
      while rest != []
        invariant Evaluate(c, [], parts) == Evaluate(c, numbersStack, rest)
        decreases |rest|
      {
        var part := rest[0];
        EvaluateTurn(c, numbersStack, rest);
        var kind := GetLexemeType(c, part);
        if kind.Err? {
          return Err(kind.error);
        }
        match kind.value {
          case Number =>
            numbersStack := numbersStack + [arith.parse(part).value];
          case BinaryOp =>
            if |numbersStack| < 2 {
              return Err(ErrorInExpression);
            }
            var y := numbersStack[|numbersStack| - 1];
            var x := numbersStack[|numbersStack| - 2];
            numbersStack := numbersStack[..|numbersStack| - 2] + [BinaryOf(c, part).action(x, y)];
          case UnaryOp =>
            if |numbersStack| < 1 {
              return Err(ErrorInExpression);
            }
            var x := numbersStack[|numbersStack| - 1];
            numbersStack := numbersStack[..|numbersStack| - 1] + [UnaryOf(c, part).action(x)];
          case _ =>
            return Err(SomethingWrong);
        }
        rest := rest[1..];
      }
      return Ok(numbersStack);
    }
  }
}
