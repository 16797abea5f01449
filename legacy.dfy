/** CalculatorLibrary/Class1.cs: the older calculator, calculator.Calculator,
    with binary operations only. Its registration checks come in a different
    order and with their own messages, its Seporate does not rewrite prefix
    operations, and its Solve scans the postfix text again and refuses a NaN
    result. */
module Legacy {
  import opened Common
  import opened Text
  import opened Symbols
  import opened Scanner
  import opened ShuntingYard

  /** The two lists the calculator holds, and the double arithmetic. */
  datatype Config<!V> = Config(
    operations: seq<BinaryOperation<V>>,
    brackets: seq<Bracket>,
    arith: Arithmetic<V>)

  predicate IsOperation<V>(c: Config<V>, lexeme: string) {
    lexeme in BinarySymbols(c.operations)
  }

  predicate IsOpenBracket<V>(c: Config<V>, lexeme: string) {
    lexeme in Opens(c.brackets)
  }

  predicate IsCloseBracket<V>(c: Config<V>, lexeme: string) {
    lexeme in Closes(c.brackets)
  }

  predicate IsBracket<V>(c: Config<V>, lexeme: string) {
    IsOpenBracket(c, lexeme) || IsCloseBracket(c, lexeme)
  }

  /** double.TryParse succeeds on a number literal that fits a double. */
  predicate IsNumber<V>(c: Config<V>, lexeme: string) {
    IsNumeral(lexeme) && c.arith.parse(lexeme).Some?
  }

  /** Regex.Match(s, @"(\d+(,\d+)?)|,").Success: a digit or a comma
      anywhere in s. */
  predicate HasNumberOrComma(s: string) {
    HasDigit(s) || ',' in s
  }

  /** A symbol registration accepts: a word without digits and commas. */
  predicate IsPlainSymbol(s: string) {
    IsSymbol(s) && ',' !in s
  }

  /** What registration keeps true of the lists: every symbol is plain, an
      operation symbol is registered once and is no bracket symbol, and the
      symbols of the bracket pairs are all different. */
  predicate WellFormed<V>(c: Config<V>) {
    && (forall i :: 0 <= i < |c.operations| ==> IsPlainSymbol(c.operations[i].symbol) && !IsBracket(c, c.operations[i].symbol))
    && (forall i, j :: 0 <= i < j < |c.operations| ==> c.operations[i].symbol != c.operations[j].symbol)
    && (forall i :: 0 <= i < |c.brackets| ==>
          IsPlainSymbol(c.brackets[i].open) && IsPlainSymbol(c.brackets[i].close) && c.brackets[i].open != c.brackets[i].close)
    && (forall i, j :: 0 <= i < j < |c.brackets| ==>
          && c.brackets[i].open != c.brackets[j].open && c.brackets[i].open != c.brackets[j].close
          && c.brackets[i].close != c.brackets[j].open && c.brackets[i].close != c.brackets[j].close)
  }

  // ---------------------------------------------------------------------
  // Registration

  /** The private AddOperation. Its checks run in order: an empty symbol, a
      symbol with whitespace, a symbol already registered (then nothing
      changes), a bracket symbol, a digit or a comma. */
  function WithOperation<V>(c: Config<V>, op: BinaryOperation<V>): (r: Result<Config<V>>)
    ensures r == Err(IncorrectOperationData) <==> op.symbol == ""
    ensures r == Err(SymbolIncludesWhitespace) <==> op.symbol != "" && HasSpace(op.symbol)
    ensures r == Err(OperationSymbolIsBracket) <==>
      IsWord(op.symbol) && !IsOperation(c, op.symbol) && IsBracket(c, op.symbol)
    ensures r == Err(IllegalOperationFormat) <==>
      IsWord(op.symbol) && !IsOperation(c, op.symbol) && !IsBracket(c, op.symbol) && HasNumberOrComma(op.symbol)
    ensures r.Ok? <==>
      IsWord(op.symbol) && (IsOperation(c, op.symbol) || (!IsBracket(c, op.symbol) && IsPlainSymbol(op.symbol)))
    ensures r.Ok? && IsOperation(c, op.symbol) ==> r.value == c
    ensures r.Ok? && !IsOperation(c, op.symbol) ==> r.value == c.(operations := c.operations + [op])
  {
    var s := op.symbol;
    if s == "" then Err(IncorrectOperationData)
    else if HasSpace(s) then Err(SymbolIncludesWhitespace)
    else if IsOperation(c, s) then Ok(c)
    else if IsBracket(c, s) then Err(OperationSymbolIsBracket)
    else if HasNumberOrComma(s) then Err(IllegalOperationFormat)
    else Ok(c.(operations := c.operations + [op]))
  }

  /** Some registered bracket symbol equals one of the two. */
  predicate Overlaps<V>(c: Config<V>, open: string, close: string) {
    IsBracket(c, open) || IsBracket(c, close)
  }

  /** The private AddBrackets. Its checks run in order: an empty symbol,
      whitespace, the same pair already registered (then nothing changes),
      any other shared bracket symbol, an operation symbol, equal symbols, a
      digit or a comma. */
  function WithBracketPair<V>(c: Config<V>, open: string, close: string): (r: Result<Config<V>>)
    ensures r == Err(IncorrectBracketsData) <==> open == "" || close == ""
    ensures r == Err(SymbolIncludesWhitespace) <==> open != "" && close != "" && (HasSpace(open) || HasSpace(close))
    ensures IsWord(open) && IsWord(close) && Bracket(open, close) in c.brackets ==> r == Ok(c)
    ensures r == Err(BracketsOverlap) <==>
      IsWord(open) && IsWord(close) && Bracket(open, close) !in c.brackets && Overlaps(c, open, close)
    ensures r == Err(SymbolIsOperation) <==>
      IsWord(open) && IsWord(close) && !Overlaps(c, open, close) && (IsOperation(c, open) || IsOperation(c, close))
    ensures r == Err(SameBrackets) <==>
      IsWord(open) && IsWord(close) && !Overlaps(c, open, close) && !IsOperation(c, open) && !IsOperation(c, close)
      && open == close
    ensures r == Err(IllegalBracketFormat) <==>
      IsWord(open) && IsWord(close) && !Overlaps(c, open, close) && !IsOperation(c, open) && !IsOperation(c, close)
      && open != close && (HasNumberOrComma(open) || HasNumberOrComma(close))
    ensures r.Ok? <==>
      IsWord(open) && IsWord(close) &&
      (Bracket(open, close) in c.brackets ||
        (!Overlaps(c, open, close) && !IsOperation(c, open) && !IsOperation(c, close) && open != close
         && !HasNumberOrComma(open) && !HasNumberOrComma(close)))
    ensures r.Ok? && Bracket(open, close) !in c.brackets ==>
      r.value == c.(brackets := c.brackets + [Bracket(open, close)])
  {
    if open == "" || close == "" then Err(IncorrectBracketsData)
    else if HasSpace(open) || HasSpace(close) then Err(SymbolIncludesWhitespace)
    else if Bracket(open, close) in c.brackets then Ok(c)
    else if Overlaps(c, open, close) then Err(BracketsOverlap)
    else if IsOperation(c, open) || IsOperation(c, close) then Err(SymbolIsOperation)
    else if open == close then Err(SameBrackets)
    else if HasNumberOrComma(open) || HasNumberOrComma(close) then Err(IllegalBracketFormat)
    else Ok(c.(brackets := c.brackets + [Bracket(open, close)]))
  }

  /** A pair that is registered has symbols that are brackets. */
  lemma RegisteredPairOverlaps<V>(c: Config<V>, b: Bracket)
    requires b in c.brackets
    ensures IsOpenBracket(c, b.open) && IsCloseBracket(c, b.close)
  {
    var i :| 0 <= i < |c.brackets| && c.brackets[i] == b;
    assert Opens(c.brackets)[i] == b.open && Closes(c.brackets)[i] == b.close;
  }

  lemma WithOperationKeepsWellFormed<V>(c: Config<V>, op: BinaryOperation<V>)
    requires WellFormed(c)
    ensures WithOperation(c, op).Ok? ==> WellFormed(WithOperation(c, op).value)
  {
  }

  lemma WithBracketPairKeepsWellFormed<V>(c: Config<V>, open: string, close: string)
    requires WellFormed(c)
    ensures WithBracketPair(c, open, close).Ok? ==> WellFormed(WithBracketPair(c, open, close).value)
  {
  }

  /** What the constructor registers: + and - of priority 10, * and / of
      priority 20, and the round brackets. */
  function DefaultConfig<V>(arith: Arithmetic<V>): Config<V> {
    Config(
      [ BinaryOperation("+", arith.add, 10), BinaryOperation("-", arith.subtract, 10),
        BinaryOperation("*", arith.multiply, 20), BinaryOperation("/", arith.divide, 20) ],
      [Bracket("(", ")")],
      arith)
  }

  /** GetOperationBySymbol: the first operation with the symbol. */
  function OperationOf<V>(c: Config<V>, symbol: string): (r: BinaryOperation<V>)
    requires IsOperation(c, symbol)
    ensures r in c.operations && r.symbol == symbol
    ensures exists i :: 0 <= i < |c.operations| && c.operations[i] == r && forall j :: 0 <= j < i ==> c.operations[j].symbol != symbol
  {
    var i := FirstIndex(BinarySymbols(c.operations), symbol).value;
    c.operations[i]
  }

  // ---------------------------------------------------------------------
  // Seporate

  /** CreatePartRegex: the alternatives of the part pattern. */
  function Alternatives<V>(c: Config<V>): (r: seq<string>)
    ensures SortedByLength(r)
    ensures forall a :: a in r <==> IsBracket(c, a) || IsOperation(c, a)
  {
    PartAlternatives(c.brackets, BinarySymbols(c.operations))
  }

  /** A lexeme Seporate can yield: a word that is a number literal or a
      registered symbol. */
  predicate IsToken<V>(c: Config<V>, lexeme: string) {
    IsWord(lexeme) && (IsNumeral(lexeme) || lexeme in Alternatives(c))
  }

  /** In a well-formed calculator every alternative is a plain symbol. */
  lemma AlternativesArePlain<V>(c: Config<V>)
    requires WellFormed(c)
    ensures forall a :: a in Alternatives(c) ==> IsPlainSymbol(a)
  {
    forall a | a in Alternatives(c) ensures IsPlainSymbol(a) {
      if IsOperation(c, a) {
        var i :| 0 <= i < |c.operations| && BinarySymbols(c.operations)[i] == a;
      } else if IsOpenBracket(c, a) {
        var i :| 0 <= i < |c.brackets| && Opens(c.brackets)[i] == a;
      } else {
        var i :| 0 <= i < |c.brackets| && Closes(c.brackets)[i] == a;
      }
    }
  }

  /** Seporate on s: one match after the other, "Illegal expression" where
      nothing matches. */
  function Lexemes<V>(c: Config<V>, s: string): (r: Scan)
    requires WellFormed(c)
    ensures r.failure.Some? ==> r.failure.value == IllegalExpression
    ensures forall i :: 0 <= i < |r.parts| ==> IsToken(c, r.parts[i])
    decreases |s|
  {
    if |s| == 0 then Scan([], None)
    else
      match MatchPart(s, Alternatives(c))
      case None => Scan([], Some(IllegalExpression))
      case Some(p) =>
        assert IsWord(p.group) by {
          AlternativesArePlain(c);
          if p.group !in Alternatives(c) {
            NumeralIsWord(p.group);
          }
        }
        var rest := Lexemes(c, s[p.length..]);
        var parts := [p.group] + rest.parts;
        assert parts[0] == p.group && forall i :: 0 < i < |parts| ==> parts[i] == rest.parts[i - 1];
        Scan(parts, rest.failure)
  }

  // ---------------------------------------------------------------------
  // Postfix

  /** One turn of the Postfix loop, the tests in the order of the original:
      number, open bracket, operation, close bracket, then "Number too big"
      for a lexeme starting with a digit and "Something wrong!" otherwise. */
  function Step<V>(c: Config<V>, st: Converter, part: string): (r: Result<Converter>)
  {
    if IsNumber(c, part) then Ok(Converter(st.output + [part], st.stack))
    else if IsOpenBracket(c, part) then Ok(Converter(st.output, st.stack + [Operand(part, 0)]))
    else if IsOperation(c, part) then
      var op := OperationOf(c, part);
      var popped := PopWhileAtLeast(st, op.priority);
      Ok(Converter(popped.output, popped.stack + [Operand(op.symbol, op.priority)]))
    else if IsCloseBracket(c, part) then PopUntilOpen(st, ClosedBy(c.brackets, part).open, Opens(c.brackets))
    else if |part| > 0 && IsDigit(part[0]) then Err(NumberTooBig)
    else Err(SomethingWrong)
  }

  /** The Postfix loop over parts, stopping at the first exception. */
  function Run<V>(c: Config<V>, st: Converter, parts: seq<string>): (r: Result<Converter>)
    decreases |parts|
  {
    if parts == [] then Ok(st)
    else
      match Step(c, st, parts[0])
      case Err(e) => Err(e)
      case Ok(next) => Run(c, next, parts[1..])
  }

  /** The lexemes Postfix appends: "Empty expression" for a blank
      expression, then the first exception of the loop, of Seporate, or of
      the final popping. */
  function PostfixLexemes<V>(c: Config<V>, expression: string): (r: Result<seq<string>>)
    requires WellFormed(c)
  {
    var e := Trim(expression);
    if |e| == 0 then Err(EmptyExpression)
    else
      var scan := Lexemes(c, e);
      match Run(c, Converter([], []), scan.parts)
      case Err(err) => Err(err)
      case Ok(st) =>
        if scan.failure.Some? then Err(scan.failure.value)
        else Drain(st, Opens(c.brackets))
  }

  /** Postfix returns the StringBuilder's text as it is: every lexeme
      preceded by one blank, the first included. */
  function PostfixText<V>(c: Config<V>, expression: string): (r: Result<string>)
    requires WellFormed(c)
    ensures r.Ok? ==> PostfixLexemes(c, expression).Ok? && r.value == Render(PostfixLexemes(c, expression).value)
    ensures r.Err? ==> PostfixLexemes(c, expression) == Err(r.error)
  {
    match PostfixLexemes(c, expression)
    case Err(e) => Err(e)
    case Ok(ls) => Ok(Render(ls))
  }

  // ---------------------------------------------------------------------
  // Solve

  /** One turn of the Solve loop: a number is pushed; an operation pops y,
      then x, and pushes action(x, y), "Error in expression" when fewer than
      two numbers are there and "Result is too big" when the result is NaN;
      "Something wrong!" for any other lexeme. */
  function Apply<V>(c: Config<V>, numbers: seq<V>, part: string): (r: Result<seq<V>>)
  {
    if IsNumber(c, part) then Ok(numbers + [c.arith.parse(part).value])
    else if IsOperation(c, part) then
      var n := |numbers|;
      if n < 2 then Err(ErrorInExpression)
      else
        var v := OperationOf(c, part).action(numbers[n - 2], numbers[n - 1]);
        if c.arith.isNaN(v) then Err(ResultTooBig) else Ok(numbers[..n - 2] + [v])
    else Err(SomethingWrong)
  }

  /** The Solve loop over parts, stopping at the first exception. */
  function Evaluate<V>(c: Config<V>, numbers: seq<V>, parts: seq<string>): (r: Result<seq<V>>)
    decreases |parts|
  {
    if parts == [] then Ok(numbers)
    else
      match Apply(c, numbers, parts[0])
      case Err(e) => Err(e)
      case Ok(next) => Evaluate(c, next, parts[1..])
  }

  /** Solve: the postfix text is scanned again and evaluated; exactly one
      number must remain. */
  function Solution<V>(c: Config<V>, expression: string): (r: Result<V>)
    requires WellFormed(c)
  {
    match PostfixText(c, expression)
    case Err(e) => Err(e)
    case Ok(text) =>
      var scan := Lexemes(c, text);
      match Evaluate(c, [], scan.parts)
      case Err(e) => Err(e)
      case Ok(numbers) =>
        if scan.failure.Some? then Err(scan.failure.value)
        else if |numbers| != 1 then Err(ErrorInExpression)
        else Ok(numbers[0])
  }

  // ---------------------------------------------------------------------
  // The class

  /** One turn of Seporate on a non-empty rest. */
  lemma LexemesStep<V>(c: Config<V>, s: string)
    requires WellFormed(c) && |s| > 0
    ensures MatchPart(s, Alternatives(c)).None? ==> Lexemes(c, s) == Scan([], Some(IllegalExpression))
    ensures MatchPart(s, Alternatives(c)).Some? ==>
      var p := MatchPart(s, Alternatives(c)).value;
      0 < p.length && Lexemes(c, s) == Prefixed([p.group], Lexemes(c, s[p.length..]))
  {
    if MatchPart(s, Alternatives(c)).Some? {
      AlternativesArePlain(c);
      var p := MatchPart(s, Alternatives(c)).value;
      if p.group !in Alternatives(c) {
        NumeralIsWord(p.group);
      }
    }
  }

  /** One turn of the Postfix loop. */
  lemma RunTurn<V>(c: Config<V>, st: Converter, parts: seq<string>)
    requires parts != []
    ensures Run(c, st, parts) ==
      match Step(c, st, parts[0])
      case Err(e) => Err(e)
      case Ok(next) => Run(c, next, parts[1..])
  {
  }

  /** One turn of the Solve loop. */
  lemma EvaluateTurn<V>(c: Config<V>, numbers: seq<V>, parts: seq<string>)
    requires parts != []
    ensures Evaluate(c, numbers, parts) ==
      match Apply(c, numbers, parts[0])
      case Err(e) => Err(e)
      case Ok(next) => Evaluate(c, next, parts[1..])
  {
  }

  /** The parts the constructor registers pass validation, in order. */
  lemma DefaultsRegister<V>(arith: Arithmetic<V>)
    ensures var c0 := Config([], [], arith);
      && WithOperation(c0, BinaryOperation("+", arith.add, 10)).Ok?
      && var c1 := WithOperation(c0, BinaryOperation("+", arith.add, 10)).value;
      && WithOperation(c1, BinaryOperation("-", arith.subtract, 10)).Ok?
      && var c2 := WithOperation(c1, BinaryOperation("-", arith.subtract, 10)).value;
      && WithOperation(c2, BinaryOperation("*", arith.multiply, 20)).Ok?
      && var c3 := WithOperation(c2, BinaryOperation("*", arith.multiply, 20)).value;
      && WithOperation(c3, BinaryOperation("/", arith.divide, 20)).Ok?
      && var c4 := WithOperation(c3, BinaryOperation("/", arith.divide, 20)).value;
      && WithBracketPair(c4, "(", ")").Ok?
      && WithBracketPair(c4, "(", ")").value == DefaultConfig(arith)
  {
    var c0 := Config([], [], arith);
    var plus, minus := BinaryOperation("+", arith.add, 10), BinaryOperation("-", arith.subtract, 10);
    var times, over := BinaryOperation("*", arith.multiply, 20), BinaryOperation("/", arith.divide, 20);
    DefaultOperationsRegister(arith);
    DefaultBracketsRegister(arith);
  }

  /** The four operations of the constructor pass validation in order, each
      extending the list. */
  lemma DefaultOperationsRegister<V>(arith: Arithmetic<V>)
    ensures var c0 := Config([], [], arith);
      var plus, minus := BinaryOperation("+", arith.add, 10), BinaryOperation("-", arith.subtract, 10);
      var times, over := BinaryOperation("*", arith.multiply, 20), BinaryOperation("/", arith.divide, 20);
      && WithOperation(c0, plus) == Ok(c0.(operations := [plus]))
      && WithOperation(c0.(operations := [plus]), minus) == Ok(c0.(operations := [plus, minus]))
      && WithOperation(c0.(operations := [plus, minus]), times) == Ok(c0.(operations := [plus, minus, times]))
      && WithOperation(c0.(operations := [plus, minus, times]), over) == Ok(c0.(operations := [plus, minus, times, over]))
  {
    var c0 := Config([], [], arith);
    var plus, minus := BinaryOperation("+", arith.add, 10), BinaryOperation("-", arith.subtract, 10);
    var times, over := BinaryOperation("*", arith.multiply, 20), BinaryOperation("/", arith.divide, 20);
    assert IsPlainSymbol("+") && IsPlainSymbol("-") && IsPlainSymbol("*") && IsPlainSymbol("/");
    assert Opens(c0.brackets) == [] && Closes(c0.brackets) == [];
    assert BinarySymbols([plus]) == ["+"];
    assert BinarySymbols([plus, minus]) == ["+", "-"];
    assert BinarySymbols([plus, minus, times]) == ["+", "-", "*"];
    assert [] + [plus] == [plus] && [plus] + [minus] == [plus, minus];
    assert [plus, minus] + [times] == [plus, minus, times];
    assert [plus, minus, times] + [over] == [plus, minus, times, over];
  }

  /** The round brackets pass validation once the four operations are
      registered, and complete the default configuration. */
  lemma DefaultBracketsRegister<V>(arith: Arithmetic<V>)
    ensures var c4 := Config(DefaultConfig(arith).operations, [], arith);
      WithBracketPair(c4, "(", ")") == Ok(DefaultConfig(arith))
  {
    var c4 := Config(DefaultConfig(arith).operations, [], arith);
    assert IsPlainSymbol("(") && IsPlainSymbol(")");
    assert BinarySymbols(c4.operations) == ["+", "-", "*", "/"];
    assert Opens(c4.brackets) == [] && Closes(c4.brackets) == [];
    assert !IsOperation(c4, "(") && !IsOperation(c4, ")");
    assert !Overlaps(c4, "(", ")") && Bracket("(", ")") !in c4.brackets;
    assert !HasNumberOrComma("(") && !HasNumberOrComma(")") && !HasSpace("(") && !HasSpace(")");
    assert c4.brackets + [Bracket("(", ")")] == [Bracket("(", ")")];
    assert WithBracketPair(c4, "(", ")") == Ok(c4.(brackets := [Bracket("(", ")")]));
  }

  /** calculator.Calculator. Registration updates its two lists in place;
      Solve and the private methods it calls only read them. */
  class Calculator<V> {
    const arith: Arithmetic<V>
    var operations: seq<BinaryOperation<V>>
    var brackets: seq<Bracket>

    function State(): Config<V>
      reads this
    {
      Config(operations, brackets, arith)
    }

    predicate Valid()
      reads this
    {
      WellFormed(State())
    }

    /** Registers the four operations and the round brackets through the
        private registration methods. */
    constructor (arith: Arithmetic<V>)
      ensures Valid()
      ensures State() == DefaultConfig(arith)
    {
      this.arith := arith;
      operations, brackets := [], [];
      new;
      DefaultsRegister(arith);
      var r := AddOperation(BinaryOperation("+", arith.add, 10));
      r := AddOperation(BinaryOperation("-", arith.subtract, 10));
      r := AddOperation(BinaryOperation("*", arith.multiply, 20));
      r := AddOperation(BinaryOperation("/", arith.divide, 20));
      r := AddBrackets(Bracket("(", ")"));
    }

    /** AddOperation(Operation), which the public
        AddOperation(symbol, action, priority) calls. */
    method AddOperation(newOperation: BinaryOperation<V>) returns (r: Outcome)
      requires Valid()
      modifies this
      ensures Valid()
      ensures var next := WithOperation(old(State()), newOperation);
        && (next.Err? ==> r == Fail(next.error) && State() == old(State()))
        && (next.Ok? ==> r == Pass && State() == next.value)
    {
      var symbol := newOperation.symbol;
      if symbol == "" {
        return Fail(IncorrectOperationData);
      } else if HasSpace(symbol) {
        return Fail(SymbolIncludesWhitespace);
      } else if symbol in BinarySymbols(operations) {
        return Pass;
      } else if symbol in Opens(brackets) || symbol in Closes(brackets) {
        return Fail(OperationSymbolIsBracket);
      } else if HasNumberOrComma(symbol) {
        return Fail(IllegalOperationFormat);
      }
      WithOperationKeepsWellFormed(State(), newOperation);
      operations := operations + [newOperation];
      return Pass;
    }

    /** AddBrackets(Bracket), which the public AddBrackets(open, close)
        calls. */
    method AddBrackets(newBrackets: Bracket) returns (r: Outcome)
      requires Valid()
      modifies this
      ensures Valid()
      ensures var next := WithBracketPair(old(State()), newBrackets.open, newBrackets.close);
        && (next.Err? ==> r == Fail(next.error) && State() == old(State()))
        && (next.Ok? ==> r == Pass && State() == next.value)
    {
      var open, close := newBrackets.open, newBrackets.close;
      if open == "" || close == "" {
        return Fail(IncorrectBracketsData);
      } else if HasSpace(open) || HasSpace(close) {
        return Fail(SymbolIncludesWhitespace);
      } else if newBrackets in brackets {
        return Pass;
      } else if open in Opens(brackets) || open in Closes(brackets) || close in Opens(brackets) || close in Closes(brackets) {
        return Fail(BracketsOverlap);
      } else if open in BinarySymbols(operations) || close in BinarySymbols(operations) {
        return Fail(SymbolIsOperation);
      } else if open == close {
        return Fail(SameBrackets);
      } else if HasNumberOrComma(open) || HasNumberOrComma(close) {
        return Fail(IllegalBracketFormat);
      }
      WithBracketPairKeepsWellFormed(State(), open, close);
      brackets := brackets + [newBrackets];
      return Pass;
    }

    /** GetOperationBySymbol: the first operation with the symbol, or
        "Something wrong!". */
    method GetOperationBySymbol(symbol: string) returns (r: Result<BinaryOperation<V>>)
      ensures IsOperation(State(), symbol) ==> r == Ok(OperationOf(State(), symbol))
      ensures !IsOperation(State(), symbol) ==> r == Err(SomethingWrong)
    {
      for i := 0 to |operations|
        invariant forall j :: 0 <= j < i ==> operations[j].symbol != symbol
      {
        if operations[i].symbol == symbol {
          assert BinarySymbols(operations)[i] == symbol;
          assert forall j :: 0 <= j < i ==> BinarySymbols(operations)[j] != symbol;
          return Ok(operations[i]);
        }
      }
      assert forall j :: 0 <= j < |operations| ==> BinarySymbols(operations)[j] != symbol;
      return Err(SomethingWrong);
    }

    /** GetBracketByCloseSymbol: the first pair closed by the symbol, or
        "Something wrong!". */
    method GetBracketByCloseSymbol(symbol: string) returns (r: Result<Bracket>)
      ensures IsCloseBracket(State(), symbol) ==> r == Ok(ClosedBy(State().brackets, symbol))
      ensures !IsCloseBracket(State(), symbol) ==> r == Err(SomethingWrong)
    {
      for i := 0 to |brackets|
        invariant forall j :: 0 <= j < i ==> brackets[j].close != symbol
      {
        if brackets[i].close == symbol {
          assert Closes(brackets)[i] == symbol;
          assert forall j :: 0 <= j < i ==> Closes(brackets)[j] != symbol;
          return Ok(brackets[i]);
        }
      }
      assert forall j :: 0 <= j < |brackets| ==> Closes(brackets)[j] != symbol;
      return Err(SomethingWrong);
    }

    /** Seporate: the parts of the expression, matched one after the other.
        `rest` is the text from the current position on, which each match
        is tried against; advancing the position drops the matched text. */
    method Seporate(expression: string) returns (r: Scan)
      requires Valid()
      ensures r == Lexemes(State(), expression)
    {
      var c := State();
      var rest := expression;
      var parts: seq<string> := [];
      PrefixedTwice([], [], Lexemes(c, expression));
      while |rest| > 0
        invariant Lexemes(c, expression) == Prefixed(parts, Lexemes(c, rest))
        decreases |rest|
      {
        var regexResult := MatchPart(rest, Alternatives(c));
        if regexResult.None? {
          assert Lexemes(c, expression) == Scan(parts, Some(IllegalExpression)) by {
            LexemesStep(c, rest);
            assert parts + [] == parts;
          }
          return Scan(parts, Some(IllegalExpression));
        }
        var part := regexResult.value;
        assert 0 < part.length &&
          Lexemes(c, expression) == Prefixed(parts + [part.group], Lexemes(c, rest[part.length..])) by {
          LexemesStep(c, rest);
          PrefixedTwice(parts, [part.group], Lexemes(c, rest[part.length..]));
        }
        parts := parts + [part.group];
        rest := rest[part.length..];
      }
      assert parts + [] == parts;
      return Scan(parts, None);
    }

    /** Postfix: the infix expression in postfix form, every lexeme preceded
        by a blank. */
    method Postfix(expression: string) returns (r: Result<string>)
      requires Valid()
      ensures r == PostfixText(State(), expression)
    {
      var c := State();
      var e := Trim(expression);
      if |e| == 0 {
        return Err(EmptyExpression);
      }
      var scan := Seporate(e);
      var opens := Opens(brackets);
      var output: seq<string> := [];
      var stack: seq<Operand> := [];
      var rest := scan.parts;
      while rest != []
        invariant Run(c, Converter([], []), scan.parts) == Run(c, Converter(output, stack), rest)
        decreases |rest|
      {
        var part := rest[0];
        RunTurn(c, Converter(output, stack), rest);
        if IsNumber(c, part) {
          output := output + [part];
        } else if part in opens {
          stack := stack + [Operand(part, 0)];
        } else if part in BinarySymbols(operations) {
          var currentOperation := GetOperationBySymbol(part);
          var op := currentOperation.value;
          output, stack := PopOperators(output, stack, op.priority);
          stack := stack + [Operand(op.symbol, op.priority)];
        } else if part in Closes(brackets) {
          var currentBrackets := GetBracketByCloseSymbol(part);
          var popped := PopToOpen(output, stack, currentBrackets.value.open, opens);
          if popped.Err? {
            return Err(popped.error);
          }
          output, stack := popped.value.output, popped.value.stack;
        } else if |part| > 0 && IsDigit(part[0]) {
          return Err(NumberTooBig);
        } else {
          return Err(SomethingWrong);
        }
        rest := rest[1..];
      }
      if scan.failure.Some? {
        return Err(scan.failure.value);
      }
      var drained := PopAll(output, stack, opens);
      if drained.Err? {
        return Err(drained.error);
      }
      return Ok(Render(drained.value));
    }

    /** Solve: the value of the expression. */
    method Solve(expression: string) returns (r: Result<V>)
      requires Valid()
      ensures r == Solution(State(), expression)
    {
      var postfixExpression := Postfix(expression);
      if postfixExpression.Err? {
        return Err(postfixExpression.error);
      }
      var scan := Seporate(postfixExpression.value);
      var numbers := EvaluateParts(scan.parts);
      if numbers.Err? {
        return Err(numbers.error);
      }
      if scan.failure.Some? {
        return Err(scan.failure.value);
      }
      if |numbers.value| != 1 {
        return Err(ErrorInExpression);
      }
      return Ok(numbers.value[0]);
    }

    /** The loop of Solve over the parts, on the stack of numbers. */
    method EvaluateParts(parts: seq<string>) returns (r: Result<seq<V>>)
      ensures r == Evaluate(State(), [], parts)
    {
      var c := State();
      var numbersStack: seq<V> := [];
      var rest := parts;
      while rest != []
        invariant Evaluate(c, [], parts) == Evaluate(c, numbersStack, rest)
        decreases |rest|
      {
        var part := rest[0];
        EvaluateTurn(c, numbersStack, rest);
        if IsNumber(c, part) {
          numbersStack := numbersStack + [arith.parse(part).value];
        } else if part in BinarySymbols(operations) {
          var n := |numbersStack|;
          if n < 2 {
            return Err(ErrorInExpression);
          }
          var y := numbersStack[n - 1];
          var x := numbersStack[n - 2];
          var operation := GetOperationBySymbol(part);
          numbersStack := numbersStack[..n - 2] + [operation.value.action(x, y)];
          if arith.isNaN(numbersStack[n - 2]) {
            return Err(ResultTooBig);
          }
        } else {
          return Err(SomethingWrong);
        }
        rest := rest[1..];
      }
      return Ok(numbersStack);
    }
  }
}
