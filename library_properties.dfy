/** Properties of the calculator of CalculatorLibrary/Calculator.cs: what
    registration keeps and refuses, how Postfix orders operations, and how
    Solve reads the postfix text back. */
module LibraryProperties {
  import opened Common
  import opened Text
  import opened Symbols
  import opened Scanner
  import opened ShuntingYard
  import opened Library

  // ---------------------------------------------------------------------
  // Registration

  /** A bracket pair is never silently ignored: adding a pair that is
      already registered throws "Error while adding brackets". */
  lemma BracketPairNeverIgnored<V>(c: Config<V>, b: Bracket)
    requires b in c.brackets
    ensures AddBracketPair(c, b.open, b.close) == Err(ErrorAddingBrackets)
  {
    var i :| 0 <= i < |c.brackets| && c.brackets[i] == b;
    assert Opens(c.brackets)[i] == b.open;
  }

  /** Registering a unary operation appends it even when the same one is
      already registered: validation looks at the binary operations only. */
  lemma UnaryRegisteredTwice<V>(c: Config<V>, symbol: string, action: V -> V, priority: nat)
    requires AddUnary(c, symbol, action, priority).Ok?
    requires !IsBinaryOperation(c, UnaryKey(c, symbol))
    ensures var c1 := AddUnary(c, symbol, action, priority).value;
      && AddUnary(c1, symbol, action, priority).Ok?
      && |AddUnary(c1, symbol, action, priority).value.unary| == |c.unary| + 2
  {
    var c1 := AddUnary(c, symbol, action, priority).value;
    assert c1.binary == c.binary && c1.brackets == c.brackets;
    assert UnaryKey(c1, symbol) == UnaryKey(c, symbol);
  }

  /** The constructor leaves a well-formed calculator whose unary minus is
      registered under the key Seporate gives a leading minus. */
  lemma DefaultConfigWellFormed<V>(arith: Arithmetic<V>)
    ensures WellFormed(DefaultConfig(arith))
    ensures IsUnaryOperation(DefaultConfig(arith), "UNARY" + "-")
  {
    var c := DefaultConfig(arith);
    DefaultSymbols();
    DefaultBinariesWellFormed(arith);
    assert UnarySymbols(c.unary) == ["UNARY-"];
    assert "UNARY" + "-" == "UNARY-";
  }

  /** The four binary symbols of the constructor are distinct symbols and
      none is a bracket. */
  lemma DefaultBinariesWellFormed<V>(arith: Arithmetic<V>)
    ensures var c := DefaultConfig(arith);
      && (forall i :: 0 <= i < |c.binary| ==> IsSymbol(c.binary[i].symbol) && !IsBracket(c, c.binary[i].symbol))
      && (forall i, j :: 0 <= i < j < |c.binary| ==> c.binary[i].symbol != c.binary[j].symbol)
  {
    var c := DefaultConfig(arith);
    DefaultSymbols();
    assert Opens(c.brackets) == ["("] && Closes(c.brackets) == [")"];
    assert BinarySymbols(c.binary) == ["+", "-", "*", "/"];
  }

  // ---------------------------------------------------------------------
  // Postfix text and Solve

  lemma SymbolIsNoNumeral(s: string)
    requires IsSymbol(s)
    ensures !IsNumeral(s)
  {
    if IsNumeral(s) {
      NumeralIsWord(s);
    }
  }

  /** In a well-formed calculator every registered symbol is a word that is
      no number literal. */
  lemma RegisteredAreSymbols<V>(c: Config<V>, s: string)
    requires WellFormed(c)
    requires IsBinaryOperation(c, s) || IsUnaryOperation(c, s) || IsBracket(c, s)
    ensures IsSymbol(s) && !IsNumeral(s)
  {
    if IsBinaryOperation(c, s) {
      var i :| 0 <= i < |c.binary| && BinarySymbols(c.binary)[i] == s;
    } else if IsUnaryOperation(c, s) {
      var i :| 0 <= i < |c.unary| && UnarySymbols(c.unary)[i] == s;
    } else if IsOpenBracket(c, s) {
      var i :| 0 <= i < |c.brackets| && Opens(c.brackets)[i] == s;
    } else {
      var i :| 0 <= i < |c.brackets| && Closes(c.brackets)[i] == s;
    }
    SymbolIsNoNumeral(s);
  }

  lemma StepKeepsWords<V>(c: Config<V>, st: Converter, part: string)
    requires WellFormed(c) && IsWord(part) && Holds(st, IsWord)
    ensures Step(c, st, part).Ok? ==> Holds(Step(c, st, part).value, IsWord)
  {
    var t := GetLexemeType(c, part);
    if t == Ok(BinaryOp) || t == Ok(UnaryOp) {
      var op := OperationOf(c, part);
      StepOfOperation(c, st, part);
      PopWhileAtLeastKeeps(st, op.priority, IsWord);
      PushKeeps(PopWhileAtLeast(st, op.priority), op, IsWord);
    } else if t == Ok(CloseBracket) {
      var open := ClosedBy(c.brackets, part).open;
      assert Step(c, st, part) == PopUntilOpen(st, open, Opens(c.brackets));
      PopUntilOpenKeeps(st, open, Opens(c.brackets), IsWord);
    } else if t == Ok(Number) {
      assert Step(c, st, part) == Ok(Converter(st.output + [part], st.stack));
      OutputKeeps(st, part, IsWord);
    } else if t == Ok(OpenBracket) {
      assert Step(c, st, part) == Ok(Converter(st.output, st.stack + [Operand(part, 0)]));
      PushKeeps(st, Operand(part, 0), IsWord);
    } else {
      assert Step(c, st, part).Ok? ==> Step(c, st, part).value == st;
    }
  }

  lemma {:induction false} RunKeepsWords<V>(c: Config<V>, st: Converter, parts: seq<string>)
    requires WellFormed(c) && Holds(st, IsWord)
    requires forall i :: 0 <= i < |parts| ==> IsWord(parts[i])
    ensures Run(c, st, parts).Ok? ==> Holds(Run(c, st, parts).value, IsWord)
    decreases |parts|
  {
    if parts != [] {
      StepKeepsWords(c, st, parts[0]);
      if Step(c, st, parts[0]).Ok? {
        RunKeepsWords(c, Step(c, st, parts[0]).value, parts[1..]);
      }
    }
  }

  /** Every lexeme Postfix appends is a word: a number literal, or the
      symbol of an operation or a bracket. */
  lemma PostfixLexemesAreWords<V>(c: Config<V>, expression: string)
    requires WellFormed(c)
    ensures PostfixLexemes(c, expression).Ok? ==>
      forall i :: 0 <= i < |PostfixLexemes(c, expression).value| ==> IsWord(PostfixLexemes(c, expression).value[i])
  {
    var e := Trim(expression);
    if |e| > 0 {
      var scan := Lexemes(c, e, None);
      assert Holds(Converter([], []), IsWord);
      RunKeepsWords(c, Converter([], []), scan.parts);
      var run := Run(c, Converter([], []), scan.parts);
      if run.Ok? {
        DrainKeeps(run.value, Opens(c.brackets), IsWord);
      }
    }
  }

  /** Solve splits the postfix text at blanks and gets back the lexemes
      Postfix appended, or the single empty string when there are none. */
  lemma PostfixTextSplits<V>(c: Config<V>, expression: string)
    requires WellFormed(c)
    ensures PostfixLexemes(c, expression).Ok? ==>
      var ls := PostfixLexemes(c, expression).value;
      && PostfixText(c, expression) == Ok(Trim(Render(ls)))
      && Split(PostfixText(c, expression).value, ' ') == if ls == [] then [""] else ls
  {
    if PostfixLexemes(c, expression).Ok? {
      PostfixLexemesAreWords(c, expression);
      RenderTrimSplit(PostfixLexemes(c, expression).value);
    }
  }

  /** Solve evaluates exactly the lexemes Postfix produced; an expression
      that yields none, such as "()", fails with "Something wrong!" because
      the empty string left by the split is no lexeme. */
  lemma SolveEvaluatesPostfix<V>(c: Config<V>, expression: string)
    requires WellFormed(c)
    ensures PostfixLexemes(c, expression).Err? ==> Solution(c, expression) == Err(PostfixLexemes(c, expression).error)
    ensures PostfixLexemes(c, expression).Ok? && PostfixLexemes(c, expression).value != [] ==>
      Solution(c, expression) == Remaining(Evaluate(c, [], PostfixLexemes(c, expression).value))
    ensures PostfixLexemes(c, expression) == Ok([]) ==> Solution(c, expression) == Err(SomethingWrong)
  {
    PostfixTextSplits(c, expression);
    if PostfixLexemes(c, expression) == Ok([]) {
      assert !IsNumeral("");
      if IsBinaryOperation(c, "") || IsUnaryOperation(c, "") || IsBracket(c, "") {
        RegisteredAreSymbols(c, "");
      }
      assert GetLexemeType(c, "") == Ok(Unknown);
      ApplyUnknown(c, [], "");
      assert Evaluate(c, [], [""]) == Err(SomethingWrong);
    }
  }

  /** The Solve loop refuses a lexeme of no known kind. */
  lemma ApplyUnknown<V>(c: Config<V>, numbers: seq<V>, part: string)
    requires GetLexemeType(c, part) == Ok(Unknown)
    ensures Apply(c, numbers, part) == Err(SomethingWrong)
  {
  }

  /** The Postfix loop throws only "Number too big" and "Error in brackets". */
  lemma {:induction false} RunErrors<V>(c: Config<V>, st: Converter, parts: seq<string>)
    ensures Run(c, st, parts).Err? ==>
      Run(c, st, parts).error == NumberTooBig || Run(c, st, parts).error == ErrorInBrackets
    decreases |parts|
  {
    if parts != [] {
      var next := Step(c, st, parts[0]);
      if next.Ok? {
        RunErrors(c, next.value, parts[1..]);
      }
    }
  }

  /** The Solve loop throws only "Number too big", "Error in expression"
      and "Something wrong!". */
  lemma {:induction false} EvaluateErrors<V>(c: Config<V>, numbers: seq<V>, parts: seq<string>)
    ensures Evaluate(c, numbers, parts).Err? ==>
      || Evaluate(c, numbers, parts).error == NumberTooBig
      || Evaluate(c, numbers, parts).error == ErrorInExpression
      || Evaluate(c, numbers, parts).error == SomethingWrong
    decreases |parts|
  {
    if parts != [] {
      var next := Apply(c, numbers, parts[0]);
      if next.Ok? {
        EvaluateErrors(c, next.value, parts[1..]);
      }
    }
  }

  /** A non-blank expression is never reported as empty by Postfix. */
  lemma PostfixNotEmpty<V>(c: Config<V>, expression: string)
    requires WellFormed(c) && !IsBlank(expression)
    ensures PostfixText(c, expression) != Err(EmptyExpression)
  {
    var e := Trim(expression);
    assert PostfixLexemes(c, expression) != Err(EmptyExpression) by {
      RunErrors(c, Converter([], []), Lexemes(c, e, None).parts);
    }
  }

  /** Solve throws "Empty expression" exactly for a blank expression. */
  lemma EmptyExpressionIff<V>(c: Config<V>, expression: string)
    requires WellFormed(c)
    ensures Solution(c, expression) == Err(EmptyExpression) <==> IsBlank(expression)
  {
    if !IsBlank(expression) {
      PostfixNotEmpty(c, expression);
      var text := PostfixText(c, expression);
      if text.Ok? {
        EvaluateErrors(c, [], Split(text.value, ' '));
      }
    }
  }

  // ---------------------------------------------------------------------
  // Precedence and associativity

  /** The Postfix loop on x o1 y o2 z: o1 is applied first when its
      priority is at least that of o2 (so operations of one priority group
      to the left), and o2 first otherwise. */
  lemma Precedence<V>(c: Config<V>, x: string, o1: string, y: string, o2: string, z: string)
    requires WellFormed(c)
    requires IsNumber(c, x) && IsNumber(c, y) && IsNumber(c, z)
    requires IsBinaryOperation(c, o1) && IsBinaryOperation(c, o2)
    ensures Run(c, Converter([], []), [x, o1, y, o2, z]).Ok?
    ensures Drain(Run(c, Converter([], []), [x, o1, y, o2, z]).value, Opens(c.brackets)) ==
      if BinaryOf(c, o1).priority >= BinaryOf(c, o2).priority then Ok([x, y, o1, z, o2]) else Ok([x, y, z, o2, o1])
  {
    var p1, p2 := BinaryOf(c, o1).priority, BinaryOf(c, o2).priority;
    var op1 := Operand(o1, p1);
    var s0 := Converter([], []);
    var s1 := Converter([x], []);
    var s2 := Converter([x], [op1]);
    var s3 := Converter([x, y], [op1]);
    StepNumber(c, s0, x);
    assert [] + [x] == [x];
    StepOperation(c, s1, o1);
    assert PopWhileAtLeast(s1, p1) == s1;
    assert [] + [op1] == [op1];
    StepNumber(c, s2, y);
    assert [x] + [y] == [x, y];
    RunCons(c, s2, y, [o2, z]);
    RunCons(c, s1, o1, [y, o2, z]);
    RunCons(c, s0, x, [o1, y, o2, z]);
    BinaryIsNoOpen(c, o1);
    BinaryIsNoOpen(c, o2);
    if p1 >= p2 {
      PrecedenceHigher(c, x, o1, y, o2, z);
    } else {
      PrecedenceLower(c, x, o1, y, o2, z);
    }
  }

  lemma PrecedenceHigher<V>(c: Config<V>, x: string, o1: string, y: string, o2: string, z: string)
    requires WellFormed(c) && IsNumber(c, z)
    requires IsBinaryOperation(c, o1) && IsBinaryOperation(c, o2)
    requires BinaryOf(c, o1).priority >= BinaryOf(c, o2).priority
    ensures Run(c, Converter([x, y], [Operand(o1, BinaryOf(c, o1).priority)]), [o2, z]).Ok?
    ensures Drain(Run(c, Converter([x, y], [Operand(o1, BinaryOf(c, o1).priority)]), [o2, z]).value, Opens(c.brackets))
      == Ok([x, y, o1, z, o2])
  {
    var p1, p2 := BinaryOf(c, o1).priority, BinaryOf(c, o2).priority;
    var op2 := Operand(o2, p2);
    var s3 := Converter([x, y], [Operand(o1, p1)]);
    var s4 := Converter([x, y, o1], [op2]);
    var s5 := Converter([x, y, o1, z], [op2]);
    StepOperation(c, s3, o2);
    assert PopWhileAtLeast(Converter([x, y, o1], []), p2) == Converter([x, y, o1], []);
    assert PopWhileAtLeast(s3, p2) == Converter([x, y, o1], []);
    assert [] + [op2] == [op2];
    StepNumber(c, s4, z);
    assert [x, y, o1] + [z] == [x, y, o1, z];
    RunCons(c, s4, z, []);
    RunCons(c, s3, o2, [z]);
    BinaryIsNoOpen(c, o2);
    PoppedTop([], op2);
    assert [x, y, o1, z] + [o2] == [x, y, o1, z, o2];
  }

  lemma PrecedenceLower<V>(c: Config<V>, x: string, o1: string, y: string, o2: string, z: string)
    requires WellFormed(c) && IsNumber(c, z)
    requires IsBinaryOperation(c, o1) && IsBinaryOperation(c, o2)
    requires BinaryOf(c, o1).priority < BinaryOf(c, o2).priority
    ensures Run(c, Converter([x, y], [Operand(o1, BinaryOf(c, o1).priority)]), [o2, z]).Ok?
    ensures Drain(Run(c, Converter([x, y], [Operand(o1, BinaryOf(c, o1).priority)]), [o2, z]).value, Opens(c.brackets))
      == Ok([x, y, z, o2, o1])
  {
    var p1, p2 := BinaryOf(c, o1).priority, BinaryOf(c, o2).priority;
    var op1, op2 := Operand(o1, p1), Operand(o2, p2);
    var s3 := Converter([x, y], [op1]);
    var s4 := Converter([x, y], [op1, op2]);
    var s5 := Converter([x, y, z], [op1, op2]);
    StepOperation(c, s3, o2);
    assert PopWhileAtLeast(s3, p2) == s3;
    assert [op1] + [op2] == [op1, op2];
    StepNumber(c, s4, z);
    assert [x, y] + [z] == [x, y, z];
    RunCons(c, s4, z, []);
    RunCons(c, s3, o2, [z]);
    BinaryIsNoOpen(c, o1);
    BinaryIsNoOpen(c, o2);
    assert Run(c, s3, [o2, z]) == Ok(s5);
    DrainTwo([x, y, z], op1, op2, Opens(c.brackets));
    assert [x, y, z] + [o2, o1] == [x, y, z, o2, o1];
  }

  /** The Postfix loop on a first part that does not throw. */
  lemma RunCons<V>(c: Config<V>, st: Converter, part: string, rest: seq<string>)
    requires Step(c, st, part).Ok?
    ensures Run(c, st, [part] + rest) == Run(c, Step(c, st, part).value, rest)
  {
    assert ([part] + rest)[1..] == rest;
  }

  /** The Postfix loop on a number appends it. */
  lemma StepNumber<V>(c: Config<V>, st: Converter, x: string)
    requires IsNumber(c, x)
    ensures Step(c, st, x) == Ok(Converter(st.output + [x], st.stack))
  {
  }

  /** The Postfix loop on a binary operation pops, then pushes it. */
  lemma StepOperation<V>(c: Config<V>, st: Converter, o: string)
    requires WellFormed(c) && IsBinaryOperation(c, o)
    ensures var popped := PopWhileAtLeast(st, BinaryOf(c, o).priority);
      Step(c, st, o) == Ok(Converter(popped.output, popped.stack + [Operand(o, BinaryOf(c, o).priority)]))
  {
    RegisteredAreSymbols(c, o);
  }

  /** A binary symbol is no open bracket in a well-formed calculator. */
  lemma BinaryIsNoOpen<V>(c: Config<V>, s: string)
    requires WellFormed(c) && IsBinaryOperation(c, s)
    ensures s !in Opens(c.brackets)
  {
    var j :| 0 <= j < |c.binary| && BinarySymbols(c.binary)[j] == s;
  }

  // ---------------------------------------------------------------------
  // Evaluation

  /** A lexeme the Solve loop consumes: a number or an operation. */
  predicate Evaluable<V>(c: Config<V>, lexeme: string) {
    IsNumber(c, lexeme) || IsBinaryOperation(c, lexeme) || IsUnaryOperation(c, lexeme)
  }

  function EvaluableIn<V>(c: Config<V>): string -> bool {
    s => Evaluable(c, s)
  }

  /** How many numbers the lexeme takes off the stack; an evaluable lexeme
      then pushes one. */
  function Arity<V>(c: Config<V>, lexeme: string): nat {
    match GetLexemeType(c, lexeme)
    case Ok(BinaryOp) => 2
    case Ok(UnaryOp) => 1
    case _ => 0
  }

  /** Starting from `height` numbers, no lexeme finds fewer numbers on the
      stack than it takes. */
  predicate Fits<V>(c: Config<V>, height: nat, parts: seq<string>)
    decreases |parts|
  {
    parts == [] || (Arity(c, parts[0]) <= height && Fits(c, height - Arity(c, parts[0]) + 1, parts[1..]))
  }

  /** The change of the stack height over the lexemes. */
  function Net<V>(c: Config<V>, parts: seq<string>): int
    decreases |parts|
  {
    if parts == [] then 0 else 1 - Arity(c, parts[0]) + Net(c, parts[1..])
  }

  /** The Solve loop over evaluable lexemes fails exactly when the stack runs
      short, and then with "Error in expression"; otherwise the stack ends
      with its height changed by Net. */
  lemma {:induction false} EvaluateHeight<V>(c: Config<V>, numbers: seq<V>, parts: seq<string>)
    requires forall i :: 0 <= i < |parts| ==> Evaluable(c, parts[i])
    ensures Evaluate(c, numbers, parts).Ok? <==> Fits(c, |numbers|, parts)
    ensures Evaluate(c, numbers, parts).Ok? ==> |Evaluate(c, numbers, parts).value| == |numbers| + Net(c, parts)
    ensures Evaluate(c, numbers, parts).Err? ==> Evaluate(c, numbers, parts).error == ErrorInExpression
    decreases |parts|
  {
    if parts != [] {
      assert Evaluable(c, parts[0]);
      var a := Apply(c, numbers, parts[0]);
      assert a.Ok? <==> Arity(c, parts[0]) <= |numbers|;
      if a.Ok? {
        assert |a.value| == |numbers| - Arity(c, parts[0]) + 1;
        EvaluateHeight(c, a.value, parts[1..]);
      }
    }
  }

  /** Every registered operation has a positive priority, so that no
      operation pops an open bracket. */
  predicate PositivePriorities<V>(c: Config<V>) {
    && (forall i :: 0 <= i < |c.binary| ==> c.binary[i].priority > 0)
    && (forall i :: 0 <= i < |c.unary| ==> c.unary[i].priority > 0)
  }

  lemma StepKeepsEvaluable<V>(c: Config<V>, st: Converter, part: string)
    requires WellFormed(c) && PositivePriorities(c)
    requires HoldsBesideOpens(st, EvaluableIn(c), Opens(c.brackets))
    ensures Step(c, st, part).Ok? ==> HoldsBesideOpens(Step(c, st, part).value, EvaluableIn(c), Opens(c.brackets))
  {
    var t := GetLexemeType(c, part);
    var opens := Opens(c.brackets);
    var P := EvaluableIn(c);
    if t == Ok(BinaryOp) || t == Ok(UnaryOp) {
      StepOfOperation(c, st, part);
      OperationKeepsEvaluable(c, st, part);
    } else if t == Ok(CloseBracket) {
      var open := ClosedBy(c.brackets, part).open;
      assert Step(c, st, part) == PopUntilOpen(st, open, opens);
      PopUntilOpenKeepsBeside(st, open, P, opens);
    } else if t == Ok(Number) {
      assert Step(c, st, part) == Ok(Converter(st.output + [part], st.stack));
      assert P(part);
      OutputKeepsBeside(st, part, P, opens);
    } else if t == Ok(OpenBracket) {
      assert Step(c, st, part) == Ok(Converter(st.output, st.stack + [Operand(part, 0)]));
      PushKeepsBeside(st, Operand(part, 0), P, opens);
    } else {
      assert Step(c, st, part).Ok? ==> Step(c, st, part).value == st;
    }
  }

  /** The Postfix turn on an operation: the pops, then the push. */
  lemma StepOfOperation<V>(c: Config<V>, st: Converter, part: string)
    requires GetLexemeType(c, part) == Ok(BinaryOp) || GetLexemeType(c, part) == Ok(UnaryOp)
    ensures var op := OperationOf(c, part);
      var popped := PopWhileAtLeast(st, op.priority);
      Step(c, st, part) == Ok(Converter(popped.output, popped.stack + [op]))
  {
  }

  /** An operation pops entries of positive priority only, then is pushed. */
  lemma OperationKeepsEvaluable<V>(c: Config<V>, st: Converter, part: string)
    requires WellFormed(c) && PositivePriorities(c)
    requires HoldsBesideOpens(st, EvaluableIn(c), Opens(c.brackets))
    requires GetLexemeType(c, part) == Ok(BinaryOp) || GetLexemeType(c, part) == Ok(UnaryOp)
    ensures var op := OperationOf(c, part);
      var popped := PopWhileAtLeast(st, op.priority);
      HoldsBesideOpens(Converter(popped.output, popped.stack + [op]), EvaluableIn(c), Opens(c.brackets))
  {
    var op := OperationOf(c, part);
    var P, opens := EvaluableIn(c), Opens(c.brackets);
    var popped := PopWhileAtLeast(st, op.priority);
    assert op.priority > 0 && P(op.symbol) by {
      if IsBinaryOperation(c, part) {
        var i :| 0 <= i < |c.binary| && c.binary[i] == BinaryOf(c, part);
      } else {
        var i :| 0 <= i < |c.unary| && c.unary[i] == UnaryOf(c, part);
      }
    }
    assert HoldsBesideOpens(popped, P, opens) by {
      PopWhileAtLeastKeepsBeside(st, op.priority, P, opens);
    }
    PushKeepsBeside(popped, op, P, opens);
  }

  lemma {:induction false} RunKeepsEvaluable<V>(c: Config<V>, st: Converter, parts: seq<string>)
    requires WellFormed(c) && PositivePriorities(c)
    requires HoldsBesideOpens(st, EvaluableIn(c), Opens(c.brackets))
    ensures Run(c, st, parts).Ok? ==> HoldsBesideOpens(Run(c, st, parts).value, EvaluableIn(c), Opens(c.brackets))
    decreases |parts|
  {
    if parts != [] {
      StepKeepsEvaluable(c, st, parts[0]);
      if Step(c, st, parts[0]).Ok? {
        RunKeepsEvaluable(c, Step(c, st, parts[0]).value, parts[1..]);
      }
    }
  }

  /** With operations of positive priority, Postfix only appends numbers and
      operations: open brackets are dropped by their close bracket or make
      the final popping fail. */
  lemma PostfixLexemesAreEvaluable<V>(c: Config<V>, expression: string)
    requires WellFormed(c) && PositivePriorities(c)
    ensures PostfixLexemes(c, expression).Ok? ==>
      forall i :: 0 <= i < |PostfixLexemes(c, expression).value| ==> Evaluable(c, PostfixLexemes(c, expression).value[i])
  {
    var e := Trim(expression);
    if |e| > 0 {
      var scan := Lexemes(c, e, None);
      var opens := Opens(c.brackets);
      assert HoldsBesideOpens(Converter([], []), EvaluableIn(c), opens);
      RunKeepsEvaluable(c, Converter([], []), scan.parts);
      var run := Run(c, Converter([], []), scan.parts);
      if run.Ok? && scan.failure.None? {
        DrainKeepsBeside(run.value, EvaluableIn(c), opens);
        var ls := Drain(run.value, opens);
        if ls.Ok? {
          forall i | 0 <= i < |ls.value| ensures Evaluable(c, ls.value[i]) {
            assert EvaluableIn(c)(ls.value[i]);
          }
        }
      }
    }
  }

  /** Solve on an expression Postfix accepts succeeds exactly when its
      postfix lexemes never find the stack short and leave one number;
      otherwise it fails with "Error in expression". */
  lemma SolveSucceedsIff<V>(c: Config<V>, expression: string)
    requires WellFormed(c) && PositivePriorities(c)
    requires PostfixLexemes(c, expression).Ok? && PostfixLexemes(c, expression).value != []
    ensures var ls := PostfixLexemes(c, expression).value;
      Solution(c, expression).Ok? <==> Fits(c, 0, ls) && Net(c, ls) == 1
    ensures Solution(c, expression).Err? ==> Solution(c, expression).error == ErrorInExpression
  {
    var ls := PostfixLexemes(c, expression).value;
    assert Solution(c, expression) == Remaining(Evaluate(c, [], ls)) by {
      SolveEvaluatesPostfix(c, expression);
    }
    assert forall i :: 0 <= i < |ls| ==> Evaluable(c, ls[i]) by {
      PostfixLexemesAreEvaluable(c, expression);
    }
    RemainingOfEvaluable(c, ls);
  }

  /** What remains of evaluable lexemes: one number exactly when the stack
      never runs short and ends one higher; "Error in expression" otherwise. */
  lemma RemainingOfEvaluable<V>(c: Config<V>, ls: seq<string>)
    requires forall i :: 0 <= i < |ls| ==> Evaluable(c, ls[i])
    ensures Remaining(Evaluate(c, [], ls)).Ok? <==> Fits(c, 0, ls) && Net(c, ls) == 1
    ensures Remaining(Evaluate(c, [], ls)).Err? ==> Remaining(Evaluate(c, [], ls)).error == ErrorInExpression
  {
    EvaluateHeight(c, [], ls);
  }

  /** The Solve loop on x y o pops y, then x, and pushes o's action on x and
      y in that order. */
  lemma OperandOrder<V>(c: Config<V>, x: string, y: string, o: string)
    requires WellFormed(c) && IsNumber(c, x) && IsNumber(c, y) && IsBinaryOperation(c, o)
    ensures Evaluate(c, [], [x, y, o]) ==
      Ok([BinaryOf(c, o).action(c.arith.parse(x).value, c.arith.parse(y).value)])
  {
    RegisteredAreSymbols(c, o);
    var a, b := c.arith.parse(x).value, c.arith.parse(y).value;
    SymbolIsNoNumeral(o);
    assert [] + [a] == [a] && [a] + [b] == [a, b] && [a, b][..0] == [];
    assert Apply(c, [], x) == Ok([a]);
    assert Apply(c, [a], y) == Ok([a, b]);
    assert GetLexemeType(c, o) == Ok(BinaryOp);
    assert [a, b][..0] + [BinaryOf(c, o).action(a, b)] == [BinaryOf(c, o).action(a, b)];
    assert Apply(c, [a, b], o) == Ok([BinaryOf(c, o).action(a, b)]);
    assert [x, y, o][1..] == [y, o] && [y, o][1..] == [o] && [o][1..] == [];
    assert Evaluate(c, [a, b], [o]) == Ok([BinaryOf(c, o).action(a, b)]);
    assert Evaluate(c, [a], [y, o]) == Ok([BinaryOf(c, o).action(a, b)]);
  }

  /** The Solve loop on x u, u a unary operation that is no binary one,
      replaces x by u's action on it. */
  lemma UnaryOperand<V>(c: Config<V>, x: string, u: string)
    requires WellFormed(c) && IsNumber(c, x) && IsUnaryOperation(c, u) && !IsBinaryOperation(c, u)
    ensures Evaluate(c, [], [x, u]) == Ok([UnaryOf(c, u).action(c.arith.parse(x).value)])
  {
    var a := c.arith.parse(x).value;
    assert [] + [a] == [a];
    assert Apply(c, [], x) == Ok([a]);
    ApplyUnary(c, a, u);
    assert [x, u][1..] == [u] && [u][1..] == [];
    assert Evaluate(c, [a], [u]) == Ok([UnaryOf(c, u).action(a)]);
  }

  /** A unary operation that is no binary one replaces the only number by
      its action on it. */
  lemma ApplyUnary<V>(c: Config<V>, a: V, u: string)
    requires WellFormed(c) && IsUnaryOperation(c, u) && !IsBinaryOperation(c, u)
    ensures Apply(c, [a], u) == Ok([UnaryOf(c, u).action(a)])
  {
    RegisteredAreSymbols(c, u);
    SymbolIsNoNumeral(u);
    assert [a][..0] == [];
    assert GetLexemeType(c, u) == Ok(UnaryOp);
    assert [a][..0] + [UnaryOf(c, u).action(a)] == [UnaryOf(c, u).action(a)];
  }

  // ---------------------------------------------------------------------
  // Scanning and prefix operations

  /** What Seporate can yield: a number literal, a bracket or binary symbol,
      or a binary symbol with the prefix "UNARY". */
  ghost predicate Scannable<V>(c: Config<V>, lexeme: string) {
    || IsNumeral(lexeme) || IsBracket(c, lexeme) || IsBinaryOperation(c, lexeme)
    || exists b :: IsBinaryOperation(c, b) && lexeme == "UNARY" + b
  }

  lemma {:induction false} LexemesAreScannable<V>(c: Config<V>, s: string, last: Option<string>)
    requires WellFormed(c)
    ensures forall i :: 0 <= i < |Lexemes(c, s, last).parts| ==> Scannable(c, Lexemes(c, s, last).parts[i])
    decreases |s|
  {
    if |s| > 0 && NextPart(c, s, last).Ok? {
      var p := NextPart(c, s, last).value;
      var m := MatchPart(s, Alternatives(c)).value;
      if p.group != m.group {
        assert IsBinaryOperation(c, m.group) && p.group == "UNARY" + m.group;
      }
      assert Scannable(c, p.group);
      LexemesAreScannable(c, s[p.length..], Some(p.group));
      var rest := Lexemes(c, s[p.length..], Some(p.group));
      assert Lexemes(c, s, last).parts == [p.group] + rest.parts;
    }
  }

  /** A unary operation whose symbol is neither a bracket nor a binary symbol
      with the prefix "UNARY" never enters the part pattern, so Seporate
      never yields it. */
  lemma UnaryNeverScanned<V>(c: Config<V>, u: string, s: string, last: Option<string>)
    requires WellFormed(c) && IsUnaryOperation(c, u) && !Scannable(c, u)
    ensures u !in Lexemes(c, s, last).parts
  {
    LexemesAreScannable(c, s, last);
  }

  /** The first turn of Seporate on a non-empty rest: "Illegal expression"
      when nothing matches; the "UNARY" form of a binary symbol where an
      operand is expected, or "Illegal expression" when that form is no
      unary operation; otherwise the match itself. Seporate then goes on
      after the match. */
  lemma LexemesRewrite<V>(c: Config<V>, s: string, last: Option<string>)
    requires WellFormed(c) && |s| > 0
    ensures var m := MatchPart(s, Alternatives(c));
      m.None? ==> Lexemes(c, s, last) == Scan([], Some(IllegalExpression))
    ensures var m := MatchPart(s, Alternatives(c));
      m.Some? && IsBinaryOperation(c, m.value.group) && OperandExpected(c, last) ==>
        var u := "UNARY" + m.value.group;
        Lexemes(c, s, last) ==
          if IsUnaryOperation(c, u) then Prefixed([u], Lexemes(c, s[m.value.length..], Some(u)))
          else Scan([], Some(IllegalExpression))
    ensures var m := MatchPart(s, Alternatives(c));
      m.Some? && !(IsBinaryOperation(c, m.value.group) && OperandExpected(c, last)) ==>
        Lexemes(c, s, last) == Prefixed([m.value.group], Lexemes(c, s[m.value.length..], Some(m.value.group)))
  {
    LexemesStep(c, s, last);
  }

  /** Two prefix operations in a row, as Seporate yields "--8": the second
      pops the first, which has at least its own priority, before its
      operand is seen, so Postfix gives u x u and Solve fails with
      "Error in expression". */
  lemma DoublePrefix<V>(c: Config<V>, u: string, x: string)
    requires WellFormed(c) && IsNumber(c, x)
    requires IsUnaryOperation(c, u) && !IsBinaryOperation(c, u) && !IsOpenBracket(c, u)
    ensures Run(c, Converter([], []), [u, u, x]).Ok?
    ensures Drain(Run(c, Converter([], []), [u, u, x]).value, Opens(c.brackets)) == Ok([u, x, u])
    ensures Evaluate(c, [], [u, x, u]) == Err(ErrorInExpression)
  {
    var op := OperationOf(c, u);
    var s0, s1 := Converter([], []), Converter([], [op]);
    var s2, s3 := Converter([u], [op]), Converter([u, x], [op]);
    PrefixSteps(c, u);
    StepNumber(c, s2, x);
    assert [u] + [x] == [u, x];
    RunCons(c, s2, x, []);
    RunCons(c, s1, u, [x]);
    RunCons(c, s0, u, [u, x]);
    PoppedTop([], op);
    assert [u, x] + [u] == [u, x, u];
    assert Apply(c, [], u) == Err(ErrorInExpression);
  }

  /** A prefix operation goes onto an empty stack, and a second one pops
      it to the output before taking its place. */
  lemma PrefixSteps<V>(c: Config<V>, u: string)
    requires WellFormed(c)
    requires IsUnaryOperation(c, u) && !IsBinaryOperation(c, u) && !IsOpenBracket(c, u)
    ensures var op := OperationOf(c, u);
      && Step(c, Converter([], []), u) == Ok(Converter([], [op]))
      && Step(c, Converter([], [op]), u) == Ok(Converter([u], [op]))
  {
    RegisteredAreSymbols(c, u);
    SymbolIsNoNumeral(u);
    var op := OperationOf(c, u);
    assert GetLexemeType(c, u) == Ok(UnaryOp);
    StepOfOperation(c, Converter([], []), u);
    StepOfOperation(c, Converter([], [op]), u);
    PopEqualPriority(op);
  }

  /** An entry is popped by an operation of its own priority; an empty stack
      stays empty. */
  lemma PopEqualPriority(op: Operand)
    ensures PopWhileAtLeast(Converter([], []), op.priority) == Converter([], [])
    ensures PopWhileAtLeast(Converter([], [op]), op.priority) == Converter([op.symbol], [])
    ensures [] + [op] == [op]
  {
    assert [] + [op.symbol] == [op.symbol];
  }

  // ---------------------------------------------------------------------
  // The console driver

  /** The alternatives of the constructor's part pattern are the bracket
      symbols and the four operators. */
  lemma DefaultAlternatives<V>(arith: Arithmetic<V>)
    ensures forall a :: a in Alternatives(DefaultConfig(arith)) <==> a in ["(", ")", "+", "-", "*", "/"]
  {
    var c := DefaultConfig(arith);
    assert Opens(c.brackets) == ["("] && Closes(c.brackets) == [")"];
    assert BinarySymbols(c.binary) == ["+", "-", "*", "/"];
  }

  /** A rest that starts with '-' matches "-" when no other alternative
      starts with '-'. */
  lemma MatchOfMinus(s: string, alts: seq<string>)
    requires |s| > 0 && s[0] == '-'
    requires "-" in alts && forall a :: a in alts && a <= s ==> a == "-"
    ensures MatchPart(s, alts) == Some(Part("-", 1))
  {
    assert LeadingSpaces(s) == 0 && s[0..] == s;
    assert NumberLength(s) == 0;
    assert "-" <= s;
    assert s[..1] == "-";
  }

  /** In the constructor's configuration a rest that starts with '-' matches
      the binary minus, the only registered symbol that starts with it. */
  lemma DefaultMatchOfMinus<V>(arith: Arithmetic<V>, s: string)
    requires |s| > 0 && s[0] == '-'
    ensures MatchPart(s, Alternatives(DefaultConfig(arith))) == Some(Part("-", 1))
  {
    DefaultAlternatives(arith);
    OnlyMinusStartsWithMinus(s);
    MatchOfMinus(s, Alternatives(DefaultConfig(arith)));
  }

  /** Of the constructor's symbols, only "-" is a prefix of a text that
      starts with '-'. */
  lemma OnlyMinusStartsWithMinus(s: string)
    requires |s| > 0 && s[0] == '-'
    ensures forall a :: a in ["(", ")", "+", "-", "*", "/"] && a <= s ==> a == "-"
  {
    forall a | a in ["(", ")", "+", "-", "*", "/"] && a <= s ensures a == "-" {
      assert a[0] == s[0];
    }
  }

  /** A rest "8" matches the literal 8. */
  lemma MatchOfEight(alts: seq<string>)
    ensures MatchPart("8", alts) == Some(Part("8", 1))
  {
    assert LeadingSpaces("8") == 0 && "8"[0..] == "8";
    assert DigitRun("8"[1..]) == 0;
    assert NumberLength("8") == 1;
    assert "8"[..1] == "8";
  }

  /** The start of the console driver's expression, "--8": Seporate yields
      the key of unary minus twice and then 8, Postfix gives
      "UNARY- 8 UNARY-", and Solve fails with "Error in expression" instead
      of giving 8. */
  lemma DriverMinusMinusEight<V>(arith: Arithmetic<V>)
    requires arith.parse("8").Some?
    ensures WellFormed(DefaultConfig(arith))
    ensures Lexemes(DefaultConfig(arith), "--8", None) == Scan(["UNARY-", "UNARY-", "8"], None)
    ensures PostfixLexemes(DefaultConfig(arith), "--8") == Ok(["UNARY-", "8", "UNARY-"])
    ensures Solution(DefaultConfig(arith), "--8") == Err(ErrorInExpression)
  {
    var c := DefaultConfig(arith);
    DefaultConfigWellFormed(arith);
    DefaultMinus(arith);
    DriverScan(arith);
    DriverTrim();
    DoublePrefix(c, "UNARY-", "8");
    PostfixOfScan(c, "--8", ["UNARY-", "UNARY-", "8"], ["UNARY-", "8", "UNARY-"]);
    SolveEvaluatesPostfix(c, "--8");
  }

  /** Postfix of an expression that Seporate reads without failure, when
      the loop over its parts and the final popping succeed. */
  lemma PostfixOfScan<V>(c: Config<V>, expression: string, parts: seq<string>, ls: seq<string>)
    requires WellFormed(c) && |Trim(expression)| > 0
    requires Lexemes(c, Trim(expression), None) == Scan(parts, None)
    requires Run(c, Converter([], []), parts).Ok?
    requires Drain(Run(c, Converter([], []), parts).value, Opens(c.brackets)) == Ok(ls)
    ensures PostfixLexemes(c, expression) == Ok(ls)
  {
  }

  /** "--8" has no blank to trim. */
  lemma DriverTrim()
    ensures Trim("--8") == "--8"
  {
    assert LeadingSpaces("--8") == 0 && "--8"[0..] == "--8";
    assert TrailingSpaces("--8") == 0 && "--8"[..3] == "--8";
  }

  /** Seporate on "--8": the key of unary minus twice, then 8. */
  lemma DriverScan<V>(arith: Arithmetic<V>)
    requires WellFormed(DefaultConfig(arith))
    ensures Lexemes(DefaultConfig(arith), "--8", None) == Scan(["UNARY-", "UNARY-", "8"], None)
  {
    var c := DefaultConfig(arith);
    DefaultMinus(arith);
    DefaultMatchOfMinus(arith, "--8");
    DefaultMatchOfMinus(arith, "-8");
    MatchOfEight(Alternatives(c));
    ScanOfMinusMinusEight(c);
  }

  /** "--8" in any configuration where '-' is a binary symbol matched alone,
      "UNARY-" a unary operation after which an operand is expected, and 8
      no binary symbol. */
  lemma ScanOfMinusMinusEight<V>(c: Config<V>)
    requires WellFormed(c)
    requires MatchPart("--8", Alternatives(c)) == Some(Part("-", 1))
    requires MatchPart("-8", Alternatives(c)) == Some(Part("-", 1))
    requires MatchPart("8", Alternatives(c)) == Some(Part("8", 1))
    requires IsBinaryOperation(c, "-") && IsUnaryOperation(c, "UNARY-")
    requires OperandExpected(c, Some("UNARY-")) && !IsBinaryOperation(c, "8")
    ensures Lexemes(c, "--8", None) == Scan(["UNARY-", "UNARY-", "8"], None)
  {
    DriverPieces();
    ScanOfWhole(c, "8", Some("UNARY-"));
    ScanOfMinus(c, "-8", Some("UNARY-"), ["8"]);
    ScanOfMinus(c, "--8", None, ["UNARY-", "8"]);
  }

  /** The rests of "--8" and the parts put back together. */
  lemma DriverPieces()
    ensures "--8"[1..] == "-8" && "-8"[1..] == "8"
    ensures ["UNARY-"] + ["8"] == ["UNARY-", "8"] && ["UNARY-"] + ["UNARY-", "8"] == ["UNARY-", "UNARY-", "8"]
  {
  }

  /** Where an operand is expected, a rest "-" + t is read as the key of
      unary minus followed by what t yields, in any configuration where '-'
      is a binary symbol matched alone and "UNARY-" is a unary operation. */
  lemma ScanOfMinus<V>(c: Config<V>, s: string, last: Option<string>, parts: seq<string>)
    requires WellFormed(c) && |s| > 0 && MatchPart(s, Alternatives(c)) == Some(Part("-", 1))
    requires IsBinaryOperation(c, "-") && IsUnaryOperation(c, "UNARY-") && OperandExpected(c, last)
    requires Lexemes(c, s[1..], Some("UNARY-")) == Scan(parts, None)
    ensures Lexemes(c, s, last) == Scan(["UNARY-"] + parts, None)
  {
    UnaryMinusKey();
    ScanOfRewritten(c, s, last, "-", "UNARY-", Scan(parts, None));
  }

  /** The key under which the constructor registers unary minus. */
  lemma UnaryMinusKey()
    ensures "UNARY" + "-" == "UNARY-"
  {
  }

  /** What the constructor's configuration says of "-", its unary key and
      "8". */
  lemma DefaultMinus<V>(arith: Arithmetic<V>)
    ensures var c := DefaultConfig(arith);
      && IsBinaryOperation(c, "-") && IsUnaryOperation(c, "UNARY-")
      && OperandExpected(c, Some("UNARY-")) && !IsBinaryOperation(c, "8")
      && !IsBinaryOperation(c, "UNARY-") && !IsOpenBracket(c, "UNARY-")
      && (arith.parse("8").Some? ==> IsNumber(c, "8"))
  {
    var c := DefaultConfig(arith);
    assert AllDigits("8");
    assert Opens(c.brackets) == ["("];
    assert Closes(c.brackets) == [")"];
    assert BinarySymbols(c.binary) == ["+", "-", "*", "/"];
    assert UnarySymbols(c.unary) == ["UNARY-"];
    DefaultSymbols();
    SymbolIsNoNumeral("UNARY-");
  }

  /** Where an operand is expected, a binary symbol b that is matched is
      yielded as "UNARY" + b when that is a unary operation. */
  lemma ScanOfRewritten<V>(c: Config<V>, s: string, last: Option<string>, b: string, u: string, tail: Scan)
    requires WellFormed(c) && |s| > 0 && MatchPart(s, Alternatives(c)) == Some(Part(b, 1))
    requires u == "UNARY" + b && IsBinaryOperation(c, b) && OperandExpected(c, last) && IsUnaryOperation(c, u)
    requires Lexemes(c, s[1..], Some(u)) == tail
    ensures Lexemes(c, s, last) == Prefixed([u], tail)
  {
    LexemesRewrite(c, s, last);
  }

  /** A rest matched whole by something other than a binary symbol is the
      last part. */
  lemma ScanOfWhole<V>(c: Config<V>, s: string, last: Option<string>)
    requires WellFormed(c) && |s| > 0 && MatchPart(s, Alternatives(c)) == Some(Part(s, |s|))
    requires !IsBinaryOperation(c, s)
    ensures Lexemes(c, s, last) == Scan([s], None)
  {
    LexemesRewrite(c, s, last);
    assert s[|s|..] == [];
    assert Lexemes(c, [], Some(s)) == Scan([], None);
    assert [s] + [] == [s];
  }
}
