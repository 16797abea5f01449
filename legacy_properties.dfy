/** Properties of the calculator of CalculatorLibrary/Class1.cs: what
    registration keeps, that Solve reads back exactly the lexemes Postfix
    wrote, how operations are ordered, and that no result is NaN. */
module LegacyProperties {
  import opened Common
  import opened Text
  import opened Symbols
  import opened Scanner
  import opened ShuntingYard
  import opened Legacy

  // ---------------------------------------------------------------------
  // Registration

  /** Adding a pair that is already registered changes nothing and throws
      nothing: the existence check runs before the overlap check. */
  lemma BracketPairReAddIsNoOp<V>(c: Config<V>, b: Bracket)
    requires WellFormed(c) && b in c.brackets
    ensures WithBracketPair(c, b.open, b.close) == Ok(c)
  {
    var i :| 0 <= i < |c.brackets| && c.brackets[i] == b;
  }

  /** A registered operation symbol is a silent no-op when added again,
      whatever its action and priority. */
  lemma OperationReAddIsNoOp<V>(c: Config<V>, op: BinaryOperation<V>)
    requires WellFormed(c) && IsOperation(c, op.symbol)
    ensures WithOperation(c, op) == Ok(c)
  {
    var i :| 0 <= i < |c.operations| && BinarySymbols(c.operations)[i] == op.symbol;
  }

  /** The constructor leaves a well-formed calculator. */
  lemma DefaultConfigWellFormed<V>(arith: Arithmetic<V>)
    ensures WellFormed(DefaultConfig(arith))
  {
    var c := DefaultConfig(arith);
    assert IsPlainSymbol("+") && IsPlainSymbol("-") && IsPlainSymbol("*") && IsPlainSymbol("/");
    assert IsPlainSymbol("(") && IsPlainSymbol(")");
    assert Opens(c.brackets) == ["("] && Closes(c.brackets) == [")"];
  }

  // ---------------------------------------------------------------------
  // Postfix writes tokens

  function TokenIn<V>(c: Config<V>): string -> bool {
    s => IsToken(c, s)
  }

  lemma StepKeepsTokens<V>(c: Config<V>, st: Converter, part: string)
    requires WellFormed(c) && IsToken(c, part) && Holds(st, TokenIn(c))
    ensures Step(c, st, part).Ok? ==> Holds(Step(c, st, part).value, TokenIn(c))
  {
    if IsNumber(c, part) || IsOpenBracket(c, part) {
      assert TokenIn(c)(part);
    } else if IsOperation(c, part) {
      PopWhileAtLeastKeeps(st, OperationOf(c, part).priority, TokenIn(c));
      assert TokenIn(c)(OperationOf(c, part).symbol);
    } else if IsCloseBracket(c, part) {
      PopUntilOpenKeeps(st, ClosedBy(c.brackets, part).open, Opens(c.brackets), TokenIn(c));
    }
  }

  lemma {:induction false} RunKeepsTokens<V>(c: Config<V>, st: Converter, parts: seq<string>)
    requires WellFormed(c) && Holds(st, TokenIn(c))
    requires forall i :: 0 <= i < |parts| ==> IsToken(c, parts[i])
    ensures Run(c, st, parts).Ok? ==> Holds(Run(c, st, parts).value, TokenIn(c))
    decreases |parts|
  {
    if parts != [] {
      StepKeepsTokens(c, st, parts[0]);
      if Step(c, st, parts[0]).Ok? {
        RunKeepsTokens(c, Step(c, st, parts[0]).value, parts[1..]);
      }
    }
  }

  /** Every lexeme Postfix writes is a number literal or a registered
      symbol, none holding whitespace. */
  lemma PostfixLexemesAreTokens<V>(c: Config<V>, expression: string)
    requires WellFormed(c)
    ensures PostfixLexemes(c, expression).Ok? ==>
      forall i :: 0 <= i < |PostfixLexemes(c, expression).value| ==> IsToken(c, PostfixLexemes(c, expression).value[i])
  {
    var e := Trim(expression);
    if |e| > 0 {
      var scan := Lexemes(c, e);
      assert Holds(Converter([], []), TokenIn(c));
      RunKeepsTokens(c, Converter([], []), scan.parts);
      var run := Run(c, Converter([], []), scan.parts);
      if run.Ok? && scan.failure.None? {
        DrainKeeps(run.value, Opens(c.brackets), TokenIn(c));
        var ls := Drain(run.value, Opens(c.brackets));
        if ls.Ok? {
          forall i | 0 <= i < |ls.value| ensures IsToken(c, ls.value[i]) {
            assert TokenIn(c)(ls.value[i]);
          }
        }
      }
    }
  }

  // ---------------------------------------------------------------------
  // Seporate reads the postfix text back

  /** A blank, a token, then the end or a blank: the part pattern matches the
      token exactly. */
  lemma MatchOfToken<V>(c: Config<V>, l: string, tail: string)
    requires WellFormed(c) && IsToken(c, l)
    requires tail == [] || tail[0] == ' '
    ensures MatchPart([' '] + l + tail, Alternatives(c)) == Some(Part(l, 1 + |l|))
  {
    if IsNumeral(l) {
      MatchOfNumeral(Alternatives(c), l, tail);
    } else {
      AlternativesArePlain(c);
      MatchOfSymbol(Alternatives(c), l, tail);
    }
  }

  /** Seporate on the text Postfix returns yields exactly the lexemes
      Postfix wrote, and does not fail. */
  lemma {:induction false} Rescan<V>(c: Config<V>, ls: seq<string>)
    requires WellFormed(c)
    requires forall i :: 0 <= i < |ls| ==> IsToken(c, ls[i])
    ensures Lexemes(c, Render(ls)) == Scan(ls, None)
    decreases |ls|
  {
    if ls != [] {
      RescanFirst(c, ls);
      Rescan(c, ls[1..]);
      PrefixedFirst(ls, Lexemes(c, Render(ls[1..])));
    }
  }

  /** Seporate on the text of a non-empty list takes its first lexeme. */
  lemma RescanFirst<V>(c: Config<V>, ls: seq<string>)
    requires WellFormed(c) && ls != [] && IsToken(c, ls[0])
    ensures Lexemes(c, Render(ls)) == Prefixed([ls[0]], Lexemes(c, Render(ls[1..])))
  {
    var l, tail := ls[0], Render(ls[1..]);
    var s := Render(ls);
    assert s == [' '] + l + tail;
    assert tail == [] || tail[0] == ' ';
    MatchOfToken(c, l, tail);
    assert s[1 + |l|..] == tail;
    LexemesStep(c, s);
  }

  /** Solve evaluates exactly the lexemes Postfix wrote; a postfix text
      without lexemes, as for "()", leaves no number and gives "Error in
      expression". */
  lemma SolveEvaluatesPostfix<V>(c: Config<V>, expression: string)
    requires WellFormed(c)
    ensures PostfixLexemes(c, expression).Err? ==> Solution(c, expression) == Err(PostfixLexemes(c, expression).error)
    ensures PostfixLexemes(c, expression).Ok? ==>
      Solution(c, expression) == Remaining(Evaluate(c, [], PostfixLexemes(c, expression).value))
    ensures PostfixLexemes(c, expression) == Ok([]) ==> Solution(c, expression) == Err(ErrorInExpression)
  {
    if PostfixLexemes(c, expression).Ok? {
      PostfixLexemesAreTokens(c, expression);
      Rescan(c, PostfixLexemes(c, expression).value);
    }
  }

  /** The Postfix loop throws only "Number too big", "Error in brackets"
      and "Something wrong!". */
  lemma {:induction false} RunErrors<V>(c: Config<V>, st: Converter, parts: seq<string>)
    ensures Run(c, st, parts).Err? ==>
      || Run(c, st, parts).error == NumberTooBig
      || Run(c, st, parts).error == ErrorInBrackets
      || Run(c, st, parts).error == SomethingWrong
    decreases |parts|
  {
    if parts != [] {
      var next := Step(c, st, parts[0]);
      if next.Ok? {
        RunErrors(c, next.value, parts[1..]);
      }
    }
  }

  /** The Solve loop throws only "Error in expression", "Result is too big"
      and "Something wrong!". */
  lemma {:induction false} EvaluateErrors<V>(c: Config<V>, numbers: seq<V>, parts: seq<string>)
    ensures Evaluate(c, numbers, parts).Err? ==>
      || Evaluate(c, numbers, parts).error == ErrorInExpression
      || Evaluate(c, numbers, parts).error == ResultTooBig
      || Evaluate(c, numbers, parts).error == SomethingWrong
    decreases |parts|
  {
    if parts != [] {
      var next := Apply(c, numbers, parts[0]);
      if next.Ok? {
        EvaluateErrors(c, next.value, parts[1..]);
      }
    }
  }

  /** A non-blank expression is never reported as empty by Postfix. */
  lemma PostfixNotEmpty<V>(c: Config<V>, expression: string)
    requires WellFormed(c) && !IsBlank(expression)
    ensures PostfixText(c, expression) != Err(EmptyExpression)
  {
    var e := Trim(expression);
    assert PostfixLexemes(c, expression) != Err(EmptyExpression) by {
      RunErrors(c, Converter([], []), Lexemes(c, e).parts);
    }
  }

  /** Solve throws "Empty expression" exactly for a blank expression. */
  lemma EmptyExpressionIff<V>(c: Config<V>, expression: string)
    requires WellFormed(c)
    ensures Solution(c, expression) == Err(EmptyExpression) <==> IsBlank(expression)
  {
    if !IsBlank(expression) {
      PostfixNotEmpty(c, expression);
      var text := PostfixText(c, expression);
      if text.Ok? {
        EvaluationNotEmpty(c, text.value);
      }
    }
  }

  /** Neither the Solve loop nor the scan of a postfix text reports an
      empty expression. */
  lemma EvaluationNotEmpty<V>(c: Config<V>, text: string)
    requires WellFormed(c)
    ensures Evaluate(c, [], Lexemes(c, text).parts) != Err(EmptyExpression)
    ensures Lexemes(c, text).failure != Some(EmptyExpression)
  {
    EvaluateErrors(c, [], Lexemes(c, text).parts);
  }

  // ---------------------------------------------------------------------
  // Results

  /** A number literal that parses is never NaN. */
  ghost predicate NumeralsAreNumbers<V>(arith: Arithmetic<V>) {
    forall s :: IsNumeral(s) && arith.parse(s).Some? ==> !arith.isNaN(arith.parse(s).value)
  }

  lemma {:induction false} EvaluateKeepsNumbers<V>(c: Config<V>, numbers: seq<V>, parts: seq<string>)
    requires NumeralsAreNumbers(c.arith)
    requires forall i :: 0 <= i < |numbers| ==> !c.arith.isNaN(numbers[i])
    ensures Evaluate(c, numbers, parts).Ok? ==>
      forall i :: 0 <= i < |Evaluate(c, numbers, parts).value| ==> !c.arith.isNaN(Evaluate(c, numbers, parts).value[i])
    decreases |parts|
  {
    if parts != [] {
      var a := Apply(c, numbers, parts[0]);
      if a.Ok? {
        assert forall i :: 0 <= i < |a.value| ==> !c.arith.isNaN(a.value[i]);
        EvaluateKeepsNumbers(c, a.value, parts[1..]);
      }
    }
  }

  /** Solve never returns NaN: every operation result is checked, and
      number literals parse to numbers. */
  lemma SolveNeverNaN<V>(c: Config<V>, expression: string)
    requires WellFormed(c) && NumeralsAreNumbers(c.arith)
    ensures Solution(c, expression).Ok? ==> !c.arith.isNaN(Solution(c, expression).value)
  {
    if PostfixText(c, expression).Ok? {
      EvaluateKeepsNumbers(c, [], Lexemes(c, PostfixText(c, expression).value).parts);
    }
  }

  /** The Solve loop on x y o pops y, then x, and pushes o's action on x and
      y in that order, unless the result is NaN. */
  lemma OperandOrder<V>(c: Config<V>, x: string, y: string, o: string)
    requires WellFormed(c) && IsNumber(c, x) && IsNumber(c, y) && IsOperation(c, o)
    ensures var v := OperationOf(c, o).action(c.arith.parse(x).value, c.arith.parse(y).value);
      Evaluate(c, [], [x, y, o]) == if c.arith.isNaN(v) then Err(ResultTooBig) else Ok([v])
  {
    var a, b := c.arith.parse(x).value, c.arith.parse(y).value;
    var v := OperationOf(c, o).action(a, b);
    var i :| 0 <= i < |c.operations| && BinarySymbols(c.operations)[i] == o;
    assert !IsNumeral(o) by {
      if IsNumeral(o) {
        NumeralIsWord(o);
      }
    }
    assert [] + [a] == [a] && [a] + [b] == [a, b] && [a, b][..0] + [v] == [v];
    assert Apply(c, [], x) == Ok([a]);
    assert Apply(c, [a], y) == Ok([a, b]);
    assert [x, y, o][1..] == [y, o] && [y, o][1..] == [o] && [o][1..] == [];
    assert Evaluate(c, [a, b], [o]) == if c.arith.isNaN(v) then Err(ResultTooBig) else Ok([v]);
    assert Evaluate(c, [a], [y, o]) == Evaluate(c, [a, b], [o]);
  }

  // ---------------------------------------------------------------------
  // Precedence

  lemma StepNumber<V>(c: Config<V>, st: Converter, x: string)
    requires IsNumber(c, x)
    ensures Step(c, st, x) == Ok(Converter(st.output + [x], st.stack))
  {
  }

  lemma StepOperation<V>(c: Config<V>, st: Converter, o: string)
    requires WellFormed(c) && IsOperation(c, o)
    ensures var p := OperationOf(c, o).priority;
      var popped := PopWhileAtLeast(st, p);
      Step(c, st, o) == Ok(Converter(popped.output, popped.stack + [Operand(o, p)]))
  {
    var i :| 0 <= i < |c.operations| && BinarySymbols(c.operations)[i] == o;
    assert !IsNumeral(o) by {
      if IsNumeral(o) {
        NumeralIsWord(o);
      }
    }
  }

  lemma RunCons<V>(c: Config<V>, st: Converter, part: string, rest: seq<string>)
    requires Step(c, st, part).Ok?
    ensures Run(c, st, [part] + rest) == Run(c, Step(c, st, part).value, rest)
  {
    assert ([part] + rest)[1..] == rest;
  }

  lemma OperationIsNoOpen<V>(c: Config<V>, s: string)
    requires WellFormed(c) && IsOperation(c, s)
    ensures s !in Opens(c.brackets)
  {
    var j :| 0 <= j < |c.operations| && BinarySymbols(c.operations)[j] == s;
  }

  /** The Postfix loop on x o1 y o2 z: o1 is written first when its priority
      is at least that of o2, as "2+2*2" gives "2 2 2 * +" and "2-2+2" gives
      "2 2 - 2 +"; o2 first otherwise. */
  lemma Precedence<V>(c: Config<V>, x: string, o1: string, y: string, o2: string, z: string)
    requires WellFormed(c)
    requires IsNumber(c, x) && IsNumber(c, y) && IsNumber(c, z)
    requires IsOperation(c, o1) && IsOperation(c, o2)
    ensures Run(c, Converter([], []), [x, o1, y, o2, z]).Ok?
    ensures Drain(Run(c, Converter([], []), [x, o1, y, o2, z]).value, Opens(c.brackets)) ==
      if OperationOf(c, o1).priority >= OperationOf(c, o2).priority then Ok([x, y, o1, z, o2]) else Ok([x, y, z, o2, o1])
  {
    var p1 := OperationOf(c, o1).priority;
    var op1 := Operand(o1, p1);
    var s0 := Converter([], []);
    var s1 := Converter([x], []);
    var s2 := Converter([x], [op1]);
    StepNumber(c, s0, x);
    assert [] + [x] == [x];
    StepOperation(c, s1, o1);
    assert PopWhileAtLeast(s1, p1) == s1;
    assert [] + [op1] == [op1];
    StepNumber(c, s2, y);
    assert [x] + [y] == [x, y];
    RunCons(c, s2, y, [o2, z]);
    RunCons(c, s1, o1, [y, o2, z]);
    RunCons(c, s0, x, [o1, y, o2, z]);
    if p1 >= OperationOf(c, o2).priority {
      PrecedenceHigher(c, x, o1, y, o2, z);
    } else {
      PrecedenceLower(c, x, o1, y, o2, z);
    }
  }

  lemma PrecedenceHigher<V>(c: Config<V>, x: string, o1: string, y: string, o2: string, z: string)
    requires WellFormed(c) && IsNumber(c, z)
    requires IsOperation(c, o1) && IsOperation(c, o2)
    requires OperationOf(c, o1).priority >= OperationOf(c, o2).priority
    ensures Run(c, Converter([x, y], [Operand(o1, OperationOf(c, o1).priority)]), [o2, z]).Ok?
    ensures Drain(Run(c, Converter([x, y], [Operand(o1, OperationOf(c, o1).priority)]), [o2, z]).value, Opens(c.brackets))
      == Ok([x, y, o1, z, o2])
  {
    var p1, p2 := OperationOf(c, o1).priority, OperationOf(c, o2).priority;
    var op2 := Operand(o2, p2);
    var s3 := Converter([x, y], [Operand(o1, p1)]);
    var s4 := Converter([x, y, o1], [op2]);
    StepOperation(c, s3, o2);
    assert PopWhileAtLeast(Converter([x, y, o1], []), p2) == Converter([x, y, o1], []);
    assert PopWhileAtLeast(s3, p2) == Converter([x, y, o1], []);
    assert [] + [op2] == [op2];
    StepNumber(c, s4, z);
    assert [x, y, o1] + [z] == [x, y, o1, z];
    RunCons(c, s4, z, []);
    RunCons(c, s3, o2, [z]);
    OperationIsNoOpen(c, o2);
    PoppedTop([], op2);
    assert [x, y, o1, z] + [o2] == [x, y, o1, z, o2];
  }

  lemma PrecedenceLower<V>(c: Config<V>, x: string, o1: string, y: string, o2: string, z: string)
    requires WellFormed(c) && IsNumber(c, z)
    requires IsOperation(c, o1) && IsOperation(c, o2)
    requires OperationOf(c, o1).priority < OperationOf(c, o2).priority
    ensures Run(c, Converter([x, y], [Operand(o1, OperationOf(c, o1).priority)]), [o2, z]).Ok?
    ensures Drain(Run(c, Converter([x, y], [Operand(o1, OperationOf(c, o1).priority)]), [o2, z]).value, Opens(c.brackets))
      == Ok([x, y, z, o2, o1])
  {
    var p1, p2 := OperationOf(c, o1).priority, OperationOf(c, o2).priority;
    var op1, op2 := Operand(o1, p1), Operand(o2, p2);
    var s3 := Converter([x, y], [op1]);
    var s4 := Converter([x, y], [op1, op2]);
    var s5 := Converter([x, y, z], [op1, op2]);
    StepOperation(c, s3, o2);
    assert PopWhileAtLeast(s3, p2) == s3;
    assert [op1] + [op2] == [op1, op2];
    StepNumber(c, s4, z);
    assert [x, y] + [z] == [x, y, z];
    RunCons(c, s4, z, []);
    RunCons(c, s3, o2, [z]);
    OperationIsNoOpen(c, o1);
    OperationIsNoOpen(c, o2);
    assert Run(c, s3, [o2, z]) == Ok(s5);
    DrainTwo([x, y, z], op1, op2, Opens(c.brackets));
    assert [x, y, z] + [o2, o1] == [x, y, z, o2, o1];
  }
}
