/** Values shared by both calculator versions: results, the failures the
    calculators throw, and the part of the double type they rely on. */
module Common {

  datatype Option<+T> = None | Some(value: T)

  /** A computation that returns a `T` or throws a CalculationException. */
  datatype Result<+T> = Ok(value: T) | Err(error: CalcError)

  /** A computation that returns nothing or throws a CalculationException. */
  datatype Outcome = Pass | Fail(error: CalcError)

  /** The messages of the CalculationException thrown by the two versions. */
  datatype CalcError =
    // CalculatorLibrary/Calculator.cs
    | ErrorAddingOperations      // "Error while adding operations"
    | ErrorAddingBrackets        // "Error while adding brackets"
    // CalculatorLibrary/Class1.cs, registration
    | IncorrectOperationData     // "Incorrect operation data"
    | SymbolIncludesWhitespace   // "Symbol can't include whitespace"
    | OperationSymbolIsBracket   // "Operation symbol is bracket"
    | IllegalOperationFormat     // "Illegal operation format"
    | IncorrectBracketsData      // "Incorrect brackets data"
    | BracketsOverlap            // "Brackets overlaps with exists"
    | SymbolIsOperation          // "One or more symbols is exists operation"
    | SameBrackets               // "Opend and closed brackets can't be the same"
    | IllegalBracketFormat       // "Illegal bracket format"
    // both versions, evaluation
    | EmptyExpression            // "Empty expression"
    | IllegalExpression          // "Illegal expression"
    | ErrorInBrackets            // "Error in brackets"
    | ErrorInExpression          // "Error in expression"
    | NumberTooBig               // "Number too big"
    | ResultTooBig               // "Result is too big"
    | SomethingWrong             // "Something wrong!"

  /** The double arithmetic the calculators use, left abstract: `parse` is
      double.TryParse / Convert.ToDouble on a number literal (None when the
      literal does not fit), `isNaN` is Double.IsNaN, and the remaining
      fields are the actions of the operators registered by the constructors. */
  datatype Arithmetic<!V> = Arithmetic(
    parse: string -> Option<V>,
    isNaN: V -> bool,
    add: (V, V) -> V,
    subtract: (V, V) -> V,
    multiply: (V, V) -> V,
    divide: (V, V) -> V,
    negate: V -> V)

  /** The end of Solve in both versions: exactly one number must remain on
      the stack, "Error in expression" otherwise. */
  function Remaining<V>(numbers: Result<seq<V>>): (r: Result<V>)
    ensures r.Ok? <==> numbers.Ok? && |numbers.value| == 1
    ensures r.Ok? ==> r.value == numbers.value[0]
    ensures numbers.Ok? && |numbers.value| != 1 ==> r == Err(ErrorInExpression)
  {
    match numbers
    case Err(e) => Err(e)
    case Ok(ns) => if |ns| != 1 then Err(ErrorInExpression) else Ok(ns[0])
  }
}
