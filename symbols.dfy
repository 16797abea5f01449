/** The record classes of the calculators: the operator-stack entry, the
    bracket pair and the operations, with the list lookups over them. */
module Symbols {
  import opened Common

  /** An entry of the operator stack: a symbol and its priority
      (CalculatorLibrary/Operand.cs and the nested Operand of Class1.cs). */
  datatype Operand = Operand(symbol: string, priority: nat)

  /** A pair of brackets. As an Operand its symbol is the open one and its
      priority is 0 (CalculatorLibrary/Brackets.cs). */
  datatype Bracket = Bracket(open: string, close: string)

  /** An operation on two values (BinaryOperation.cs, and the nested Operation
      of Class1.cs). */
  datatype BinaryOperation<!V> = BinaryOperation(symbol: string, action: (V, V) -> V, priority: nat)

  /** An operation on one value (UnaryOperation.cs). */
  datatype UnaryOperation<!V> = UnaryOperation(symbol: string, action: V -> V, priority: nat)

  function Opens(bs: seq<Bracket>): (r: seq<string>)
    ensures |r| == |bs| && forall i :: 0 <= i < |bs| ==> r[i] == bs[i].open
  {
    seq(|bs|, i requires 0 <= i < |bs| => bs[i].open)
  }

  function Closes(bs: seq<Bracket>): (r: seq<string>)
    ensures |r| == |bs| && forall i :: 0 <= i < |bs| ==> r[i] == bs[i].close
  {
    seq(|bs|, i requires 0 <= i < |bs| => bs[i].close)
  }

  function BinarySymbols<V>(ops: seq<BinaryOperation<V>>): (r: seq<string>)
    ensures |r| == |ops| && forall i :: 0 <= i < |ops| ==> r[i] == ops[i].symbol
  {
    seq(|ops|, i requires 0 <= i < |ops| => ops[i].symbol)
  }

  function UnarySymbols<V>(ops: seq<UnaryOperation<V>>): (r: seq<string>)
    ensures |r| == |ops| && forall i :: 0 <= i < |ops| ==> r[i] == ops[i].symbol
  {
    seq(|ops|, i requires 0 <= i < |ops| => ops[i].symbol)
  }

  /** GetBracketByCloseSymbol of both versions: the first pair closed by
      the symbol. */
  function ClosedBy(bs: seq<Bracket>, close: string): (r: Bracket)
    requires close in Closes(bs)
    ensures r in bs && r.close == close
    ensures exists i :: 0 <= i < |bs| && bs[i] == r && forall j :: 0 <= j < i ==> bs[j].close != close
  {
    var i := FirstIndex(Closes(bs), close).value;
    bs[i]
  }

  /** List.FindIndex with an equality test on the symbol: the first index
      holding x, or None where FindIndex gives -1. */
  function FirstIndex(xs: seq<string>, x: string): (r: Option<nat>)
    ensures r.Some? ==> r.value < |xs| && xs[r.value] == x
    ensures r.Some? ==> forall j :: 0 <= j < r.value ==> xs[j] != x
    ensures r.None? <==> x !in xs
  {
    if xs == [] then None
    else if xs[0] == x then Some(0)
    else match FirstIndex(xs[1..], x)
      case None => None
      case Some(i) => Some(i + 1)
  }
}
