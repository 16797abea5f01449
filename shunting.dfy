/** The operator-stack loops that the Postfix methods of both versions share:
    popping operators before an operator is pushed, popping up to the open
    bracket of a close bracket, and draining the stack at the end. */
module ShuntingYard {
  import opened Common
  import opened Symbols

  /** The state of Postfix between two lexemes: the lexemes appended to the
      StringBuilder so far and the operator stack, its top last. */
  datatype Converter = Converter(output: seq<string>, stack: seq<Operand>)

  /** The symbols of the entries, top (last) first: the order in which
      successive pops append them. */
  function Popped(entries: seq<Operand>): (r: seq<string>)
    ensures |r| == |entries|
  {
    if entries == [] then [] else [entries[|entries| - 1].symbol] + Popped(entries[..|entries| - 1])
  }

  lemma PoppedTop(entries: seq<Operand>, top: Operand)
    ensures Popped(entries + [top]) == [top.symbol] + Popped(entries)
  {
    assert (entries + [top])[..|entries|] == entries;
  }

  /** The suffix of a stack above entry k, split at its top. */
  lemma SuffixSplit(stack: seq<Operand>, k: nat)
    requires k < |stack|
    ensures stack[k..] == stack[..|stack| - 1][k..] + [stack[|stack| - 1]]
  {
  }

  /** The loop run for an operator: pop while the top's priority is at least
      `priority`. It pops the longest run of such entries from the top, in
      stack order, and stops at an entry of lower priority or at the bottom. */
  function PopWhileAtLeast(st: Converter, priority: nat): (r: Converter)
    ensures |r.stack| <= |st.stack| && r.stack == st.stack[..|r.stack|]
    ensures r.output == st.output + Popped(st.stack[|r.stack|..])
    ensures forall i :: |r.stack| <= i < |st.stack| ==> st.stack[i].priority >= priority
    ensures r.stack == [] || r.stack[|r.stack| - 1].priority < priority
    decreases |st.stack|
  {
    if st.stack == [] || st.stack[|st.stack| - 1].priority < priority then
      assert st.stack[|st.stack|..] == [];
      st
    else
      var n := |st.stack|;
      var top, below := st.stack[n - 1], st.stack[..n - 1];
      var r := PopWhileAtLeast(Converter(st.output + [top.symbol], below), priority);
      PopOneMore(st, priority, r);
      r
  }

  /** One turn of PopWhileAtLeast: the top is popped, then what the loop
      pops from the entries below it. */
  lemma PopOneMore(st: Converter, priority: nat, r: Converter)
    requires st.stack != [] && st.stack[|st.stack| - 1].priority >= priority
    requires var below := st.stack[..|st.stack| - 1];
      && |r.stack| <= |below| && r.stack == below[..|r.stack|]
      && r.output == st.output + [st.stack[|st.stack| - 1].symbol] + Popped(below[|r.stack|..])
      && forall i :: |r.stack| <= i < |below| ==> below[i].priority >= priority
    ensures |r.stack| <= |st.stack| && r.stack == st.stack[..|r.stack|]
    ensures r.output == st.output + Popped(st.stack[|r.stack|..])
    ensures forall i :: |r.stack| <= i < |st.stack| ==> st.stack[i].priority >= priority
  {
    var n, m := |st.stack|, |r.stack|;
    var top, below := st.stack[n - 1], st.stack[..n - 1];
    assert below[..m] == st.stack[..m];
    SuffixSplit(st.stack, m);
    PoppedTop(below[m..], top);
    Associative(st.output, [top.symbol], Popped(below[m..]));
    forall i | m <= i < n ensures st.stack[i].priority >= priority {
      if i < n - 1 {
        assert st.stack[i] == below[i];
      }
    }
  }

  /** Entry k is the open bracket a close bracket stops at: it holds `open`
      and no entry above it is `open` or any other open bracket. */
  ghost predicate StopsAt(stack: seq<Operand>, k: int, open: string, opens: seq<string>) {
    && 0 <= k < |stack|
    && stack[k].symbol == open
    && forall j :: k < j < |stack| ==> stack[j].symbol != open && stack[j].symbol !in opens
  }

  /** The loop run for a close bracket: pop operators until the entry holding
      its own open symbol, which is dropped. Meeting another open bracket, or
      the bottom of the stack, is "Error in brackets". */
  function PopUntilOpen(st: Converter, open: string, opens: seq<string>): (r: Result<Converter>)
    ensures r.Err? ==> r.error == ErrorInBrackets
    ensures r.Ok? ==> |r.value.stack| < |st.stack| && r.value.stack == st.stack[..|r.value.stack|]
    decreases |st.stack|
  {
    var n := |st.stack|;
    if n == 0 then Err(ErrorInBrackets)
    else
      var top, below := st.stack[n - 1], st.stack[..n - 1];
      if top.symbol == open then Ok(Converter(st.output, below))
      else if top.symbol in opens then Err(ErrorInBrackets)
      else PopUntilOpen(Converter(st.output + [top.symbol], below), open, opens)
  }

  /** A close bracket fails exactly when no entry is the open bracket it
      stops at. */
  lemma {:induction false} PopUntilOpenFails(st: Converter, open: string, opens: seq<string>)
    ensures PopUntilOpen(st, open, opens).Err? <==>
      forall k :: 0 <= k < |st.stack| ==> !StopsAt(st.stack, k, open, opens)
    decreases |st.stack|
  {
    var n := |st.stack|;
    if n > 0 {
      var top, below := st.stack[n - 1], st.stack[..n - 1];
      if top.symbol == open {
        assert StopsAt(st.stack, n - 1, open, opens);
      } else if top.symbol in opens {
        forall k | 0 <= k < n ensures !StopsAt(st.stack, k, open, opens) {
          assert st.stack[n - 1].symbol in opens;
        }
      } else {
        var next := Converter(st.output + [top.symbol], below);
        assert PopUntilOpen(st, open, opens) == PopUntilOpen(next, open, opens);
        PopUntilOpenFails(next, open, opens);
        StopsAtBelow(st.stack, open, opens);
        if PopUntilOpen(next, open, opens).Err? {
          forall k | 0 <= k < n ensures !StopsAt(st.stack, k, open, opens) {
            assert !StopsAt(below, k, open, opens);
          }
        } else {
          var k :| 0 <= k < n - 1 && StopsAt(below, k, open, opens);
          assert StopsAt(st.stack, k, open, opens);
        }
      }
    }
  }

  /** Below a top entry that is neither `open` nor another open bracket, the
      entry a close bracket stops at is the same. */
  lemma StopsAtBelow(stack: seq<Operand>, open: string, opens: seq<string>)
    requires |stack| > 0
    requires stack[|stack| - 1].symbol != open && stack[|stack| - 1].symbol !in opens
    ensures forall k :: 0 <= k < |stack| ==>
      (StopsAt(stack, k, open, opens) <==> StopsAt(stack[..|stack| - 1], k, open, opens))
  {
  }

  /** Otherwise it pops every entry above that one, top first, and drops that
      one. */
  lemma {:induction false} PopUntilOpenPops(st: Converter, open: string, opens: seq<string>)
    requires PopUntilOpen(st, open, opens).Ok?
    ensures exists k :: (StopsAt(st.stack, k, open, opens) &&
      PopUntilOpen(st, open, opens).value == Converter(st.output + Popped(st.stack[k + 1..]), st.stack[..k]))
    decreases |st.stack|
  {
    var n := |st.stack|;
    var top, below := st.stack[n - 1], st.stack[..n - 1];
    if top.symbol == open {
      assert StopsAt(st.stack, n - 1, open, opens);
      assert st.stack[n..] == [];
      assert st.output + Popped(st.stack[n..]) == st.output;
    } else {
      var next := Converter(st.output + [top.symbol], below);
      assert PopUntilOpen(st, open, opens) == PopUntilOpen(next, open, opens);
      PopUntilOpenPops(next, open, opens);
      var r := PopUntilOpen(next, open, opens).value;
      var k :| StopsAt(below, k, open, opens) && r == Converter(next.output + Popped(below[k + 1..]), below[..k]);
      PopBelowTop(st, open, opens, k, r);
    }
  }

  /** One step of PopUntilOpenPops: popping a top entry that is not an open
      bracket, then the entries above entry k of the rest. */
  lemma PopBelowTop(st: Converter, open: string, opens: seq<string>, k: nat, r: Converter)
    requires |st.stack| > 0
    requires st.stack[|st.stack| - 1].symbol != open && st.stack[|st.stack| - 1].symbol !in opens
    requires var below := st.stack[..|st.stack| - 1];
      && StopsAt(below, k, open, opens)
      && r == Converter(st.output + [st.stack[|st.stack| - 1].symbol] + Popped(below[k + 1..]), below[..k])
    ensures exists j :: (StopsAt(st.stack, j, open, opens) &&
      r == Converter(st.output + Popped(st.stack[j + 1..]), st.stack[..j]))
  {
    assert StopsAt(st.stack, k, open, opens) by {
      StopsAtBelow(st.stack, open, opens);
    }
    assert r == Converter(st.output + Popped(st.stack[k + 1..]), st.stack[..k]) by {
      PopOneEntry(st, k);
    }
  }

  /** Popping the top, then the entries above entry k below it, pops the
      entries above entry k. */
  lemma PopOneEntry(st: Converter, k: nat)
    requires k < |st.stack| - 1
    ensures var below := st.stack[..|st.stack| - 1];
      && st.output + [st.stack[|st.stack| - 1].symbol] + Popped(below[k + 1..]) == st.output + Popped(st.stack[k + 1..])
      && below[..k] == st.stack[..k]
  {
    var n := |st.stack|;
    var top, below := st.stack[n - 1], st.stack[..n - 1];
    var rest := below[k + 1..];
    assert st.stack[k + 1..] == rest + [top] by {
      SuffixSplit(st.stack, k + 1);
    }
    PoppedTop(rest, top);
    Associative(st.output, [top.symbol], Popped(rest));
  }

  lemma Associative(a: seq<string>, b: seq<string>, c: seq<string>)
    ensures a + b + c == a + (b + c)
  {
  }

  /** The loop at the end of Postfix: pop every entry, top first; an open
      bracket left on the stack is "Error in brackets". */
  function Drain(st: Converter, opens: seq<string>): (r: Result<seq<string>>)
    ensures r.Ok? <==> forall i :: 0 <= i < |st.stack| ==> st.stack[i].symbol !in opens
    ensures r.Ok? ==> r.value == st.output + Popped(st.stack)
    ensures r.Err? ==> r.error == ErrorInBrackets
    decreases |st.stack|
  {
    var n := |st.stack|;
    if n == 0 then Ok(st.output)
    else
      var top, below := st.stack[n - 1], st.stack[..n - 1];
      if top.symbol in opens then Err(ErrorInBrackets)
      else
        PoppedTop(below, top);
        assert st.stack == below + [top];
        Drain(Converter(st.output + [top.symbol], below), opens)
  }

  /** Draining two operations writes the top one first. */
  lemma DrainTwo(output: seq<string>, below: Operand, top: Operand, opens: seq<string>)
    requires below.symbol !in opens && top.symbol !in opens
    ensures Drain(Converter(output, [below, top]), opens) == Ok(output + [top.symbol, below.symbol])
  {
    PoppedTop([], below);
    PoppedTop([below], top);
    assert [below] + [top] == [below, top] && [] + [below] == [below];
    assert Popped([below, top]) == [top.symbol, below.symbol];
    assert Drain(Converter(output, [below, top]), opens).Ok?;
  }

  /** Every lexeme of the output and every symbol on the stack has
      property P. */
  ghost predicate Holds(st: Converter, P: string -> bool) {
    && (forall i :: 0 <= i < |st.output| ==> P(st.output[i]))
    && (forall j :: 0 <= j < |st.stack| ==> P(st.stack[j].symbol))
  }

  /** The loops only move symbols from the stack to the output, so a
      property of all lexemes and symbols survives them. */
  lemma {:induction false} PopWhileAtLeastKeeps(st: Converter, priority: nat, P: string -> bool)
    requires Holds(st, P)
    ensures Holds(PopWhileAtLeast(st, priority), P)
    decreases |st.stack|
  {
    if !(st.stack == [] || st.stack[|st.stack| - 1].priority < priority) {
      var n := |st.stack|;
      var next := Converter(st.output + [st.stack[n - 1].symbol], st.stack[..n - 1]);
      assert Holds(next, P);
      PopWhileAtLeastKeeps(next, priority, P);
    }
  }

  lemma {:induction false} PopUntilOpenKeeps(st: Converter, open: string, opens: seq<string>, P: string -> bool)
    requires Holds(st, P)
    ensures PopUntilOpen(st, open, opens).Ok? ==> Holds(PopUntilOpen(st, open, opens).value, P)
    decreases |st.stack|
  {
    var n := |st.stack|;
    if n > 0 && st.stack[n - 1].symbol != open && st.stack[n - 1].symbol !in opens {
      var next := Converter(st.output + [st.stack[n - 1].symbol], st.stack[..n - 1]);
      assert Holds(next, P);
      PopUntilOpenKeeps(next, open, opens, P);
    }
  }

  lemma {:induction false} DrainKeeps(st: Converter, opens: seq<string>, P: string -> bool)
    requires Holds(st, P)
    ensures Drain(st, opens).Ok? ==> forall i :: 0 <= i < |Drain(st, opens).value| ==> P(Drain(st, opens).value[i])
    decreases |st.stack|
  {
    var n := |st.stack|;
    if n > 0 && st.stack[n - 1].symbol !in opens {
      var next := Converter(st.output + [st.stack[n - 1].symbol], st.stack[..n - 1]);
      assert Holds(next, P);
      DrainKeeps(next, opens, P);
    }
  }

  /** Every lexeme of the output has property P, and so has every symbol on
      the stack except open brackets, which are pushed with priority 0. */
  ghost predicate HoldsBesideOpens(st: Converter, P: string -> bool, opens: seq<string>) {
    && (forall i :: 0 <= i < |st.output| ==> P(st.output[i]))
    && (forall j :: 0 <= j < |st.stack| ==> P(st.stack[j].symbol) || (st.stack[j].priority == 0 && st.stack[j].symbol in opens))
  }

  /** An operation of positive priority pops no open bracket, so only
      symbols with property P reach the output. */
  lemma {:induction false} PopWhileAtLeastKeepsBeside(st: Converter, priority: nat, P: string -> bool, opens: seq<string>)
    requires priority > 0 && HoldsBesideOpens(st, P, opens)
    ensures HoldsBesideOpens(PopWhileAtLeast(st, priority), P, opens)
    decreases |st.stack|
  {
    if !(st.stack == [] || st.stack[|st.stack| - 1].priority < priority) {
      var n := |st.stack|;
      var next := Converter(st.output + [st.stack[n - 1].symbol], st.stack[..n - 1]);
      assert HoldsBesideOpens(next, P, opens);
      PopWhileAtLeastKeepsBeside(next, priority, P, opens);
    }
  }

  lemma {:induction false} PopUntilOpenKeepsBeside(st: Converter, open: string, P: string -> bool, opens: seq<string>)
    requires HoldsBesideOpens(st, P, opens)
    ensures PopUntilOpen(st, open, opens).Ok? ==> HoldsBesideOpens(PopUntilOpen(st, open, opens).value, P, opens)
    decreases |st.stack|
  {
    var n := |st.stack|;
    if n > 0 && st.stack[n - 1].symbol != open && st.stack[n - 1].symbol !in opens {
      var next := Converter(st.output + [st.stack[n - 1].symbol], st.stack[..n - 1]);
      assert HoldsBesideOpens(next, P, opens);
      PopUntilOpenKeepsBeside(next, open, P, opens);
    }
  }

  lemma {:induction false} DrainKeepsBeside(st: Converter, P: string -> bool, opens: seq<string>)
    requires HoldsBesideOpens(st, P, opens)
    ensures Drain(st, opens).Ok? ==> forall i :: 0 <= i < |Drain(st, opens).value| ==> P(Drain(st, opens).value[i])
    decreases |st.stack|
  {
    var n := |st.stack|;
    if n > 0 && st.stack[n - 1].symbol !in opens {
      var next := Converter(st.output + [st.stack[n - 1].symbol], st.stack[..n - 1]);
      assert HoldsBesideOpens(next, P, opens);
      DrainKeepsBeside(next, P, opens);
    }
  }

  /** A lexeme with property P written to the output, or a symbol with it
      pushed, keeps Holds. */
  lemma OutputKeeps(st: Converter, lexeme: string, P: string -> bool)
    requires Holds(st, P) && P(lexeme)
    ensures Holds(Converter(st.output + [lexeme], st.stack), P)
  {
    var output := st.output + [lexeme];
    forall i | 0 <= i < |output| ensures P(output[i]) {
      if i < |st.output| {
        assert output[i] == st.output[i];
      }
    }
  }

  lemma PushKeeps(st: Converter, entry: Operand, P: string -> bool)
    requires Holds(st, P) && P(entry.symbol)
    ensures Holds(Converter(st.output, st.stack + [entry]), P)
  {
    var stack := st.stack + [entry];
    forall j | 0 <= j < |stack| ensures P(stack[j].symbol) {
      if j < |st.stack| {
        assert stack[j] == st.stack[j];
      }
    }
  }

  /** A lexeme with property P written to the output keeps the property. */
  lemma OutputKeepsBeside(st: Converter, lexeme: string, P: string -> bool, opens: seq<string>)
    requires HoldsBesideOpens(st, P, opens) && P(lexeme)
    ensures HoldsBesideOpens(Converter(st.output + [lexeme], st.stack), P, opens)
  {
    var output := st.output + [lexeme];
    forall i | 0 <= i < |output| ensures P(output[i]) {
      if i < |st.output| {
        assert output[i] == st.output[i];
      }
    }
  }

  /** Pushing a symbol with property P, or an open bracket with priority 0,
      keeps the property. */
  lemma PushKeepsBeside(st: Converter, entry: Operand, P: string -> bool, opens: seq<string>)
    requires HoldsBesideOpens(st, P, opens)
    requires P(entry.symbol) || (entry.priority == 0 && entry.symbol in opens)
    ensures HoldsBesideOpens(Converter(st.output, st.stack + [entry]), P, opens)
  {
    var stack := st.stack + [entry];
    forall j | 0 <= j < |stack| ensures P(stack[j].symbol) || (stack[j].priority == 0 && stack[j].symbol in opens) {
      if j < |st.stack| {
        assert stack[j] == st.stack[j];
      }
    }
  }

  // ---------------------------------------------------------------------
  // The three loops, as the Postfix methods run them on the StringBuilder
  // and the operator stack.

  /** Pops, while the stack is not empty and its top has at least the
      priority of the operation about to be pushed. */
  method PopOperators(output: seq<string>, stack: seq<Operand>, priority: nat)
    returns (output': seq<string>, stack': seq<Operand>)
    ensures Converter(output', stack') == PopWhileAtLeast(Converter(output, stack), priority)
  {
    output', stack' := output, stack;
    while |stack'| != 0
      invariant PopWhileAtLeast(Converter(output', stack'), priority) == PopWhileAtLeast(Converter(output, stack), priority)
      decreases |stack'|
    {
      if stack'[|stack'| - 1].priority < priority {
        break;
      }
      output' := output' + [stack'[|stack'| - 1].symbol];
      stack' := stack'[..|stack'| - 1];
    }
  }

  /** Pops up to the entry holding `open` and drops it; "Error in brackets"
      at another open bracket or at the bottom of the stack. */
  method PopToOpen(output: seq<string>, stack: seq<Operand>, open: string, opens: seq<string>)
    returns (r: Result<Converter>)
    ensures r == PopUntilOpen(Converter(output, stack), open, opens)
  {
    var output', stack' := output, stack;
    while |stack'| != 0
      invariant PopUntilOpen(Converter(output', stack'), open, opens) == PopUntilOpen(Converter(output, stack), open, opens)
      decreases |stack'|
    {
      if stack'[|stack'| - 1].symbol == open {
        break;
      }
      if stack'[|stack'| - 1].symbol in opens {
        return Err(ErrorInBrackets);
      }
      output' := output' + [stack'[|stack'| - 1].symbol];
      stack' := stack'[..|stack'| - 1];
    }
    if |stack'| == 0 {
      return Err(ErrorInBrackets);
    }
    return Ok(Converter(output', stack'[..|stack'| - 1]));
  }

  /** Pops every entry; "Error in brackets" at an open bracket. */
  method PopAll(output: seq<string>, stack: seq<Operand>, opens: seq<string>) returns (r: Result<seq<string>>)
    ensures r == Drain(Converter(output, stack), opens)
  {
    var output', stack' := output, stack;
    while |stack'| > 0
      invariant Drain(Converter(output', stack'), opens) == Drain(Converter(output, stack), opens)
      decreases |stack'|
    {
      if stack'[|stack'| - 1].symbol in opens {
        return Err(ErrorInBrackets);
      }
      output' := output' + [stack'[|stack'| - 1].symbol];
      stack' := stack'[..|stack'| - 1];
    }
    return Ok(output');
  }
}
