/** Reverse Polish notation and the infix expressions that produce it.
    A postfix string is read by a stack of values: an operand pushes one,
    a postfix operator (the Kleene star) needs one and leaves one, a binary
    operator needs two and leaves one, and every other character is
    skipped, which is what both consumers of postfix text in the
    repository do (the Thompson construction and the stack-code generator).
    The main theorem: the shunting-yard conversion turns every well-formed
    infix expression into postfix text that never underflows that stack
    and leaves exactly one value on it. */
module Rpn {
  import opened Common
  import opened ShuntingYard

  predicate IsUnary(g: Grammar, c: char)
  {
    !g.isOperand(c) && c != '(' && c != ')' && g.isPostfix(c) && g.prec(c) >= 1
  }

  predicate IsBinary(g: Grammar, c: char)
  {
    !g.isOperand(c) && c != '(' && c != ')' && !g.isPostfix(c) && g.prec(c) >= 1
  }

  /** The value stack's height after reading `c` at height `d`, or `None`
      when `c` needs more values than there are. */
  function Consume(g: Grammar, d: nat, c: char): Option<nat>
  {
    if g.isOperand(c) then Some(d + 1)
    else if IsUnary(g, c) then (if d >= 1 then Some(d) else None)
    else if IsBinary(g, c) then (if d >= 2 then Some(d - 1) else None)
    else Some(d)
  }

  /** The value stack's height after reading all of `s`. */
  function Depth(g: Grammar, s: seq<char>): Option<nat>
  {
    if s == [] then Some(0)
    else match Depth(g, DropLast(s))
      case None => None
      case Some(d) => Consume(g, d, Last(s))
  }

  /** Valid Reverse Polish notation: no underflow and a single result. */
  predicate ValidRpn(g: Grammar, s: seq<char>)
  {
    Depth(g, s) == Some(1)
  }

  /** The recogniser for well-formed infix text: whether a complete operand
      has just been read, and how many parentheses are open. */
  datatype Phase = Phase(after: bool, open: nat)

  function Advance(g: Grammar, ph: Phase, c: char): Option<Phase>
  {
    if !ph.after then
      if g.isOperand(c) then Some(Phase(true, ph.open))
      else if c == '(' then Some(Phase(false, ph.open + 1))
      else None
    else
      if IsBinary(g, c) then Some(Phase(false, ph.open))
      else if IsUnary(g, c) then Some(ph)
      else if c == ')' && ph.open > 0 then Some(Phase(true, ph.open - 1))
      else None
  }

  function Parse(g: Grammar, s: seq<char>): Option<Phase>
  {
    if s == [] then Some(Phase(false, 0))
    else match Parse(g, DropLast(s))
      case None => None
      case Some(ph) => Advance(g, ph, Last(s))
  }

  /** An operand, a parenthesised expression, or either followed by
      postfix operators, joined by binary operators; nothing left open. */
  predicate WellFormed(g: Grammar, s: seq<char>)
  {
    Parse(g, s) == Some(Phase(true, 0))
  }

  /** The number of binary operators on the operator stack: each of them
      still waits for its right operand. */
  function Waiting(g: Grammar, stack: seq<char>): nat
  {
    if stack == [] then 0 else Waiting(g, DropLast(stack)) + (if IsBinary(g, Last(stack)) then 1 else 0)
  }

  function OpenCount(stack: seq<char>): nat
  {
    if stack == [] then 0 else OpenCount(DropLast(stack)) + (if Last(stack) == '(' then 1 else 0)
  }

  predicate Stackable(g: Grammar, c: char)
  {
    c == '(' || IsUnary(g, c) || IsBinary(g, c)
  }

  /** What ties the conversion's state to the recogniser's: the stack holds
      only parentheses and operators, one `(` per open parenthesis, and the
      output, read as postfix, holds one value per waiting operator plus
      one for the operand just read. */
  predicate Tracks(g: Grammar, ph: Phase, st: Shunt)
  {
    && (forall k :: 0 <= k < |st.stack| ==> Stackable(g, st.stack[k]))
    && OpenCount(st.stack) == ph.open
    && Depth(g, st.output) == Some(Waiting(g, st.stack) + (if ph.after then 1 else 0))
  }

  lemma DepthAppend(g: Grammar, s: seq<char>, c: char)
    ensures Depth(g, s + [c]) == match Depth(g, s) case None => None case Some(d) => Consume(g, d, c)
  {
    assert DropLast(s + [c]) == s;
  }

  /** Popping operators right after an operand: the output gains their
      values' worth of work without underflow, and the stack keeps its
      parentheses. */
  lemma {:induction false} PopAfterOperand(g: Grammar, st: Shunt, m: nat)
    requires m <= |st.stack|
    requires forall k :: m <= k < |st.stack| ==> IsUnary(g, st.stack[k]) || IsBinary(g, st.stack[k])
    requires Depth(g, st.output) == Some(Waiting(g, st.stack) + 1)
    ensures Depth(g, PopTo(st, m).output) == Some(Waiting(g, st.stack[..m]) + 1)
    ensures OpenCount(st.stack[..m]) == OpenCount(st.stack)
    decreases |st.stack| - m
  {
    if m == |st.stack| {
      assert st.stack[m..] == [];
      assert st.stack[..m] == st.stack;
      assert PopTo(st, m).output == st.output;
    } else {
      var next := Shunt(DropLast(st.stack), st.output + [Last(st.stack)]);
      PopNext(g, st, m);
      PopAfterOperand(g, next, m);
    }
  }

  /** One pop of the inner loop re-establishes the preconditions of
      `PopAfterOperand` one element lower. */
  lemma PopNext(g: Grammar, st: Shunt, m: nat)
    requires m < |st.stack|
    requires forall k :: m <= k < |st.stack| ==> IsUnary(g, st.stack[k]) || IsBinary(g, st.stack[k])
    requires Depth(g, st.output) == Some(Waiting(g, st.stack) + 1)
    ensures var next := Shunt(DropLast(st.stack), st.output + [Last(st.stack)]);
      && (forall k :: m <= k < |next.stack| ==> IsUnary(g, next.stack[k]) || IsBinary(g, next.stack[k]))
      && Depth(g, next.output) == Some(Waiting(g, next.stack) + 1)
      && OpenCount(next.stack) == OpenCount(st.stack)
      && next.stack[..m] == st.stack[..m]
      && PopTo(next, m).output == PopTo(st, m).output
  {
    var rest := DropLast(st.stack);
    assert Last(st.stack) == st.stack[|st.stack| - 1];
    forall k | m <= k < |rest| ensures IsUnary(g, rest[k]) || IsBinary(g, rest[k]) {
      assert rest[k] == st.stack[k];
    }
    PopTopAfterOperand(g, st);
    PopOneMore(st, m);
  }

  lemma PopTopAfterOperand(g: Grammar, st: Shunt)
    requires st.stack != [] && (IsUnary(g, Last(st.stack)) || IsBinary(g, Last(st.stack)))
    requires Depth(g, st.output) == Some(Waiting(g, st.stack) + 1)
    ensures Depth(g, st.output + [Last(st.stack)]) == Some(Waiting(g, DropLast(st.stack)) + 1)
    ensures OpenCount(st.stack) == OpenCount(DropLast(st.stack))
  {
    DepthAppend(g, st.output, Last(st.stack));
  }

  /** An operator that is read right after an operand pops every stacked
      operator of at least its precedence, and none of those is a `(`. */
  lemma PopForOperator(g: Grammar, ph: Phase, st: Shunt, c: char)
    requires Sane(g) && ph.after && Tracks(g, ph, st) && g.prec(c) >= 1
    ensures var m := AtLeastHeight(g, st.stack, g.prec(c));
      && Depth(g, PopTo(st, m).output) == Some(Waiting(g, st.stack[..m]) + 1)
      && OpenCount(st.stack[..m]) == ph.open
  {
    var m := AtLeastHeight(g, st.stack, g.prec(c));
    forall k | m <= k < |st.stack| ensures IsUnary(g, st.stack[k]) || IsBinary(g, st.stack[k]) {
      assert Stackable(g, st.stack[k]);
    }
    PopAfterOperand(g, st, m);
  }

  lemma WaitingAppend(g: Grammar, stack: seq<char>, c: char)
    ensures Waiting(g, stack + [c]) == Waiting(g, stack) + (if IsBinary(g, c) then 1 else 0)
    ensures OpenCount(stack + [c]) == OpenCount(stack) + (if c == '(' then 1 else 0)
  {
    assert DropLast(stack + [c]) == stack;
  }

  lemma StepBinary(g: Grammar, ph: Phase, st: Shunt, c: char)
    requires Sane(g) && ph.after && Tracks(g, ph, st) && IsBinary(g, c)
    ensures Step(g, st, c).Some? && Tracks(g, Phase(false, ph.open), Step(g, st, c).value)
  {
    var m := AtLeastHeight(g, st.stack, g.prec(c));
    PopForOperator(g, ph, st, c);
    WaitingAppend(g, st.stack[..m], c);
  }

  lemma StepUnary(g: Grammar, ph: Phase, st: Shunt, c: char)
    requires Sane(g) && ph.after && Tracks(g, ph, st) && IsUnary(g, c)
    ensures Step(g, st, c).Some? && Tracks(g, ph, Step(g, st, c).value)
  {
    var m := AtLeastHeight(g, st.stack, g.prec(c));
    PopForOperator(g, ph, st, c);
    WaitingAppend(g, st.stack[..m], c);
  }

  lemma StepClose(g: Grammar, ph: Phase, st: Shunt)
    requires Sane(g) && ph.after && ph.open > 0 && Tracks(g, ph, st)
    ensures Step(g, st, ')').Some? && Tracks(g, Phase(true, ph.open - 1), Step(g, st, ')').value)
  {
    var m := OpenHeight(st.stack);
    OpenHeightPositive(st.stack);
    ClosePops(g, ph, st);
    var rest := st.stack[..m - 1];
    var u := PopTo(st, m);
    assert DropLast(u.stack) == rest;
    assert Step(g, st, ')') == Some(Shunt(rest, u.output));
    forall k | 0 <= k < |rest| ensures Stackable(g, rest[k]) {
      assert rest[k] == st.stack[k];
    }
  }

  /** `)` after an operand pops the operators above the topmost `(`, then
      the `(` itself: the output holds one value per operator still waiting
      below it, plus one. */
  lemma ClosePops(g: Grammar, ph: Phase, st: Shunt)
    requires Sane(g) && ph.after && Tracks(g, ph, st) && 0 < OpenHeight(st.stack)
    ensures var m := OpenHeight(st.stack);
      && Depth(g, PopTo(st, m).output) == Some(Waiting(g, st.stack[..m - 1]) + 1)
      && OpenCount(st.stack[..m - 1]) + 1 == ph.open
  {
    var m := OpenHeight(st.stack);
    forall k | m <= k < |st.stack| ensures IsUnary(g, st.stack[k]) || IsBinary(g, st.stack[k]) {
      assert Stackable(g, st.stack[k]);
    }
    PopAfterOperand(g, st, m);
    assert st.stack[..m] == st.stack[..m - 1] + ['('];
    WaitingAppend(g, st.stack[..m - 1], '(');
  }

  /** A stack with an open parenthesis has `(` at or below its top run. */
  lemma {:induction false} OpenHeightPositive(stack: seq<char>)
    requires OpenCount(stack) > 0
    ensures OpenHeight(stack) > 0
  {
    if Last(stack) != '(' {
      OpenHeightPositive(DropLast(stack));
    }
  }

  lemma StepOperand(g: Grammar, ph: Phase, st: Shunt, c: char)
    requires !ph.after && Tracks(g, ph, st) && g.isOperand(c)
    ensures Step(g, st, c).Some? && Tracks(g, Phase(true, ph.open), Step(g, st, c).value)
  {
    DepthAppend(g, st.output, c);
  }

  lemma StepOpen(g: Grammar, ph: Phase, st: Shunt)
    requires Sane(g) && !ph.after && Tracks(g, ph, st)
    ensures Step(g, st, '(').Some? && Tracks(g, Phase(false, ph.open + 1), Step(g, st, '(').value)
  {
    WaitingAppend(g, st.stack, '(');
  }

  /** Each character the recogniser accepts is one the conversion handles
      without failing, and the two states stay in step. */
  lemma StepTracks(g: Grammar, ph: Phase, st: Shunt, c: char)
    requires Sane(g) && Tracks(g, ph, st) && Advance(g, ph, c).Some?
    ensures Step(g, st, c).Some? && Tracks(g, Advance(g, ph, c).value, Step(g, st, c).value)
  {
    if !ph.after {
      if g.isOperand(c) {
        StepOperand(g, ph, st, c);
      } else {
        StepOpen(g, ph, st);
      }
    } else if IsBinary(g, c) {
      StepBinary(g, ph, st, c);
    } else if IsUnary(g, c) {
      StepUnary(g, ph, st, c);
    } else {
      StepClose(g, ph, st);
    }
  }

  lemma {:induction false} ScanTracks(g: Grammar, s: seq<char>)
    requires Sane(g) && Parse(g, s).Some?
    ensures Scan(g, s).Some? && Tracks(g, Parse(g, s).value, Scan(g, s).value)
  {
    if s != [] {
      ScanTracks(g, DropLast(s));
      StepTracks(g, Parse(g, DropLast(s)).value, Scan(g, DropLast(s)).value, Last(s));
    }
  }

  /** The conversion never fails on well-formed input, and its output is
      valid Reverse Polish notation: reading it never underflows the value
      stack and leaves exactly one value. */
  lemma WellFormedToRpn(g: Grammar, s: seq<char>)
    requires Sane(g) && WellFormed(g, s)
    ensures ToPostfix(g, s).Some? && ValidRpn(g, ToPostfix(g, s).value)
  {
    ScanTracks(g, s);
    var st := Scan(g, s).value;
    FinalFlush(g, st);
  }

  /** The final flush after a complete expression with nothing left open. */
  lemma FinalFlush(g: Grammar, st: Shunt)
    requires Tracks(g, Phase(true, 0), st)
    ensures ValidRpn(g, Flush(st))
  {
    forall k | 0 <= k < |st.stack| ensures IsUnary(g, st.stack[k]) || IsBinary(g, st.stack[k]) {
      assert Stackable(g, st.stack[k]);
      if st.stack[k] == '(' {
        OpenCountPositive(st.stack, k);
      }
    }
    PopAfterOperand(g, st, 0);
    assert st.stack[0..] == st.stack;
    assert PopTo(st, 0).output == Flush(st);
  }

  lemma {:induction false} OpenCountPositive(stack: seq<char>, k: nat)
    requires k < |stack| && stack[k] == '('
    ensures OpenCount(stack) > 0
  {
    if k < |stack| - 1 {
      OpenCountPositive(DropLast(stack), k);
    }
  }
}
