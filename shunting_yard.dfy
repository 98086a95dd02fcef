/** The operator-precedence ("shunting-yard") conversion from infix to
    postfix, written once and instantiated per grammar: the regular
    expression grammars of regex2dfa.py and validator.py and the
    arithmetic grammar of codegen.py run the very same loop and differ only
    in which characters are operands and in their precedence tables. */
module ShuntingYard {
  import opened Common

  /** One grammar's configuration: which characters are operands, the
      precedence of every character (0 for anything not in the table), and
      which operators are unary postfix operators (the Kleene star). The
      last is used only to say what well-formed input is. */
  datatype Grammar = Grammar(isOperand: char -> bool, prec: char -> nat, isPostfix: char -> bool)

  /** Both instantiations: parentheses are not operands and `(` has
      precedence 0 (it is in neither table). */
  predicate Sane(g: Grammar)
  {
    !g.isOperand('(') && !g.isOperand(')') && g.prec('(') == 0
  }

  /** The operator stack (top at the end) and the output produced so far. */
  datatype Shunt = Shunt(stack: seq<char>, output: seq<char>)

  /** Pops the stack down to height `m`, appending what is popped to the
      output in popping order (top first). */
  function PopTo(st: Shunt, m: nat): Shunt
    requires m <= |st.stack|
  {
    Shunt(st.stack[..m], st.output + Reverse(st.stack[m..]))
  }

  /** The height at which `while stack and stack[-1] != '(': pop` stops:
      the run above it holds no `(`, and it is 0 or has `(` on top. */
  function OpenHeight(stack: seq<char>): (m: nat)
    ensures m <= |stack|
    ensures forall k :: m <= k < |stack| ==> stack[k] != '('
    ensures m == 0 || stack[m - 1] == '('
  {
    if stack != [] && Last(stack) != '(' then OpenHeight(DropLast(stack)) else |stack|
  }

  /** The height at which `while stack and precedence(stack[-1]) >= p: pop`
      stops: every popped operator has precedence at least `p`, and the one
      left on top (if any) has less. */
  function AtLeastHeight(g: Grammar, stack: seq<char>, p: nat): (m: nat)
    ensures m <= |stack|
    ensures forall k :: m <= k < |stack| ==> g.prec(stack[k]) >= p
    ensures m == 0 || g.prec(stack[m - 1]) < p
  {
    if stack != [] && g.prec(Last(stack)) >= p then AtLeastHeight(g, DropLast(stack), p) else |stack|
  }

  /** One iteration of the main loop on character `c`; `None` is the pop
      from an empty stack that an unmatched `)` causes. */
  function Step(g: Grammar, st: Shunt, c: char): Option<Shunt>
  {
    if g.isOperand(c) then
      Some(Shunt(st.stack, st.output + [c]))
    else if c == '(' then
      Some(Shunt(st.stack + [c], st.output))
    else if c == ')' then
      var m := OpenHeight(st.stack);
      if m == 0 then None else
      var u := PopTo(st, m);
      Some(Shunt(DropLast(u.stack), u.output))
    else
      var u := PopTo(st, AtLeastHeight(g, st.stack, g.prec(c)));
      Some(Shunt(u.stack + [c], u.output))
  }

  /** The state of the main loop after it has read all of `s`. */
  function Scan(g: Grammar, s: seq<char>): Option<Shunt>
  {
    if s == [] then Some(Shunt([], []))
    else match Scan(g, DropLast(s))
      case None => None
      case Some(st) => Step(g, st, Last(s))
  }

  /** The final `while stack: output.append(stack.pop())`. */
  function Flush(st: Shunt): seq<char>
  {
    st.output + Reverse(st.stack)
  }

  /** The postfix form of `s`, or `None` when the conversion pops an empty stack. */
  function ToPostfix(g: Grammar, s: seq<char>): Option<seq<char>>
  {
    match Scan(g, s)
    case None => None
    case Some(st) => Some(Flush(st))
  }

  /** Once the conversion has failed on a prefix, it fails on the whole input. */
  lemma {:induction false} ScanFailureSticks(g: Grammar, s: seq<char>, k: nat)
    requires k <= |s| && Scan(g, s[..k]) == None
    ensures Scan(g, s) == None
    decreases |s| - k
  {
    if k == |s| {
      assert s[..k] == s;
    } else {
      assert DropLast(s[..k + 1]) == s[..k];
      ScanFailureSticks(g, s, k + 1);
    }
  }

  /** Popping one more element extends the popped run by that element. */
  lemma PopOneMore(st: Shunt, m: nat)
    requires m < |st.stack|
    ensures PopTo(Shunt(DropLast(st.stack), st.output + [Last(st.stack)]), m) == PopTo(st, m)
  {
    var s := st.stack;
    assert DropLast(s[m..]) == DropLast(s)[m..];
    assert Reverse(s[m..]) == [Last(s)] + Reverse(DropLast(s)[m..]);
    assert DropLast(s)[..m] == s[..m];
  }

  /** The conversion loop itself, with its operator stack and output list. */
  method InfixToPostfix(g: Grammar, s: seq<char>) returns (r: Option<seq<char>>)
    ensures r == ToPostfix(g, s)
  {
    var stack: seq<char> := [];
    var output: seq<char> := [];
    for i := 0 to |s|
      invariant Scan(g, s[..i]) == Some(Shunt(stack, output))
    {
      var c := s[i];
      assert DropLast(s[..i + 1]) == s[..i];
      ghost var before := Shunt(stack, output);
      if g.isOperand(c) {
        output := output + [c];
      } else if c == '(' {
        stack := stack + [c];
      } else if c == ')' {
        stack, output := PopToOpen(stack, output);
        if stack == [] {
          assert Scan(g, s[..i + 1]) == None;
          ScanFailureSticks(g, s, i + 1);
          return None;
        }
        stack := stack[..|stack| - 1];
      } else {
        stack, output := PopAtLeast(g, stack, output, g.prec(c));
        stack := stack + [c];
      }
      assert Step(g, before, c) == Some(Shunt(stack, output));
    }
    assert s[..|s|] == s;
    ghost var final := Shunt(stack, output);
    while stack != []
      invariant PopTo(Shunt(stack, output), 0) == PopTo(final, 0)
      decreases |stack|
    {
      PopOneMore(Shunt(stack, output), 0);
      output := output + [stack[|stack| - 1]];
      stack := stack[..|stack| - 1];
    }
    assert output == Flush(final);
    return Some(output);
  }

  /** The inner loop for `)`. */
  method PopToOpen(stack0: seq<char>, output0: seq<char>) returns (stack: seq<char>, output: seq<char>)
    ensures Shunt(stack, output) == PopTo(Shunt(stack0, output0), OpenHeight(stack0))
  {
    stack, output := stack0, output0;
    while stack != [] && stack[|stack| - 1] != '('
      invariant OpenHeight(stack) == OpenHeight(stack0)
      invariant PopTo(Shunt(stack, output), OpenHeight(stack0)) == PopTo(Shunt(stack0, output0), OpenHeight(stack0))
      decreases |stack|
    {
      PopOneMore(Shunt(stack, output), OpenHeight(stack0));
      output := output + [stack[|stack| - 1]];
      stack := stack[..|stack| - 1];
    }
  }

  /** The inner loop for an operator of precedence `p`. */
  method PopAtLeast(g: Grammar, stack0: seq<char>, output0: seq<char>, p: nat) returns (stack: seq<char>, output: seq<char>)
    ensures Shunt(stack, output) == PopTo(Shunt(stack0, output0), AtLeastHeight(g, stack0, p))
  {
    stack, output := stack0, output0;
    while stack != [] && g.prec(stack[|stack| - 1]) >= p
      invariant AtLeastHeight(g, stack, p) == AtLeastHeight(g, stack0, p)
      invariant PopTo(Shunt(stack, output), AtLeastHeight(g, stack0, p)) == PopTo(Shunt(stack0, output0), AtLeastHeight(g, stack0, p))
      decreases |stack|
    {
      PopOneMore(Shunt(stack, output), AtLeastHeight(g, stack0, p));
      output := output + [stack[|stack| - 1]];
      stack := stack[..|stack| - 1];
    }
  }
}
