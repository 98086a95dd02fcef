/** What the shunting-yard conversion guarantees for every grammar:
    operands keep their order, parentheses are consumed in pairs, an
    unmatched `)` is the one way to fail (when every other character is an
    operand or a known operator), and an unmatched `(` is flushed into the
    output. */
module PostfixLaws {
  import opened Common
  import opened ShuntingYard

  function Opens(s: seq<char>): nat
  {
    multiset(s)['(']
  }

  function Closes(s: seq<char>): nat
  {
    multiset(s)[')']
  }

  /** A character the grammar knows: an operand, a parenthesis, or an
      operator with a positive precedence. */
  predicate Known(g: Grammar, c: char)
  {
    g.isOperand(c) || c == '(' || c == ')' || g.prec(c) >= 1
  }

  predicate AllKnown(g: Grammar, s: seq<char>)
  {
    forall k :: 0 <= k < |s| ==> Known(g, s[k])
  }

  /** No prefix closes more parentheses than it opens. */
  predicate NeverDips(s: seq<char>)
  {
    forall k :: 0 <= k <= |s| ==> Closes(s[..k]) <= Opens(s[..k])
  }

  lemma PrefixOfDropLast(s: seq<char>, k: nat)
    requires |s| > 0 && k <= |s| - 1
    ensures DropLast(s)[..k] == s[..k]
  {
  }

  lemma NeverDipsStep(s: seq<char>)
    requires |s| > 0
    ensures NeverDips(s) <==> NeverDips(DropLast(s)) && Closes(s) <= Opens(s)
  {
    assert s[..|s|] == s;
    if NeverDips(s) {
      forall k | 0 <= k <= |DropLast(s)|
        ensures Closes(DropLast(s)[..k]) <= Opens(DropLast(s)[..k])
      {
        PrefixOfDropLast(s, k);
      }
    }
    if NeverDips(DropLast(s)) && Closes(s) <= Opens(s) {
      forall k | 0 <= k <= |s|
        ensures Closes(s[..k]) <= Opens(s[..k])
      {
        if k < |s| {
          PrefixOfDropLast(s, k);
        }
      }
    }
  }

  lemma CountAppend(a: seq<char>, b: seq<char>)
    ensures multiset(a + b) == multiset(a) + multiset(b)
  {
  }

  predicate NoOperands(g: Grammar, stack: seq<char>)
  {
    forall k :: 0 <= k < |stack| ==> !g.isOperand(stack[k])
  }

  lemma PopOperands(g: Grammar, st: Shunt, m: nat)
    requires m <= |st.stack| && NoOperands(g, st.stack)
    ensures NoOperands(g, PopTo(st, m).stack)
    ensures Filter(g.isOperand, PopTo(st, m).output) == Filter(g.isOperand, st.output)
  {
    var popped := st.stack[m..];
    forall k | 0 <= k < |Reverse(popped)|
      ensures !g.isOperand(Reverse(popped)[k])
    {
      assert Reverse(popped)[k] == st.stack[|st.stack| - 1 - k];
    }
    FilterNone(g.isOperand, Reverse(popped));
    FilterAppend(g.isOperand, st.output, Reverse(popped));
  }

  /** Operands stay off the stack across one step. */
  lemma StepOperands(g: Grammar, st: Shunt, c: char)
    requires NoOperands(g, st.stack)
    requires Step(g, st, c).Some?
    ensures NoOperands(g, Step(g, st, c).value.stack)
    ensures Filter(g.isOperand, Step(g, st, c).value.output) == Filter(g.isOperand, st.output) + Filter(g.isOperand, [c])
  {
    assert DropLast([c]) == [];
    var r := Step(g, st, c).value;
    if g.isOperand(c) {
      FilterAppend(g.isOperand, st.output, [c]);
    } else if c == '(' {
      assert r.stack == st.stack + [c];
    } else if c == ')' {
      PopOperands(g, st, OpenHeight(st.stack));
    } else {
      PopOperands(g, st, AtLeastHeight(g, st.stack, g.prec(c)));
    }
  }

  /** Operands never reach the operator stack, and the output holds the
      input's operands in their input order. */
  lemma {:induction false} ScanOperands(g: Grammar, s: seq<char>)
    requires Scan(g, s).Some?
    ensures NoOperands(g, Scan(g, s).value.stack)
    ensures Filter(g.isOperand, Scan(g, s).value.output) == Filter(g.isOperand, s)
    decreases |s|
  {
    if s != [] {
      var d, c := DropLast(s), Last(s);
      assert s == d + [c];
      ScanOperands(g, d);
      var st := Scan(g, d).value;
      assert Scan(g, s) == Step(g, st, c);
      StepOperands(g, st, c);
      FilterAppend(g.isOperand, d, [c]);
    }
  }

  /** The output of the conversion lists the input's operands in their input order. */
  lemma OperandsKeepOrder(g: Grammar, s: seq<char>)
    requires ToPostfix(g, s).Some?
    ensures Filter(g.isOperand, ToPostfix(g, s).value) == Filter(g.isOperand, s)
  {
    ScanOperands(g, s);
    var st := Scan(g, s).value;
    PopOperands(g, st, 0);
  }

  /** `n` opening and `n` closing parentheses. */
  function Pairs(n: nat): multiset<char>
  {
    multiset{}['(' := n][')' := n]
  }

  /** The loop's bookkeeping of parentheses: every `)` read so far has
      consumed itself and one stacked `(`, and every other character read is
      in the output or on the stack; the output holds no parenthesis and the
      stack no `)`. */
  predicate ParenInvariant(s: seq<char>, st: Shunt)
  {
    && multiset(st.output) + multiset(st.stack) + Pairs(Closes(s)) == multiset(s)
    && multiset(st.stack)[')'] == 0
    && multiset(st.output)['('] == 0
    && multiset(st.output)[')'] == 0
  }

  /** Moving a run without `(` from the stack to the output keeps the bookkeeping. */
  lemma PopParens(d: seq<char>, st: Shunt, m: nat)
    requires m <= |st.stack| && ParenInvariant(d, st)
    requires forall k :: m <= k < |st.stack| ==> st.stack[k] != '('
    ensures ParenInvariant(d, PopTo(st, m))
    ensures multiset(PopTo(st, m).stack)['('] == multiset(st.stack)['(']
  {
    var popped := st.stack[m..];
    assert st.stack == st.stack[..m] + popped;
    ReverseMultiset(popped);
    assert multiset(popped)['('] == 0 by {
      forall k | 0 <= k < |popped| ensures popped[k] != '(' {
        assert popped[k] == st.stack[m + k];
      }
    }
  }

  lemma StepParensOperand(g: Grammar, d: seq<char>, st: Shunt, c: char)
    requires Sane(g) && g.isOperand(c) && ParenInvariant(d, st)
    ensures Step(g, st, c) == Some(Shunt(st.stack, st.output + [c]))
    ensures ParenInvariant(d + [c], Shunt(st.stack, st.output + [c]))
  {
    CountAppend(d, [c]);
    CountAppend(st.output, [c]);
  }

  lemma StepParensOpen(g: Grammar, d: seq<char>, st: Shunt)
    requires Sane(g) && ParenInvariant(d, st)
    ensures Step(g, st, '(') == Some(Shunt(st.stack + ['('], st.output))
    ensures ParenInvariant(d + ['('], Shunt(st.stack + ['('], st.output))
  {
    CountAppend(d, ['(']);
    CountAppend(st.stack, ['(']);
  }

  lemma PairsSucc(n: nat)
    ensures Pairs(n + 1) == Pairs(n) + multiset{'(', ')'}
  {
  }

  /** Discarding the matching `(` for a `)`. */
  lemma CloseMatches(d: seq<char>, u: Shunt)
    requires ParenInvariant(d, u) && u.stack != [] && Last(u.stack) == '('
    ensures ParenInvariant(d + [')'], Shunt(DropLast(u.stack), u.output))
  {
    var r := Shunt(DropLast(u.stack), u.output);
    assert u.stack == r.stack + ['('];
    assert multiset(u.stack) == multiset(r.stack) + multiset{'('};
    assert multiset(d + [')']) == multiset(d) + multiset{')'};
    assert Closes(d + [')']) == Closes(d) + 1;
    PairsSucc(Closes(d));
  }

  /** What one `)` does: `None` without a stacked `(`, otherwise the pop to
      the nearest `(` followed by discarding it. */
  lemma CloseShape(g: Grammar, st: Shunt)
    requires Sane(g)
    ensures var m := OpenHeight(st.stack);
      Step(g, st, ')') == if m == 0 then None else Some(Shunt(DropLast(PopTo(st, m).stack), PopTo(st, m).output))
  {
  }

  lemma StepParensClose(g: Grammar, d: seq<char>, st: Shunt)
    requires Sane(g) && ParenInvariant(d, st)
    ensures Step(g, st, ')').None? <==> multiset(st.stack)['('] == 0
    ensures Step(g, st, ')').Some? ==> ParenInvariant(d + [')'], Step(g, st, ')').value)
  {
    CloseShape(g, st);
    if OpenHeight(st.stack) == 0 {
      NoOpen(st.stack);
    } else {
      CloseSome(d, st);
    }
  }

  /** Without `(` on top of some run, the stack holds no `(` at all. */
  lemma NoOpen(stack: seq<char>)
    requires OpenHeight(stack) == 0
    ensures multiset(stack)['('] == 0
  {
    assert '(' !in stack by {
      forall k | 0 <= k < |stack| ensures stack[k] != '(' {
      }
    }
  }

  /** A `)` that finds a `(`: the bookkeeping holds after popping to it and
      discarding it. */
  lemma CloseSome(d: seq<char>, st: Shunt)
    requires ParenInvariant(d, st) && OpenHeight(st.stack) != 0
    ensures multiset(st.stack)['('] > 0
    ensures var u := PopTo(st, OpenHeight(st.stack));
      ParenInvariant(d + [')'], Shunt(DropLast(u.stack), u.output))
  {
    var m := OpenHeight(st.stack);
    assert st.stack[m - 1] == '(';
    assert '(' in multiset(st.stack);
    PopParens(d, st, m);
    var u := PopTo(st, m);
    assert Last(u.stack) == '(';
    CloseMatches(d, u);
  }

  lemma StepParensOperator(g: Grammar, d: seq<char>, st: Shunt, c: char)
    requires Sane(g) && ParenInvariant(d, st)
    requires !g.isOperand(c) && c != '(' && c != ')' && g.prec(c) >= 1
    ensures Step(g, st, c).Some? && ParenInvariant(d + [c], Step(g, st, c).value)
  {
    var m := AtLeastHeight(g, st.stack, g.prec(c));
    forall k | m <= k < |st.stack| ensures st.stack[k] != '(' {
      assert g.prec(st.stack[k]) >= g.prec(c) >= 1;
    }
    PopParens(d, st, m);
    var u := PopTo(st, m);
    assert Step(g, st, c) == Some(Shunt(u.stack + [c], u.output));
    PushOperator(d, u, c);
  }

  /** Stacking an operator keeps the bookkeeping. */
  lemma PushOperator(d: seq<char>, u: Shunt, c: char)
    requires ParenInvariant(d, u) && c != '(' && c != ')'
    ensures ParenInvariant(d + [c], Shunt(u.stack + [c], u.output))
  {
    CountAppend(u.stack, [c]);
    CountAppend(d, [c]);
    assert Closes(d + [c]) == Closes(d);
  }

  /** One step keeps the parenthesis bookkeeping, and fails only on a `)`
      when no `(` is stacked. */
  lemma StepParens(g: Grammar, d: seq<char>, st: Shunt, c: char)
    requires Sane(g) && Known(g, c) && ParenInvariant(d, st)
    ensures Step(g, st, c).None? <==> c == ')' && Opens(d) == Closes(d)
    ensures Step(g, st, c).Some? ==> ParenInvariant(d + [c], Step(g, st, c).value)
  {
    assert multiset(st.stack)['('] + Closes(d) == Opens(d) by {
      assert (multiset(st.output) + multiset(st.stack) + Pairs(Closes(d)))['('] == multiset(d)['('];
    }
    if g.isOperand(c) {
      StepParensOperand(g, d, st, c);
    } else if c == '(' {
      StepParensOpen(g, d, st);
    } else if c == ')' {
      StepParensClose(g, d, st);
    } else {
      StepParensOperator(g, d, st, c);
    }
  }

  lemma {:induction false} ScanParens(g: Grammar, s: seq<char>)
    requires Sane(g) && AllKnown(g, s)
    ensures Scan(g, s).Some? <==> NeverDips(s)
    ensures Scan(g, s).Some? ==> ParenInvariant(s, Scan(g, s).value)
    decreases |s|
  {
    if s == [] {
      assert NeverDips(s) by {
        forall k | 0 <= k <= |s| ensures Closes(s[..k]) <= Opens(s[..k]) {
          assert s[..k] == [];
        }
      }
    } else {
      var d, c := DropLast(s), Last(s);
      assert s == d + [c];
      assert AllKnown(g, d) by {
        forall k | 0 <= k < |d| ensures Known(g, d[k]) {
          assert d[k] == s[k];
        }
      }
      assert Known(g, c) by {
        assert c == s[|s| - 1];
      }
      ScanParens(g, d);
      NeverDipsStep(s);
      CountAppend(d, [c]);
      if Scan(g, d).Some? {
        var st := Scan(g, d).value;
        assert Scan(g, s) == Step(g, st, c);
        StepParens(g, d, st, c);
      }
    }
  }

  /** Conversion fails exactly when a `)` has no `(` left to match, and a
      successful output has every non-parenthesis input character, no `)`,
      and one `(` for each unmatched `(` of the input. */
  lemma PostfixParentheses(g: Grammar, s: seq<char>)
    requires Sane(g) && AllKnown(g, s)
    ensures ToPostfix(g, s).None? <==> exists k :: 0 <= k <= |s| && Closes(s[..k]) > Opens(s[..k])
    ensures ToPostfix(g, s).Some? ==>
      var out := ToPostfix(g, s).value;
      && multiset(out)[')'] == 0
      && multiset(out)['('] == Opens(s) - Closes(s)
      && forall x :: x != '(' && x != ')' ==> multiset(out)[x] == multiset(s)[x]
  {
    ScanParens(g, s);
    if Scan(g, s).Some? {
      var st := Scan(g, s).value;
      CountAppend(st.output, Reverse(st.stack));
      ReverseMultiset(st.stack);
    }
  }

  /** With balanced parentheses the output is the input with its
      parentheses removed, as a multiset: no parenthesis is left, and the
      length drops by exactly the number of parentheses. */
  lemma BalancedPostfix(g: Grammar, s: seq<char>)
    requires Sane(g) && AllKnown(g, s)
    requires NeverDips(s) && Opens(s) == Closes(s)
    ensures ToPostfix(g, s).Some?
    ensures '(' !in ToPostfix(g, s).value && ')' !in ToPostfix(g, s).value
    ensures multiset(ToPostfix(g, s).value) == multiset(s)['(' := 0][')' := 0]
    ensures |ToPostfix(g, s).value| == |s| - Opens(s) - Closes(s)
  {
    PostfixParentheses(g, s);
    var out := ToPostfix(g, s).value;
    assert multiset(out) == multiset(s)['(' := 0][')' := 0];
  }

  /** Character `c` takes the conversion from `st` to `st'`. */
  predicate StepTo(g: Grammar, st: Shunt, c: char, st': Shunt)
  {
    Step(g, st, c).Some? && Step(g, st, c).value.stack == st'.stack && Step(g, st, c).value.output == st'.output
  }

  /** A run of the conversion given state by state. */
  lemma {:induction false} ScanTrace(g: Grammar, t: seq<char>, sts: seq<Shunt>, n: nat)
    requires |sts| == |t| + 1 && sts[0] == Shunt([], []) && n <= |t|
    requires forall k :: 0 <= k < |t| ==> StepTo(g, sts[k], t[k], sts[k + 1])
    ensures Scan(g, t[..n]) == Some(sts[n])
  {
    if n > 0 {
      ScanTrace(g, t, sts, n - 1);
      assert DropLast(t[..n]) == t[..n - 1] && Last(t[..n]) == t[n - 1];
      assert StepTo(g, sts[n - 1], t[n - 1], sts[n]);
    }
  }

  /** The popping rule for operators: in `x o1 y o2 z` the second operator
      first emits the stacked `o1` when `o1` binds at least as tightly, so
      operators of equal precedence group to the left, and otherwise `o1`
      waits below `o2`. */
  lemma OperatorOrder(g: Grammar, x: char, o1: char, y: char, o2: char, z: char)
    requires g.isOperand(x) && g.isOperand(y) && g.isOperand(z)
    requires !g.isOperand(o1) && o1 != '(' && o1 != ')'
    requires !g.isOperand(o2) && o2 != '(' && o2 != ')'
    ensures ToPostfix(g, [x, o1, y, o2, z])
      == Some(if g.prec(o1) >= g.prec(o2) then [x, y, o1, z, o2] else [x, y, z, o2, o1])
  {
    var s := [x, o1, y, o2, z];
    var st4 := SecondOperator(g, x, o1, y, o2);
    var sts := [Shunt([], []), Shunt([], [x]), Shunt([o1], [x]), Shunt([o1], [x, y]), st4,
                Shunt(st4.stack, st4.output + [z])];
    assert StepTo(g, sts[0], s[0], sts[1]);
    assert StepTo(g, sts[1], s[1], sts[2]) by {
      assert AtLeastHeight(g, [], g.prec(o1)) == 0;
    }
    assert StepTo(g, sts[2], s[2], sts[3]);
    assert StepTo(g, sts[4], s[4], sts[5]);
    ScanTrace(g, s, sts, |s|);
    assert s[..|s|] == s;
    FlushOrder(g, x, o1, y, o2, z, st4);
  }

  lemma FlushOrder(g: Grammar, x: char, o1: char, y: char, o2: char, z: char, st: Shunt)
    requires st == if g.prec(o1) >= g.prec(o2) then Shunt([o2], [x, y, o1]) else Shunt([o1, o2], [x, y])
    ensures Flush(Shunt(st.stack, st.output + [z]))
      == if g.prec(o1) >= g.prec(o2) then [x, y, o1, z, o2] else [x, y, z, o2, o1]
  {
    if g.prec(o1) >= g.prec(o2) {
      assert Reverse([o2]) == [o2];
    } else {
      assert Reverse([o1, o2]) == [o2, o1];
    }
  }

  /** The state after `x o1 y o2`, where `o2` meets `o1` on the stack. */
  lemma SecondOperator(g: Grammar, x: char, o1: char, y: char, o2: char) returns (st: Shunt)
    requires !g.isOperand(o2) && o2 != '(' && o2 != ')'
    ensures st == if g.prec(o1) >= g.prec(o2) then Shunt([o2], [x, y, o1]) else Shunt([o1, o2], [x, y])
    ensures StepTo(g, Shunt([o1], [x, y]), o2, st)
  {
    assert DropLast([o1]) == [];
    if g.prec(o1) >= g.prec(o2) {
      assert AtLeastHeight(g, [o1], g.prec(o2)) == 0;
      st := Shunt([o2], [x, y, o1]);
    } else {
      assert AtLeastHeight(g, [o1], g.prec(o2)) == 1;
      st := Shunt([o1, o2], [x, y]);
    }
  }
}
