/** The whole of validator.py's pipeline: `add_concat`, `regex_to_postfix`,
    `postfix_to_nfa`, `nfa_to_dfa` and `validate_string`, and the sample
    run its main block performs on `(0|1)*01`. */
module Pipeline {
  import opened Common
  import opened Nfa
  import opened ShuntingYard
  import opened PostfixLaws
  import opened Grammars
  import opened ExplicitConcat
  import opened Thompson
  import opened ThompsonLanguage
  import opened Subset
  import opened Matcher
  import opened Language
  import opened Rpn
  import D = Derivation

  /** The postfix text of `regex`: `add_concat`, then `regex_to_postfix`. */
  function Postfix(isOperand: char -> bool, regex: seq<char>): Option<seq<char>>
  {
    ToPostfix(RegexGrammar(isOperand), Emitted(isOperand, regex, |regex|))
  }

  /** The table `nfa_to_dfa` builds from the automaton of `regex` accepts a
      word exactly when it is over the alphabet and in the language of the
      expression tree of the postfix text. */
  lemma RegexAccepts(isOperand: char -> bool, regex: seq<char>, m: Compiled, order: seq<set<nat>>,
                     transitions: map<string, map<char, string>>, accepting: set<string>,
                     alphabet: seq<char>, w: seq<char>)
    requires Postfix(isOperand, regex).Some? && ToNfa(isOperand, Postfix(isOperand, regex).value) == Some(m)
    requires SubsetDfa(m.arena, m.start, m.end, order, transitions, accepting)
    ensures |Trees(isOperand, Postfix(isOperand, regex).value)| >= 1
    ensures TableClosed(transitions)
    ensures Validate(transitions, accepting, alphabet, w) == Accepted
      <==> InAlphabet(alphabet, w) && Matches(Last(Trees(isOperand, Postfix(isOperand, regex).value)), w)
  {
    var p := Postfix(isOperand, regex).value;
    CompiledShape(isOperand, p);
    CompiledLanguage(isOperand, p, w);
    SubsetDfaAccepts(m.arena, m.start, m.end, order, transitions, accepting, alphabet, w);
  }

  // Regular expressions given by their derivations

  /** The regular expression an expression tree of the regex grammar
      stands for: the postfix operator is the star, `.` concatenates and
      the other binary operator, `|`, alternates. */
  function AsRe(e: D.Expr): Re
  {
    match e
    case Leaf(c) => Chr(c)
    case Un(_, a) => Star(AsRe(a))
    case Bin(o, l, r) => if o == '.' then Cat(AsRe(l), AsRe(r)) else Alt(AsRe(l), AsRe(r))
  }

  lemma TreesSnoc(isOperand: char -> bool, s: seq<char>, c: char)
    ensures Trees(isOperand, s + [c]) == TreeStep(isOperand, Trees(isOperand, s), c)
  {
    assert DropLast(s + [c]) == s && Last(s + [c]) == c;
  }

  /** Reading the postorder of a derivation as `postfix_to_nfa`'s trees
      pushes the regular expression of the derivation's tree. */
  lemma {:induction false} TreesPost(isOperand: char -> bool, p: seq<char>, t: D.Term)
    requires PlainOperands(isOperand) && D.Derivable(RegexGrammar(isOperand), t)
    ensures Trees(isOperand, p + D.Post(t)) == Trees(isOperand, p) + [AsRe(D.Tree(t))]
    decreases t
  {
    match t
    case Atom(c) =>
      TreesSnoc(isOperand, p, c);
    case Group(b) =>
      TreesPost(isOperand, p, b);
    case Postop(o, a) =>
      TreesPost(isOperand, p, a);
      D.Assoc(p, D.Post(a), [o]);
      TreesStar(isOperand, p + D.Post(a), Trees(isOperand, p), AsRe(D.Tree(a)), o);
    case Binop(o, l, r) =>
      TreesPost(isOperand, p, l);
      TreesPost(isOperand, p + D.Post(l), r);
      D.Assoc(p, D.Post(l), D.Post(r));
      D.Assoc(p + D.Post(l), D.Post(r), [o]);
      D.Assoc(p, D.Post(l) + D.Post(r), [o]);
      TreesBinary(isOperand, p + D.Post(l) + D.Post(r), Trees(isOperand, p), AsRe(D.Tree(l)), AsRe(D.Tree(r)), o);
  }

  lemma TreesStar(isOperand: char -> bool, s: seq<char>, ts: seq<Re>, e: Re, o: char)
    requires PlainOperands(isOperand) && IsUnary(RegexGrammar(isOperand), o)
    requires Trees(isOperand, s) == ts + [e]
    ensures Trees(isOperand, s + [o]) == ts + [Star(e)]
  {
    TreesSnoc(isOperand, s, o);
    assert (ts + [e])[..|ts|] == ts;
  }

  lemma TreesBinary(isOperand: char -> bool, s: seq<char>, ts: seq<Re>, l: Re, r: Re, o: char)
    requires PlainOperands(isOperand) && IsBinary(RegexGrammar(isOperand), o)
    requires Trees(isOperand, s) == ts + [l] + [r]
    ensures Trees(isOperand, s + [o]) == ts + [if o == '.' then Cat(l, r) else Alt(l, r)]
  {
    TreesSnoc(isOperand, s, o);
    var f := ts + [l] + [r];
    assert f[..|ts|] == ts && f[|ts|] == l && f[|ts| + 1] == r;
  }

  /** For a regular expression whose `add_concat` form is the text of a
      derivation `t`: the postfix text is `t`'s postorder, `postfix_to_nfa`
      succeeds on it and builds the single tree of `t`. */
  lemma DerivedCompiles(isOperand: char -> bool, regex: seq<char>, t: D.Term)
    requires PlainOperands(isOperand) && D.Derivable(RegexGrammar(isOperand), t)
    requires Emitted(isOperand, regex, |regex|) == D.Text(t)
    ensures Postfix(isOperand, regex) == Some(D.Post(t))
    ensures ToNfa(isOperand, D.Post(t)).Some?
    ensures Trees(isOperand, D.Post(t)) == [AsRe(D.Tree(t))]
  {
    D.InfixToPostorder(RegexGrammar(isOperand), t);
    D.DepthPost(RegexGrammar(isOperand), [], t, 0);
    TreesPost(isOperand, [], t);
    assert [] + D.Post(t) == D.Post(t);
    CompileSucceeds(isOperand, D.Post(t));
  }

  /** The whole pipeline on a regular expression given by its derivation
      `t`: the table accepts a word exactly when it is over the alphabet
      and matches the expression `t` stands for, with its precedences and
      left grouping. */
  lemma DerivedRegexAccepts(isOperand: char -> bool, regex: seq<char>, t: D.Term, m: Compiled, order: seq<set<nat>>,
                            transitions: map<string, map<char, string>>, accepting: set<string>,
                            alphabet: seq<char>, w: seq<char>)
    requires PlainOperands(isOperand) && D.Derivable(RegexGrammar(isOperand), t)
    requires Emitted(isOperand, regex, |regex|) == D.Text(t)
    requires ToNfa(isOperand, D.Post(t)) == Some(m)
    requires SubsetDfa(m.arena, m.start, m.end, order, transitions, accepting)
    ensures TableClosed(transitions)
    ensures Validate(transitions, accepting, alphabet, w) == Accepted
      <==> InAlphabet(alphabet, w) && Matches(AsRe(D.Tree(t)), w)
  {
    DerivedCompiles(isOperand, regex, t);
    RegexAccepts(isOperand, regex, m, order, transitions, accepting, alphabet, w);
  }

  // The sample run

  const Sample: seq<char> := "(0|1)*01"

  /** The tree of `(0|1)*01`. */
  const SampleTree: Re := Cat(Cat(Star(Alt(Chr('0'), Chr('1'))), Chr('0')), Chr('1'))

  lemma SampleConcat()
    ensures Emitted(IsLowerOrBit, Sample, |Sample|) == "(0|1)*.0.1"
  {
    var s := Sample;
    assert Emitted(IsLowerOrBit, s, 1) == "(";
    assert Emitted(IsLowerOrBit, s, 2) == "(0";
    assert Emitted(IsLowerOrBit, s, 3) == "(0|";
    assert Emitted(IsLowerOrBit, s, 4) == "(0|1";
    assert Emitted(IsLowerOrBit, s, 5) == "(0|1)";
    assert Emitted(IsLowerOrBit, s, 6) == "(0|1)*.";
    assert Emitted(IsLowerOrBit, s, 7) == "(0|1)*.0.";
    assert Emitted(IsLowerOrBit, s, 8) == "(0|1)*.0.1";
  }

  /** The sample after `add_concat`. */
  const SampleConcatenated: seq<char> := "(0|1)*.0.1"

  /** The stack and output of `regex_to_postfix` after each character of
      the sample. */
  const SampleTrace: seq<Shunt> :=
    [Shunt("", ""), Shunt("(", ""), Shunt("(", "0"), Shunt("(|", "0"), Shunt("(|", "01"),
     Shunt("", "01|"), Shunt("*", "01|"), Shunt(".", "01|*"), Shunt(".", "01|*0"),
     Shunt(".", "01|*0."), Shunt(".", "01|*0.1")]

  /** `regex_to_postfix` on the sample after `add_concat`. */
  lemma SamplePostfix()
    ensures Postfix(IsLowerOrBit, Sample) == Some("01|*0.1.")
  {
    SampleConcat();
    var g, t := RegexGrammar(IsLowerOrBit), SampleConcatenated;
    forall k | 0 <= k < |t| ensures StepTo(g, SampleTrace[k], t[k], SampleTrace[k + 1]) {
      SampleStep(k);
    }
    ScanTrace(g, t, SampleTrace, |t|);
    assert t[..|t|] == t;
    assert Flush(SampleTrace[10]) == "01|*0.1.";
  }

  lemma SampleStep(k: nat)
    requires k < |SampleConcatenated|
    ensures StepTo(RegexGrammar(IsLowerOrBit), SampleTrace[k], SampleConcatenated[k], SampleTrace[k + 1])
  {
    if k == 4 {
      SampleClose();
    } else if k == 6 {
      SampleDot();
    } else if k == 8 {
      SampleSecondDot();
    }
  }

  /** `)` pops `|` and then the `(`. */
  lemma SampleClose()
    ensures StepTo(RegexGrammar(IsLowerOrBit), Shunt("(|", "01"), ')', Shunt("", "01|"))
  {
    assert OpenHeight("(|") == 1 by {
      assert DropLast("(|") == "(" && Last("(") == '(';
    }
  }

  /** `.` pops the `*`, whose precedence is higher. */
  lemma SampleDot()
    ensures StepTo(RegexGrammar(IsLowerOrBit), Shunt("*", "01|"), '.', Shunt(".", "01|*"))
  {
    assert AtLeastHeight(RegexGrammar(IsLowerOrBit), "*", 2) == 0 by {
      assert DropLast("*") == "";
    }
  }

  /** `.` pops the `.` of equal precedence: left associativity. */
  lemma SampleSecondDot()
    ensures StepTo(RegexGrammar(IsLowerOrBit), Shunt(".", "01|*0"), '.', Shunt(".", "01|*0."))
  {
    assert AtLeastHeight(RegexGrammar(IsLowerOrBit), ".", 2) == 0 by {
      assert DropLast(".") == "";
    }
  }

  const SamplePostfixText: seq<char> := "01|*0.1."

  /** The trees on the stack after each character of the postfix text. */
  const SampleForest: seq<seq<Re>> :=
    [[], [Chr('0')], [Chr('0'), Chr('1')], [Alt(Chr('0'), Chr('1'))], [Star(Alt(Chr('0'), Chr('1')))],
     [Star(Alt(Chr('0'), Chr('1'))), Chr('0')], [Cat(Star(Alt(Chr('0'), Chr('1'))), Chr('0'))],
     [Cat(Star(Alt(Chr('0'), Chr('1'))), Chr('0')), Chr('1')], [SampleTree]]

  /** The postfix text of the sample stands for `SampleTree`. */
  lemma SampleTrees()
    ensures Trees(IsLowerOrBit, SamplePostfixText) == [SampleTree]
  {
    var t := SamplePostfixText;
    forall k | 0 <= k < |t| ensures TreeStep(IsLowerOrBit, SampleForest[k], t[k]) == SampleForest[k + 1] {
      SampleTreeStep(k);
    }
    TreeTrace(IsLowerOrBit, t, SampleForest, |t|);
    assert t[..|t|] == t;
  }

  lemma SampleTreeStep(k: nat)
    requires k < |SamplePostfixText|
    ensures TreeStep(IsLowerOrBit, SampleForest[k], SamplePostfixText[k]) == SampleForest[k + 1]
  {
    var ts := SampleForest[k];
    if k == 2 || k == 5 || k == 7 {
      assert ts[..|ts| - 2] == [];
    } else if k == 3 {
      assert ts[..|ts| - 1] == [];
    }
  }

  lemma {:induction false} TreeTrace(isOperand: char -> bool, t: seq<char>, tss: seq<seq<Re>>, n: nat)
    requires |tss| == |t| + 1 && tss[0] == [] && n <= |t|
    requires forall k :: 0 <= k < |t| ==> TreeStep(isOperand, tss[k], t[k]) == tss[k + 1]
    ensures Trees(isOperand, t[..n]) == tss[n]
  {
    if n > 0 {
      TreeTrace(isOperand, t, tss, n - 1);
      assert DropLast(t[..n]) == t[..n - 1] && Last(t[..n]) == t[n - 1];
    }
  }

  /** The postfix text of the sample never underflows and leaves one
      value, so `postfix_to_nfa` returns an automaton. */
  lemma SampleCompiles()
    ensures ToNfa(IsLowerOrBit, SamplePostfixText).Some?
  {
    var g, t := RegexGrammar(IsLowerOrBit), SamplePostfixText;
    var ds: seq<nat> := [0, 1, 2, 1, 1, 2, 1, 2, 1];
    forall k | 0 <= k < |t| ensures Consume(g, ds[k], t[k]) == Some(ds[k + 1]) {
    }
    DepthTrace(g, t, ds, |t|);
    assert t[..|t|] == t;
    RegexOperandsPlain();
    CompileSucceeds(IsLowerOrBit, t);
  }

  lemma {:induction false} DepthTrace(g: Grammar, t: seq<char>, ds: seq<nat>, n: nat)
    requires |ds| == |t| + 1 && ds[0] == 0 && n <= |t|
    requires forall k :: 0 <= k < |t| ==> Consume(g, ds[k], t[k]) == Some(ds[k + 1])
    ensures Depth(g, t[..n]) == Some(ds[n])
  {
    if n > 0 {
      DepthTrace(g, t, ds, n - 1);
      assert DropLast(t[..n]) == t[..n - 1] && Last(t[..n]) == t[n - 1];
    }
  }

  // The language of the sample

  const Bit: Re := Alt(Chr('0'), Chr('1'))

  /** `(0|1)*` denotes the words over `0` and `1`. */
  lemma {:induction false} BitsStar(w: seq<char>)
    requires InAlphabet("01", w)
    ensures Matches(Star(Bit), w)
    decreases |w|
  {
    if w != [] {
      assert InAlphabet("01", w[1..]) by {
        forall i | 0 <= i < |w[1..]| ensures w[1..][i] in "01" {
          assert w[1..][i] == w[i + 1];
        }
      }
      BitsStar(w[1..]);
      assert w[0] in "01";
      assert w[..1] == [w[0]];
      assert Matches(Bit, w[..1]);
    }
  }

  lemma {:induction false} StarBits(w: seq<char>)
    requires Matches(Star(Bit), w)
    ensures InAlphabet("01", w)
    decreases |w|
  {
    if w != [] {
      var i :| 0 < i <= |w| && Matches(Bit, w[..i]) && Matches(Star(Bit), w[i..]);
      assert Bit == Alt(Chr('0'), Chr('1'));
      assert Matches(Chr('0'), w[..i]) || Matches(Chr('1'), w[..i]);
      assert i == 1 && w[0] == w[..i][0];
      StarBits(w[i..]);
      forall j | 0 <= j < |w| ensures w[j] in "01" {
        if j > 0 {
          assert w[j] == w[i..][j - 1];
        }
      }
    }
  }

  /** A word over `0` and `1` that ends in `01`. */
  predicate EndsIn01(w: seq<char>)
  {
    InAlphabet("01", w) && |w| >= 2 && w[|w| - 2] == '0' && w[|w| - 1] == '1'
  }

  /** What `(0|1)*01` denotes: the words over `0` and `1` that end in `01`. */
  lemma SampleTreeLanguage(w: seq<char>)
    ensures Matches(SampleTree, w) <==> EndsIn01(w)
  {
    if Matches(SampleTree, w) {
      SampleTreeEnds(w);
    }
    if EndsIn01(w) {
      EndsSampleTree(w);
    }
  }

  lemma SampleTreeEnds(w: seq<char>)
    requires Matches(SampleTree, w)
    ensures EndsIn01(w)
  {
    var front := Cat(Star(Bit), Chr('0'));
    var i :| 0 <= i <= |w| && Matches(front, w[..i]) && Matches(Chr('1'), w[i..]);
    assert i == |w| - 1 && w[|w| - 1] == w[i..][0];
    var u := w[..i];
    var j :| 0 <= j <= |u| && Matches(Star(Bit), u[..j]) && Matches(Chr('0'), u[j..]);
    assert j == |u| - 1 && w[|w| - 2] == u[j..][0];
    StarBits(u[..j]);
    forall k | 0 <= k < |w| ensures w[k] in "01" {
      if k < j {
        assert w[k] == u[..j][k];
      }
    }
  }

  lemma EndsSampleTree(w: seq<char>)
    requires EndsIn01(w)
    ensures Matches(SampleTree, w)
  {
    var front := Cat(Star(Bit), Chr('0'));
    var i := |w| - 1;
    var u := w[..i];
    var j := |u| - 1;
    assert InAlphabet("01", u[..j]) by {
      forall k | 0 <= k < j ensures u[..j][k] in "01" {
        assert u[..j][k] == w[k];
      }
    }
    BitsStar(u[..j]);
    assert u[j..] == [w[|w| - 2]] && w[i..] == [w[|w| - 1]];
    assert Matches(front, u);
  }

  // The sample run of the main block

  /** Any table the subset construction builds from the automaton of
      `(0|1)*01`, with alphabet `0`, `1`, accepts exactly the words over
      `0` and `1` that end in `01`. */
  lemma SampleAccepts(m: Compiled, order: seq<set<nat>>,
                      transitions: map<string, map<char, string>>, accepting: set<string>, w: seq<char>)
    requires ToNfa(IsLowerOrBit, SamplePostfixText) == Some(m)
    requires SubsetDfa(m.arena, m.start, m.end, order, transitions, accepting)
    ensures TableClosed(transitions)
    ensures Validate(transitions, accepting, "01", w) == Accepted <==> EndsIn01(w)
  {
    SamplePostfix();
    SampleTrees();
    RegexAccepts(IsLowerOrBit, Sample, m, order, transitions, accepting, "01", w);
    SampleTreeLanguage(w);
  }

  /** The verdicts the main block prints. */
  lemma SampleVerdicts(m: Compiled, order: seq<set<nat>>,
                       transitions: map<string, map<char, string>>, accepting: set<string>)
    requires ToNfa(IsLowerOrBit, SamplePostfixText) == Some(m)
    requires SubsetDfa(m.arena, m.start, m.end, order, transitions, accepting)
    ensures TableClosed(transitions)
    ensures Validate(transitions, accepting, "01", "1101") == Accepted
    ensures Validate(transitions, accepting, "01", "111") == Rejected
    ensures Validate(transitions, accepting, "01", "0001") == Accepted
  {
    SampleAccepts(m, order, transitions, accepting, "1101");
    SampleAccepts(m, order, transitions, accepting, "111");
    SampleAccepts(m, order, transitions, accepting, "0001");
    assert EndsIn01("1101") && !EndsIn01("111") && EndsIn01("0001");
  }

  /** The main block: `(0|1)*01` through the whole pipeline, then
      `1101`, `111` and `0001` through `validate_string`. */
  method ValidateSample() returns (r1101: Verdict, r111: Verdict, r0001: Verdict)
    ensures r1101 == Accepted && r111 == Rejected && r0001 == Accepted
  {
    var concat := AddConcat(IsLowerOrBit, Sample);
    SampleConcat();
    var postfix := InfixToPostfix(BitRegex(), concat);
    SamplePostfix();
    assert postfix == Some(SamplePostfixText);
    SampleCompiles();
    var nfa := PostfixToNfa(IsLowerOrBit, SamplePostfixText);
    CompiledShape(IsLowerOrBit, SamplePostfixText);
    var m := nfa.value;
    var dfa, accepting;
    ghost var order;
    dfa, accepting, order := NfaToDfa(m.arena, m.start, m.end);
    SampleVerdicts(m, order, dfa, accepting);
    r1101 := ValidateString(dfa, accepting, "01", "1101");
    r111 := ValidateString(dfa, accepting, "01", "111");
    r0001 := ValidateString(dfa, accepting, "01", "0001");
  }
}
