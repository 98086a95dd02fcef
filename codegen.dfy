/** codegen.py: arithmetic infix text to postfix tokens, and postfix tokens
    to instructions of a stack machine. */
module Codegen {
  import opened Common
  import opened ShuntingYard
  import opened Grammars
  import opened Rpn
  import opened PostfixLaws
  import D = Derivation

  predicate NotSpace(c: char)
  {
    c != ' '
  }

  /** `expression.replace(" ", "")`: only the space character is removed,
      and the other characters keep their order. */
  function StripSpaces(expression: string): (r: string)
    ensures r == Filter(NotSpace, expression)
    ensures ' ' !in r
    ensures forall c :: c != ' ' ==> multiset(r)[c] == multiset(expression)[c]
  {
    if expression == [] then []
    else
      var r := StripSpaces(DropLast(expression)) + (if Last(expression) != ' ' then [Last(expression)] else []);
      assert expression == DropLast(expression) + [Last(expression)];
      r
  }

  /** `list(...)` of a string: one token per character. */
  function Singletons(s: seq<char>): (r: seq<string>)
    ensures |r| == |s|
    ensures forall i :: 0 <= i < |s| ==> r[i] == [s[i]]
  {
    if s == [] then [] else Singletons(DropLast(s)) + [[Last(s)]]
  }

  /** The postfix token list of `expression`, or `None` for the empty pop
      that an unmatched `)` causes. */
  function Postfix(expression: string): Option<seq<string>>
  {
    match ToPostfix(Arith(), StripSpaces(expression))
    case None => None
    case Some(p) => Some(Singletons(p))
  }

  /** The operand tokens of the postfix list are the letters and digits of
      the expression, one token each, in the order they are written. */
  lemma PostfixOperands(expression: string)
    requires Postfix(expression).Some?
    ensures Filter(IsAlnumToken, Postfix(expression).value) == Singletons(Filter(IsAlnum, Filter(NotSpace, expression)))
  {
    var p := ToPostfix(Arith(), StripSpaces(expression)).value;
    OperandsKeepOrder(Arith(), StripSpaces(expression));
    SingletonOperands(p);
  }

  /** Keeping the letter-and-digit tokens of one-character tokens is
      keeping the letters and digits. */
  lemma {:induction false} SingletonOperands(s: seq<char>)
    ensures Filter(IsAlnumToken, Singletons(s)) == Singletons(Filter(IsAlnum, s))
  {
    if s != [] {
      var front, x := DropLast(s), Last(s);
      SingletonOperands(front);
      var u := Singletons(front);
      var f := Filter(IsAlnum, front);
      assert Singletons(s) == u + [[x]];
      assert DropLast(u + [[x]]) == u && Last(u + [[x]]) == [x];
      assert IsAlnumToken([x]) == IsAlnum(x) by {
        assert [x][0] == x;
      }
      assert Filter(IsAlnumToken, Singletons(s)) == Filter(IsAlnumToken, u) + (if IsAlnum(x) then [[x]] else []);
      assert Filter(IsAlnum, s) == f + (if IsAlnum(x) then [x] else []);
      if IsAlnum(x) {
        assert DropLast(f + [x]) == f && Last(f + [x]) == x;
      }
    }
  }

  /** `infix_to_postfix`. */
  method InfixToPostfix(expression: string) returns (r: Option<seq<string>>)
    ensures r == Postfix(expression)
  {
    var tokens := StripSpaces(expression);
    var p := ShuntingYard.InfixToPostfix(Arith(), tokens);
    match p
    case None => r := None;
    case Some(out) => r := Some(Singletons(out));
  }

  /** A stack machine instruction. */
  datatype Instr = Push(operand: string) | Add | Sub | Mul | Div

  /** `str.isalnum()`: non-empty and every character a letter or digit (ASCII). */
  predicate IsAlnumToken(t: string)
  {
    |t| > 0 && forall i :: 0 <= i < |t| ==> IsAlnum(t[i])
  }

  /** The instruction a token translates to, if any. */
  function Translate(t: string): Option<Instr>
  {
    if IsAlnumToken(t) then Some(Push(t))
    else if t == "+" then Some(Add)
    else if t == "-" then Some(Sub)
    else if t == "*" then Some(Mul)
    else if t == "/" then Some(Div)
    else None
  }

  /** The instructions for a token list, in token order. */
  function Instrs(tokens: seq<string>): seq<Instr>
  {
    if tokens == [] then []
    else Instrs(DropLast(tokens)) + (match Translate(Last(tokens)) case None => [] case Some(i) => [i])
  }

  /** The text of one instruction. */
  function Text(i: Instr): string
  {
    match i
    case Push(t) => "PUSH " + t
    case Add => "ADD"
    case Sub => "SUB"
    case Mul => "MUL"
    case Div => "DIV"
  }

  function Listing(code: seq<Instr>): (r: seq<string>)
    ensures |r| == |code|
    ensures forall k :: 0 <= k < |code| ==> r[k] == Text(code[k])
  {
    if code == [] then [] else Listing(DropLast(code)) + [Text(Last(code))]
  }

  /** `generate_stack_code`: a loop that appends one line per token it knows. */
  method GenerateStackCode(postfix: seq<string>) returns (code: seq<string>)
    ensures code == Listing(Instrs(postfix))
  {
    code := [];
    for k := 0 to |postfix|
      invariant code == Listing(Instrs(postfix[..k]))
    {
      var token := postfix[k];
      assert DropLast(postfix[..k + 1]) == postfix[..k];
      ghost var before := Instrs(postfix[..k]);
      if IsAlnumToken(token) {
        code := code + ["PUSH " + token];
      } else if token == "+" {
        code := code + ["ADD"];
      } else if token == "-" {
        code := code + ["SUB"];
      } else if token == "*" {
        code := code + ["MUL"];
      } else if token == "/" {
        code := code + ["DIV"];
      }
      assert Instrs(postfix[..k + 1]) == before + (match Translate(token) case None => [] case Some(i) => [i]);
      ListingAppend(before, Instrs(postfix[..k + 1]));
    }
    assert postfix[..|postfix|] == postfix;
  }

  lemma ListingAppend(a: seq<Instr>, b: seq<Instr>)
    requires |a| <= |b| <= |a| + 1 && b[..|a|] == a
    ensures Listing(b) == Listing(a) + (if |b| == |a| then [] else [Text(Last(b))])
  {
    if |b| > |a| {
      assert DropLast(b) == a;
    } else {
      assert b == a;
    }
  }

  predicate Emits(t: string)
  {
    Translate(t).Some?
  }

  function TranslateAll(tokens: seq<string>): (r: seq<Instr>)
    requires forall k :: 0 <= k < |tokens| ==> Translate(tokens[k]).Some?
    ensures |r| == |tokens|
    ensures forall k :: 0 <= k < |tokens| ==> r[k] == Translate(tokens[k]).value
  {
    if tokens == [] then [] else TranslateAll(DropLast(tokens)) + [Translate(Last(tokens)).value]
  }

  /** One instruction per token that has one, in token order, and nothing
      for the others: the instructions are the known tokens, each
      translated. */
  lemma {:induction false} InstrsAreKnownTokens(tokens: seq<string>)
    ensures forall k :: 0 <= k < |Filter(Emits, tokens)| ==> Translate(Filter(Emits, tokens)[k]).Some?
    ensures Instrs(tokens) == TranslateAll(Filter(Emits, tokens))
  {
    FilterEmits(tokens);
    if tokens != [] {
      InstrsAreKnownTokens(DropLast(tokens));
      var f := Filter(Emits, DropLast(tokens));
      FilterEmits(DropLast(tokens));
      if Emits(Last(tokens)) {
        assert DropLast(f + [Last(tokens)]) == f;
      } else {
        assert Filter(Emits, tokens) == f;
      }
    }
  }

  lemma FilterEmits(tokens: seq<string>)
    ensures forall k :: 0 <= k < |Filter(Emits, tokens)| ==> Translate(Filter(Emits, tokens)[k]).Some?
  {
    var f := Filter(Emits, tokens);
    forall k | 0 <= k < |f| ensures Translate(f[k]).Some? {
      assert f[k] in f;
    }
  }

  /** The stack machine's height after running `code`, or `None` when an
      arithmetic instruction finds fewer than two values. */
  function Run(code: seq<Instr>): Option<nat>
  {
    if code == [] then Some(0)
    else match Run(DropLast(code))
      case None => None
      case Some(d) =>
        match Last(code)
        case Push(_) => Some(d + 1)
        case _ => if d >= 2 then Some(d - 1) else None
  }

  lemma InstrsAppend(tokens: seq<string>, t: string)
    ensures Instrs(tokens + [t]) == Instrs(tokens) + (match Translate(t) case None => [] case Some(i) => [i])
  {
    assert DropLast(tokens + [t]) == tokens;
  }

  lemma RunAppend(code: seq<Instr>, i: Instr)
    ensures Run(code + [i]) == match Run(code)
      case None => None
      case Some(d) => (if i.Push? then Some(d + 1) else if d >= 2 then Some(d - 1) else None)
  {
    assert DropLast(code + [i]) == code;
  }

  /** What a one-character token does on each side. */
  lemma CharToken(c: char, d: nat)
    ensures match Translate([c])
      case None => Consume(Arith(), d, c) == Some(d)
      case Some(i) => Consume(Arith(), d, c) == (if i.Push? then Some(d + 1) else if d >= 2 then Some(d - 1) else None)
  {
    assert IsAlnumToken([c]) <==> IsAlnum(c) by {
      assert [c][0] == c;
    }
  }

  /** Running the generated code is reading the postfix text as Reverse
      Polish notation of the arithmetic grammar: the machine underflows
      exactly where the notation does, and otherwise holds as many values. */
  lemma {:induction false} RunMatchesDepth(p: seq<char>)
    ensures Run(Instrs(Singletons(p))) == Depth(Arith(), p)
  {
    if p != [] {
      var c := Last(p);
      RunMatchesDepth(DropLast(p));
      assert Singletons(p) == Singletons(DropLast(p)) + [[c]];
      InstrsAppend(Singletons(DropLast(p)), [c]);
      RunOneToken(Instrs(Singletons(DropLast(p))), c);
    }
  }

  lemma RunOneToken(prev: seq<Instr>, c: char)
    ensures Run(prev + (match Translate([c]) case None => [] case Some(i) => [i]))
      == match Run(prev) case None => None case Some(d) => Consume(Arith(), d, c)
  {
    if Translate([c]).Some? {
      RunAppend(prev, Translate([c]).value);
    } else {
      assert prev + [] == prev;
    }
    if Run(prev).Some? {
      CharToken(c, Run(prev).value);
    }
  }

  /** For a well-formed expression the conversion succeeds, and the code
      generated from its output never underflows the machine's stack and
      leaves exactly one value on it. */
  lemma WellFormedCodeRuns(expression: string)
    requires WellFormed(Arith(), StripSpaces(expression))
    ensures Postfix(expression).Some?
    ensures Run(Instrs(Postfix(expression).value)) == Some(1)
  {
    GrammarsSane();
    WellFormedToRpn(Arith(), StripSpaces(expression));
    RunMatchesDepth(ToPostfix(Arith(), StripSpaces(expression)).value);
  }

  /** For an expression whose spaces-removed text is the text of a
      derivation `t` of the arithmetic grammar, the postfix token list is
      `t`'s postorder, one token per character, and reading it back as
      Reverse Polish notation gives exactly `t`'s tree: `*` and `/` bind
      tighter than `+` and `-`, and equal precedences group to the left. */
  lemma DerivedPostfix(expression: string, t: D.Term)
    requires D.Derivable(Arith(), t) && StripSpaces(expression) == D.Text(t)
    ensures Postfix(expression) == Some(Singletons(D.Post(t)))
    ensures D.Reading(Arith(), D.Post(t)) == [D.Tree(t)]
  {
    GrammarsSane();
    D.InfixToPostorder(Arith(), t);
    D.ConvertedTree(Arith(), t);
  }
}
