/** What the shunting-yard conversion does to a whole expression, for
    either grammar. An infix expression is the text of a derivation by the
    usual precedence grammar: an operand, a parenthesised group, an
    operand of a postfix operator that binds at least as tightly, or two
    operands of a binary operator whose left side binds at least as
    tightly and whose right side binds strictly more tightly (operators of
    equal precedence group to the left). The conversion turns that text
    into the derivation's postorder, and reading the postorder as Reverse
    Polish notation gives back the expression tree. */
module Derivation {
  import opened Common
  import opened ShuntingYard
  import opened Rpn

  /** A derivation: `Group` records a pair of parentheses in the text. */
  datatype Term = Atom(c: char) | Group(body: Term) | Postop(op: char, arg: Term) | Binop(op: char, left: Term, right: Term)

  /** The expression tree a derivation stands for, without its parentheses. */
  datatype Expr = Leaf(c: char) | Un(op: char, arg: Expr) | Bin(op: char, left: Expr, right: Expr)

  /** The infix text of a derivation. */
  function Text(t: Term): seq<char>
  {
    match t
    case Atom(c) => [c]
    case Group(b) => "(" + Text(b) + ")"
    case Postop(o, a) => Text(a) + [o]
    case Binop(o, l, r) => Text(l) + [o] + Text(r)
  }

  /** The postfix text of a derivation: operands, then their operator. */
  function Post(t: Term): seq<char>
  {
    match t
    case Atom(c) => [c]
    case Group(b) => Post(b)
    case Postop(o, a) => Post(a) + [o]
    case Binop(o, l, r) => Post(l) + Post(r) + [o]
  }

  function Tree(t: Term): Expr
  {
    match t
    case Atom(c) => Leaf(c)
    case Group(b) => Tree(b)
    case Postop(o, a) => Un(o, Tree(a))
    case Binop(o, l, r) => Bin(o, Tree(l), Tree(r))
  }

  /** `t` binds at least as tightly as precedence `p`: it is an operand or
      a group, or its operator has precedence `p` or more. */
  predicate AtLeast(g: Grammar, t: Term, p: nat)
  {
    t.Atom? || t.Group? || g.prec(t.op) >= p
  }

  /** `t` binds strictly more tightly than precedence `p`. */
  predicate Above(g: Grammar, t: Term, p: nat)
  {
    t.Atom? || t.Group? || g.prec(t.op) > p
  }

  /** A derivation of the precedence grammar of `g`. */
  predicate Derivable(g: Grammar, t: Term)
  {
    match t
    case Atom(c) => g.isOperand(c)
    case Group(b) => Derivable(g, b)
    case Postop(o, a) => IsUnary(g, o) && Derivable(g, a) && AtLeast(g, a, g.prec(o))
    case Binop(o, l, r) => IsBinary(g, o) && Derivable(g, l) && Derivable(g, r) && AtLeast(g, l, g.prec(o)) && Above(g, r, g.prec(o))
  }

  /** The precedence of the operator at the root, 0 for an operand or a group. */
  function Bound(g: Grammar, t: Term): nat
  {
    if t.Atom? || t.Group? then 0 else g.prec(t.op)
  }

  // The conversion, from any state

  /** The main loop of the conversion started in state `st`. */
  function Run(g: Grammar, st: Shunt, s: seq<char>): Option<Shunt>
  {
    if s == [] then Some(st)
    else match Run(g, st, DropLast(s))
      case None => None
      case Some(u) => Step(g, u, Last(s))
  }

  lemma {:induction false} ScanIsRun(g: Grammar, s: seq<char>)
    ensures Scan(g, s) == Run(g, Shunt([], []), s)
  {
    if s != [] {
      ScanIsRun(g, DropLast(s));
    }
  }

  /** Running on `a + b` is running on `a`, then on `b`. */
  lemma {:induction false} RunAppend(g: Grammar, st: Shunt, a: seq<char>, u: Shunt, b: seq<char>)
    requires Run(g, st, a) == Some(u)
    ensures Run(g, st, a + b) == Run(g, u, b)
    decreases |b|
  {
    if b == [] {
      assert a + b == a;
    } else {
      assert DropLast(a + b) == a + DropLast(b) && Last(a + b) == Last(b);
      RunAppend(g, st, a, u, DropLast(b));
    }
  }

  lemma RunOne(g: Grammar, st: Shunt, c: char)
    ensures Run(g, st, [c]) == Step(g, st, c)
  {
    assert DropLast([c]) == [];
  }

  /** An operator run of precedence at least `p` above a top of lower
      precedence is exactly what an operator of precedence `p` pops. */
  lemma {:induction false} AtLeastHeightSplit(g: Grammar, s: seq<char>, r: seq<char>, p: nat)
    requires forall k :: 0 <= k < |r| ==> g.prec(r[k]) >= p
    requires s == [] || g.prec(Last(s)) < p
    ensures AtLeastHeight(g, s + r, p) == |s|
    decreases |r|
  {
    if r == [] {
      assert s + r == s;
    } else {
      assert DropLast(s + r) == s + DropLast(r) && Last(s + r) == Last(r);
      AtLeastHeightSplit(g, s, DropLast(r), p);
    }
  }

  /** The `(` below a run without `(` is where `)` stops popping. */
  lemma {:induction false} OpenHeightSplit(s: seq<char>, r: seq<char>)
    requires forall k :: 0 <= k < |r| ==> r[k] != '('
    ensures OpenHeight(s + ['('] + r) == |s| + 1
    decreases |r|
  {
    if r == [] {
      assert s + ['('] + r == s + ['('];
    } else {
      assert DropLast(s + ['('] + r) == s + ['('] + DropLast(r) && Last(s + ['('] + r) == Last(r);
      OpenHeightSplit(s, DropLast(r));
    }
  }

  lemma PopSplit(s: seq<char>, r: seq<char>, out: seq<char>)
    ensures PopTo(Shunt(s + r, out), |s|) == Shunt(s, out + Reverse(r))
  {
    assert (s + r)[..|s|] == s && (s + r)[|s|..] == r;
  }

  /** An operator of precedence `p` pops the pending run `r` and is pushed. */
  lemma OperatorStep(g: Grammar, s: seq<char>, r: seq<char>, out: seq<char>, o: char)
    requires !g.isOperand(o) && o != '(' && o != ')'
    requires forall k :: 0 <= k < |r| ==> g.prec(r[k]) >= g.prec(o)
    requires s == [] || g.prec(Last(s)) < g.prec(o)
    ensures Run(g, Shunt(s + r, out), [o]) == Some(Shunt(s + [o], out + Reverse(r)))
  {
    RunOne(g, Shunt(s + r, out), o);
    AtLeastHeightSplit(g, s, r, g.prec(o));
    PopSplit(s, r, out);
  }

  /** `)` pops the pending run `r` and the `(` below it. */
  lemma CloseStep(g: Grammar, s: seq<char>, r: seq<char>, out: seq<char>)
    requires Sane(g)
    requires forall k :: 0 <= k < |r| ==> r[k] != '('
    ensures Run(g, Shunt(s + ['('] + r, out), [')']) == Some(Shunt(s, out + Reverse(r)))
  {
    RunOne(g, Shunt(s + ['('] + r, out), ')');
    OpenHeightSplit(s, r);
    PopSplit(s + ['('], r, out);
    assert DropLast(s + ['(']) == s;
  }

  /** The conversion of one derivation's text, above a stack whose top
      binds less tightly: the output grows by `q` and the operators in `r`
      are left pending on the stack, and `q` followed by `r` popped is the
      postorder of the derivation. The pending operators bind at least as
      tightly as the root. */
  lemma {:induction false} ScanText(g: Grammar, t: Term, st: Shunt) returns (q: seq<char>, r: seq<char>)
    requires Sane(g) && Derivable(g, t)
    requires st.stack == [] || Above(g, t, g.prec(Last(st.stack)))
    ensures Run(g, st, Text(t)) == Some(Shunt(st.stack + r, st.output + q))
    ensures q + Reverse(r) == Post(t)
    ensures forall k :: 0 <= k < |r| ==> g.prec(r[k]) >= 1 && g.prec(r[k]) >= Bound(g, t)
    ensures t.Atom? || t.Group? ==> r == []
    decreases t, 1
  {
    match t
    case Atom(c) =>
      RunOne(g, st, c);
      q, r := [c], [];
      assert st.stack + r == st.stack;
    case Group(b) =>
      q := ScanGroup(g, b, st);
      r := [];
      assert st.stack + r == st.stack;
    case Postop(o, a) =>
      q := ScanPostop(g, o, a, st);
      r := [o];
    case Binop(o, left, right) =>
      q, r := ScanBinop(g, o, left, right, st);
  }

  lemma {:induction false} ScanGroup(g: Grammar, b: Term, st: Shunt) returns (q: seq<char>)
    requires Sane(g) && Derivable(g, b)
    ensures Run(g, st, Text(Group(b))) == Some(Shunt(st.stack, st.output + q))
    ensures q == Post(b)
    decreases Group(b), 0
  {
    var s, out := st.stack, st.output;
    var st1 := Shunt(s + ['('], out);
    RunOne(g, st, '(');
    var qb, rb := ScanText(g, b, st1);
    RunAppend(g, st, "(", st1, Text(b));
    NoOpenPending(g, rb);
    CloseStep(g, s, rb, out + qb);
    RunAppend(g, st, "(" + Text(b), Shunt(s + ['('] + rb, out + qb), ")");
    q := qb + Reverse(rb);
    Assoc(out, qb, Reverse(rb));
  }

  /** Pending operators are not `(`, which has precedence 0. */
  lemma NoOpenPending(g: Grammar, r: seq<char>)
    requires Sane(g) && forall k :: 0 <= k < |r| ==> g.prec(r[k]) >= 1
    ensures forall k :: 0 <= k < |r| ==> r[k] != '('
  {
  }

  lemma {:induction false} ScanPostop(g: Grammar, o: char, a: Term, st: Shunt) returns (q: seq<char>)
    requires Sane(g) && Derivable(g, Postop(o, a))
    requires st.stack == [] || Above(g, Postop(o, a), g.prec(Last(st.stack)))
    ensures Run(g, st, Text(Postop(o, a))) == Some(Shunt(st.stack + [o], st.output + q))
    ensures q == Post(a)
    decreases Postop(o, a), 0
  {
    var s, out := st.stack, st.output;
    var qa, ra := ScanText(g, a, st);
    OperatorStep(g, s, ra, out + qa, o);
    RunAppend(g, st, Text(a), Shunt(s + ra, out + qa), [o]);
    q := qa + Reverse(ra);
    Assoc(out, qa, Reverse(ra));
  }

  lemma Assoc(a: seq<char>, b: seq<char>, c: seq<char>)
    ensures a + b + c == a + (b + c)
  {
  }

  lemma {:induction false} ScanBinop(g: Grammar, o: char, left: Term, right: Term, st: Shunt) returns (q: seq<char>, r: seq<char>)
    requires Sane(g) && Derivable(g, Binop(o, left, right))
    requires st.stack == [] || Above(g, Binop(o, left, right), g.prec(Last(st.stack)))
    ensures Run(g, st, Text(Binop(o, left, right))) == Some(Shunt(st.stack + r, st.output + q))
    ensures q + Reverse(r) == Post(Binop(o, left, right))
    ensures forall k :: 0 <= k < |r| ==> g.prec(r[k]) >= 1 && g.prec(r[k]) >= g.prec(o)
    decreases Binop(o, left, right), 0
  {
    var s, out := st.stack, st.output;
    var ql, rl := ScanText(g, left, st);
    OperatorStep(g, s, rl, out + ql, o);
    var pl := ql + Reverse(rl);
    Assoc(out, ql, Reverse(rl));
    var st1 := Shunt(s + [o], out + pl);
    RunAppend(g, st, Text(left), Shunt(s + rl, out + ql), [o]);
    var qr, rr := ScanText(g, right, st1);
    RunAppend(g, st, Text(left) + [o], st1, Text(right));
    q, r := pl + qr, [o] + rr;
    Assoc(s, [o], rr);
    Assoc(out, pl, qr);
    PendingCons(g, o, rr);
    BinopPost(pl, qr, rr, o);
  }

  /** The operator pushed below the right side's pending run. */
  lemma PendingCons(g: Grammar, o: char, rr: seq<char>)
    requires g.prec(o) >= 1
    requires forall k :: 0 <= k < |rr| ==> g.prec(rr[k]) >= 1 && g.prec(rr[k]) >= g.prec(o)
    ensures forall k :: 0 <= k < |[o] + rr| ==> g.prec(([o] + rr)[k]) >= 1 && g.prec(([o] + rr)[k]) >= g.prec(o)
  {
    forall k | 0 <= k < |[o] + rr| ensures g.prec(([o] + rr)[k]) >= 1 && g.prec(([o] + rr)[k]) >= g.prec(o) {
      if k > 0 {
        assert ([o] + rr)[k] == rr[k - 1];
      }
    }
  }

  lemma BinopPost(pl: seq<char>, qr: seq<char>, rr: seq<char>, o: char)
    ensures pl + qr + Reverse([o] + rr) == pl + (qr + Reverse(rr)) + [o]
  {
    ReverseCons(o, rr);
  }

  lemma ReverseCons(x: char, s: seq<char>)
    ensures Reverse([x] + s) == Reverse(s) + [x]
  {
    var a, b := Reverse([x] + s), Reverse(s) + [x];
    forall k | 0 <= k < |a| ensures a[k] == b[k] {
      if k < |s| {
        assert a[k] == ([x] + s)[|s| - k] == s[|s| - 1 - k];
      }
    }
  }

  /** The conversion turns the text of every derivation into its postorder. */
  lemma InfixToPostorder(g: Grammar, t: Term)
    requires Sane(g) && Derivable(g, t)
    ensures ToPostfix(g, Text(t)) == Some(Post(t))
  {
    ScanIsRun(g, Text(t));
    var q, r := ScanText(g, t, Shunt([], []));
    assert [] + r == r && [] + q == q;
  }

  /** A derivation's postorder adds one value to the Reverse Polish stack. */
  lemma {:induction false} DepthPost(g: Grammar, p: seq<char>, t: Term, d: nat)
    requires Derivable(g, t) && Depth(g, p) == Some(d)
    ensures Depth(g, p + Post(t)) == Some(d + 1)
    decreases t
  {
    match t
    case Atom(c) =>
      DepthAppend(g, p, c);
    case Group(b) =>
      DepthPost(g, p, b, d);
    case Postop(o, a) =>
      DepthPost(g, p, a, d);
      Assoc(p, Post(a), [o]);
      DepthAppend(g, p + Post(a), o);
    case Binop(o, l, r) =>
      DepthPost(g, p, l, d);
      DepthPost(g, p + Post(l), r, d + 1);
      Assoc(p, Post(l), Post(r));
      Assoc(p + Post(l), Post(r), [o]);
      Assoc(p, Post(l) + Post(r), [o]);
      DepthAppend(g, p + Post(l) + Post(r), o);
  }

  /** The conversion of a derivation's text is valid Reverse Polish notation. */
  lemma ConvertedValid(g: Grammar, t: Term)
    requires Sane(g) && Derivable(g, t)
    ensures ToPostfix(g, Text(t)).Some? && ValidRpn(g, ToPostfix(g, Text(t)).value)
  {
    InfixToPostorder(g, t);
    DepthPost(g, [], t, 0);
    assert [] + Post(t) == Post(t);
  }

  // Reading postfix text back

  /** Reverse Polish notation read into trees: an operand is a leaf, a
      postfix operator wraps the top tree, a binary operator combines the
      top two, and anything else (or an underflow) changes nothing. */
  function ReadStep(g: Grammar, es: seq<Expr>, c: char): seq<Expr>
  {
    var k := |es|;
    if g.isOperand(c) then es + [Leaf(c)]
    else if IsUnary(g, c) && k >= 1 then es[..k - 1] + [Un(c, es[k - 1])]
    else if IsBinary(g, c) && k >= 2 then es[..k - 2] + [Bin(c, es[k - 2], es[k - 1])]
    else es
  }

  function Reading(g: Grammar, s: seq<char>): seq<Expr>
  {
    if s == [] then [] else ReadStep(g, Reading(g, DropLast(s)), Last(s))
  }

  lemma ReadingSnoc(g: Grammar, s: seq<char>, c: char)
    ensures Reading(g, s + [c]) == ReadStep(g, Reading(g, s), c)
  {
    assert DropLast(s + [c]) == s && Last(s + [c]) == c;
  }

  /** Reading a derivation's postorder pushes its tree. */
  lemma {:induction false} ReadPost(g: Grammar, p: seq<char>, t: Term)
    requires Derivable(g, t)
    ensures Reading(g, p + Post(t)) == Reading(g, p) + [Tree(t)]
    decreases t
  {
    match t
    case Atom(c) =>
      ReadingSnoc(g, p, c);
    case Group(b) =>
      ReadPost(g, p, b);
    case Postop(o, a) =>
      ReadPost(g, p, a);
      Assoc(p, Post(a), [o]);
      ReadUnary(g, p + Post(a), Reading(g, p), Tree(a), o);
    case Binop(o, l, r) =>
      ReadPost(g, p, l);
      ReadPost(g, p + Post(l), r);
      Assoc(p, Post(l), Post(r));
      Assoc(p + Post(l), Post(r), [o]);
      Assoc(p, Post(l) + Post(r), [o]);
      ReadBinary(g, p + Post(l) + Post(r), Reading(g, p), Tree(l), Tree(r), o);
  }

  lemma ReadUnary(g: Grammar, s: seq<char>, es: seq<Expr>, e: Expr, o: char)
    requires IsUnary(g, o) && Reading(g, s) == es + [e]
    ensures Reading(g, s + [o]) == es + [Un(o, e)]
  {
    ReadingSnoc(g, s, o);
    assert (es + [e])[..|es|] == es;
  }

  lemma ReadBinary(g: Grammar, s: seq<char>, es: seq<Expr>, l: Expr, r: Expr, o: char)
    requires IsBinary(g, o) && Reading(g, s) == es + [l] + [r]
    ensures Reading(g, s + [o]) == es + [Bin(o, l, r)]
  {
    ReadingSnoc(g, s, o);
    var f := es + [l] + [r];
    assert f[..|es|] == es && f[|es|] == l && f[|es| + 1] == r;
  }

  /** The round trip: converting the text of any derivation and reading the
      result as Reverse Polish notation yields exactly its tree. */
  lemma ConvertedTree(g: Grammar, t: Term)
    requires Sane(g) && Derivable(g, t)
    ensures ToPostfix(g, Text(t)).Some?
    ensures Reading(g, ToPostfix(g, Text(t)).value) == [Tree(t)]
  {
    InfixToPostorder(g, t);
    ReadPost(g, [], t);
    assert [] + Post(t) == Post(t);
  }
}
