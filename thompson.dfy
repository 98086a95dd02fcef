/** `postfix_to_nfa` of regex2dfa.py and validator.py: Thompson's
    construction, reading postfix text left to right over a stack of
    fragments. A fragment is the pair `(s0, s1)` of its start and accept
    state; states are indices into the arena of `Nfa`, a fresh `State()` is
    a new index at the end of the arena, and `edges[l].append(y)` or
    `edges[l] += ys` is `AddEdges`. The operand alphabet is a parameter,
    as in `ExplicitConcat`. */
module Thompson {
  import opened Common
  import opened Nfa
  import opened ShuntingYard
  import opened Rpn
  import opened Grammars

  /** A fragment `(s0, s1)`. */
  datatype Frag = Frag(start: nat, accept: nat)

  /** The states built so far and the fragment stack (top at the end). */
  datatype Builder = Builder(arena: Arena, stack: seq<Frag>)

  /** What `postfix_to_nfa` returns: the arena and the popped fragment's
      start and accept state. */
  datatype Compiled = Compiled(arena: Arena, start: nat, end: nat)

  /** One iteration of the loop on character `c`; `None` is the pop from an
      empty stack that an operator without enough fragments causes. */
  function BuildStep(isOperand: char -> bool, b: Builder, c: char): Option<Builder>
  {
    var k := |b.stack|;
    if isOperand(c) then Some(OperandStep(b, c))
    else if c == '.' then (if k < 2 then None else Some(ConcatStep(b)))
    else if c == '|' then (if k < 2 then None else Some(AltStep(b)))
    else if c == '*' then (if k < 1 then None else Some(StarStep(b)))
    else Some(b)
  }

  /** An operand: two fresh states `n` and `n + 1` joined by an edge
      labelled with it. */
  function OperandStep(b: Builder, c: char): Builder
  {
    var n := |b.arena|;
    Builder(AddEdges(b.arena + [map[], map[]], n, Sym(c), [n + 1]), b.stack + [Frag(n, n + 1)])
  }

  /** `.`: the top two fragments `n1` and `n2` (popped second and first)
      joined by an empty-word edge. */
  function ConcatStep(b: Builder): Builder
    requires |b.stack| >= 2
  {
    var k := |b.stack|;
    var n2, n1 := b.stack[k - 1], b.stack[k - 2];
    Builder(AddEdges(b.arena, n1.accept, Eps, [n2.start]), b.stack[..k - 2] + [Frag(n1.start, n2.accept)])
  }

  /** `|`: fresh states `n` and `n + 1` around the top two fragments. */
  function AltStep(b: Builder): Builder
    requires |b.stack| >= 2
  {
    var n, k := |b.arena|, |b.stack|;
    var n2, n1 := b.stack[k - 1], b.stack[k - 2];
    var a1 := AddEdges(b.arena + [map[], map[]], n, Eps, [n1.start, n2.start]);
    var a2 := AddEdges(a1, n1.accept, Eps, [n + 1]);
    Builder(AddEdges(a2, n2.accept, Eps, [n + 1]), b.stack[..k - 2] + [Frag(n, n + 1)])
  }

  /** `*`: fresh states `n` and `n + 1` around the top fragment, with the
      loop back from its accept state to its start. */
  function StarStep(b: Builder): Builder
    requires |b.stack| >= 1
  {
    var n, k := |b.arena|, |b.stack|;
    var n1 := b.stack[k - 1];
    var a1 := AddEdges(b.arena + [map[], map[]], n, Eps, [n1.start, n + 1]);
    Builder(AddEdges(a1, n1.accept, Eps, [n1.start, n + 1]), b.stack[..k - 1] + [Frag(n, n + 1)])
  }

  /** The builder after the whole of `s`, or `None` once a pop fails. */
  function Build(isOperand: char -> bool, s: seq<char>): Option<Builder>
  {
    if s == [] then Some(Builder([], []))
    else match Build(isOperand, DropLast(s))
      case None => None
      case Some(b) => BuildStep(isOperand, b, Last(s))
  }

  /** `postfix_to_nfa`'s result: the top fragment, or `None` when a pop
      fails, including the final one on an empty stack. */
  function ToNfa(isOperand: char -> bool, s: seq<char>): Option<Compiled>
  {
    match Build(isOperand, s)
    case None => None
    case Some(b) => if b.stack == [] then None else Some(Compiled(b.arena, Last(b.stack).start, Last(b.stack).accept))
  }

  /** `postfix_to_nfa`. */
  method PostfixToNfa(isOperand: char -> bool, postfix: seq<char>) returns (r: Option<Compiled>)
    ensures r == ToNfa(isOperand, postfix)
  {
    var arena: Arena := [];
    var stack: seq<Frag> := [];
    for i := 0 to |postfix|
      invariant Build(isOperand, postfix[..i]) == Some(Builder(arena, stack))
    {
      var c := postfix[i];
      assert DropLast(postfix[..i + 1]) == postfix[..i];
      if isOperand(c) {
        arena, stack := PushOperand(arena, stack, c);
      } else if c == '.' {
        if |stack| < 2 {
          BuildFailureSticks(isOperand, postfix, i + 1);
          return None;
        }
        arena, stack := Concatenate(arena, stack);
      } else if c == '|' {
        if |stack| < 2 {
          BuildFailureSticks(isOperand, postfix, i + 1);
          return None;
        }
        arena, stack := Alternate(arena, stack);
      } else if c == '*' {
        if |stack| < 1 {
          BuildFailureSticks(isOperand, postfix, i + 1);
          return None;
        }
        arena, stack := Repeat(arena, stack);
      }
    }
    assert postfix[..|postfix|] == postfix;
    if stack == [] {
      r := None;
    } else {
      var top := stack[|stack| - 1];
      r := Some(Compiled(arena, top.start, top.accept));
    }
  }

  /** The operand branch of the loop. */
  method PushOperand(arena0: Arena, stack0: seq<Frag>, c: char) returns (arena: Arena, stack: seq<Frag>)
    ensures Builder(arena, stack) == OperandStep(Builder(arena0, stack0), c)
  {
    var s0, s1 := |arena0|, |arena0| + 1;
    arena := arena0 + [map[], map[]];
    arena := AddEdges(arena, s0, Sym(c), [s1]);
    stack := stack0 + [Frag(s0, s1)];
  }

  /** The `.` branch: pop `n2`, then `n1`. */
  method Concatenate(arena0: Arena, stack0: seq<Frag>) returns (arena: Arena, stack: seq<Frag>)
    requires |stack0| >= 2
    ensures Builder(arena, stack) == ConcatStep(Builder(arena0, stack0))
  {
    stack := stack0;
    var n2 := stack[|stack| - 1];
    stack := stack[..|stack| - 1];
    var n1 := stack[|stack| - 1];
    stack := stack[..|stack| - 1];
    assert stack == stack0[..|stack0| - 2];
    arena := AddEdges(arena0, n1.accept, Eps, [n2.start]);
    stack := stack + [Frag(n1.start, n2.accept)];
  }

  /** The `|` branch: pop `n2`, then `n1`. */
  method Alternate(arena0: Arena, stack0: seq<Frag>) returns (arena: Arena, stack: seq<Frag>)
    requires |stack0| >= 2
    ensures Builder(arena, stack) == AltStep(Builder(arena0, stack0))
  {
    stack := stack0;
    var n2 := stack[|stack| - 1];
    stack := stack[..|stack| - 1];
    var n1 := stack[|stack| - 1];
    stack := stack[..|stack| - 1];
    assert stack == stack0[..|stack0| - 2];
    var s0, s1 := |arena0|, |arena0| + 1;
    arena := arena0 + [map[], map[]];
    arena := AddEdges(arena, s0, Eps, [n1.start, n2.start]);
    arena := AddEdges(arena, n1.accept, Eps, [s1]);
    arena := AddEdges(arena, n2.accept, Eps, [s1]);
    stack := stack + [Frag(s0, s1)];
  }

  /** The `*` branch: pop `n1`. */
  method Repeat(arena0: Arena, stack0: seq<Frag>) returns (arena: Arena, stack: seq<Frag>)
    requires |stack0| >= 1
    ensures Builder(arena, stack) == StarStep(Builder(arena0, stack0))
  {
    stack := stack0;
    var n1 := stack[|stack| - 1];
    stack := stack[..|stack| - 1];
    var s0, s1 := |arena0|, |arena0| + 1;
    arena := arena0 + [map[], map[]];
    arena := AddEdges(arena, s0, Eps, [n1.start, s1]);
    arena := AddEdges(arena, n1.accept, Eps, [n1.start, s1]);
    stack := stack + [Frag(s0, s1)];
  }

  /** A failed pop ends the construction: whatever follows, there is no
      result. */
  lemma {:induction false} BuildFailureSticks(isOperand: char -> bool, s: seq<char>, j: nat)
    requires j <= |s| && Build(isOperand, s[..j]) == None
    ensures Build(isOperand, s) == None
    decreases |s| - j
  {
    if j < |s| {
      assert DropLast(s[..j + 1]) == s[..j];
      BuildFailureSticks(isOperand, s, j + 1);
    } else {
      assert s[..j] == s;
    }
  }

  /** An operand alphabet without the operators and parentheses, as
      lower case letters (and the bits 0 and 1) are. */
  predicate PlainOperands(isOperand: char -> bool)
  {
    forall c :: isOperand(c) ==> c != '(' && c != ')' && c != '*' && c != '.' && c != '|'
  }

  lemma RegexOperandsPlain()
    ensures PlainOperands(IsLower) && PlainOperands(IsLowerOrBit)
  {
  }

  /** Each character changes the number of fragments exactly as it changes
      the height of the Reverse Polish value stack, and fails exactly when
      that underflows: an operand pushes one fragment, `.` and `|` pop two
      and push one, `*` pops one and pushes one, anything else is skipped. */
  lemma StepDepth(isOperand: char -> bool, b: Builder, c: char)
    requires PlainOperands(isOperand)
    ensures BuildStep(isOperand, b, c).Some? <==> Consume(RegexGrammar(isOperand), |b.stack|, c).Some?
    ensures BuildStep(isOperand, b, c).Some? ==> |BuildStep(isOperand, b, c).value.stack| == Consume(RegexGrammar(isOperand), |b.stack|, c).value
  {
  }

  /** The fragment stack is the Reverse Polish value stack: the
      construction fails exactly where the text underflows, and otherwise
      holds one fragment per value. */
  lemma {:induction false} BuildDepth(isOperand: char -> bool, s: seq<char>)
    requires PlainOperands(isOperand)
    ensures Build(isOperand, s).Some? <==> Depth(RegexGrammar(isOperand), s).Some?
    ensures Build(isOperand, s).Some? ==> |Build(isOperand, s).value.stack| == Depth(RegexGrammar(isOperand), s).value
  {
    if s != [] {
      BuildDepth(isOperand, DropLast(s));
      if Build(isOperand, DropLast(s)).Some? {
        StepDepth(isOperand, Build(isOperand, DropLast(s)).value, Last(s));
      }
    }
  }

  /** `postfix_to_nfa` returns a fragment exactly when the text, read as
      Reverse Polish notation, never underflows and leaves at least one
      value. */
  lemma CompileSucceeds(isOperand: char -> bool, s: seq<char>)
    requires PlainOperands(isOperand)
    ensures ToNfa(isOperand, s).Some? <==> Depth(RegexGrammar(isOperand), s).Some? && Depth(RegexGrammar(isOperand), s).value >= 1
  {
    BuildDepth(isOperand, s);
  }

  /** A well-formed regular expression (after `add_concat`) converts to
      postfix text from which `postfix_to_nfa` builds exactly one
      fragment, and returns it. */
  lemma WellFormedCompiles(isOperand: char -> bool, s: seq<char>)
    requires PlainOperands(isOperand) && WellFormed(RegexGrammar(isOperand), s)
    ensures ToPostfix(RegexGrammar(isOperand), s).Some?
    ensures Build(isOperand, ToPostfix(RegexGrammar(isOperand), s).value).Some? && |Build(isOperand, ToPostfix(RegexGrammar(isOperand), s).value).value.stack| == 1
    ensures ToNfa(isOperand, ToPostfix(RegexGrammar(isOperand), s).value).Some?
  {
    WellFormedToRpn(RegexGrammar(isOperand), s);
    BuildDepth(isOperand, ToPostfix(RegexGrammar(isOperand), s).value);
  }

  /** A regular expression as the postfix text spells it. */
  datatype Re = Chr(c: char) | Cat(left: Re, right: Re) | Alt(left: Re, right: Re) | Star(body: Re)

  /** What a fragment on the stack stands for: the first state it owns and
      the expression it recognises. */
  datatype Part = Part(lo: nat, re: Re)

  /** The parts after one character, following the fragment stack: a
      combined fragment owns the states from its left operand's first one
      to the end of the arena. */
  ghost function PartStep(isOperand: char -> bool, n: nat, parts: seq<Part>, c: char): seq<Part>
  {
    var k := |parts|;
    if isOperand(c) then parts + [Part(n, Chr(c))]
    else if c == '.' then
      if k < 2 then parts else parts[..k - 2] + [Part(parts[k - 2].lo, Cat(parts[k - 2].re, parts[k - 1].re))]
    else if c == '|' then
      if k < 2 then parts else parts[..k - 2] + [Part(parts[k - 2].lo, Alt(parts[k - 2].re, parts[k - 1].re))]
    else if c == '*' then
      if k < 1 then parts else parts[..k - 1] + [Part(parts[k - 1].lo, Star(parts[k - 1].re))]
    else parts
  }

  ghost function Parts(isOperand: char -> bool, s: seq<char>): seq<Part>
  {
    if s == [] then []
    else match Build(isOperand, DropLast(s))
      case None => []
      case Some(b) => PartStep(isOperand, |b.arena|, Parts(isOperand, DropLast(s)), Last(s))
  }

  /** A fragment owns the states `lo, ..., hi - 1`: its start and accept
      state are two of them, the accept state has no edges, and no edge
      leaves the range. */
  ghost predicate Owns(arena: Arena, f: Frag, lo: nat, hi: nat)
  {
    && lo <= f.start < hi && lo <= f.accept < hi && f.start != f.accept
    && hi <= |arena| && arena[f.accept] == map[]
    && Confined(arena, lo, hi)
  }

  /** The end of the range of the `i`-th fragment: where the next one
      starts, or the end of the arena for the top one. */
  ghost function Hi(b: Builder, parts: seq<Part>, i: nat): nat
    requires i < |parts|
  {
    if i + 1 < |parts| then parts[i + 1].lo else |b.arena|
  }

  /** The fragments on the stack own consecutive ranges that together make
      up the whole arena, and every edge leads to a state. */
  ghost predicate Layout(b: Builder, parts: seq<Part>)
  {
    && |parts| == |b.stack|
    && (|parts| == 0 ==> b.arena == [])
    && (|parts| > 0 ==> parts[0].lo == 0)
    && Closed(b.arena)
    && forall i :: 0 <= i < |parts| ==> OwnsAt(b, parts, i)
  }

  /** The `i`-th fragment owns its range. */
  ghost predicate OwnsAt(b: Builder, parts: seq<Part>, i: nat)
  {
    i < |parts| && i < |b.stack| && Owns(b.arena, b.stack[i], parts[i].lo, Hi(b, parts, i))
  }

  lemma OwnsAgree(a: Arena, a': Arena, f: Frag, lo: nat, hi: nat)
    requires Owns(a, f, lo, hi) && Agree(a, a', lo, hi)
    ensures Owns(a', f, lo, hi)
  {
    forall x, l, y | lo <= x < hi && y in Targets(a', x, l) ensures lo <= y < hi {
      assert Targets(a', x, l) == Targets(a, x, l);
    }
  }

  lemma {:induction false} HiOrdered(b: Builder, parts: seq<Part>, i: nat, j: nat)
    requires Layout(b, parts) && i < j < |parts|
    ensures Hi(b, parts, i) <= parts[j].lo
    decreases j - i
  {
    if i + 1 < j {
      HiOrdered(b, parts, i + 1, j);
      assert OwnsAt(b, parts, i + 1);
    }
  }

  /** The fragments below the ones an operator pops keep their ranges,
      provided the states below the popped ones are untouched. */
  lemma KeepBelow(b: Builder, parts: seq<Part>, b': Builder, parts': seq<Part>, m: nat, bound: nat)
    requires Layout(b, parts) && m <= |parts| && m < |parts'| == |b'.stack|
    requires b'.stack[..m] == b.stack[..m] && parts'[..m] == parts[..m]
    requires bound == if m < |parts| then parts[m].lo else |b.arena|
    requires parts'[m].lo == bound && Agree(b.arena, b'.arena, 0, bound)
    ensures forall i :: 0 <= i < m ==> OwnsAt(b', parts', i)
  {
    forall i | 0 <= i < m ensures OwnsAt(b', parts', i) {
      KeepOne(b, parts, b', parts', m, bound, i);
    }
  }

  lemma KeepOne(b: Builder, parts: seq<Part>, b': Builder, parts': seq<Part>, m: nat, bound: nat, i: nat)
    requires Layout(b, parts) && m <= |parts| && m < |parts'| == |b'.stack|
    requires b'.stack[..m] == b.stack[..m] && parts'[..m] == parts[..m]
    requires bound == if m < |parts| then parts[m].lo else |b.arena|
    requires parts'[m].lo == bound && Agree(b.arena, b'.arena, 0, bound)
    requires i < m
    ensures OwnsAt(b', parts', i)
  {
    assert b'.stack[i] == b.stack[i] && parts'[i] == parts[i];
    var hi := Hi(b, parts, i);
    assert OwnsAt(b, parts, i);
    if i + 1 < m {
      assert parts'[i + 1] == parts[i + 1];
      if m < |parts| {
        HiOrdered(b, parts, i, m);
      }
    }
    assert Hi(b', parts', i) == hi && hi <= bound;
    OwnsAgree(b.arena, b'.arena, b.stack[i], parts[i].lo, hi);
  }

  lemma ClosedAdd(arena: Arena, x: nat, l: Label, ys: seq<nat>)
    requires Closed(arena) && forall k :: 0 <= k < |ys| ==> ys[k] < |arena|
    ensures Closed(AddEdges(arena, x, l, ys))
  {
    var r := AddEdges(arena, x, l, ys);
    forall x', l', y | y in Targets(r, x', l') ensures y < |r| {
      if x' != x || l' != l {
        assert Targets(r, x', l') == Targets(arena, x', l');
      }
    }
  }

  lemma ClosedGrow(arena: Arena)
    requires Closed(arena)
    ensures Closed(arena + [map[], map[]])
  {
    var r := arena + [map[], map[]];
    forall x: nat, l, y | y in Targets(r, x, l) ensures y < |r| {
      assert x < |arena| && Targets(r, x, l) == Targets(arena, x, l);
    }
  }

  /** An edge added inside a range, or outside it, keeps the range confined. */
  lemma ConfinedAdd(arena: Arena, lo: nat, hi: nat, x: nat, l: Label, ys: seq<nat>)
    requires Confined(arena, lo, hi)
    requires lo <= x < hi ==> forall k :: 0 <= k < |ys| ==> lo <= ys[k] < hi
    ensures Confined(AddEdges(arena, x, l, ys), lo, hi)
  {
    var r := AddEdges(arena, x, l, ys);
    forall x', l', y | lo <= x' < hi && y in Targets(r, x', l') ensures lo <= y < hi {
      if x' != x || l' != l {
        assert Targets(r, x', l') == Targets(arena, x', l');
      }
    }
  }

  lemma ConfinedUnion(arena: Arena, lo: nat, mid: nat, hi: nat)
    requires lo <= mid <= hi && Confined(arena, lo, mid) && Confined(arena, mid, hi)
    ensures Confined(arena, lo, hi)
  {
  }

  /** Two fresh states without edges join the range at the end. */
  lemma ConfinedGrow(arena: Arena, lo: nat)
    requires lo <= |arena| && Confined(arena, lo, |arena|)
    ensures Confined(arena + [map[], map[]], lo, |arena| + 2)
  {
    var r := arena + [map[], map[]];
    forall x: nat, l, y | lo <= x < |r| && y in Targets(r, x, l) ensures lo <= y < |r| {
      assert x < |arena| && Targets(r, x, l) == Targets(arena, x, l);
    }
  }

  lemma AgreeGrow(arena: Arena, bound: nat)
    requires bound <= |arena|
    ensures Agree(arena, arena + [map[], map[]], 0, bound)
  {
  }

  lemma AgreeAdd(a: Arena, a': Arena, bound: nat, x: nat, l: Label, ys: seq<nat>)
    requires Agree(a, a', 0, bound) && x >= bound
    ensures Agree(a, AddEdges(a', x, l, ys), 0, bound)
  {
  }

  /** The base of the range layout: the empty builder, or a first
      fragment that starts at state 0. */
  lemma LowestPart(b: Builder, parts: seq<Part>, parts': seq<Part>, m: nat, lo: nat)
    requires Layout(b, parts) && m < |parts'| && m <= |parts| && parts'[..m] == parts[..m]
    requires lo == if m < |parts| then parts[m].lo else |b.arena|
    requires parts'[m].lo == lo
    ensures parts'[0].lo == 0
  {
    if m > 0 {
      assert parts'[0] == parts[0];
    }
  }

  lemma LayoutOperand(isOperand: char -> bool, b: Builder, parts: seq<Part>, c: char)
    requires Layout(b, parts) && isOperand(c)
    ensures Layout(BuildStep(isOperand, b, c).value, PartStep(isOperand, |b.arena|, parts, c))
  {
    var n := |b.arena|;
    var grown := b.arena + [map[], map[]];
    var a := AddEdges(grown, n, Sym(c), [n + 1]);
    var b' := Builder(a, b.stack + [Frag(n, n + 1)]);
    var parts' := parts + [Part(n, Chr(c))];
    assert BuildStep(isOperand, b, c) == Some(b');
    assert PartStep(isOperand, n, parts, c) == parts';
    AgreeGrow(b.arena, n);
    assert b'.stack[..|parts|] == b.stack[..|parts|] && parts'[..|parts|] == parts[..|parts|];
    KeepBelow(b, parts, b', parts', |parts|, n);
    ConfinedGrow(b.arena, n);
    ConfinedAdd(grown, n, n + 2, n, Sym(c), [n + 1]);
    assert OwnsAt(b', parts', |parts|);
    ClosedGrow(b.arena);
    ClosedAdd(grown, n, Sym(c), [n + 1]);
    LowestPart(b, parts, parts', |parts|, n);
  }

  lemma LayoutConcat(isOperand: char -> bool, b: Builder, parts: seq<Part>)
    requires Layout(b, parts) && !isOperand('.') && |b.stack| >= 2
    ensures Layout(BuildStep(isOperand, b, '.').value, PartStep(isOperand, |b.arena|, parts, '.'))
  {
    var k := |b.stack|;
    var n2, n1 := b.stack[k - 1], b.stack[k - 2];
    var lo, mid := parts[k - 2].lo, parts[k - 1].lo;
    var a := AddEdges(b.arena, n1.accept, Eps, [n2.start]);
    var b' := Builder(a, b.stack[..k - 2] + [Frag(n1.start, n2.accept)]);
    var parts' := parts[..k - 2] + [Part(lo, Cat(parts[k - 2].re, parts[k - 1].re))];
    assert BuildStep(isOperand, b, '.') == Some(b');
    assert PartStep(isOperand, |b.arena|, parts, '.') == parts';
    assert OwnsAt(b, parts, k - 2) && OwnsAt(b, parts, k - 1);
    assert b'.stack[..k - 2] == b.stack[..k - 2] && parts'[..k - 2] == parts[..k - 2];
    KeepBelow(b, parts, b', parts', k - 2, lo);
    ConfinedUnion(b.arena, lo, mid, |b.arena|);
    ConfinedAdd(b.arena, lo, |b.arena|, n1.accept, Eps, [n2.start]);
    assert OwnsAt(b', parts', k - 2);
    ClosedAdd(b.arena, n1.accept, Eps, [n2.start]);
    LowestPart(b, parts, parts', k - 2, lo);
  }

  lemma LayoutAlt(isOperand: char -> bool, b: Builder, parts: seq<Part>)
    requires Layout(b, parts) && !isOperand('|') && |b.stack| >= 2
    ensures Layout(BuildStep(isOperand, b, '|').value, PartStep(isOperand, |b.arena|, parts, '|'))
  {
    var n, k := |b.arena|, |b.stack|;
    var n2, n1 := b.stack[k - 1], b.stack[k - 2];
    var lo, mid := parts[k - 2].lo, parts[k - 1].lo;
    var grown := b.arena + [map[], map[]];
    var a1 := AddEdges(grown, n, Eps, [n1.start, n2.start]);
    var a2 := AddEdges(a1, n1.accept, Eps, [n + 1]);
    var a3 := AddEdges(a2, n2.accept, Eps, [n + 1]);
    var b' := Builder(a3, b.stack[..k - 2] + [Frag(n, n + 1)]);
    var parts' := parts[..k - 2] + [Part(lo, Alt(parts[k - 2].re, parts[k - 1].re))];
    assert BuildStep(isOperand, b, '|') == Some(b');
    assert PartStep(isOperand, n, parts, '|') == parts';
    assert OwnsAt(b, parts, k - 2) && OwnsAt(b, parts, k - 1);
    AgreeGrow(b.arena, lo);
    AgreeAdd(b.arena, grown, lo, n, Eps, [n1.start, n2.start]);
    AgreeAdd(b.arena, a1, lo, n1.accept, Eps, [n + 1]);
    AgreeAdd(b.arena, a2, lo, n2.accept, Eps, [n + 1]);
    assert b'.stack[..k - 2] == b.stack[..k - 2] && parts'[..k - 2] == parts[..k - 2];
    KeepBelow(b, parts, b', parts', k - 2, lo);
    ConfinedUnion(b.arena, lo, mid, n);
    ConfinedGrow(b.arena, lo);
    ConfinedAdd(grown, lo, n + 2, n, Eps, [n1.start, n2.start]);
    ConfinedAdd(a1, lo, n + 2, n1.accept, Eps, [n + 1]);
    ConfinedAdd(a2, lo, n + 2, n2.accept, Eps, [n + 1]);
    assert OwnsAt(b', parts', k - 2);
    ClosedGrow(b.arena);
    ClosedAdd(grown, n, Eps, [n1.start, n2.start]);
    ClosedAdd(a1, n1.accept, Eps, [n + 1]);
    ClosedAdd(a2, n2.accept, Eps, [n + 1]);
    LowestPart(b, parts, parts', k - 2, lo);
  }

  lemma LayoutStar(isOperand: char -> bool, b: Builder, parts: seq<Part>)
    requires Layout(b, parts) && !isOperand('*') && |b.stack| >= 1
    ensures Layout(BuildStep(isOperand, b, '*').value, PartStep(isOperand, |b.arena|, parts, '*'))
  {
    var n, k := |b.arena|, |b.stack|;
    var n1 := b.stack[k - 1];
    var lo := parts[k - 1].lo;
    var grown := b.arena + [map[], map[]];
    var a1 := AddEdges(grown, n, Eps, [n1.start, n + 1]);
    var a2 := AddEdges(a1, n1.accept, Eps, [n1.start, n + 1]);
    var b' := Builder(a2, b.stack[..k - 1] + [Frag(n, n + 1)]);
    var parts' := parts[..k - 1] + [Part(lo, Star(parts[k - 1].re))];
    assert BuildStep(isOperand, b, '*') == Some(b');
    assert PartStep(isOperand, n, parts, '*') == parts';
    assert OwnsAt(b, parts, k - 1);
    AgreeGrow(b.arena, lo);
    AgreeAdd(b.arena, grown, lo, n, Eps, [n1.start, n + 1]);
    AgreeAdd(b.arena, a1, lo, n1.accept, Eps, [n1.start, n + 1]);
    assert b'.stack[..k - 1] == b.stack[..k - 1] && parts'[..k - 1] == parts[..k - 1];
    KeepBelow(b, parts, b', parts', k - 1, lo);
    ConfinedGrow(b.arena, lo);
    ConfinedAdd(grown, lo, n + 2, n, Eps, [n1.start, n + 1]);
    ConfinedAdd(a1, lo, n + 2, n1.accept, Eps, [n1.start, n + 1]);
    assert OwnsAt(b', parts', k - 1);
    ClosedGrow(b.arena);
    ClosedAdd(grown, n, Eps, [n1.start, n + 1]);
    ClosedAdd(a1, n1.accept, Eps, [n1.start, n + 1]);
    LowestPart(b, parts, parts', k - 1, lo);
  }

  lemma StepLayout(isOperand: char -> bool, b: Builder, parts: seq<Part>, c: char)
    requires Layout(b, parts) && BuildStep(isOperand, b, c).Some?
    ensures Layout(BuildStep(isOperand, b, c).value, PartStep(isOperand, |b.arena|, parts, c))
  {
    if isOperand(c) {
      LayoutOperand(isOperand, b, parts, c);
    } else if c == '.' {
      LayoutConcat(isOperand, b, parts);
    } else if c == '|' {
      LayoutAlt(isOperand, b, parts);
    } else if c == '*' {
      LayoutStar(isOperand, b, parts);
    }
  }

  /** Throughout the construction the fragments on the stack own
      consecutive ranges of states that make up the arena; in particular
      a fragment's accept state has no edges while it is on the stack, and
      every edge leads to a state. */
  lemma {:induction false} BuildLayout(isOperand: char -> bool, s: seq<char>)
    ensures Build(isOperand, s).Some? ==> Layout(Build(isOperand, s).value, Parts(isOperand, s))
  {
    if s != [] {
      BuildLayout(isOperand, DropLast(s));
      if Build(isOperand, DropLast(s)).Some? && Build(isOperand, s).Some? {
        assert Build(isOperand, s) == BuildStep(isOperand, Build(isOperand, DropLast(s)).value, Last(s));
        StepLayout(isOperand, Build(isOperand, DropLast(s)).value, Parts(isOperand, DropLast(s)), Last(s));
      }
    }
  }

  /** Every fragment on the stack has two distinct states of the arena,
      and its accept state has no outgoing edge. */
  lemma StackShape(isOperand: char -> bool, s: seq<char>)
    requires Build(isOperand, s).Some?
    ensures var b := Build(isOperand, s).value;
      && Closed(b.arena)
      && forall i :: 0 <= i < |b.stack| ==>
        && b.stack[i].start < |b.arena| && b.stack[i].accept < |b.arena|
        && b.stack[i].start != b.stack[i].accept
        && b.arena[b.stack[i].accept] == map[]
  {
    BuildLayout(isOperand, s);
    var b := Build(isOperand, s).value;
    forall i | 0 <= i < |b.stack|
      ensures && b.stack[i].start < |b.arena| && b.stack[i].accept < |b.arena|
              && b.stack[i].start != b.stack[i].accept && b.arena[b.stack[i].accept] == map[]
    {
      FragShape(b, Parts(isOperand, s), i);
    }
  }

  lemma ReachableFrag(isOperand: char -> bool, s: seq<char>, b: Builder, i: nat)
    requires Build(isOperand, s) == Some(b) && i < |b.stack|
    ensures && b.stack[i].start < |b.arena| && b.stack[i].accept < |b.arena|
            && b.stack[i].start != b.stack[i].accept && b.arena[b.stack[i].accept] == map[]
  {
    BuildLayout(isOperand, s);
    FragShape(b, Parts(isOperand, s), i);
  }

  lemma FragShape(b: Builder, parts: seq<Part>, i: nat)
    requires Layout(b, parts) && i < |b.stack|
    ensures && b.stack[i].start < |b.arena| && b.stack[i].accept < |b.arena|
            && b.stack[i].start != b.stack[i].accept && b.arena[b.stack[i].accept] == map[]
  {
    assert OwnsAt(b, parts, i);
  }

  /** The automaton `postfix_to_nfa` returns has its start and accept
      state in the arena, they differ, the accept state has no outgoing
      edge, and every edge leads to a state. */
  lemma CompiledShape(isOperand: char -> bool, s: seq<char>)
    requires ToNfa(isOperand, s).Some?
    ensures var m := ToNfa(isOperand, s).value;
      && Closed(m.arena) && m.start < |m.arena| && m.end < |m.arena| && m.start != m.end
      && m.arena[m.end] == map[]
  {
    StackShape(isOperand, s);
    var b := Build(isOperand, s).value;
    assert Last(b.stack) == b.stack[|b.stack| - 1];
  }

  /** An edge of the arena, as a triple. */
  datatype Edge = Edge(src: nat, via: Label, dst: nat)

  ghost function EdgeSet(arena: Arena): set<Edge>
  {
    set x: nat, l: Label, y: nat | x < |arena| && l in arena[x] && y in arena[x][l] :: Edge(x, l, y)
  }

  function EdgesTo(x: nat, l: Label, ys: seq<nat>): set<Edge>
  {
    set y | y in ys :: Edge(x, l, y)
  }

  lemma EdgeSetAdd(arena: Arena, x: nat, l: Label, ys: seq<nat>)
    requires x < |arena|
    ensures EdgeSet(AddEdges(arena, x, l, ys)) == EdgeSet(arena) + EdgesTo(x, l, ys)
  {
    var r := AddEdges(arena, x, l, ys);
    forall e | e in EdgeSet(r) ensures e in EdgeSet(arena) + EdgesTo(x, l, ys) {
      assert e.dst in Targets(r, e.src, e.via);
    }
    forall e | e in EdgeSet(arena) + EdgesTo(x, l, ys) ensures e in EdgeSet(r) {
      if e in EdgeSet(arena) {
        assert e.dst in Targets(arena, e.src, e.via);
      }
      assert e.dst in Targets(r, e.src, e.via);
    }
  }

  lemma EdgeSetGrow(arena: Arena)
    ensures EdgeSet(arena + [map[], map[]]) == EdgeSet(arena)
  {
    var r := arena + [map[], map[]];
    forall e | e in EdgeSet(r) ensures e in EdgeSet(arena) {
      assert e.dst in Targets(r, e.src, e.via);
    }
    forall e | e in EdgeSet(arena) ensures e in EdgeSet(r) {
      assert r[e.src] == arena[e.src];
    }
  }

  /** Three additions of edges, two and one and one. */
  lemma Chain3<T>(s0: set<T>, s1: set<T>, s2: set<T>, s3: set<T>, e1: T, e2: T, e3: T, e4: T)
    requires s1 == s0 + {e1, e2} && s2 == s1 + {e3} && s3 == s2 + {e4}
    ensures s3 == s0 + {e1, e2, e3, e4}
  {
  }

  /** Two additions of two edges each. */
  lemma Chain2<T>(s0: set<T>, s1: set<T>, s2: set<T>, e1: T, e2: T, e3: T, e4: T)
    requires s1 == s0 + {e1, e2} && s2 == s1 + {e3, e4}
    ensures s2 == s0 + {e1, e2, e3, e4}
  {
  }

  lemma EdgesToPair(x: nat, l: Label, y1: nat, y2: nat)
    ensures EdgesTo(x, l, [y1]) == {Edge(x, l, y1)}
    ensures EdgesTo(x, l, [y1, y2]) == {Edge(x, l, y1), Edge(x, l, y2)}
  {
  }

  /** An operand adds two fresh states and exactly one edge between them,
      labelled with the operand, and pushes their fragment. */
  lemma OperandEdges(b: Builder, c: char)
    ensures var n := |b.arena|; var b' := OperandStep(b, c);
      && |b'.arena| == n + 2 && b'.stack == b.stack + [Frag(n, n + 1)]
      && EdgeSet(b'.arena) == EdgeSet(b.arena) + {Edge(n, Sym(c), n + 1)}
  {
    var n := |b.arena|;
    EdgeSetGrow(b.arena);
    EdgeSetAdd(b.arena + [map[], map[]], n, Sym(c), [n + 1]);
    EdgesToPair(n, Sym(c), n + 1, n + 1);
  }

  /** A concatenation adds no state and exactly one empty-word edge, from
      the accept state of the first fragment to the start of the second,
      and replaces the two fragments by their combination. */
  lemma ConcatEdges(b: Builder)
    requires |b.stack| >= 2 && b.stack[|b.stack| - 2].accept < |b.arena|
    ensures var k := |b.stack|; var n1, n2 := b.stack[k - 2], b.stack[k - 1];
      var b' := ConcatStep(b);
      && |b'.arena| == |b.arena| && b'.stack == b.stack[..k - 2] + [Frag(n1.start, n2.accept)]
      && EdgeSet(b'.arena) == EdgeSet(b.arena) + {Edge(n1.accept, Eps, n2.start)}
  {
    var k := |b.stack|;
    var n1, n2 := b.stack[k - 2], b.stack[k - 1];
    EdgeSetAdd(b.arena, n1.accept, Eps, [n2.start]);
    EdgesToPair(n1.accept, Eps, n2.start, n2.start);
  }

  /** An alternation adds two fresh states `n` and `n + 1` and four
      empty-word edges: from `n` to both starts, and from both accept
      states to `n + 1`. */
  lemma AltEdges(b: Builder)
    requires |b.stack| >= 2 && b.stack[|b.stack| - 2].accept < |b.arena| && b.stack[|b.stack| - 1].accept < |b.arena|
    ensures var n, k := |b.arena|, |b.stack|; var n1, n2 := b.stack[k - 2], b.stack[k - 1];
      var b' := AltStep(b);
      && |b'.arena| == n + 2 && b'.stack == b.stack[..k - 2] + [Frag(n, n + 1)]
      && EdgeSet(b'.arena) == EdgeSet(b.arena)
        + {Edge(n, Eps, n1.start), Edge(n, Eps, n2.start), Edge(n1.accept, Eps, n + 1), Edge(n2.accept, Eps, n + 1)}
  {
    var n, k := |b.arena|, |b.stack|;
    var n1, n2 := b.stack[k - 2], b.stack[k - 1];
    var grown := b.arena + [map[], map[]];
    var a1 := AddEdges(grown, n, Eps, [n1.start, n2.start]);
    var a2 := AddEdges(a1, n1.accept, Eps, [n + 1]);
    var a3 := AddEdges(a2, n2.accept, Eps, [n + 1]);
    assert AltStep(b).arena == a3;
    EdgeSetGrow(b.arena);
    EdgeSetAdd(grown, n, Eps, [n1.start, n2.start]);
    EdgeSetAdd(a1, n1.accept, Eps, [n + 1]);
    EdgeSetAdd(a2, n2.accept, Eps, [n + 1]);
    EdgesToPair(n, Eps, n1.start, n2.start);
    EdgesToPair(n1.accept, Eps, n + 1, n + 1);
    EdgesToPair(n2.accept, Eps, n + 1, n + 1);
    Chain3(EdgeSet(b.arena), EdgeSet(a1), EdgeSet(a2), EdgeSet(a3),
      Edge(n, Eps, n1.start), Edge(n, Eps, n2.start), Edge(n1.accept, Eps, n + 1), Edge(n2.accept, Eps, n + 1));
  }

  /** A star adds two fresh states `n` and `n + 1` and four empty-word
      edges: from `n` and from the body's accept state, each to the body's
      start and to `n + 1`. */
  lemma StarEdges(b: Builder)
    requires |b.stack| >= 1 && b.stack[|b.stack| - 1].accept < |b.arena|
    ensures var n, k := |b.arena|, |b.stack|; var n1 := b.stack[k - 1];
      var b' := StarStep(b);
      && |b'.arena| == n + 2 && b'.stack == b.stack[..k - 1] + [Frag(n, n + 1)]
      && EdgeSet(b'.arena) == EdgeSet(b.arena)
        + {Edge(n, Eps, n1.start), Edge(n, Eps, n + 1), Edge(n1.accept, Eps, n1.start), Edge(n1.accept, Eps, n + 1)}
  {
    var n, k := |b.arena|, |b.stack|;
    var n1 := b.stack[k - 1];
    var grown := b.arena + [map[], map[]];
    var a1 := AddEdges(grown, n, Eps, [n1.start, n + 1]);
    var a2 := AddEdges(a1, n1.accept, Eps, [n1.start, n + 1]);
    EdgeSetGrow(b.arena);
    EdgeSetAdd(grown, n, Eps, [n1.start, n + 1]);
    EdgeSetAdd(a1, n1.accept, Eps, [n1.start, n + 1]);
    EdgesToPair(n, Eps, n1.start, n + 1);
    EdgesToPair(n1.accept, Eps, n1.start, n + 1);
    Chain2(EdgeSet(b.arena), EdgeSet(a1), EdgeSet(a2),
      Edge(n, Eps, n1.start), Edge(n, Eps, n + 1), Edge(n1.accept, Eps, n1.start), Edge(n1.accept, Eps, n + 1));
  }
}
