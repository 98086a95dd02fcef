/** What the fragments of `postfix_to_nfa` recognise. The postfix text
    denotes an expression tree (`Thompson.Parts` builds it beside the
    arena); every fragment on the stack has a walk from its start to its
    accept state reading `w` exactly when `w` is in the language of its
    tree. */
module ThompsonLanguage {
  import opened Common
  import opened Nfa
  import opened Thompson

  /** The words of an expression: a character, a concatenation, a union,
      or any number of words of the body in a row. */
  ghost predicate Matches(r: Re, w: seq<char>)
    decreases r, |w|
  {
    match r
    case Chr(c) => w == [c]
    case Cat(r1, r2) => exists i :: 0 <= i <= |w| && Matches(r1, w[..i]) && Matches(r2, w[i..])
    case Alt(r1, r2) => Matches(r1, w) || Matches(r2, w)
    case Star(r1) => w == [] || exists i :: 0 < i <= |w| && Matches(r1, w[..i]) && Matches(Star(r1), w[i..])
  }

  /** One more word of the body in front of a star's word. */
  lemma StarCons(r: Re, u: seq<char>, v: seq<char>)
    requires Matches(r, u) && Matches(Star(r), v)
    ensures Matches(Star(r), u + v)
  {
    if u == [] {
      assert u + v == v;
    } else {
      assert (u + v)[..|u|] == u && (u + v)[|u|..] == v;
    }
  }

  /** The fragment `f` recognises the language of `r`. */
  ghost predicate Recognizes(arena: Arena, f: Frag, r: Re)
  {
    forall w :: Reads(arena, f.start, w, f.accept) <==> Matches(r, w)
  }

  lemma ReadsNil(arena: Arena, x: nat)
    ensures Reads(arena, x, [], x)
  {
    assert Walk(arena, [x], []) && Word([]) == [];
  }

  ghost predicate NoEdges(arena: Arena, x: nat)
  {
    forall l :: Targets(arena, x, l) == []
  }

  /** A state without edges ends every walk that reaches it. */
  lemma DeadEnd(arena: Arena, p: seq<nat>, ls: seq<Label>, k: nat)
    requires Walk(arena, p, ls) && k < |p| && NoEdges(arena, p[k])
    ensures k == |ls|
  {
    assert k < |ls| ==> StepAt(arena, p, ls, k);
  }

  /** A walk that starts in a fragment and ends outside its range leaves
      it by one of the empty-word edges `exits` of its accept state, the
      only edges that changed; before that it reads a word of the
      fragment in the old arena. */
  lemma ExitVia(a: Arena, a': Arena, lo: nat, hi: nat, f: Frag, exits: seq<nat>, q: seq<nat>, ms: seq<Label>)
    returns (j: nat)
    requires Confined(a, lo, hi) && AgreeExcept(a, a', lo, hi, f.accept)
    requires lo <= f.start < hi && lo <= f.accept < hi
    requires forall l :: Targets(a', f.accept, l) == if l == Eps then exits else []
    requires Walk(a', q, ms) && q[0] == f.start && !(lo <= Last(q) < hi)
    ensures j < |ms| && q[j + 1] in exits
    ensures Reads(a, f.start, Word(ms[..j]), f.accept)
    ensures Walk(a', q[j + 1..], ms[j + 1..]) && q[j + 1..][0] == q[j + 1] && Last(q[j + 1..]) == Last(q)
    ensures Word(ms) == Word(ms[..j]) + Word(ms[j + 1..])
  {
    j := FirstVisit(a, a', lo, hi, f.accept, q, ms);
    assert Last(q[..j + 1]) == q[j];
    assert j < |ms|;
    assert StepAt(a', q, ms, j);
    assert ms[j] == Eps;
    WalkSplit(a', q, ms, j);
    var q1, m1 := q[j..], ms[j..];
    WalkSplit(a', q1, m1, 1);
    assert m1[..1] == [Eps] && DropLast([Eps]) == [];
    assert q1[1..] == q[j + 1..] && m1[1..] == ms[j + 1..];
  }

  /** Into a fragment by an empty-word edge from `x`, through it, and out
      by an empty-word edge to `y`. */
  lemma EnterExit(a: Arena, a': Arena, x: nat, f: Frag, y: nat, w: seq<char>)
    requires Grows(a, a') && Reads(a, f.start, w, f.accept)
    requires f.start in Targets(a', x, Eps) && y in Targets(a', f.accept, Eps)
    ensures Reads(a', x, w, y)
  {
    ReadsGrows(a, a', f.start, w, f.accept);
    ReadsNil(a', x);
    ReadsEdge(a', x, [], x, Eps, f.start);
    ReadsJoin(a', x, [], f.start, w, f.accept);
    ReadsEdge(a', x, [] + w, f.accept, Eps, y);
    assert [] + w + [] == w;
  }

  /** The first edge of a walk from `x`, whose only edges are empty-word
      edges, is one of them. */
  lemma FirstEps(a: Arena, x: nat, p: seq<nat>, ls: seq<Label>)
    requires Walk(a, p, ls) && p[0] == x && |ls| >= 1
    requires forall l :: l != Eps ==> Targets(a, x, l) == []
    ensures ls[0] == Eps && p[1] in Targets(a, x, Eps)
    ensures Walk(a, p[1..], ls[1..]) && p[1..][0] == p[1] && Last(p[1..]) == Last(p)
    ensures Word(ls) == Word(ls[1..])
  {
    assert StepAt(a, p, ls, 0);
    WalkSplit(a, p, ls, 1);
    assert ls[..1] == [Eps] && DropLast([Eps]) == [];
  }

  // Operands

  lemma LangOperand(b: Builder, c: char)
    ensures Recognizes(OperandStep(b, c).arena, Frag(|b.arena|, |b.arena| + 1), Chr(c))
  {
    var n := |b.arena|;
    var e := n + 1;
    var a := OperandStep(b, c).arena;
    assert a[e] == map[];
    assert NoEdges(a, e);
    forall w ensures Reads(a, n, w, e) <==> Matches(Chr(c), w) {
      if w == [c] {
        WalkEdge(a, n, Sym(c), e);
      }
      if Reads(a, n, w, e) {
        OperandOut(a, n, c, e, w);
      }
    }
  }

  lemma OperandOut(a: Arena, n: nat, c: char, e: nat, w: seq<char>)
    requires n != e && NoEdges(a, e) && Reads(a, n, w, e)
    requires forall l :: Targets(a, n, l) == if l == Sym(c) then [e] else []
    ensures w == [c]
  {
    var p: seq<nat>, ls: seq<Label> :| Walk(a, p, ls) && p[0] == n && Last(p) == e && Word(ls) == w;
    assert |ls| >= 1;
    assert StepAt(a, p, ls, 0);
    DeadEnd(a, p, ls, 1);
    assert ls == [Sym(c)] && DropLast(ls) == [];
    assert Word(ls) == Word([]) + [c];
  }

  // Concatenation

  /** The edges a concatenation changes: one empty-word edge from the
      first fragment's accept state to the second's start. */
  lemma ConcatArena(b: Builder, lo: nat, mid: nat)
    requires |b.stack| >= 2
    requires Owns(b.arena, b.stack[|b.stack| - 2], lo, mid) && Owns(b.arena, b.stack[|b.stack| - 1], mid, |b.arena|)
    ensures var k, a' := |b.stack|, ConcatStep(b).arena;
      var n1, n2 := b.stack[k - 2], b.stack[k - 1];
      && Grows(b.arena, a') && AgreeExcept(b.arena, a', lo, mid, n1.accept) && Agree(b.arena, a', mid, |b.arena|)
      && (forall l :: Targets(a', n1.accept, l) == if l == Eps then [n2.start] else [])
  {
    var k := |b.stack|;
    var n1, n2 := b.stack[k - 2], b.stack[k - 1];
    GrowsAdd(b.arena, n1.accept, Eps, [n2.start]);
  }

  lemma LangConcat(b: Builder, lo: nat, mid: nat, r1: Re, r2: Re)
    requires |b.stack| >= 2
    requires Owns(b.arena, b.stack[|b.stack| - 2], lo, mid) && Owns(b.arena, b.stack[|b.stack| - 1], mid, |b.arena|)
    requires Recognizes(b.arena, b.stack[|b.stack| - 2], r1) && Recognizes(b.arena, b.stack[|b.stack| - 1], r2)
    ensures Recognizes(ConcatStep(b).arena, Frag(b.stack[|b.stack| - 2].start, b.stack[|b.stack| - 1].accept), Cat(r1, r2))
  {
    ConcatArena(b, lo, mid);
    ConcatRecognizes(b.arena, ConcatStep(b).arena, lo, mid, b.stack[|b.stack| - 2], b.stack[|b.stack| - 1], r1, r2);
  }

  lemma ConcatRecognizes(a: Arena, a': Arena, lo: nat, mid: nat, n1: Frag, n2: Frag, r1: Re, r2: Re)
    requires Owns(a, n1, lo, mid) && Owns(a, n2, mid, |a|)
    requires Grows(a, a') && AgreeExcept(a, a', lo, mid, n1.accept) && Agree(a, a', mid, |a|)
    requires forall l :: Targets(a', n1.accept, l) == if l == Eps then [n2.start] else []
    requires Recognizes(a, n1, r1) && Recognizes(a, n2, r2)
    ensures Recognizes(a', Frag(n1.start, n2.accept), Cat(r1, r2))
  {
    assert n2.start in Targets(a', n1.accept, Eps);
    forall w ensures Reads(a', n1.start, w, n2.accept) <==> Matches(Cat(r1, r2), w) {
      if Matches(Cat(r1, r2), w) {
        CatIn(a, a', n1, n2, r1, r2, w);
      }
      if Reads(a', n1.start, w, n2.accept) {
        CatOut(a, a', lo, mid, n1, n2, r1, r2, w);
      }
    }
  }

  lemma CatIn(a: Arena, a': Arena, n1: Frag, n2: Frag, r1: Re, r2: Re, w: seq<char>)
    requires Grows(a, a') && n2.start in Targets(a', n1.accept, Eps)
    requires Recognizes(a, n1, r1) && Recognizes(a, n2, r2) && Matches(Cat(r1, r2), w)
    ensures Reads(a', n1.start, w, n2.accept)
  {
    var i :| 0 <= i <= |w| && Matches(r1, w[..i]) && Matches(r2, w[i..]);
    ConcatIn(a, a', n1, n2, w[..i], w[i..]);
    assert w[..i] + w[i..] == w;
  }

  lemma CatOut(a: Arena, a': Arena, lo: nat, mid: nat, n1: Frag, n2: Frag, r1: Re, r2: Re, w: seq<char>)
    requires Owns(a, n1, lo, mid) && Owns(a, n2, mid, |a|)
    requires AgreeExcept(a, a', lo, mid, n1.accept) && Agree(a, a', mid, |a|)
    requires forall l :: Targets(a', n1.accept, l) == if l == Eps then [n2.start] else []
    requires Recognizes(a, n1, r1) && Recognizes(a, n2, r2) && Reads(a', n1.start, w, n2.accept)
    ensures Matches(Cat(r1, r2), w)
  {
    var u, v := ConcatOut(a, a', lo, mid, n1, n2, w);
    assert Matches(r1, u) && Matches(r2, v);
    assert w[..|u|] == u && w[|u|..] == v;
  }

  lemma ConcatIn(a: Arena, a': Arena, n1: Frag, n2: Frag, u: seq<char>, v: seq<char>)
    requires Grows(a, a') && n2.start in Targets(a', n1.accept, Eps)
    requires Reads(a, n1.start, u, n1.accept) && Reads(a, n2.start, v, n2.accept)
    ensures Reads(a', n1.start, u + v, n2.accept)
  {
    ReadsGrows(a, a', n1.start, u, n1.accept);
    ReadsGrows(a, a', n2.start, v, n2.accept);
    ReadsEdge(a', n1.start, u, n1.accept, Eps, n2.start);
    assert u + [] == u;
    ReadsJoin(a', n1.start, u, n2.start, v, n2.accept);
  }

  lemma ConcatOut(a: Arena, a': Arena, lo: nat, mid: nat, n1: Frag, n2: Frag, w: seq<char>)
    returns (u: seq<char>, v: seq<char>)
    requires Owns(a, n1, lo, mid) && Owns(a, n2, mid, |a|)
    requires AgreeExcept(a, a', lo, mid, n1.accept) && Agree(a, a', mid, |a|)
    requires forall l :: Targets(a', n1.accept, l) == if l == Eps then [n2.start] else []
    requires Reads(a', n1.start, w, n2.accept)
    ensures w == u + v && Reads(a, n1.start, u, n1.accept) && Reads(a, n2.start, v, n2.accept)
  {
    var p: seq<nat>, ls: seq<Label> :| Walk(a', p, ls) && p[0] == n1.start && Last(p) == n2.accept && Word(ls) == w;
    var j := ExitVia(a, a', lo, mid, n1, [n2.start], p, ls);
    u, v := Word(ls[..j]), Word(ls[j + 1..]);
    assert Reads(a', n2.start, v, n2.accept);
    ReadsAgree(a, a', mid, |a|, n2.start, v, n2.accept);
  }

  // Alternation

  /** The edges of the states an alternation creates or touches. */
  lemma AltArena(b: Builder, lo: nat, mid: nat)
    requires |b.stack| >= 2
    requires Owns(b.arena, b.stack[|b.stack| - 2], lo, mid) && Owns(b.arena, b.stack[|b.stack| - 1], mid, |b.arena|)
    ensures var n, k, a' := |b.arena|, |b.stack|, AltStep(b).arena;
      var n1, n2 := b.stack[k - 2], b.stack[k - 1];
      && |a'| == n + 2 && Grows(b.arena, a')
      && AgreeExcept(b.arena, a', lo, mid, n1.accept) && AgreeExcept(b.arena, a', mid, n, n2.accept)
      && (forall l :: Targets(a', n, l) == if l == Eps then [n1.start, n2.start] else [])
      && (forall l :: Targets(a', n1.accept, l) == if l == Eps then [n + 1] else [])
      && (forall l :: Targets(a', n2.accept, l) == if l == Eps then [n + 1] else [])
      && NoEdges(a', n + 1)
  {
    var n, k := |b.arena|, |b.stack|;
    var n1, n2 := b.stack[k - 2], b.stack[k - 1];
    var grown := b.arena + [map[], map[]];
    var a1 := AddEdges(grown, n, Eps, [n1.start, n2.start]);
    var a2 := AddEdges(a1, n1.accept, Eps, [n + 1]);
    var a3 := AddEdges(a2, n2.accept, Eps, [n + 1]);
    assert AltStep(b).arena == a3;
    GrowsFresh(b.arena);
    GrowsAdd(grown, n, Eps, [n1.start, n2.start]);
    GrowsAdd(a1, n1.accept, Eps, [n + 1]);
    GrowsAdd(a2, n2.accept, Eps, [n + 1]);
    GrowsTrans(b.arena, grown, a1);
    GrowsTrans(b.arena, a1, a2);
    GrowsTrans(b.arena, a2, a3);
    assert a3[n] == a1[n] && a3[n + 1] == map[];
    assert a3[n1.accept] == a2[n1.accept] && a1[n1.accept] == map[];
    assert a2[n2.accept] == map[];
  }

  lemma LangAlt(b: Builder, lo: nat, mid: nat, r1: Re, r2: Re)
    requires |b.stack| >= 2
    requires Owns(b.arena, b.stack[|b.stack| - 2], lo, mid) && Owns(b.arena, b.stack[|b.stack| - 1], mid, |b.arena|)
    requires Recognizes(b.arena, b.stack[|b.stack| - 2], r1) && Recognizes(b.arena, b.stack[|b.stack| - 1], r2)
    ensures Recognizes(AltStep(b).arena, Frag(|b.arena|, |b.arena| + 1), Alt(r1, r2))
  {
    AltArena(b, lo, mid);
    AltRecognizes(b.arena, AltStep(b).arena, lo, mid, |b.arena|, b.stack[|b.stack| - 2], b.stack[|b.stack| - 1], r1, r2);
  }

  lemma AltRecognizes(a: Arena, a': Arena, lo: nat, mid: nat, n: nat, n1: Frag, n2: Frag, r1: Re, r2: Re)
    requires Owns(a, n1, lo, mid) && Owns(a, n2, mid, n) && n == |a| && Grows(a, a')
    requires AgreeExcept(a, a', lo, mid, n1.accept) && AgreeExcept(a, a', mid, n, n2.accept)
    requires forall l :: Targets(a', n, l) == if l == Eps then [n1.start, n2.start] else []
    requires forall l :: Targets(a', n1.accept, l) == if l == Eps then [n + 1] else []
    requires forall l :: Targets(a', n2.accept, l) == if l == Eps then [n + 1] else []
    requires NoEdges(a', n + 1)
    requires Recognizes(a, n1, r1) && Recognizes(a, n2, r2)
    ensures Recognizes(a', Frag(n, n + 1), Alt(r1, r2))
  {
    assert n1.start in Targets(a', n, Eps) && n2.start in Targets(a', n, Eps);
    assert n + 1 in Targets(a', n1.accept, Eps) && n + 1 in Targets(a', n2.accept, Eps);
    forall w ensures Reads(a', n, w, n + 1) <==> Matches(Alt(r1, r2), w) {
      if Matches(r1, w) {
        EnterExit(a, a', n, n1, n + 1, w);
      }
      if Matches(r2, w) {
        EnterExit(a, a', n, n2, n + 1, w);
      }
      if Reads(a', n, w, n + 1) {
        AltOut(a, a', lo, mid, n, n1, n2, w);
      }
    }
  }

  lemma AltOut(a: Arena, a': Arena, lo: nat, mid: nat, n: nat, n1: Frag, n2: Frag, w: seq<char>)
    requires Owns(a, n1, lo, mid) && Owns(a, n2, mid, n) && n == |a|
    requires AgreeExcept(a, a', lo, mid, n1.accept) && AgreeExcept(a, a', mid, n, n2.accept)
    requires forall l :: Targets(a', n, l) == if l == Eps then [n1.start, n2.start] else []
    requires forall l :: Targets(a', n1.accept, l) == if l == Eps then [n + 1] else []
    requires forall l :: Targets(a', n2.accept, l) == if l == Eps then [n + 1] else []
    requires NoEdges(a', n + 1) && Reads(a', n, w, n + 1)
    ensures Reads(a, n1.start, w, n1.accept) || Reads(a, n2.start, w, n2.accept)
  {
    var p: seq<nat>, ls: seq<Label> :| Walk(a', p, ls) && p[0] == n && Last(p) == n + 1 && Word(ls) == w;
    assert |ls| >= 1;
    FirstEps(a', n, p, ls);
    var q, ms := p[1..], ls[1..];
    if q[0] == n1.start {
      Through(a, a', lo, mid, n1, n + 1, q, ms);
    } else {
      Through(a, a', mid, n, n2, n + 1, q, ms);
    }
  }

  /** A walk through a fragment to a state `e` without edges, reached
      only from the accept state. */
  lemma Through(a: Arena, a': Arena, lo: nat, hi: nat, f: Frag, e: nat, q: seq<nat>, ms: seq<Label>)
    requires Confined(a, lo, hi) && AgreeExcept(a, a', lo, hi, f.accept)
    requires lo <= f.start < hi && lo <= f.accept < hi && !(lo <= e < hi)
    requires forall l :: Targets(a', f.accept, l) == if l == Eps then [e] else []
    requires NoEdges(a', e) && Walk(a', q, ms) && q[0] == f.start && Last(q) == e
    ensures Reads(a, f.start, Word(ms), f.accept)
  {
    var j := ExitVia(a, a', lo, hi, f, [e], q, ms);
    DeadEnd(a', q[j + 1..], ms[j + 1..], 0);
    assert Word(ms[j + 1..]) == [];
    assert Word(ms) == Word(ms[..j]);
  }

  // Star

  /** The edges of the states a star creates or touches. */
  lemma StarArena(b: Builder, lo: nat)
    requires |b.stack| >= 1 && Owns(b.arena, b.stack[|b.stack| - 1], lo, |b.arena|)
    ensures var n, k, a' := |b.arena|, |b.stack|, StarStep(b).arena;
      var n1 := b.stack[k - 1];
      && |a'| == n + 2 && Grows(b.arena, a')
      && AgreeExcept(b.arena, a', lo, n, n1.accept)
      && (forall l :: Targets(a', n, l) == if l == Eps then [n1.start, n + 1] else [])
      && (forall l :: Targets(a', n1.accept, l) == if l == Eps then [n1.start, n + 1] else [])
      && NoEdges(a', n + 1)
  {
    var n, k := |b.arena|, |b.stack|;
    var n1 := b.stack[k - 1];
    var grown := b.arena + [map[], map[]];
    var a1 := AddEdges(grown, n, Eps, [n1.start, n + 1]);
    var a2 := AddEdges(a1, n1.accept, Eps, [n1.start, n + 1]);
    assert StarStep(b).arena == a2;
    GrowsFresh(b.arena);
    GrowsAdd(grown, n, Eps, [n1.start, n + 1]);
    GrowsAdd(a1, n1.accept, Eps, [n1.start, n + 1]);
    GrowsTrans(b.arena, grown, a1);
    GrowsTrans(b.arena, a1, a2);
    assert a2[n] == a1[n] && a2[n + 1] == map[];
    assert a1[n1.accept] == map[];
  }

  lemma LangStar(b: Builder, lo: nat, r: Re)
    requires |b.stack| >= 1 && Owns(b.arena, b.stack[|b.stack| - 1], lo, |b.arena|)
    requires Recognizes(b.arena, b.stack[|b.stack| - 1], r)
    ensures Recognizes(StarStep(b).arena, Frag(|b.arena|, |b.arena| + 1), Star(r))
  {
    StarArena(b, lo);
    StarRecognizes(b.arena, StarStep(b).arena, lo, |b.arena|, b.stack[|b.stack| - 1], r);
  }

  lemma StarRecognizes(a: Arena, a': Arena, lo: nat, n: nat, f: Frag, r: Re)
    requires Owns(a, f, lo, n) && n == |a| && Grows(a, a') && AgreeExcept(a, a', lo, n, f.accept)
    requires forall l :: Targets(a', n, l) == if l == Eps then [f.start, n + 1] else []
    requires forall l :: Targets(a', f.accept, l) == if l == Eps then [f.start, n + 1] else []
    requires NoEdges(a', n + 1) && Recognizes(a, f, r)
    ensures Recognizes(a', Frag(n, n + 1), Star(r))
  {
    assert f.start in Targets(a', n, Eps) && n + 1 in Targets(a', n, Eps);
    assert f.start in Targets(a', f.accept, Eps) && n + 1 in Targets(a', f.accept, Eps);
    forall w ensures Reads(a', n, w, n + 1) <==> Matches(Star(r), w) {
      if Matches(Star(r), w) {
        StarIn(a, a', n, f, r, w);
      }
      if Reads(a', n, w, n + 1) {
        StarEntry(a, a', lo, n, f, r, w);
      }
    }
  }

  lemma StarEntry(a: Arena, a': Arena, lo: nat, n: nat, f: Frag, r: Re, w: seq<char>)
    requires Owns(a, f, lo, n) && n == |a| && AgreeExcept(a, a', lo, n, f.accept) && Recognizes(a, f, r)
    requires forall l :: Targets(a', n, l) == if l == Eps then [f.start, n + 1] else []
    requires forall l :: Targets(a', f.accept, l) == if l == Eps then [f.start, n + 1] else []
    requires NoEdges(a', n + 1) && Reads(a', n, w, n + 1)
    ensures Matches(Star(r), w)
  {
    var p: seq<nat>, ls: seq<Label> :| Walk(a', p, ls) && p[0] == n && Last(p) == n + 1 && Word(ls) == w;
    assert |ls| >= 1;
    FirstEps(a', n, p, ls);
    if p[1] == n + 1 {
      DeadEnd(a', p[1..], ls[1..], 0);
      assert Word(ls[1..]) == [];
    } else {
      StarOut(a, a', lo, n, f, r, p[1..], ls[1..]);
    }
  }

  /** A word of the star is read from the new start state, and from the
      body's accept state, to the new accept state. */
  lemma {:induction false} StarIn(a: Arena, a': Arena, n: nat, f: Frag, r: Re, w: seq<char>)
    requires Grows(a, a') && Recognizes(a, f, r)
    requires f.start in Targets(a', n, Eps) && n + 1 in Targets(a', n, Eps)
    requires f.start in Targets(a', f.accept, Eps) && n + 1 in Targets(a', f.accept, Eps)
    requires Matches(Star(r), w)
    ensures Reads(a', n, w, n + 1) && Reads(a', f.accept, w, n + 1)
    decreases |w|
  {
    if w == [] {
      ReadsNil(a', n);
      ReadsNil(a', f.accept);
      ReadsEdge(a', n, [], n, Eps, n + 1);
      ReadsEdge(a', f.accept, [], f.accept, Eps, n + 1);
    } else {
      var i :| 0 < i <= |w| && Matches(r, w[..i]) && Matches(Star(r), w[i..]);
      StarIn(a, a', n, f, r, w[i..]);
      ReadsGrows(a, a', f.start, w[..i], f.accept);
      ReadsJoin(a', f.start, w[..i], f.accept, w[i..], n + 1);
      assert w[..i] + w[i..] == w;
      EnterFrom(a', n, f.start, w, n + 1);
      EnterFrom(a', f.accept, f.start, w, n + 1);
    }
  }

  /** An empty-word edge in front of a reading walk. */
  lemma EnterFrom(a: Arena, x: nat, y: nat, w: seq<char>, z: nat)
    requires y in Targets(a, x, Eps) && Reads(a, y, w, z)
    ensures Reads(a, x, w, z)
  {
    ReadsNil(a, x);
    ReadsEdge(a, x, [], x, Eps, y);
    ReadsJoin(a, x, [], y, w, z);
    assert [] + [] + w == w;
  }

  /** A walk from the body's start to the new accept state goes round the
      loop some number of times, each time reading a word of the body. */
  lemma {:induction false} StarOut(a: Arena, a': Arena, lo: nat, n: nat, f: Frag, r: Re, q: seq<nat>, ms: seq<Label>)
    requires Confined(a, lo, n) && AgreeExcept(a, a', lo, n, f.accept)
    requires lo <= f.start < n && lo <= f.accept < n && Recognizes(a, f, r)
    requires forall l :: Targets(a', f.accept, l) == if l == Eps then [f.start, n + 1] else []
    requires NoEdges(a', n + 1)
    requires Walk(a', q, ms) && q[0] == f.start && Last(q) == n + 1
    ensures Matches(Star(r), Word(ms))
    decreases |ms|
  {
    var j := ExitVia(a, a', lo, n, f, [f.start, n + 1], q, ms);
    var u, q', ms' := Word(ms[..j]), q[j + 1..], ms[j + 1..];
    assert Matches(r, u);
    if q[j + 1] == n + 1 {
      DeadEnd(a', q', ms', 0);
      assert Word(ms') == [] && Word(ms) == u;
      assert Matches(Star(r), []);
      StarCons(r, u, []);
      assert u + [] == u;
    } else {
      StarOut(a, a', lo, n, f, r, q', ms');
      StarCons(r, u, Word(ms'));
    }
  }

  // The whole stack

  /** The `i`-th fragment recognises the language of the `i`-th tree. */
  ghost predicate LangAt(b: Builder, parts: seq<Part>, i: nat)
  {
    i < |parts| && i < |b.stack| && Recognizes(b.arena, b.stack[i], parts[i].re)
  }

  ghost predicate Lang(b: Builder, parts: seq<Part>)
  {
    forall i :: 0 <= i < |parts| ==> LangAt(b, parts, i)
  }

  /** A fragment below the popped ones keeps its language, for its states
      are untouched and no edge leaves them. */
  lemma KeepLangOne(b: Builder, parts: seq<Part>, b': Builder, parts': seq<Part>, m: nat, bound: nat, i: nat)
    requires Layout(b, parts) && Lang(b, parts) && m <= |parts| && m < |parts'| == |b'.stack|
    requires b'.stack[..m] == b.stack[..m] && parts'[..m] == parts[..m]
    requires bound == if m < |parts| then parts[m].lo else |b.arena|
    requires Agree(b.arena, b'.arena, 0, bound) && i < m
    ensures LangAt(b', parts', i)
  {
    assert b'.stack[i] == b.stack[i] && parts'[i] == parts[i];
    var f, lo, hi := b.stack[i], parts[i].lo, Hi(b, parts, i);
    assert OwnsAt(b, parts, i) && LangAt(b, parts, i);
    if m < |parts| {
      HiOrdered(b, parts, i, m);
    }
    assert Agree(b.arena, b'.arena, lo, hi);
    forall w ensures Reads(b'.arena, f.start, w, f.accept) <==> Matches(parts[i].re, w) {
      ReadsAgree(b.arena, b'.arena, lo, hi, f.start, w, f.accept);
    }
  }

  lemma KeepLang(b: Builder, parts: seq<Part>, b': Builder, parts': seq<Part>, m: nat, bound: nat)
    requires Layout(b, parts) && Lang(b, parts) && m <= |parts| && m < |parts'| == |b'.stack|
    requires b'.stack[..m] == b.stack[..m] && parts'[..m] == parts[..m]
    requires bound == if m < |parts| then parts[m].lo else |b.arena|
    requires Agree(b.arena, b'.arena, 0, bound) && LangAt(b', parts', m) && |parts'| == m + 1
    ensures Lang(b', parts')
  {
    forall i | 0 <= i < |parts'| ensures LangAt(b', parts', i) {
      if i < m {
        KeepLangOne(b, parts, b', parts', m, bound, i);
      }
    }
  }

  lemma LangOperandStep(isOperand: char -> bool, b: Builder, parts: seq<Part>, c: char)
    requires Layout(b, parts) && Lang(b, parts) && isOperand(c)
    ensures Lang(BuildStep(isOperand, b, c).value, PartStep(isOperand, |b.arena|, parts, c))
  {
    var n := |b.arena|;
    var grown := b.arena + [map[], map[]];
    var b' := OperandStep(b, c);
    var parts' := parts + [Part(n, Chr(c))];
    assert BuildStep(isOperand, b, c) == Some(b');
    assert PartStep(isOperand, n, parts, c) == parts';
    AgreeGrow(b.arena, n);
    AgreeAdd(b.arena, grown, n, n, Sym(c), [n + 1]);
    LangOperand(b, c);
    assert LangAt(b', parts', |parts|);
    assert b'.stack[..|parts|] == b.stack[..|parts|] && parts'[..|parts|] == parts[..|parts|];
    KeepLang(b, parts, b', parts', |parts|, n);
  }

  lemma LangConcatStep(isOperand: char -> bool, b: Builder, parts: seq<Part>)
    requires Layout(b, parts) && Lang(b, parts) && !isOperand('.') && |b.stack| >= 2
    ensures Lang(BuildStep(isOperand, b, '.').value, PartStep(isOperand, |b.arena|, parts, '.'))
  {
    var k := |b.stack|;
    var lo := parts[k - 2].lo;
    var b' := ConcatStep(b);
    var parts' := parts[..k - 2] + [Part(lo, Cat(parts[k - 2].re, parts[k - 1].re))];
    assert BuildStep(isOperand, b, '.') == Some(b');
    assert PartStep(isOperand, |b.arena|, parts, '.') == parts';
    assert OwnsAt(b, parts, k - 2) && OwnsAt(b, parts, k - 1);
    assert LangAt(b, parts, k - 2) && LangAt(b, parts, k - 1);
    LangConcat(b, lo, parts[k - 1].lo, parts[k - 2].re, parts[k - 1].re);
    assert LangAt(b', parts', k - 2);
    AgreeAdd(b.arena, b.arena, lo, b.stack[k - 2].accept, Eps, [b.stack[k - 1].start]);
    assert b'.stack[..k - 2] == b.stack[..k - 2] && parts'[..k - 2] == parts[..k - 2];
    KeepLang(b, parts, b', parts', k - 2, lo);
  }

  lemma LangAltStep(isOperand: char -> bool, b: Builder, parts: seq<Part>)
    requires Layout(b, parts) && Lang(b, parts) && !isOperand('|') && |b.stack| >= 2
    ensures Lang(BuildStep(isOperand, b, '|').value, PartStep(isOperand, |b.arena|, parts, '|'))
  {
    var n, k := |b.arena|, |b.stack|;
    var n2, n1 := b.stack[k - 1], b.stack[k - 2];
    var lo := parts[k - 2].lo;
    var grown := b.arena + [map[], map[]];
    var a1 := AddEdges(grown, n, Eps, [n1.start, n2.start]);
    var a2 := AddEdges(a1, n1.accept, Eps, [n + 1]);
    var b' := AltStep(b);
    var parts' := parts[..k - 2] + [Part(lo, Alt(parts[k - 2].re, parts[k - 1].re))];
    assert BuildStep(isOperand, b, '|') == Some(b');
    assert PartStep(isOperand, n, parts, '|') == parts';
    assert OwnsAt(b, parts, k - 2) && OwnsAt(b, parts, k - 1);
    assert LangAt(b, parts, k - 2) && LangAt(b, parts, k - 1);
    LangAlt(b, lo, parts[k - 1].lo, parts[k - 2].re, parts[k - 1].re);
    assert LangAt(b', parts', k - 2);
    AgreeGrow(b.arena, lo);
    AgreeAdd(b.arena, grown, lo, n, Eps, [n1.start, n2.start]);
    AgreeAdd(b.arena, a1, lo, n1.accept, Eps, [n + 1]);
    AgreeAdd(b.arena, a2, lo, n2.accept, Eps, [n + 1]);
    assert b'.stack[..k - 2] == b.stack[..k - 2] && parts'[..k - 2] == parts[..k - 2];
    KeepLang(b, parts, b', parts', k - 2, lo);
  }

  lemma LangStarStep(isOperand: char -> bool, b: Builder, parts: seq<Part>)
    requires Layout(b, parts) && Lang(b, parts) && !isOperand('*') && |b.stack| >= 1
    ensures Lang(BuildStep(isOperand, b, '*').value, PartStep(isOperand, |b.arena|, parts, '*'))
  {
    var n, k := |b.arena|, |b.stack|;
    var n1 := b.stack[k - 1];
    var lo := parts[k - 1].lo;
    var grown := b.arena + [map[], map[]];
    var a1 := AddEdges(grown, n, Eps, [n1.start, n + 1]);
    var b' := StarStep(b);
    var parts' := parts[..k - 1] + [Part(lo, Star(parts[k - 1].re))];
    assert BuildStep(isOperand, b, '*') == Some(b');
    assert PartStep(isOperand, n, parts, '*') == parts';
    assert OwnsAt(b, parts, k - 1) && LangAt(b, parts, k - 1);
    LangStar(b, lo, parts[k - 1].re);
    assert LangAt(b', parts', k - 1);
    AgreeGrow(b.arena, lo);
    AgreeAdd(b.arena, grown, lo, n, Eps, [n1.start, n + 1]);
    AgreeAdd(b.arena, a1, lo, n1.accept, Eps, [n1.start, n + 1]);
    assert b'.stack[..k - 1] == b.stack[..k - 1] && parts'[..k - 1] == parts[..k - 1];
    KeepLang(b, parts, b', parts', k - 1, lo);
  }

  lemma StepLang(isOperand: char -> bool, b: Builder, parts: seq<Part>, c: char)
    requires Layout(b, parts) && Lang(b, parts) && BuildStep(isOperand, b, c).Some?
    ensures Lang(BuildStep(isOperand, b, c).value, PartStep(isOperand, |b.arena|, parts, c))
  {
    if isOperand(c) {
      LangOperandStep(isOperand, b, parts, c);
    } else if c == '.' {
      LangConcatStep(isOperand, b, parts);
    } else if c == '|' {
      LangAltStep(isOperand, b, parts);
    } else if c == '*' {
      LangStarStep(isOperand, b, parts);
    } else {
      assert BuildStep(isOperand, b, c) == Some(b) && PartStep(isOperand, |b.arena|, parts, c) == parts;
    }
  }

  /** Throughout the construction each fragment on the stack recognises
      the language of the expression tree the postfix text builds for it. */
  lemma {:induction false} BuildLang(isOperand: char -> bool, s: seq<char>)
    ensures Build(isOperand, s).Some? ==> Lang(Build(isOperand, s).value, Parts(isOperand, s))
  {
    if s != [] {
      BuildLang(isOperand, DropLast(s));
      BuildLayout(isOperand, DropLast(s));
      if Build(isOperand, DropLast(s)).Some? && Build(isOperand, s).Some? {
        assert Build(isOperand, s) == BuildStep(isOperand, Build(isOperand, DropLast(s)).value, Last(s));
        StepLang(isOperand, Build(isOperand, DropLast(s)).value, Parts(isOperand, DropLast(s)), Last(s));
      }
    }
  }

  /** The automaton `postfix_to_nfa` returns has a walk from its start to
      its end state reading `w` exactly when `w` is in the language of the
      top expression tree of the postfix text. */
  lemma CompiledLanguage(isOperand: char -> bool, s: seq<char>, w: seq<char>)
    requires ToNfa(isOperand, s).Some?
    ensures |Trees(isOperand, s)| >= 1
    ensures Reads(ToNfa(isOperand, s).value.arena, ToNfa(isOperand, s).value.start, w, ToNfa(isOperand, s).value.end)
      <==> Matches(Last(Trees(isOperand, s)), w)
  {
    BuildLang(isOperand, s);
    BuildLayout(isOperand, s);
    PartsTrees(isOperand, s);
    var b, parts := Build(isOperand, s).value, Parts(isOperand, s);
    var k := |b.stack|;
    assert LangAt(b, parts, k - 1);
    assert Last(b.stack) == b.stack[k - 1] && Last(parts) == parts[k - 1];
    assert Last(Trees(isOperand, s)) == parts[k - 1].re;
  }

  // The trees of a postfix text

  /** The expression trees a postfix text stands for, read as Reverse
      Polish notation: an operand is a leaf, `.` and `|` combine the top
      two trees, `*` wraps the top one, and any other character is
      skipped. */
  function TreeStep(isOperand: char -> bool, ts: seq<Re>, c: char): seq<Re>
  {
    var k := |ts|;
    if isOperand(c) then ts + [Chr(c)]
    else if c == '.' then (if k < 2 then ts else ts[..k - 2] + [Cat(ts[k - 2], ts[k - 1])])
    else if c == '|' then (if k < 2 then ts else ts[..k - 2] + [Alt(ts[k - 2], ts[k - 1])])
    else if c == '*' then (if k < 1 then ts else ts[..k - 1] + [Star(ts[k - 1])])
    else ts
  }

  function Trees(isOperand: char -> bool, s: seq<char>): seq<Re>
  {
    if s == [] then [] else TreeStep(isOperand, Trees(isOperand, DropLast(s)), Last(s))
  }

  /** The trees built beside the arena are the trees of the text. */
  lemma {:induction false} PartsTrees(isOperand: char -> bool, s: seq<char>)
    requires Build(isOperand, s).Some?
    ensures SameTrees(Parts(isOperand, s), Trees(isOperand, s))
  {
    if s != [] {
      var u, c := DropLast(s), Last(s);
      assert Build(isOperand, u).Some?;
      PartsTrees(isOperand, u);
      var ps, ts := Parts(isOperand, u), Trees(isOperand, u);
      var n := |Build(isOperand, u).value.arena|;
      assert Parts(isOperand, s) == PartStep(isOperand, n, ps, c);
      assert Trees(isOperand, s) == TreeStep(isOperand, ts, c);
      StepTrees(isOperand, n, ps, ts, c);
    }
  }

  ghost predicate SameTrees(ps: seq<Part>, ts: seq<Re>)
  {
    |ps| == |ts| && forall i :: 0 <= i < |ts| ==> ps[i].re == ts[i]
  }

  lemma StepTrees(isOperand: char -> bool, n: nat, ps: seq<Part>, ts: seq<Re>, c: char)
    requires SameTrees(ps, ts)
    ensures SameTrees(PartStep(isOperand, n, ps, c), TreeStep(isOperand, ts, c))
  {
    var k := |ts|;
    if isOperand(c) {
    } else if c == '.' || c == '|' {
      if k >= 2 {
        assert ps[k - 2].re == ts[k - 2] && ps[k - 1].re == ts[k - 1];
      }
    } else if c == '*' {
      if k >= 1 {
        assert ps[k - 1].re == ts[k - 1];
      }
    }
  }
}
