/** The NFA of regex2dfa.py as an arena. Each `State` object is an index
    into a sequence of edge maps; the map of a state takes a label (an
    operand character, or the empty-word label written 'ε' in the source)
    to the list of target states, as `State.edges` does. A set of states is
    a `set<nat>`. */
module Nfa {
  import opened Common

  /** An edge label: the empty word, or one input character. */
  datatype Label = Eps | Sym(c: char)

  type Edges = map<Label, seq<nat>>

  /** All states of one construction; state `x` is `arena[x]`. */
  type Arena = seq<Edges>

  /** `edges.get(l, [])` of state `x`. */
  function Targets(arena: Arena, x: nat, l: Label): seq<nat>
  {
    if x < |arena| && l in arena[x] then arena[x][l] else []
  }

  /** Every edge leads to a state of the arena: object references in the
      source always denote existing states. */
  ghost predicate Closed(arena: Arena)
  {
    forall x, l, y :: y in Targets(arena, x, l) ==> y < |arena|
  }

  /** The states `0, ..., n - 1`. */
  function Range(n: nat): (r: set<nat>)
    ensures forall x: nat :: x in r <==> x < n
    ensures |r| == n
  {
    if n == 0 then {} else assert n - 1 !in Range(n - 1); Range(n - 1) + {n - 1}
  }

  function States(arena: Arena): set<nat>
  {
    Range(|arena|)
  }

  /** `edges[l] += ys` on a `defaultdict(list)`: the list for `l` of state
      `x` (empty if absent) is extended by `ys`. An index outside the arena
      denotes no state and leaves the arena as it is; the construction
      never uses one (`Thompson.BuildLayout`). */
  function AddEdges(arena: Arena, x: nat, l: Label, ys: seq<nat>): (r: Arena)
    ensures |r| == |arena|
    ensures forall y :: 0 <= y < |arena| && y != x ==> r[y] == arena[y]
    ensures forall l' :: l' != l ==> Targets(r, x, l') == Targets(arena, x, l')
    ensures x < |arena| ==> r[x].Keys == arena[x].Keys + {l} && Targets(r, x, l) == Targets(arena, x, l) + ys
    ensures x >= |arena| ==> r == arena
  {
    if x < |arena| then arena[x := arena[x][l := Targets(arena, x, l) + ys]] else arena
  }

  /** A walk through the arena: states `p[0], ..., p[|ls|]`, where step `i`
      follows an edge labelled `ls[i]`. */
  predicate Walk(arena: Arena, p: seq<nat>, ls: seq<Label>)
  {
    && |p| == |ls| + 1
    && forall i :: 0 <= i < |ls| ==> StepAt(arena, p, ls, i)
  }

  /** Step `i` of a walk follows an edge. */
  predicate StepAt(arena: Arena, p: seq<nat>, ls: seq<Label>, i: nat)
  {
    i < |ls| && i + 1 < |p| && p[i + 1] in Targets(arena, p[i], ls[i])
  }

  /** The input a sequence of labels reads: its characters, skipping the
      empty-word labels. */
  function Word(ls: seq<Label>): seq<char>
  {
    if ls == [] then []
    else Word(DropLast(ls)) + (match Last(ls) case Eps => [] case Sym(c) => [c])
  }

  /** A walk from `x` to `y` reading `w`. */
  ghost predicate Reads(arena: Arena, x: nat, w: seq<char>, y: nat)
  {
    exists p: seq<nat>, ls: seq<Label> :: Walk(arena, p, ls) && p[0] == x && Last(p) == y && Word(ls) == w
  }

  /** A walk that follows empty-word edges only. */
  predicate EpsWalk(arena: Arena, p: seq<nat>)
  {
    && |p| >= 1
    && forall i :: 0 <= i < |p| - 1 ==> p[i + 1] in Targets(arena, p[i], Eps)
  }

  /** `y` can be reached from a state of `from` by empty-word edges alone. */
  ghost predicate EpsReachable(arena: Arena, from: set<nat>, y: nat)
  {
    exists p: seq<nat> :: EpsWalk(arena, p) && p[0] in from && Last(p) == y
  }

  lemma WordAppend(a: seq<Label>, b: seq<Label>)
    ensures Word(a + b) == Word(a) + Word(b)
    decreases |b|
  {
    if b != [] {
      assert DropLast(a + b) == a + DropLast(b);
      WordAppend(a, DropLast(b));
    } else {
      assert a + b == a;
    }
  }

  /** `n` empty-word labels. */
  function Epss(n: nat): (r: seq<Label>)
    ensures |r| == n && forall i :: 0 <= i < n ==> r[i] == Eps
  {
    if n == 0 then [] else Epss(n - 1) + [Eps]
  }

  /** A sequence of labels reads the empty word exactly when every label
      is the empty-word label. */
  lemma {:induction false} WordEmpty(ls: seq<Label>)
    ensures Word(ls) == [] <==> forall i :: 0 <= i < |ls| ==> ls[i] == Eps
  {
    if ls != [] {
      WordEmpty(DropLast(ls));
      if Word(ls) == [] {
        assert Word(DropLast(ls)) == [];
        forall i | 0 <= i < |ls| ensures ls[i] == Eps {
          if i < |ls| - 1 {
            assert ls[i] == DropLast(ls)[i];
          }
        }
      } else if Word(DropLast(ls)) != [] {
        var i :| 0 <= i < |DropLast(ls)| && DropLast(ls)[i] != Eps;
        assert ls[i] != Eps;
      } else {
        assert ls[|ls| - 1] != Eps;
      }
    }
  }

  /** An empty-word walk is a walk reading the empty word, and back. */
  lemma EpsWalkIsWalk(arena: Arena, p: seq<nat>)
    requires EpsWalk(arena, p)
    ensures Walk(arena, p, Epss(|p| - 1)) && Word(Epss(|p| - 1)) == []
  {
    WordEmpty(Epss(|p| - 1));
  }

  lemma WalkIsEpsWalk(arena: Arena, p: seq<nat>, ls: seq<Label>)
    requires Walk(arena, p, ls) && Word(ls) == []
    ensures EpsWalk(arena, p)
  {
    WordEmpty(ls);
    forall i | 0 <= i < |p| - 1 ensures p[i + 1] in Targets(arena, p[i], Eps) {
      assert StepAt(arena, p, ls, i) && ls[i] == Eps;
    }
  }

  /** Two walks, the second starting where the first ends, make one. */
  lemma WalkJoin(arena: Arena, p1: seq<nat>, l1: seq<Label>, p2: seq<nat>, l2: seq<Label>)
    requires Walk(arena, p1, l1) && Walk(arena, p2, l2) && Last(p1) == p2[0]
    ensures Walk(arena, p1 + p2[1..], l1 + l2)
    ensures (p1 + p2[1..])[0] == p1[0] && Last(p1 + p2[1..]) == Last(p2)
    ensures Word(l1 + l2) == Word(l1) + Word(l2)
  {
    var p, ls := p1 + p2[1..], l1 + l2;
    forall i | 0 <= i < |ls| ensures StepAt(arena, p, ls, i) {
      if i < |l1| {
        assert StepAt(arena, p1, l1, i);
        assert p[i + 1] == p1[i + 1] && p[i] == p1[i] && ls[i] == l1[i];
      } else {
        var j := i - |l1|;
        assert StepAt(arena, p2, l2, j);
        assert p[i + 1] == p2[j + 1] && ls[i] == l2[j];
        assert p[i] == p2[j];
      }
    }
    WordAppend(l1, l2);
  }

  /** The walk of one edge. */
  lemma WalkEdge(arena: Arena, x: nat, l: Label, y: nat)
    requires y in Targets(arena, x, l)
    ensures Walk(arena, [x, y], [l]) && Word([l]) == (match l case Eps => [] case Sym(c) => [c])
  {
    assert DropLast([l]) == [];
  }

  /** An edge in front of a walk. */
  lemma WalkCons(arena: Arena, x: nat, l: Label, p: seq<nat>, ls: seq<Label>)
    requires Walk(arena, p, ls) && p[0] in Targets(arena, x, l)
    ensures Walk(arena, [x] + p, [l] + ls)
  {
    forall k | 0 <= k < |ls| + 1 ensures StepAt(arena, [x] + p, [l] + ls, k) {
      if k > 0 {
        assert StepAt(arena, p, ls, k - 1);
      }
    }
  }

  /** The first `i` steps of a walk, and the rest. */
  lemma WalkSplit(arena: Arena, p: seq<nat>, ls: seq<Label>, i: nat)
    requires Walk(arena, p, ls) && i <= |ls|
    ensures Walk(arena, p[..i + 1], ls[..i]) && Walk(arena, p[i..], ls[i..])
    ensures Last(p[..i + 1]) == p[i] && p[i..][0] == p[i] && Last(p[i..]) == Last(p)
    ensures Word(ls) == Word(ls[..i]) + Word(ls[i..])
  {
    WalkPrefix(arena, p, ls, i);
    WalkSuffix(arena, p, ls, i);
    assert ls == ls[..i] + ls[i..];
    WordAppend(ls[..i], ls[i..]);
  }

  lemma WalkPrefix(arena: Arena, p: seq<nat>, ls: seq<Label>, i: nat)
    requires Walk(arena, p, ls) && i <= |ls|
    ensures Walk(arena, p[..i + 1], ls[..i])
  {
    var p1, l1 := p[..i + 1], ls[..i];
    forall k | 0 <= k < |l1| ensures StepAt(arena, p1, l1, k) {
      assert StepAt(arena, p, ls, k);
      assert p1[k + 1] == p[k + 1] && p1[k] == p[k] && l1[k] == ls[k];
    }
  }

  lemma WalkSuffix(arena: Arena, p: seq<nat>, ls: seq<Label>, i: nat)
    requires Walk(arena, p, ls) && i <= |ls|
    ensures Walk(arena, p[i..], ls[i..])
  {
    var p2, l2 := p[i..], ls[i..];
    forall k | 0 <= k < |l2| ensures StepAt(arena, p2, l2, k) {
      var j := i + k;
      assert StepAt(arena, p, ls, j);
      assert p2[k + 1] == p[j + 1] && p2[k] == p[j] && l2[k] == ls[j];
    }
  }

  /** The last character of a word is read by some step of the walk; the
      steps after it read nothing. */
  lemma {:induction false} SplitLastSymbol(ls: seq<Label>, u: seq<char>, c: char) returns (i: nat)
    requires Word(ls) == u + [c]
    ensures i < |ls| && ls[i] == Sym(c) && Word(ls[..i]) == u && Word(ls[i + 1..]) == []
  {
    assert ls != [];
    var front := DropLast(ls);
    assert ls == front + [Last(ls)];
    match Last(ls)
    case Sym(d) =>
      i := |ls| - 1;
      assert Word(ls) == Word(front) + [d];
      assert d == (u + [c])[|u|] == c;
      assert Word(front) == (Word(front) + [d])[..|u|] == (u + [c])[..|u|] == u;
      assert ls[..i] == front && ls[i + 1..] == [];
    case Eps =>
      i := SplitLastSymbol(front, u, c);
      SnocSlices(front, Eps, i);
      SnocSlices(front, Eps, i + 1);
      WordAppend(front[i + 1..], [Eps]);
      assert Word([Eps]) == [] by {
        assert DropLast([Eps]) == [];
      }
  }

  /** A walk reading `w` to `x`, followed by one more edge. */
  lemma ReadsEdge(arena: Arena, x0: nat, w: seq<char>, x: nat, l: Label, y: nat)
    requires Reads(arena, x0, w, x) && y in Targets(arena, x, l)
    ensures Reads(arena, x0, w + (match l case Eps => [] case Sym(c) => [c]), y)
  {
    var p: seq<nat>, ls: seq<Label> :| Walk(arena, p, ls) && p[0] == x0 && Last(p) == x && Word(ls) == w;
    WalkEdge(arena, x, l, y);
    WalkJoin(arena, p, ls, [x, y], [l]);
    assert p + [x, y][1..] == p + [y];
  }

  /** A walk reading `w`, followed by empty-word edges, still reads `w`. */
  lemma ReadsEps(arena: Arena, x0: nat, w: seq<char>, q: seq<nat>)
    requires EpsWalk(arena, q) && Reads(arena, x0, w, q[0])
    ensures Reads(arena, x0, w, Last(q))
  {
    var p: seq<nat>, ls: seq<Label> :| Walk(arena, p, ls) && p[0] == x0 && Last(p) == q[0] && Word(ls) == w;
    EpsWalkIsWalk(arena, q);
    WalkJoin(arena, p, ls, q, Epss(|q| - 1));
    assert w + [] == w;
  }

  /** Every edge leaving a state of `lo, ..., hi - 1` stays among them. */
  ghost predicate Confined(arena: Arena, lo: nat, hi: nat)
  {
    forall x, l, y :: lo <= x < hi && y in Targets(arena, x, l) ==> lo <= y < hi
  }

  /** Two arenas that hold the same states `lo, ..., hi - 1`. */
  ghost predicate Agree(a: Arena, a': Arena, lo: nat, hi: nat)
  {
    hi <= |a| && hi <= |a'| && forall x :: lo <= x < hi ==> a'[x] == a[x]
  }

  /** Reading `u` to `y` and then `v` from `y` reads `u + v`. */
  lemma ReadsJoin(arena: Arena, x: nat, u: seq<char>, y: nat, v: seq<char>, z: nat)
    requires Reads(arena, x, u, y) && Reads(arena, y, v, z)
    ensures Reads(arena, x, u + v, z)
  {
    var p1: seq<nat>, l1: seq<Label> :| Walk(arena, p1, l1) && p1[0] == x && Last(p1) == y && Word(l1) == u;
    var p2: seq<nat>, l2: seq<Label> :| Walk(arena, p2, l2) && p2[0] == y && Last(p2) == z && Word(l2) == v;
    WalkJoin(arena, p1, l1, p2, l2);
  }

  /** Every edge of `a` is an edge of `a'`. */
  ghost predicate Grows(a: Arena, a': Arena)
  {
    forall x: nat, l, y :: y in Targets(a, x, l) ==> y in Targets(a', x, l)
  }

  lemma GrowsAdd(a: Arena, x: nat, l: Label, ys: seq<nat>)
    ensures Grows(a, AddEdges(a, x, l, ys))
  {
    var r := AddEdges(a, x, l, ys);
    forall x': nat, l', y | y in Targets(a, x', l') ensures y in Targets(r, x', l') {
      if x' == x && l' == l && x < |a| {
        assert Targets(r, x, l) == Targets(a, x, l) + ys;
      } else if x' != x && x' < |a| {
        assert r[x'] == a[x'];
      }
    }
  }

  lemma GrowsFresh(a: Arena)
    ensures Grows(a, a + [map[], map[]])
  {
    forall x: nat, l, y | y in Targets(a, x, l) ensures y in Targets(a + [map[], map[]], x, l) {
      assert (a + [map[], map[]])[x] == a[x];
    }
  }

  lemma GrowsTrans(a: Arena, a': Arena, a'': Arena)
    requires Grows(a, a') && Grows(a', a'')
    ensures Grows(a, a'')
  {
  }

  /** Walks survive added edges. */
  lemma ReadsGrows(a: Arena, a': Arena, x: nat, w: seq<char>, y: nat)
    requires Grows(a, a') && Reads(a, x, w, y)
    ensures Reads(a', x, w, y)
  {
    var p: seq<nat>, ls: seq<Label> :| Walk(a, p, ls) && p[0] == x && Last(p) == y && Word(ls) == w;
    forall k | 0 <= k < |ls| ensures StepAt(a', p, ls, k) {
      assert StepAt(a, p, ls, k);
    }
  }

  /** A walk from a confined range never leaves it. */
  lemma {:induction false} WalkStays(a: Arena, lo: nat, hi: nat, p: seq<nat>, ls: seq<Label>, k: nat)
    requires Confined(a, lo, hi) && Walk(a, p, ls) && lo <= p[0] < hi && k < |p|
    ensures lo <= p[k] < hi
  {
    if k > 0 {
      WalkStays(a, lo, hi, p, ls, k - 1);
      assert StepAt(a, p, ls, k - 1);
    }
  }

  /** A walk of `a` through states that `a'` holds alike is a walk of
      `a'`. */
  lemma WalkAgree(a: Arena, a': Arena, lo: nat, hi: nat, p: seq<nat>, ls: seq<Label>)
    requires Walk(a, p, ls) && Agree(a, a', lo, hi)
    requires forall k :: 0 <= k < |ls| ==> lo <= p[k] < hi
    ensures Walk(a', p, ls)
  {
    forall k | 0 <= k < |ls| ensures StepAt(a', p, ls, k) {
      assert StepAt(a, p, ls, k);
      assert a'[p[k]] == a[p[k]];
    }
  }

  lemma ConfinedAgree(a: Arena, a': Arena, lo: nat, hi: nat)
    requires Confined(a, lo, hi) && Agree(a, a', lo, hi)
    ensures Confined(a', lo, hi) && Agree(a', a, lo, hi)
  {
    forall x: nat, l, y | lo <= x < hi && y in Targets(a', x, l) ensures lo <= y < hi {
      assert a'[x] == a[x];
      assert Targets(a', x, l) == Targets(a, x, l);
    }
  }

  /** Inside a confined range, walks depend on that range alone. */
  lemma ReadsAgree(a: Arena, a': Arena, lo: nat, hi: nat, x: nat, w: seq<char>, y: nat)
    requires Confined(a, lo, hi) && Agree(a, a', lo, hi) && lo <= x < hi
    ensures Reads(a, x, w, y) <==> Reads(a', x, w, y)
  {
    ConfinedAgree(a, a', lo, hi);
    if Reads(a, x, w, y) {
      ReadsMove(a, a', lo, hi, x, w, y);
    }
    if Reads(a', x, w, y) {
      ReadsMove(a', a, lo, hi, x, w, y);
    }
  }

  lemma ReadsMove(a: Arena, a': Arena, lo: nat, hi: nat, x: nat, w: seq<char>, y: nat)
    requires Confined(a, lo, hi) && Agree(a, a', lo, hi) && lo <= x < hi && Reads(a, x, w, y)
    ensures Reads(a', x, w, y)
  {
    var p: seq<nat>, ls: seq<Label> :| Walk(a, p, ls) && p[0] == x && Last(p) == y && Word(ls) == w;
    forall k | 0 <= k < |ls| ensures lo <= p[k] < hi {
      WalkStays(a, lo, hi, p, ls, k);
    }
    WalkAgree(a, a', lo, hi, p, ls);
  }

  /** `a'` holds the states of `lo, ..., hi - 1` as `a` does, except
      perhaps `x`. */
  ghost predicate AgreeExcept(a: Arena, a': Arena, lo: nat, hi: nat, x: nat)
  {
    hi <= |a| && hi <= |a'| && forall y :: lo <= y < hi && y != x ==> a'[y] == a[y]
  }

  /** A walk of `a'` that starts in a range confined in `a` and ends
      outside it, or at `x`, reaches `x`, and up to its first visit there
      it is a walk of `a` inside the range. */
  lemma {:induction false} FirstVisit(a: Arena, a': Arena, lo: nat, hi: nat, x: nat, p: seq<nat>, ls: seq<Label>)
    returns (j: nat)
    requires Confined(a, lo, hi) && AgreeExcept(a, a', lo, hi, x)
    requires Walk(a', p, ls) && lo <= p[0] < hi && (Last(p) == x || !(lo <= Last(p) < hi))
    ensures j < |p| && p[j] == x && Walk(a, p[..j + 1], ls[..j])
    ensures forall k :: 0 <= k < j ==> lo <= p[k] < hi
    decreases |ls|
  {
    if p[0] == x {
      j := 0;
    } else {
      assert StepAt(a', p, ls, 0);
      assert a'[p[0]] == a[p[0]];
      assert Targets(a', p[0], ls[0]) == Targets(a, p[0], ls[0]);
      var p', ls' := p[1..], ls[1..];
      WalkSplit(a', p, ls, 1);
      assert p'[0] == p[1] && Last(p') == Last(p);
      var j' := FirstVisit(a, a', lo, hi, x, p', ls');
      j := j' + 1;
      WalkCons(a, p[0], ls[0], p'[..j' + 1], ls'[..j']);
      ConsPrefix(p, j' + 1);
      ConsPrefix(ls, j');
      forall k | 0 <= k < j ensures lo <= p[k] < hi {
        if k > 0 {
          assert p[k] == p'[k - 1];
        }
      }
    }
  }

}
