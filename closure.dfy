/** `epsilon_closure` and `move` of regex2dfa.py: the two set operations of
    the subset construction. */
module EpsClosure {
  import opened Common
  import opened Nfa

  /** Every state reachable from `from` by empty-word edges (including the
      states of `from` themselves, by walks of length 0). */
  ghost function Closure(arena: Arena, from: set<nat>): set<nat>
  {
    set y | y in States(arena) && EpsReachable(arena, from, y)
  }

  /** What `epsilon_closure` promises of its result `c`: it contains
      `from`, no empty-word edge leaves it, and it holds nothing that cannot
      be reached from `from` along such edges. */
  ghost predicate IsEpsClosure(arena: Arena, from: set<nat>, c: set<nat>)
  {
    && from <= c
    && (forall x, y :: x in c && y in Targets(arena, x, Eps) ==> y in c)
    && (forall y {:trigger EpsReachable(arena, from, y)} :: y in c ==> EpsReachable(arena, from, y))
  }

  lemma InArena(arena: Arena, x: nat, l: Label, y: nat)
    requires Closed(arena) && y in Targets(arena, x, l)
    ensures y in States(arena)
  {
  }

  lemma ExtendEpsWalk(arena: Arena, p: seq<nat>, y: nat)
    requires EpsWalk(arena, p) && y in Targets(arena, Last(p), Eps)
    ensures EpsWalk(arena, p + [y]) && (p + [y])[0] == p[0] && Last(p + [y]) == y
  {
  }

  /** An empty-word walk that starts inside a set closed under empty-word
      edges stays inside it. */
  lemma {:induction false} EpsWalkStaysIn(arena: Arena, c: set<nat>, p: seq<nat>)
    requires EpsWalk(arena, p) && p[0] in c
    requires forall x, y :: x in c && y in Targets(arena, x, Eps) ==> y in c
    ensures Last(p) in c
    decreases |p|
  {
    if |p| > 1 {
      EpsWalkStaysIn(arena, c, DropLast(p));
      assert p[|p| - 1] in Targets(arena, p[|p| - 2], Eps);
    }
  }

  /** The three promises determine the result: it is the set of states
      reachable from `from` by empty-word edges. */
  lemma ClosureUnique(arena: Arena, from: set<nat>, c: set<nat>)
    requires Closed(arena) && from <= States(arena) && IsEpsClosure(arena, from, c)
    ensures c == Closure(arena, from)
  {
    forall y | y in c ensures y in States(arena) {
      assert EpsReachable(arena, from, y);
      var p: seq<nat> :| EpsWalk(arena, p) && p[0] in from && Last(p) == y;
      if |p| > 1 {
        var x := p[|p| - 2];
        assert y in Targets(arena, x, Eps);
      }
    }
    forall y | y in Closure(arena, from) ensures y in c {
      var p: seq<nat> :| EpsWalk(arena, p) && p[0] in from && Last(p) == y;
      EpsWalkStaysIn(arena, c, p);
    }
  }

  /** The reachable set keeps the three promises, so by `ClosureUnique` it
      is the only set that does. */
  lemma ClosureIsEpsClosure(arena: Arena, from: set<nat>)
    requires Closed(arena) && from <= States(arena)
    ensures IsEpsClosure(arena, from, Closure(arena, from))
  {
    var c := Closure(arena, from);
    forall x | x in from ensures x in c {
      assert EpsWalk(arena, [x]);
    }
    forall x, y | x in c && y in Targets(arena, x, Eps) ensures y in c {
      var p: seq<nat> :| EpsWalk(arena, p) && p[0] in from && Last(p) == x;
      ExtendEpsWalk(arena, p, y);
      InArena(arena, x, Eps, y);
    }
  }

  /** `list(states)`: the members of a set in some order, each once. */
  method ListOf(s: set<nat>) returns (r: seq<nat>)
    ensures forall x :: x in s <==> x in r
  {
    r := [];
    var rest := s;
    while rest != {}
      invariant rest <= s
      invariant forall x :: x in s <==> x in r || x in rest
      decreases |rest|
    {
      var x :| x in rest;
      r := r + [x];
      rest := rest - {x};
    }
  }

  /** `epsilon_closure`: a worklist search along empty-word edges. */
  method EpsilonClosure(arena: Arena, states: set<nat>) returns (closure: set<nat>)
    requires Closed(arena) && states <= States(arena)
    ensures closure == Closure(arena, states)
  {
    var stack := ListOf(states);
    closure := states;
    StartSearch(arena, states, stack);
    while stack != []
      invariant states <= closure <= States(arena)
      invariant OnStack(closure, stack) && AllReached(arena, states, closure) && DoneExcept(arena, closure, stack, -1)
      decreases |States(arena) - closure| + |stack|
    {
      var s := stack[|stack| - 1];
      stack := stack[..|stack| - 1];
      closure, stack := Visit(arena, states, closure, stack, s);
    }
    EndSearch(arena, states, closure);
  }

  /** The search starts with the given states, all of them waiting. */
  lemma StartSearch(arena: Arena, states: set<nat>, stack: seq<nat>)
    requires forall x :: x in states <==> x in stack
    ensures OnStack(states, stack) && AllReached(arena, states, states) && DoneExcept(arena, states, stack, -1)
  {
    forall y | y in states ensures EpsReachable(arena, states, y) {
      assert EpsWalk(arena, [y]);
    }
  }

  /** With nothing waiting, the reached set is the closure. */
  lemma EndSearch(arena: Arena, states: set<nat>, c: set<nat>)
    requires Closed(arena) && states <= c <= States(arena)
    requires AllReached(arena, states, c) && DoneExcept(arena, c, [], -1)
    ensures c == Closure(arena, states)
  {
    ClosureUnique(arena, states, c);
  }

  ghost predicate AllReached(arena: Arena, states: set<nat>, c: set<nat>)
  {
    forall y {:trigger EpsReachable(arena, states, y)} :: y in c ==> EpsReachable(arena, states, y)
  }

  /** Every state of `c` that is neither waiting on `stack` nor `s` has its
      empty-word successors in `c`. */
  ghost predicate DoneExcept(arena: Arena, c: set<nat>, stack: seq<nat>, s: int)
  {
    forall x, y :: x in c && x !in stack && x != s && y in Targets(arena, x, Eps) ==> y in c
  }

  predicate OnStack(c: set<nat>, stack: seq<nat>)
  {
    forall k :: 0 <= k < |stack| ==> stack[k] in c
  }

  /** A successor `nxt` of the state `s` being visited joins the closure
      and the stack. */
  lemma Discover(arena: Arena, states: set<nat>, c: set<nat>, stack: seq<nat>, s: nat, nxt: nat)
    requires s in c && nxt in Targets(arena, s, Eps) && nxt !in c
    requires AllReached(arena, states, c) && DoneExcept(arena, c, stack, s) && OnStack(c, stack)
    ensures AllReached(arena, states, c + {nxt})
    ensures DoneExcept(arena, c + {nxt}, stack + [nxt], s)
    ensures OnStack(c + {nxt}, stack + [nxt])
  {
    assert EpsReachable(arena, states, s);
    var p: seq<nat> :| EpsWalk(arena, p) && p[0] in states && Last(p) == s;
    ExtendEpsWalk(arena, p, nxt);
  }

  /** Once every successor of `s` is in `c`, `s` is done too. */
  lemma FinishVisit(arena: Arena, c: set<nat>, stack: seq<nat>, s: nat)
    requires DoneExcept(arena, c, stack, s)
    requires forall k :: 0 <= k < |Targets(arena, s, Eps)| ==> Targets(arena, s, Eps)[k] in c
    ensures DoneExcept(arena, c, stack, -1)
  {
    forall x, y | x in c && x !in stack && y in Targets(arena, x, Eps) ensures y in c {
      if x == s {
        var k :| 0 <= k < |Targets(arena, s, Eps)| && Targets(arena, s, Eps)[k] == y;
      }
    }
  }

  /** The inner loop of `epsilon_closure` for the popped state `s`: every
      empty-word successor not yet in the closure joins it and the stack. */
  method Visit(arena: Arena, ghost states: set<nat>, closure0: set<nat>, stack0: seq<nat>, s: nat)
    returns (closure: set<nat>, stack: seq<nat>)
    requires Closed(arena) && closure0 <= States(arena) && s in closure0
    requires OnStack(closure0, stack0) && AllReached(arena, states, closure0) && DoneExcept(arena, closure0, stack0, s)
    ensures closure0 <= closure <= States(arena)
    ensures OnStack(closure, stack) && AllReached(arena, states, closure) && DoneExcept(arena, closure, stack, -1)
    ensures |States(arena) - closure| + |stack| == |States(arena) - closure0| + |stack0|
  {
    closure, stack := closure0, stack0;
    var next := Targets(arena, s, Eps);
    for j := 0 to |next|
      invariant closure0 <= closure <= States(arena)
      invariant OnStack(closure, stack) && AllReached(arena, states, closure) && DoneExcept(arena, closure, stack, s)
      invariant forall k :: 0 <= k < j ==> next[k] in closure
      invariant |States(arena) - closure| + |stack| == |States(arena) - closure0| + |stack0|
    {
      var nxt := next[j];
      ghost var before := closure;
      if nxt !in closure {
        Admit(arena, states, closure0, stack0, closure, stack, s, nxt);
        closure := closure + {nxt};
        stack := stack + [nxt];
      }
      assert before <= closure && nxt in closure;
    }
    FinishVisit(arena, closure, stack, s);
  }

  /** The step of `Visit` that admits the successor `nxt` of `s` keeps
      its invariant. */
  lemma Admit(arena: Arena, states: set<nat>, closure0: set<nat>, stack0: seq<nat>,
              c: set<nat>, stack: seq<nat>, s: nat, nxt: nat)
    requires Closed(arena) && s in closure0 && closure0 <= c <= States(arena)
    requires nxt in Targets(arena, s, Eps) && nxt !in c
    requires OnStack(c, stack) && AllReached(arena, states, c) && DoneExcept(arena, c, stack, s)
    requires |States(arena) - c| + |stack| == |States(arena) - closure0| + |stack0|
    ensures closure0 <= c + {nxt} <= States(arena)
    ensures OnStack(c + {nxt}, stack + [nxt]) && AllReached(arena, states, c + {nxt})
    ensures DoneExcept(arena, c + {nxt}, stack + [nxt], s)
    ensures |States(arena) - (c + {nxt})| + |stack + [nxt]| == |States(arena) - closure0| + |stack0|
  {
    InArena(arena, s, Eps, nxt);
    Discover(arena, states, c, stack, s, nxt);
    OneFewer(States(arena), c, nxt);
  }

  /** Adding a new member of `u` to `c` leaves one fewer outside it. */
  lemma OneFewer(u: set<nat>, c: set<nat>, x: nat)
    requires x in u && x !in c
    ensures |u - (c + {x})| + 1 == |u - c|
  {
    assert u - (c + {x}) == (u - c) - {x};
  }

  /** The `symbol`-successors of a set of states. */
  function MoveSet(arena: Arena, states: set<nat>, symbol: char): set<nat>
  {
    set x, y | x in states && y in Targets(arena, x, Sym(symbol)) :: y
  }

  /** `move`: the union, over the states in some order, of their
      `symbol`-successors. */
  method Move(arena: Arena, states: set<nat>, symbol: char) returns (result: set<nat>)
    ensures forall y :: y in result <==> exists x :: x in states && y in Targets(arena, x, Sym(symbol))
    ensures result == MoveSet(arena, states, symbol)
  {
    result := {};
    var rest := states;
    while rest != {}
      invariant rest <= states
      invariant result == MoveSet(arena, states - rest, symbol)
      decreases |rest|
    {
      var s :| s in rest;
      var next := Targets(arena, s, Sym(symbol));
      ghost var base := result;
      for j := 0 to |next|
        invariant result == base + set k | 0 <= k < j :: next[k]
      {
        result := result + {next[j]};
      }
      MoveSetAdd(arena, states - rest, s, symbol);
      rest := rest - {s};
      assert states - rest == (states - (rest + {s})) + {s};
    }
    assert states - rest == states;
  }

  /** Taking one more state `s` into account adds its successors. */
  lemma MoveSetAdd(arena: Arena, done: set<nat>, s: nat, symbol: char)
    ensures MoveSet(arena, done + {s}, symbol)
      == MoveSet(arena, done, symbol) + set k | 0 <= k < |Targets(arena, s, Sym(symbol))| :: Targets(arena, s, Sym(symbol))[k]
  {
    var next := Targets(arena, s, Sym(symbol));
    assert (set k | 0 <= k < |next| :: next[k]) == (set y | y in next);
  }
}
