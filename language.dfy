/** What the table of `nfa_to_dfa` accepts: the words along which the NFA
    has a walk from its start to its end state. The bridge is the subset
    simulation `Sim`, the set of NFA states the table's current state
    stands for after each prefix. */
module Language {
  import opened Common
  import opened Nfa
  import opened EpsClosure
  import opened Subset
  import opened Matcher

  /** The NFA states reachable from `start` reading `w`, as the subset
      construction tracks them: the closure of the start state, then for
      each character the closure of the successors. */
  ghost function Sim(arena: Arena, start: nat, w: seq<char>): set<nat>
  {
    if w == [] then Closure(arena, {start})
    else Next(arena, Sim(arena, start, DropLast(w)), Last(w))
  }

  /** The set simulation is the walk semantics: a state is in `Sim` after
      `w` exactly when some walk from the start state reading `w` ends in
      it. */
  lemma {:induction false} SimIsReads(arena: Arena, start: nat, w: seq<char>)
    requires Closed(arena) && start < |arena|
    ensures forall y :: y in Sim(arena, start, w) <==> Reads(arena, start, w, y)
  {
    if w == [] {
      forall y ensures y in Sim(arena, start, w) <==> Reads(arena, start, w, y) {
        EmptyReads(arena, start, y);
      }
    } else {
      var u, c := DropLast(w), Last(w);
      assert w == u + [c];
      SimIsReads(arena, start, u);
      forall y ensures y in Sim(arena, start, w) <==> Reads(arena, start, w, y) {
        if y in Sim(arena, start, w) {
          SimStepReads(arena, start, u, c, y);
        }
        if Reads(arena, start, w, y) {
          ReadsStepSim(arena, start, u, c, y);
        }
      }
    }
  }

  /** Reading nothing from `start` is following empty-word edges. */
  lemma EmptyReads(arena: Arena, start: nat, y: nat)
    requires Closed(arena) && start < |arena|
    ensures y in Closure(arena, {start}) <==> Reads(arena, start, [], y)
  {
    if y in Closure(arena, {start}) {
      var p: seq<nat> :| EpsWalk(arena, p) && p[0] in {start} && Last(p) == y;
      EpsWalkIsWalk(arena, p);
    }
    if Reads(arena, start, [], y) {
      var p: seq<nat>, ls: seq<Label> :| Walk(arena, p, ls) && p[0] == start && Last(p) == y && Word(ls) == [];
      WalkIsEpsWalk(arena, p, ls);
      WalkEnds(arena, p, ls);
    }
  }

  /** A walk from a state of the arena ends in one. */
  lemma WalkEnds(arena: Arena, p: seq<nat>, ls: seq<Label>)
    requires Closed(arena) && Walk(arena, p, ls) && p[0] < |arena|
    ensures Last(p) in States(arena)
  {
    if |ls| > 0 {
      assert StepAt(arena, p, ls, |ls| - 1);
    }
  }

  lemma SimStepReads(arena: Arena, start: nat, u: seq<char>, c: char, y: nat)
    requires Closed(arena) && start < |arena|
    requires forall x :: x in Sim(arena, start, u) <==> Reads(arena, start, u, x)
    requires y in Next(arena, Sim(arena, start, u), c)
    ensures Reads(arena, start, u + [c], y)
  {
    var q: seq<nat> :| EpsWalk(arena, q) && q[0] in MoveSet(arena, Sim(arena, start, u), c) && Last(q) == y;
    var x :| x in Sim(arena, start, u) && q[0] in Targets(arena, x, Sym(c));
    assert Reads(arena, start, u, x);
    ReadsEdge(arena, start, u, x, Sym(c), q[0]);
    ReadsEps(arena, start, u + [c], q);
  }

  lemma ReadsStepSim(arena: Arena, start: nat, u: seq<char>, c: char, y: nat)
    requires Closed(arena) && start < |arena|
    requires forall x :: x in Sim(arena, start, u) <==> Reads(arena, start, u, x)
    requires Reads(arena, start, u + [c], y)
    ensures y in Next(arena, Sim(arena, start, u), c)
  {
    var p: seq<nat>, ls: seq<Label> :| Walk(arena, p, ls) && p[0] == start && Last(p) == y && Word(ls) == u + [c];
    var i := SplitLastSymbol(ls, u, c);
    WalkSplit(arena, p, ls, i);
    assert Reads(arena, start, u, p[i]);
    var rest, lrest := p[i..], ls[i..];
    WalkSplit(arena, rest, lrest, 1);
    assert StepAt(arena, p, ls, i);
    assert lrest[1..] == ls[i + 1..];
    var m := MoveSet(arena, Sim(arena, start, u), c);
    assert p[i + 1] in m;
    assert rest[1..][0] == p[i + 1];
    WalkIsEpsWalk(arena, rest[1..], lrest[1..]);
    WalkEnds(arena, p, ls);
    assert EpsReachable(arena, m, y);
  }

  /** The table of the subset construction has `q0` and a row for every
      name its rows mention. */
  lemma SubsetDfaClosed(arena: Arena, start: nat, end: nat, order: seq<set<nat>>,
                        transitions: map<string, map<char, string>>, accepting: set<string>)
    requires SubsetDfa(arena, start, end, order, transitions, accepting)
    ensures TableClosed(transitions)
  {
    NameZero();
    forall q, ch | q in transitions && ch in transitions[q] ensures transitions[q][ch] in transitions {
      var k: nat :| k < |order| && q == Name(k);
      assert Row(arena, order, order[k], transitions[Name(k)]);
    }
  }

  /** Reading `w` from `q0`, the table is in the state named after the
      set `Sim` of NFA states, the `j`-th discovered one, and misses an
      entry exactly when that set is empty. */
  lemma {:induction false} DfaTracksSim(arena: Arena, start: nat, order: seq<set<nat>>,
                                        transitions: map<string, map<char, string>>, w: seq<char>)
    returns (j: nat)
    requires |order| >= 1 && order[0] == Closure(arena, {start}) && order[0] != {}
    requires Rows(arena, order, transitions) && TableClosed(transitions)
    ensures Sim(arena, start, w) == {} ==> Delta(transitions, "q0", w) == None
    ensures Sim(arena, start, w) != {} ==>
      j < |order| && order[j] == Sim(arena, start, w) && Delta(transitions, "q0", w) == Some(Name(j))
  {
    if w == [] {
      NameZero();
      assert Name(0) in transitions;
      assert Delta(transitions, "q0", w) == Some(Name(0));
      j := 0;
    } else {
      var u, c := DropLast(w), Last(w);
      assert w == u + [c];
      var k := DfaTracksSim(arena, start, order, transitions, u);
      j := TrackSnoc(arena, start, order, transitions, u, c, k);
    }
  }

  /** The step of `DfaTracksSim` from `u` to `u + [c]`. */
  lemma TrackSnoc(arena: Arena, start: nat, order: seq<set<nat>>, transitions: map<string, map<char, string>>,
                  u: seq<char>, c: char, k: nat) returns (j: nat)
    requires TableClosed(transitions) && Rows(arena, order, transitions)
    requires Sim(arena, start, u) == {} ==> Delta(transitions, "q0", u) == None
    requires Sim(arena, start, u) != {} ==>
      k < |order| && order[k] == Sim(arena, start, u) && Delta(transitions, "q0", u) == Some(Name(k))
    ensures Sim(arena, start, u + [c]) == {} ==> Delta(transitions, "q0", u + [c]) == None
    ensures Sim(arena, start, u + [c]) != {} ==>
      j < |order| && order[j] == Sim(arena, start, u + [c]) && Delta(transitions, "q0", u + [c]) == Some(Name(j))
  {
    assert DropLast(u + [c]) == u && Last(u + [c]) == c;
    DeltaSnoc(transitions, "q0", u, c);
    if Sim(arena, start, u) == {} {
      assert MoveSet(arena, {}, c) == {};
      ClosureOfNothing(arena);
      j := 0;
    } else {
      j := TrackStep(arena, order, transitions, k, c);
    }
  }

  /** Each discovered set has its row under its name. */
  ghost predicate Rows(arena: Arena, order: seq<set<nat>>, transitions: map<string, map<char, string>>)
  {
    forall i: nat :: i < |order| ==> Name(i) in transitions && Row(arena, order, order[i], transitions[Name(i)])
  }

  /** One character from the state named after set `k`: the row of that
      set leads to the state named after the next set, the `i`-th, or has
      no entry when the next set is empty. */
  lemma TrackStep(arena: Arena, order: seq<set<nat>>, transitions: map<string, map<char, string>>, k: nat, c: char)
    returns (i: nat)
    requires k < |order| && Name(k) in transitions && Row(arena, order, order[k], transitions[Name(k)])
    ensures Next(arena, order[k], c) == {} ==> c !in transitions[Name(k)]
    ensures Next(arena, order[k], c) != {} ==>
      i < |order| && order[i] == Next(arena, order[k], c) && c in transitions[Name(k)] && transitions[Name(k)][c] == Name(i)
  {
    i := 0;
    if Next(arena, order[k], c) != {} {
      i :| 0 <= i < |order| && order[i] == Next(arena, order[k], c) && transitions[Name(k)][c] == Name(i);
    }
  }

  /** Every discovered set is the simulation of some word. */
  lemma {:induction false} NamedReachable(arena: Arena, start: nat, order: seq<set<nat>>, k: nat)
    returns (w: seq<char>)
    requires |order| >= 1 && order[0] == Closure(arena, {start}) && Discovered(arena, order) && k < |order|
    ensures order[k] == Sim(arena, start, w)
    decreases k
  {
    if k == 0 {
      w := [];
    } else {
      assert FoundBefore(arena, order, k);
      var j :| 0 <= j < k && From(arena, order[j], order[k]);
      var c :| order[k] == Next(arena, order[j], c);
      var u := NamedReachable(arena, start, order, j);
      w := u + [c];
      assert DropLast(w) == u && Last(w) == c;
    }
  }

  /** The sets the subset construction names are exactly the non-empty
      sets of NFA states some word leads to; with `SubsetDfa`'s distinct
      names this makes the naming a bijection onto them. */
  lemma NamedIffReachable(arena: Arena, start: nat, end: nat, order: seq<set<nat>>,
                          transitions: map<string, map<char, string>>, accepting: set<string>, s: set<nat>)
    requires Closed(arena) && start < |arena|
    requires SubsetDfa(arena, start, end, order, transitions, accepting)
    ensures s in order <==> s != {} && exists w :: s == Sim(arena, start, w)
  {
    if s in order {
      var k :| 0 <= k < |order| && order[k] == s;
      var w := NamedReachable(arena, start, order, k);
    }
    if s != {} && exists w :: s == Sim(arena, start, w) {
      var w :| s == Sim(arena, start, w);
      SubsetDfaClosed(arena, start, end, order, transitions, accepting);
      assert Rows(arena, order, transitions) by {
        forall i: nat | i < |order| ensures Name(i) in transitions {
        }
      }
      var j := DfaTracksSim(arena, start, order, transitions, w);
    }
  }

  /** The verdict of `validate_string` on the table of the subset
      construction: a word is accepted exactly when it is over the
      alphabet and some walk of the NFA from the start to the end state
      reads it. */
  lemma SubsetDfaAccepts(arena: Arena, start: nat, end: nat, order: seq<set<nat>>,
                           transitions: map<string, map<char, string>>, accepting: set<string>,
                           alphabet: seq<char>, w: seq<char>)
    requires Closed(arena) && start < |arena|
    requires SubsetDfa(arena, start, end, order, transitions, accepting)
    ensures TableClosed(transitions)
    ensures Validate(transitions, accepting, alphabet, w) == Accepted
      <==> InAlphabet(alphabet, w) && Reads(arena, start, w, end)
  {
    SubsetDfaClosed(arena, start, end, order, transitions, accepting);
    AcceptedIffDelta(transitions, accepting, alphabet, w);
    assert Rows(arena, order, transitions) by {
      forall i: nat | i < |order| ensures Name(i) in transitions {
      }
    }
    var j := DfaTracksSim(arena, start, order, transitions, w);
    SimIsReads(arena, start, w);
  }
}
