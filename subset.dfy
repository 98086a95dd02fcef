/** `nfa_to_dfa` of regex2dfa.py: the subset construction. Each set of NFA
    states it discovers gets the next name `q0`, `q1`, ...; a row of the
    transition table maps a character to the name of the closure of the
    set's successors on that character. */
module Subset {
  import opened Common
  import opened Nfa
  import opened EpsClosure

  /** `f"q{k}"`: the name of the `k`-th discovered set. */
  function Name(k: nat): (r: string)
    ensures |r| >= 2 && r[0] == 'q'
  {
    "q" + NatToString(k)
  }

  /** Different counts give different names: no set is named twice. */
  lemma NameInjective(i: nat, j: nat)
    requires Name(i) == Name(j)
    ensures i == j
  {
    assert Name(i)[1..] == NatToString(i);
    assert Name(j)[1..] == NatToString(j);
    NatToStringInjective(i, j);
  }

  /** The first name handed out. */
  lemma NameZero()
    ensures Name(0) == "q0"
  {
    assert NatToString(0) == "0";
  }

  /** The names `q0, ..., q(n-1)`. */
  function Names(n: nat): (r: set<string>)
    ensures forall k: nat :: k < n ==> Name(k) in r
    ensures forall q :: q in r ==> exists k: nat :: k < n && q == Name(k)
  {
    if n == 0 then {} else Names(n - 1) + {Name(n - 1)}
  }

  /** The non-empty-word labels on the edges leaving a set of states. */
  function Symbols(arena: Arena, s: set<nat>): set<char>
  {
    set x, l | x in s && x < |arena| && l in arena[x] && l.Sym? :: l.c
  }

  /** The characters labelling edges of the single state `x`. */
  function KeyChars(arena: Arena, x: nat): set<char>
  {
    if x < |arena| then set l | l in arena[x] && l.Sym? :: l.c else {}
  }

  lemma SymbolsAdd(arena: Arena, s: set<nat>, x: nat)
    ensures Symbols(arena, s + {x}) == Symbols(arena, s) + KeyChars(arena, x)
  {
  }

  /** The loop over `curr` that collects `symbols`. */
  method SymbolsOf(arena: Arena, curr: set<nat>) returns (symbols: set<char>)
    ensures symbols == Symbols(arena, curr)
  {
    symbols := {};
    var rest := curr;
    while rest != {}
      invariant rest <= curr
      invariant symbols == Symbols(arena, curr - rest)
      decreases |rest|
    {
      var s :| s in rest;
      ghost var before := curr - rest;
      var keys := if s < |arena| then arena[s].Keys else {};
      var chars := set l | l in keys && l.Sym? :: l.c;
      assert chars == KeyChars(arena, s);
      SymbolsAdd(arena, before, s);
      symbols := symbols + chars;
      rest := rest - {s};
      assert curr - rest == before + {s};
    }
    assert curr - rest == curr;
  }

  /** The set a row maps `c` to: the closure of the `c`-successors. */
  ghost function Next(arena: Arena, s: set<nat>, c: char): set<nat>
  {
    Closure(arena, MoveSet(arena, s, c))
  }

  lemma ClosureOfNothing(arena: Arena)
    ensures Closure(arena, {}) == {}
  {
  }

  /** A character labelling no edge of `s` leads nowhere. */
  lemma NoSymbolNoNext(arena: Arena, s: set<nat>, c: char)
    requires c !in Symbols(arena, s)
    ensures Next(arena, s, c) == {}
  {
    assert MoveSet(arena, s, c) == {};
    ClosureOfNothing(arena);
  }

  lemma MoveInArena(arena: Arena, s: set<nat>, c: char)
    requires Closed(arena)
    ensures MoveSet(arena, s, c) <= States(arena)
  {
    forall y | y in MoveSet(arena, s, c) ensures y in States(arena) {
      var x :| x in s && y in Targets(arena, x, Sym(c));
      InArena(arena, x, Sym(c), y);
    }
  }

  /** Every set of states below `n`: what bounds the number of sets the
      construction can discover. */
  ghost function PowerRange(n: nat): set<set<nat>>
  {
    if n == 0 then {{}} else PowerRange(n - 1) + WithAll(PowerRange(n - 1), n - 1)
  }

  /** Each set of `p` with `x` added. */
  ghost function WithAll(p: set<set<nat>>, x: nat): (r: set<set<nat>>)
    ensures forall t :: t in p ==> t + {x} in r
  {
    set t | t in p :: t + {x}
  }

  lemma {:induction false} PowerRangeComplete(n: nat, t: set<nat>)
    requires forall x :: x in t ==> x < n
    ensures t in PowerRange(n)
  {
    if n == 0 {
      assert t == {} by {
        if x :| x in t {
          assert false;
        }
      }
    } else if n - 1 in t {
      var u: set<nat> := t - {n - 1};
      PowerRangeComplete(n - 1, u);
      PowerRangeWith(n, u);
      assert t == u + {n - 1};
    } else {
      PowerRangeComplete(n - 1, t);
    }
  }

  lemma PowerRangeWith(n: nat, u: set<nat>)
    requires n > 0 && u in PowerRange(n - 1)
    ensures u + {n - 1} in PowerRange(n)
  {
    assert u + {n - 1} in WithAll(PowerRange(n - 1), n - 1);
  }

  /** `frozenset(epsilon_closure(move(curr, sym)))`. */
  method NextSet(arena: Arena, curr: set<nat>, sym: char) returns (newSet: set<nat>)
    requires Closed(arena)
    ensures newSet == Next(arena, curr, sym) && newSet <= States(arena)
    ensures newSet in PowerRange(|arena|)
  {
    var moved := Move(arena, curr, sym);
    MoveInArena(arena, curr, sym);
    newSet := EpsilonClosure(arena, moved);
    PowerRangeComplete(|arena|, newSet);
  }

  /** `dfa_states` against the discovery order: a set is a key exactly when
      it was discovered, and the `k`-th discovered set is named `q{k}`. */
  ghost predicate Indexed(order: seq<set<nat>>, names: map<set<nat>, string>)
  {
    && (forall s :: s in names <==> s in order)
    && (forall k: nat :: k < |order| ==> order[k] in names && names[order[k]] == Name(k))
  }

  /** Naming by discovery makes the discovery order free of repeats. */
  lemma IndexedDistinct(order: seq<set<nat>>, names: map<set<nat>, string>, i: nat, j: nat)
    requires Indexed(order, names) && i < |order| && j < |order| && order[i] == order[j]
    ensures i == j
  {
    NameInjective(i, j);
  }

  lemma IndexedApart(order: seq<set<nat>>, names: map<set<nat>, string>, i: nat, j: nat)
    requires Indexed(order, names) && i < |order| && j < |order| && i != j
    ensures order[i] != order[j]
  {
    if order[i] == order[j] {
      NameInjective(i, j);
    }
  }

  lemma IndexedAdd(order: seq<set<nat>>, names: map<set<nat>, string>, s: set<nat>)
    requires Indexed(order, names) && s !in names
    ensures Indexed(order + [s], names[s := Name(|order|)])
  {
    var order', names' := order + [s], names[s := Name(|order|)];
    forall k | 0 <= k < |order'| ensures order'[k] in names' && names'[order'[k]] == Name(k) {
      if k < |order| {
        assert order'[k] == order[k] && order[k] in names;
      }
    }
  }

  /** What a finished row of the table says about the set `s`: it has an
      entry for `c` exactly when the closure of the `c`-successors is not
      empty, and the entry is the name `names` gives that closure. */
  ghost predicate RowOk(arena: Arena, names: map<set<nat>, string>, s: set<nat>, row: map<char, string>)
  {
    forall c :: (c in row <==> Next(arena, s, c) != {})
      && (c in row ==> Next(arena, s, c) in names && row[c] == names[Next(arena, s, c)])
  }

  /** The bookkeeping of `nfa_to_dfa` that rows can change: `dfa_states`,
      `unmarked` and `state_id`. */
  datatype Search = Search(dfaStates: map<set<nat>, string>, unmarked: seq<set<nat>>, stateId: nat)

  /** The `for sym in symbols` loop for `curr`, once the symbols in `done`
      are handled: starting from `t0` (with discovery order `order0`), the
      sets in `added` were discovered, named in turn and queued, and `row`
      holds an entry for each handled symbol with a non-empty closure. */
  ghost predicate Expanding(arena: Arena, curr: set<nat>, done: set<char>, t0: Search, order0: seq<set<nat>>,
                            row: map<char, string>, t: Search, added: seq<set<nat>>)
  {
    && Numbered(order0, t0, t, added)
    && Fresh(arena, curr, t0.dfaStates, added)
    && Filled(arena, curr, done, row, t.dfaStates)
  }

  /** The sets named so far are `order0 + added`, and the new ones are
      queued behind the waiting ones. */
  ghost predicate Numbered(order0: seq<set<nat>>, t0: Search, t: Search, added: seq<set<nat>>)
  {
    && Indexed(order0 + added, t.dfaStates) && t.stateId == |order0| + |added|
    && t.unmarked == t0.unmarked + added
    && (added == [] ==> t.dfaStates == t0.dfaStates)
    && t0.dfaStates.Keys <= t.dfaStates.Keys
  }

  /** The added sets are non-empty, bounded, were not named before, and
      each is the closure of the successors of `curr` on some symbol. */
  ghost predicate Fresh(arena: Arena, curr: set<nat>, names0: map<set<nat>, string>, added: seq<set<nat>>)
  {
    forall k :: 0 <= k < |added| ==>
      && added[k] != {} && added[k] in PowerRange(|arena|) && added[k] !in names0
      && From(arena, curr, added[k])
  }

  /** `n` is the closure of the successors of `s` on some symbol. */
  ghost predicate From(arena: Arena, s: set<nat>, n: set<nat>)
  {
    exists c :: n == Next(arena, s, c)
  }

  /** The row holds an entry for the symbols of `done` that lead somewhere,
      naming the set they lead to. */
  ghost predicate Filled(arena: Arena, curr: set<nat>, done: set<char>, row: map<char, string>, names: map<set<nat>, string>)
  {
    && (forall c :: c in row <==> c in done && Next(arena, curr, c) != {})
    && (forall c :: c in row ==> Next(arena, curr, c) in names && row[c] == names[Next(arena, curr, c)])
  }

  /** A symbol whose closure is empty gets no entry (`continue`). */
  lemma ExpandSkip(arena: Arena, curr: set<nat>, done: set<char>, t0: Search, order0: seq<set<nat>>,
                   row: map<char, string>, t: Search, added: seq<set<nat>>, sym: char)
    requires Expanding(arena, curr, done, t0, order0, row, t, added) && Next(arena, curr, sym) == {}
    ensures Expanding(arena, curr, done + {sym}, t0, order0, row, t, added)
  {
  }

  /** A closure already named: the entry is its name. */
  lemma ExpandKnown(arena: Arena, curr: set<nat>, done: set<char>, t0: Search, order0: seq<set<nat>>,
                    row: map<char, string>, t: Search, added: seq<set<nat>>, sym: char)
    requires Expanding(arena, curr, done, t0, order0, row, t, added)
    requires Next(arena, curr, sym) != {} && Next(arena, curr, sym) in t.dfaStates
    ensures Expanding(arena, curr, done + {sym}, t0, order0, row[sym := t.dfaStates[Next(arena, curr, sym)]], t, added)
  {
  }

  /** A new closure: it is named `q{state_id}`, queued, and is the entry. */
  lemma ExpandNew(arena: Arena, curr: set<nat>, done: set<char>, t0: Search, order0: seq<set<nat>>,
                  row: map<char, string>, t: Search, added: seq<set<nat>>, sym: char)
    requires Expanding(arena, curr, done, t0, order0, row, t, added)
    requires Next(arena, curr, sym) != {} && Next(arena, curr, sym) !in t.dfaStates && Next(arena, curr, sym) in PowerRange(|arena|)
    ensures var n := Next(arena, curr, sym);
      Expanding(arena, curr, done + {sym}, t0, order0, row[sym := Name(t.stateId)],
                Search(t.dfaStates[n := Name(t.stateId)], t.unmarked + [n], t.stateId + 1), added + [n])
  {
    var n := Next(arena, curr, sym);
    NumberedAdd(order0, t0, t, added, n);
    FreshGrows(arena, curr, t0.dfaStates, added, sym);
    RowGrows(arena, curr, done, row, t.dfaStates, sym, Name(t.stateId));
  }

  lemma FreshGrows(arena: Arena, curr: set<nat>, names0: map<set<nat>, string>, added: seq<set<nat>>, sym: char)
    requires Fresh(arena, curr, names0, added)
    requires var n := Next(arena, curr, sym); n != {} && n in PowerRange(|arena|) && n !in names0
    ensures Fresh(arena, curr, names0, added + [Next(arena, curr, sym)])
  {
    var n := Next(arena, curr, sym);
    forall k | 0 <= k < |added + [n]|
      ensures (added + [n])[k] != {} && (added + [n])[k] in PowerRange(|arena|) && (added + [n])[k] !in names0
      ensures From(arena, curr, (added + [n])[k])
    {
      if k < |added| {
        assert (added + [n])[k] == added[k];
      } else {
        assert (added + [n])[k] == Next(arena, curr, sym);
      }
    }
  }

  lemma NumberedAdd(order0: seq<set<nat>>, t0: Search, t: Search, added: seq<set<nat>>, n: set<nat>)
    requires Numbered(order0, t0, t, added) && n !in t.dfaStates
    ensures Numbered(order0, t0, Search(t.dfaStates[n := Name(t.stateId)], t.unmarked + [n], t.stateId + 1), added + [n])
  {
    IndexedAdd(order0 + added, t.dfaStates, n);
    assert order0 + added + [n] == order0 + (added + [n]);
  }

  /** Naming a new closure `q` as the entry for `sym` extends a partial row. */
  lemma RowGrows(arena: Arena, curr: set<nat>, done: set<char>, row: map<char, string>, names: map<set<nat>, string>, sym: char, q: string)
    requires Next(arena, curr, sym) != {} && Next(arena, curr, sym) !in names
    requires Filled(arena, curr, done, row, names)
    ensures Filled(arena, curr, done + {sym}, row[sym := q], names[Next(arena, curr, sym) := q])
  {
    var n := Next(arena, curr, sym);
    var names' := names[n := q];
    forall c | c in row[sym := q] ensures Next(arena, curr, c) in names' && row[sym := q][c] == names'[Next(arena, curr, c)] {
      if c != sym {
        assert Next(arena, curr, c) in names;
      }
    }
  }

  /** With every symbol handled, the row is finished. */
  lemma ExpandDone(arena: Arena, curr: set<nat>, t0: Search, order0: seq<set<nat>>,
                   row: map<char, string>, t: Search, added: seq<set<nat>>)
    requires Expanding(arena, curr, Symbols(arena, curr), t0, order0, row, t, added)
    ensures RowOk(arena, t.dfaStates, curr, row)
  {
    forall c | c !in Symbols(arena, curr) ensures Next(arena, curr, c) == {} {
      NoSymbolNoNext(arena, curr, c);
    }
  }

  /** The `for sym in symbols` loop for the set `curr`: it builds the row of
      `curr`, and names and queues (in `added`, in discovery order) every
      non-empty closure not seen before. */
  method ExpandRow(arena: Arena, curr: set<nat>, symbols: set<char>,
                   dfaStates0: map<set<nat>, string>, unmarked0: seq<set<nat>>, stateId0: nat, ghost order0: seq<set<nat>>)
    returns (row: map<char, string>, dfaStates: map<set<nat>, string>, unmarked: seq<set<nat>>, stateId: nat, ghost added: seq<set<nat>>)
    requires Closed(arena) && symbols == Symbols(arena, curr)
    requires Indexed(order0, dfaStates0) && stateId0 == |order0|
    ensures Expanding(arena, curr, symbols, Search(dfaStates0, unmarked0, stateId0), order0, row, Search(dfaStates, unmarked, stateId), added)
    ensures RowOk(arena, dfaStates, curr, row)
  {
    row, dfaStates, unmarked, stateId, added := map[], dfaStates0, unmarked0, stateId0, [];
    ghost var t0 := Search(dfaStates0, unmarked0, stateId0);
    assert order0 + added == order0;
    var rest := symbols;
    while rest != {}
      invariant rest <= symbols
      invariant Expanding(arena, curr, symbols - rest, t0, order0, row, Search(dfaStates, unmarked, stateId), added)
      decreases |rest|
    {
      var sym :| sym in rest;
      ghost var done := symbols - rest;
      assert symbols - (rest - {sym}) == done + {sym};
      var newSet := NextSet(arena, curr, sym);
      if newSet != {} {
        if newSet !in dfaStates {
          ExpandNew(arena, curr, done, t0, order0, row, Search(dfaStates, unmarked, stateId), added, sym);
          dfaStates := dfaStates[newSet := Name(stateId)];
          stateId := stateId + 1;
          unmarked := unmarked + [newSet];
          added := added + [newSet];
        } else {
          ExpandKnown(arena, curr, done, t0, order0, row, Search(dfaStates, unmarked, stateId), added, sym);
        }
        row := row[sym := dfaStates[newSet]];
      } else {
        ExpandSkip(arena, curr, done, t0, order0, row, Search(dfaStates, unmarked, stateId), added, sym);
      }
      rest := rest - {sym};
    }
    ExpandDone(arena, curr, t0, order0, row, Search(dfaStates, unmarked, stateId), added);
  }

  /** The table `nfa_to_dfa` returns, described through the order `order`
      in which it discovered the sets of NFA states it names: the first is
      the closure of the start state; no set is named twice; there is one
      row per name; a row has an entry for exactly the characters whose
      closure of successors is not empty, and the entry names that closure;
      every set after the first was found as such a closure from a set
      named before it; and a name is accepting exactly when its set holds
      the end state. */
  ghost predicate SubsetDfa(arena: Arena, start: nat, end: nat, order: seq<set<nat>>,
                            transitions: map<string, map<char, string>>, accepting: set<string>)
  {
    && |order| >= 1 && order[0] == Closure(arena, {start})
    && (forall i, j :: 0 <= i < j < |order| ==> order[i] != order[j])
    && transitions.Keys == Names(|order|)
    && (forall k :: 0 <= k < |order| ==> order[k] != {})
    && (forall k: nat :: k < |order| ==> Row(arena, order, order[k], transitions[Name(k)]))
    && Discovered(arena, order)
    && (forall k: nat :: k < |order| ==> (Name(k) in accepting <==> end in order[k]))
    && accepting <= transitions.Keys
  }

  /** Each set after the first is the closure of the successors, on some
      symbol, of a set discovered before it. */
  ghost predicate Discovered(arena: Arena, order: seq<set<nat>>)
  {
    forall k :: 1 <= k < |order| ==> FoundBefore(arena, order, k)
  }

  /** The `k`-th discovered set was found from an earlier one. */
  ghost predicate FoundBefore(arena: Arena, order: seq<set<nat>>, k: nat)
    requires k < |order|
  {
    exists j :: 0 <= j < k && From(arena, order[j], order[k])
  }

  /** The row of the set `s`: an entry for `c` exactly when the closure of
      the `c`-successors of `s` is not empty, naming that closure. */
  ghost predicate Row(arena: Arena, order: seq<set<nat>>, s: set<nat>, row: map<char, string>)
  {
    forall c :: (c in row <==> Next(arena, s, c) != {})
      && (c in row ==> exists j :: 0 <= j < |order| && order[j] == Next(arena, s, c) && row[c] == Name(j))
  }

  /** The state of the `while unmarked` loop: the sets in `order` are named
      in turn and bounded, `unmarked` queues named sets, and every named set
      either has its row or is still queued. */
  ghost predicate Pending(arena: Arena, start: nat, order: seq<set<nat>>, t: Search, transitions: map<string, map<char, string>>)
  {
    && Indexed(order, t.dfaStates) && t.stateId == |order|
    && |order| >= 1 && order[0] == Closure(arena, {start})
    && Bounded(arena, order) && Discovered(arena, order)
    && (forall i :: 0 <= i < |t.unmarked| ==> t.unmarked[i] in t.dfaStates)
    && transitions.Keys <= Names(|order|)
    && (forall k: nat :: k < |order| ==> Name(k) in transitions || order[k] in t.unmarked)
    && (forall k: nat :: k < |order| && Name(k) in transitions ==> RowOk(arena, t.dfaStates, order[k], transitions[Name(k)]))
  }

  /** No discovered set is empty, and each is a set of states of the arena. */
  ghost predicate Bounded(arena: Arena, order: seq<set<nat>>)
  {
    forall k :: 0 <= k < |order| ==> order[k] != {} && order[k] in PowerRange(|arena|)
  }

  /** Discovery never renames a set. */
  lemma IndexedExtends(order: seq<set<nat>>, names: map<set<nat>, string>, added: seq<set<nat>>, names': map<set<nat>, string>)
    requires Indexed(order, names) && Indexed(order + added, names')
    ensures forall s :: s in names ==> s in names' && names'[s] == names[s]
  {
    forall s | s in names ensures s in names' && names'[s] == names[s] {
      var k :| 0 <= k < |order| && order[k] == s;
      assert (order + added)[k] == s;
    }
  }

  lemma RowOkGrows(arena: Arena, names: map<set<nat>, string>, names': map<set<nat>, string>, s: set<nat>, row: map<char, string>)
    requires RowOk(arena, names, s, row)
    requires forall u :: u in names ==> u in names' && names'[u] == names[u]
    ensures RowOk(arena, names', s, row)
  {
  }

  /** A bigger set of known sets leaves fewer unknown ones. */
  lemma FewerUnknown(p: set<set<nat>>, a: set<set<nat>>, b: set<set<nat>>, x: set<nat>)
    requires a <= b <= p && x in b && x !in a
    ensures |p - b| < |p - a|
  {
    var small, big := p - b, p - a;
    assert small <= big - {x};
    SubsetSize(small, big - {x});
  }

  lemma {:induction false} SubsetSize<T>(a: set<T>, b: set<T>)
    requires a <= b
    ensures |a| <= |b|
    decreases |b|
  {
    if a != {} {
      var x :| x in a;
      SubsetSize(a - {x}, b - {x});
    }
  }

  lemma NamesDiffer(i: nat, j: nat)
    requires i != j
    ensures Name(i) != Name(j)
  {
    if Name(i) == Name(j) {
      NameInjective(i, j);
    }
  }

  /** Only the first `n` counts name a member of `Names(n)`. */
  lemma NotInNames(n: nat, j: nat)
    requires j >= n
    ensures Name(j) !in Names(n)
  {
    if Name(j) in Names(n) {
      var i: nat :| i < n && Name(j) == Name(i);
      NameInjective(i, j);
    }
  }

  lemma StartPending(arena: Arena, start: nat, c: set<nat>)
    requires Closed(arena) && start < |arena| && c == Closure(arena, {start})
    ensures Pending(arena, start, [c], Search(map[c := Name(0)], [c], 1), map[])
  {
    ClosureIsEpsClosure(arena, {start});
    PowerRangeComplete(|arena|, c);
  }

  /** One pass of the main loop: the last waiting set `curr`, named
      `currName`, gets its row, and the search either knows more sets or
      has fewer waiting. */
  lemma MarkStep(arena: Arena, start: nat, order: seq<set<nat>>, t: Search, transitions: map<string, map<char, string>>,
                 curr: set<nat>, currName: string, row: map<char, string>, t': Search, added: seq<set<nat>>)
    requires Pending(arena, start, order, t, transitions)
    requires t.unmarked != [] && curr == t.unmarked[|t.unmarked| - 1] && curr in t.dfaStates && currName == t.dfaStates[curr]
    requires Expanding(arena, curr, Symbols(arena, curr), Search(t.dfaStates, t.unmarked[..|t.unmarked| - 1], t.stateId), order, row, t', added)
    requires RowOk(arena, t'.dfaStates, curr, row)
    ensures Pending(arena, start, order + added, t', transitions[currName := row])
    ensures var p := PowerRange(|arena|);
      || |p - t'.dfaStates.Keys| < |p - t.dfaStates.Keys|
      || (|p - t'.dfaStates.Keys| == |p - t.dfaStates.Keys| && |t'.unmarked| < |t.unmarked|)
  {
    var k: nat :| k < |order| && order[k] == curr;
    assert currName == Name(k);
    assert DropLast(t.unmarked) == t.unmarked[..|t.unmarked| - 1];
    ProcessRow(arena, start, order, t, transitions, k, row, t', added);
    if added != [] {
      FewerUnknown(PowerRange(|arena|), t.dfaStates.Keys, t'.dfaStates.Keys, added[0]);
    }
  }

  lemma ProcessRow(arena: Arena, start: nat, order: seq<set<nat>>, t: Search, transitions: map<string, map<char, string>>,
                   k: nat, row: map<char, string>, t': Search, added: seq<set<nat>>)
    requires Pending(arena, start, order, t, transitions)
    requires t.unmarked != [] && k < |order| && order[k] == Last(t.unmarked)
    requires Expanding(arena, order[k], Symbols(arena, order[k]), Search(t.dfaStates, DropLast(t.unmarked), t.stateId), order, row, t', added)
    requires RowOk(arena, t'.dfaStates, order[k], row)
    ensures Pending(arena, start, order + added, t', transitions[Name(k) := row])
    ensures t.dfaStates.Keys <= t'.dfaStates.Keys <= PowerRange(|arena|)
    ensures added == [] ==> t'.dfaStates == t.dfaStates && |t'.unmarked| < |t.unmarked|
    ensures added != [] ==> added[0] in t'.dfaStates && added[0] !in t.dfaStates
  {
    IndexedExtends(order, t.dfaStates, added, t'.dfaStates);
    BoundedGrows(arena, order, t.dfaStates, added);
    DiscoveredGrows(arena, order, k, t.dfaStates, added);
    KeysBounded(arena, order + added, t'.dfaStates);
    if added != [] {
      assert (order + added)[|order|] == added[0];
    }
    QueueOk(order, t, added, t');
    CoverOk(order, t, transitions, k, row, added, t');
    RowsOk(arena, order, t, transitions, k, row, added, t');
    assert (order + added)[0] == order[0];
  }

  /** Sets found from the `k`-th discovered set extend the discovery order. */
  lemma DiscoveredGrows(arena: Arena, order: seq<set<nat>>, k: nat, names0: map<set<nat>, string>, added: seq<set<nat>>)
    requires Discovered(arena, order) && k < |order| && Fresh(arena, order[k], names0, added)
    ensures Discovered(arena, order + added)
  {
    var o := order + added;
    forall i | 1 <= i < |o| ensures FoundBefore(arena, o, i) {
      if i < |order| {
        assert FoundBefore(arena, order, i);
        var j :| 0 <= j < i && From(arena, order[j], order[i]);
        assert o[i] == order[i] && o[j] == order[j];
      } else {
        var m := i - |order|;
        assert From(arena, order[k], added[m]);
        assert o[i] == added[m] && o[k] == order[k];
      }
    }
  }

  lemma BoundedGrows(arena: Arena, order: seq<set<nat>>, names0: map<set<nat>, string>, added: seq<set<nat>>)
    requires Bounded(arena, order)
    requires forall k :: 0 <= k < |added| ==> added[k] != {} && added[k] in PowerRange(|arena|) && added[k] !in names0
    ensures Bounded(arena, order + added)
  {
    forall j | 0 <= j < |order + added| ensures (order + added)[j] != {} && (order + added)[j] in PowerRange(|arena|) {
      if j < |order| {
        assert (order + added)[j] == order[j];
      } else {
        assert (order + added)[j] == added[j - |order|];
      }
    }
  }

  lemma KeysBounded(arena: Arena, order: seq<set<nat>>, names: map<set<nat>, string>)
    requires Indexed(order, names) && Bounded(arena, order)
    ensures names.Keys <= PowerRange(|arena|)
  {
    forall s | s in names ensures s in PowerRange(|arena|) {
      var j :| 0 <= j < |order| && order[j] == s;
    }
  }

  /** The queue keeps holding named sets. */
  lemma QueueOk(order: seq<set<nat>>, t: Search, added: seq<set<nat>>, t': Search)
    requires Indexed(order + added, t'.dfaStates) && t.unmarked != []
    requires forall i :: 0 <= i < |t.unmarked| ==> t.unmarked[i] in t.dfaStates
    requires forall s :: s in t.dfaStates ==> s in t'.dfaStates
    requires t'.unmarked == DropLast(t.unmarked) + added
    ensures forall i :: 0 <= i < |t'.unmarked| ==> t'.unmarked[i] in t'.dfaStates
  {
    var n := |t.unmarked| - 1;
    forall i | 0 <= i < |t'.unmarked| ensures t'.unmarked[i] in t'.dfaStates {
      if i < n {
        assert t'.unmarked[i] == t.unmarked[i];
      } else {
        assert t'.unmarked[i] == (order + added)[|order| + i - n];
      }
    }
  }

  /** Every named set still has its row or is still queued, and only
      names in use have rows. */
  lemma InDropLast<T>(s: seq<T>, x: T)
    requires x in s && x != Last(s)
    ensures x in DropLast(s)
  {
    DropLastThenLast(s);
  }

  lemma CoverOk(order: seq<set<nat>>, t: Search, transitions: map<string, map<char, string>>, k: nat,
                row: map<char, string>, added: seq<set<nat>>, t': Search)
    requires Indexed(order, t.dfaStates) && t.unmarked != [] && k < |order| && order[k] == Last(t.unmarked)
    requires transitions.Keys <= Names(|order|)
    requires forall j: nat :: j < |order| ==> Name(j) in transitions || order[j] in t.unmarked
    requires t'.unmarked == DropLast(t.unmarked) + added
    ensures transitions[Name(k) := row].Keys <= Names(|order + added|)
    ensures forall j: nat :: j < |order + added| ==>
      Name(j) in transitions[Name(k) := row] || (order + added)[j] in t'.unmarked
  {
    NamesGrow(|order|, |order + added|);
    forall j: nat | j < |order + added| ensures Name(j) in transitions[Name(k) := row] || (order + added)[j] in t'.unmarked {
      if j >= |order| {
        CoverAdded(order, t.unmarked, added, t'.unmarked, j);
      } else if j != k && Name(j) !in transitions {
        CoverQueued(order, t, k, added, t', j);
      }
    }
  }

  lemma NamesGrow(n: nat, m: nat)
    requires n <= m
    ensures Names(n) <= Names(m)
  {
  }

  /** A newly queued set is waiting. */
  lemma CoverAdded(order: seq<set<nat>>, unmarked0: seq<set<nat>>, added: seq<set<nat>>, unmarked: seq<set<nat>>, j: nat)
    requires unmarked0 != [] && unmarked == DropLast(unmarked0) + added
    requires |order| <= j < |order + added|
    ensures (order + added)[j] in unmarked
  {
    assert (order + added)[j] == added[j - |order|];
    assert unmarked[|DropLast(unmarked0)| + j - |order|] == added[j - |order|];
  }

  /** A waiting set other than the one just taken stays waiting. */
  lemma CoverQueued(order: seq<set<nat>>, t: Search, k: nat, added: seq<set<nat>>, t': Search, j: nat)
    requires Indexed(order, t.dfaStates) && t.unmarked != [] && k < |order| && order[k] == Last(t.unmarked)
    requires t'.unmarked == DropLast(t.unmarked) + added
    requires j < |order| && j != k && order[j] in t.unmarked
    ensures (order + added)[j] in t'.unmarked
  {
    assert (order + added)[j] == order[j];
    IndexedApart(order, t.dfaStates, j, k);
    InDropLast(t.unmarked, order[j]);
    assert t'.unmarked[..|DropLast(t.unmarked)|] == DropLast(t.unmarked);
  }

  /** Every finished row stays finished as names are added. */
  lemma RowsOk(arena: Arena, order: seq<set<nat>>, t: Search, transitions: map<string, map<char, string>>, k: nat,
               row: map<char, string>, added: seq<set<nat>>, t': Search)
    requires k < |order| && transitions.Keys <= Names(|order|)
    requires forall j: nat :: j < |order| && Name(j) in transitions ==> RowOk(arena, t.dfaStates, order[j], transitions[Name(j)])
    requires forall s :: s in t.dfaStates ==> s in t'.dfaStates && t'.dfaStates[s] == t.dfaStates[s]
    requires RowOk(arena, t'.dfaStates, order[k], row)
    ensures forall j: nat :: j < |order + added| && Name(j) in transitions[Name(k) := row] ==>
      RowOk(arena, t'.dfaStates, (order + added)[j], transitions[Name(k) := row][Name(j)])
  {
    forall j | 0 <= j < |order + added| && Name(j) in transitions[Name(k) := row]
      ensures RowOk(arena, t'.dfaStates, (order + added)[j], transitions[Name(k) := row][Name(j)])
    {
      if j != k {
        OldRow(arena, order, t, transitions, k, row, added, t', j);
      } else {
        assert (order + added)[k] == order[k];
      }
    }
  }

  lemma OldRow(arena: Arena, order: seq<set<nat>>, t: Search, transitions: map<string, map<char, string>>, k: nat,
               row: map<char, string>, added: seq<set<nat>>, t': Search, j: nat)
    requires k < |order| && transitions.Keys <= Names(|order|)
    requires forall j: nat :: j < |order| && Name(j) in transitions ==> RowOk(arena, t.dfaStates, order[j], transitions[Name(j)])
    requires forall s :: s in t.dfaStates ==> s in t'.dfaStates && t'.dfaStates[s] == t.dfaStates[s]
    requires j != k && j < |order + added| && Name(j) in transitions[Name(k) := row]
    ensures RowOk(arena, t'.dfaStates, (order + added)[j], transitions[Name(k) := row][Name(j)])
  {
    NamesDiffer(j, k);
    if j >= |order| {
      NotInNames(|order|, j);
    }
    assert (order + added)[j] == order[j];
    RowOkGrows(arena, t.dfaStates, t'.dfaStates, order[j], transitions[Name(j)]);
  }

  /** The names of the sets that hold the NFA's accept state: with the
      sets named in discovery order, `q{k}` is accepting exactly when the
      `k`-th set holds `end`, and only those names are. */
  function AcceptingNames(dfaStates: map<set<nat>, string>, end: nat, ghost order: seq<set<nat>>): (r: set<string>)
    requires Indexed(order, dfaStates)
    ensures forall k: nat :: k < |order| ==> (Name(k) in r <==> end in order[k])
    ensures r <= Names(|order|)
  {
    AcceptingIndexed(end, order, dfaStates);
    set s | s in dfaStates && end in s :: dfaStates[s]
  }

  lemma AcceptingIndexed(end: nat, order: seq<set<nat>>, names: map<set<nat>, string>)
    requires Indexed(order, names)
    ensures var a := set s | s in names && end in s :: names[s];
      && (forall k: nat :: k < |order| ==> (Name(k) in a <==> end in order[k]))
      && a <= Names(|order|)
  {
    var a := set s | s in names && end in s :: names[s];
    forall k: nat | k < |order| ensures Name(k) in a <==> end in order[k] {
      Accepting(end, order, names, a, k);
    }
    forall q | q in a ensures q in Names(|order|) {
      var s :| s in names && end in s && names[s] == q;
      var j :| 0 <= j < |order| && order[j] == s;
    }
  }

  lemma Finish(arena: Arena, start: nat, end: nat, order: seq<set<nat>>, t: Search,
               transitions: map<string, map<char, string>>, accepting: set<string>)
    requires Pending(arena, start, order, t, transitions) && t.unmarked == []
    requires forall k: nat :: k < |order| ==> (Name(k) in accepting <==> end in order[k])
    requires accepting <= Names(|order|)
    ensures SubsetDfa(arena, start, end, order, transitions, accepting)
  {
    AllRowsMade(order, t, transitions);
    forall i, j | 0 <= i < j < |order| ensures order[i] != order[j] {
      IndexedApart(order, t.dfaStates, i, j);
    }
    forall k | 0 <= k < |order| ensures Row(arena, order, order[k], transitions[Name(k)]) {
      FinalRow(arena, order, t.dfaStates, order[k], transitions[Name(k)]);
    }
  }

  /** With the queue empty, every discovered set has its row. */
  lemma AllRowsMade(order: seq<set<nat>>, t: Search, transitions: map<string, map<char, string>>)
    requires t.unmarked == [] && transitions.Keys <= Names(|order|)
    requires forall k: nat :: k < |order| ==> Name(k) in transitions || order[k] in t.unmarked
    ensures transitions.Keys == Names(|order|)
  {
    forall k: nat | k < |order| ensures Name(k) in transitions.Keys {
      assert order[k] !in t.unmarked;
    }
    KeysCover(|order|, Names(|order|), transitions.Keys);
  }

  lemma KeysCover(n: nat, names: set<string>, keys: set<string>)
    requires keys <= names
    requires forall q :: q in names ==> exists k: nat :: k < n && q == Name(k)
    requires forall k: nat :: k < n ==> Name(k) in keys
    ensures keys == names
  {
    forall q | q in names ensures q in keys {
      var k: nat :| k < n && q == Name(k);
    }
  }

  lemma FinalRow(arena: Arena, order: seq<set<nat>>, names: map<set<nat>, string>, s: set<nat>, row: map<char, string>)
    requires Indexed(order, names) && RowOk(arena, names, s, row)
    ensures Row(arena, order, s, row)
  {
    forall c | c in row ensures exists j :: 0 <= j < |order| && order[j] == Next(arena, s, c) && row[c] == Name(j) {
      var j :| 0 <= j < |order| && order[j] == Next(arena, s, c);
    }
  }

  lemma Accepting(end: nat, order: seq<set<nat>>, names: map<set<nat>, string>, accepting: set<string>, k: nat)
    requires Indexed(order, names) && k < |order|
    requires accepting == set s | s in names && end in s :: names[s]
    ensures Name(k) in accepting <==> end in order[k]
  {
    if Name(k) in accepting {
      var s :| s in names && end in s && names[s] == Name(k);
      var j :| 0 <= j < |order| && order[j] == s;
      NameInjective(j, k);
    }
  }

  /** The body of the main loop of `nfa_to_dfa`: the last waiting set is
      taken off the queue and given its row, which may queue new sets. */
  method MarkNext(arena: Arena, ghost start: nat, ghost order0: seq<set<nat>>, dfaStates0: map<set<nat>, string>,
                  unmarked0: seq<set<nat>>, stateId0: nat, transitions0: map<string, map<char, string>>)
    returns (dfaStates: map<set<nat>, string>, unmarked: seq<set<nat>>, stateId: nat,
             transitions: map<string, map<char, string>>, ghost order: seq<set<nat>>)
    requires Closed(arena) && unmarked0 != []
    requires Pending(arena, start, order0, Search(dfaStates0, unmarked0, stateId0), transitions0)
    ensures Pending(arena, start, order, Search(dfaStates, unmarked, stateId), transitions)
    ensures var p := PowerRange(|arena|);
      || |p - dfaStates.Keys| < |p - dfaStates0.Keys|
      || (|p - dfaStates.Keys| == |p - dfaStates0.Keys| && |unmarked| < |unmarked0|)
  {
    var curr := unmarked0[|unmarked0| - 1];
    unmarked := unmarked0[..|unmarked0| - 1];
    var currName := dfaStates0[curr];
    var symbols := SymbolsOf(arena, curr);
    var row;
    ghost var added;
    row, dfaStates, unmarked, stateId, added := ExpandRow(arena, curr, symbols, dfaStates0, unmarked, stateId0, order0);
    transitions := transitions0[currName := row];
    MarkStep(arena, start, order0, Search(dfaStates0, unmarked0, stateId0), transitions0, curr, currName, row, Search(dfaStates, unmarked, stateId), added);
    order := order0 + added;
  }

  /** `nfa_to_dfa`: the search from the closure of `start` over sets of
      NFA states, naming each new one in turn. */
  method NfaToDfa(arena: Arena, start: nat, end: nat)
    returns (transitions: map<string, map<char, string>>, accepting: set<string>, ghost order: seq<set<nat>>)
    requires Closed(arena) && start < |arena|
    ensures SubsetDfa(arena, start, end, order, transitions, accepting)
    ensures "q0" in transitions && accepting <= transitions.Keys
  {
    var dfaStates: map<set<nat>, string> := map[];
    var unmarked: seq<set<nat>> := [];
    var startClosure := EpsilonClosure(arena, {start});
    dfaStates := dfaStates[startClosure := "q0"];
    unmarked := unmarked + [startClosure];
    transitions := map[];
    var stateId := 1;
    order := [startClosure];
    assert "q0" == Name(0);
    StartPending(arena, start, startClosure);
    while unmarked != []
      invariant Pending(arena, start, order, Search(dfaStates, unmarked, stateId), transitions)
      decreases |PowerRange(|arena|) - dfaStates.Keys|, |unmarked|
    {
      dfaStates, unmarked, stateId, transitions, order := MarkNext(arena, start, order, dfaStates, unmarked, stateId, transitions);
    }
    accepting := AcceptingNames(dfaStates, end, order);
    Finish(arena, start, end, order, Search(dfaStates, unmarked, stateId), transitions, accepting);
    NameZero();
    assert Name(0) in Names(|order|);
  }
}
