/** `validate_string` of validator.py: running a word through the table
    `nfa_to_dfa` returns. The table maps a state name to its row, a row
    maps a character to the next state name; `q0` is the initial state. */
module Matcher {
  import opened Common

  type Table = map<string, map<char, string>>

  datatype Verdict = Accepted | Rejected

  /** The table has the initial state `q0` and a row for every state a
      row names, so `dfa[current]` always finds one. */
  predicate TableClosed(dfa: Table)
  {
    && "q0" in dfa
    && forall q, ch :: q in dfa && ch in dfa[q] ==> dfa[q][ch] in dfa
  }

  /** The state after reading `w` from `q0`, or `None` once a character
      is outside `alphabet` or has no entry in the current row. */
  function Run(dfa: Table, alphabet: seq<char>, w: string): (r: Option<string>)
    requires TableClosed(dfa)
    ensures r.Some? ==> r.value in dfa
  {
    if w == [] then Some("q0")
    else match Run(dfa, alphabet, DropLast(w))
      case None => None
      case Some(q) =>
        var ch := Last(w);
        if ch !in alphabet || ch !in dfa[q] then None else Some(dfa[q][ch])
  }

  /** The verdict on `w`: accepted exactly when the run ends in an
      accepting state. */
  function Validate(dfa: Table, accepting: set<string>, alphabet: seq<char>, w: string): Verdict
    requires TableClosed(dfa)
  {
    match Run(dfa, alphabet, w)
    case None => Rejected
    case Some(q) => if q in accepting then Accepted else Rejected
  }

  /** `validate_string`. */
  method ValidateString(dfa: Table, accepting: set<string>, alphabet: seq<char>, s: string) returns (v: Verdict)
    requires TableClosed(dfa)
    ensures v == Validate(dfa, accepting, alphabet, s)
  {
    var current := "q0";
    for i := 0 to |s|
      invariant Run(dfa, alphabet, s[..i]) == Some(current)
    {
      var ch := s[i];
      assert DropLast(s[..i + 1]) == s[..i];
      if ch !in alphabet || ch !in dfa[current] {
        RunFailureSticks(dfa, alphabet, s, i + 1);
        return Rejected;
      }
      current := dfa[current][ch];
    }
    assert s[..|s|] == s;
    v := if current in accepting then Accepted else Rejected;
  }

  /** Once the run is rejected on a prefix, it is rejected on the word. */
  lemma {:induction false} RunFailureSticks(dfa: Table, alphabet: seq<char>, w: string, j: nat)
    requires TableClosed(dfa) && j <= |w| && Run(dfa, alphabet, w[..j]) == None
    ensures Run(dfa, alphabet, w) == None
    decreases |w| - j
  {
    if j < |w| {
      assert DropLast(w[..j + 1]) == w[..j];
      RunFailureSticks(dfa, alphabet, w, j + 1);
    } else {
      assert w[..j] == w;
    }
  }

  /** The empty word is accepted exactly when `q0` is accepting. */
  lemma EmptyWord(dfa: Table, accepting: set<string>, alphabet: seq<char>)
    requires TableClosed(dfa)
    ensures Validate(dfa, accepting, alphabet, []) == Accepted <==> "q0" in accepting
  {
  }

  predicate InAlphabet(alphabet: seq<char>, w: string)
  {
    forall i :: 0 <= i < |w| ==> w[i] in alphabet
  }

  /** The extended transition function of the table, by the first
      character: the state reached from `q` by reading `w`. */
  function Delta(dfa: Table, q: string, w: string): (r: Option<string>)
    requires TableClosed(dfa) && q in dfa
    ensures r.Some? ==> r.value in dfa
    decreases |w|
  {
    if w == [] then Some(q)
    else if w[0] in dfa[q] then Delta(dfa, dfa[q][w[0]], w[1..])
    else None
  }

  lemma {:induction false} DeltaSnoc(dfa: Table, q: string, u: string, ch: char)
    requires TableClosed(dfa) && q in dfa
    ensures Delta(dfa, q, u + [ch]) == match Delta(dfa, q, u)
      case None => None
      case Some(p) => if ch in dfa[p] then Some(dfa[p][ch]) else None
    decreases |u|
  {
    if u == [] {
      assert (u + [ch])[1..] == [];
    } else {
      assert (u + [ch])[0] == u[0] && (u + [ch])[1..] == u[1..] + [ch];
      if u[0] in dfa[q] {
        DeltaSnoc(dfa, dfa[q][u[0]], u[1..], ch);
      }
    }
  }

  /** The loop computes the extended transition function from `q0` on a
      word over the alphabet, and rejects every other word: a character
      outside the alphabet or without an entry ends the run. */
  lemma {:induction false} RunIsDelta(dfa: Table, alphabet: seq<char>, w: string)
    requires TableClosed(dfa)
    ensures Run(dfa, alphabet, w) == if InAlphabet(alphabet, w) then Delta(dfa, "q0", w) else None
  {
    if w != [] {
      var u, ch := DropLast(w), Last(w);
      assert w == u + [ch];
      RunIsDelta(dfa, alphabet, u);
      DeltaSnoc(dfa, "q0", u, ch);
      if InAlphabet(alphabet, u) && ch in alphabet {
        assert InAlphabet(alphabet, w) by {
          forall i | 0 <= i < |w| ensures w[i] in alphabet {
            if i < |u| {
              assert w[i] == u[i];
            }
          }
        }
      } else if !InAlphabet(alphabet, u) {
        var i :| 0 <= i < |u| && u[i] !in alphabet;
        assert w[i] == u[i];
      }
    }
  }

  /** The verdict through the reference definition: a word is accepted
      exactly when it is over the alphabet and `Delta` takes `q0` to an
      accepting state. */
  lemma AcceptedIffDelta(dfa: Table, accepting: set<string>, alphabet: seq<char>, w: string)
    requires TableClosed(dfa)
    ensures Validate(dfa, accepting, alphabet, w) == Accepted
      <==> InAlphabet(alphabet, w) && Delta(dfa, "q0", w).Some? && Delta(dfa, "q0", w).value in accepting
  {
    RunIsDelta(dfa, alphabet, w);
  }
}
