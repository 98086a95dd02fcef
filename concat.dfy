/** `add_concat`: the first stage of the regular-expression pipeline, which
    makes concatenation explicit by writing a `.` between two adjacent
    tokens that are juxtaposed. The operand alphabet is a parameter: lower
    case letters in regex2dfa.py, lower case letters and the digits 0 and 1
    in validator.py. */
module ExplicitConcat {

  /** A token after which an operand may be juxtaposed: an operand, `)` or `*`. */
  predicate EndsOperand(isOperand: char -> bool, c: char)
  {
    isOperand(c) || c == ')' || c == '*'
  }

  /** A token that may start a juxtaposed operand: an operand or `(`. */
  predicate StartsOperand(isOperand: char -> bool, c: char)
  {
    isOperand(c) || c == '('
  }

  /** Whether a `.` is written right after position `i` of `s`. */
  predicate Gap(isOperand: char -> bool, s: seq<char>, i: nat)
  {
    i + 1 < |s| && EndsOperand(isOperand, s[i]) && StartsOperand(isOperand, s[i + 1])
  }

  /** What the loop has written after its first `n` iterations: each
      iteration copies one input character and, when a gap follows it, a `.`. */
  function Emitted(isOperand: char -> bool, s: seq<char>, n: nat): seq<char>
    requires n <= |s|
  {
    if n == 0 then []
    else Emitted(isOperand, s, n - 1) + [s[n - 1]] + (if Gap(isOperand, s, n - 1) then ['.'] else [])
  }

  /** The number of gaps among the first `n` positions. */
  function Dots(isOperand: char -> bool, s: seq<char>, n: nat): nat
    requires n <= |s|
  {
    if n == 0 then 0 else Dots(isOperand, s, n - 1) + (if Gap(isOperand, s, n - 1) then 1 else 0)
  }

  lemma {:induction false} EmittedLength(isOperand: char -> bool, s: seq<char>, n: nat)
    requires n <= |s|
    ensures |Emitted(isOperand, s, n)| == n + Dots(isOperand, s, n)
  {
    if n > 0 {
      EmittedLength(isOperand, s, n - 1);
    }
  }

  /** Input character `i` sits at position `i + Dots(i)` of `r`, followed
      by a `.` when there is a gap after it. */
  predicate Placed(isOperand: char -> bool, s: seq<char>, r: seq<char>, i: nat)
    requires i < |s|
  {
    var p := i + Dots(isOperand, s, i);
    && p < |r| && r[p] == s[i]
    && (Gap(isOperand, s, i) ==> p + 1 < |r| && r[p + 1] == '.')
  }

  /** Where input character `i` and the `.` after it land. */
  lemma {:induction false} EmittedAt(isOperand: char -> bool, s: seq<char>, n: nat, i: nat)
    requires i < n <= |s|
    ensures Placed(isOperand, s, Emitted(isOperand, s, n), i)
  {
    var prev := Emitted(isOperand, s, n - 1);
    EmittedLength(isOperand, s, n - 1);
    if i < n - 1 {
      EmittedAt(isOperand, s, n - 1, i);
    } else {
      assert i + Dots(isOperand, s, i) == |prev|;
    }
  }

  /** The layout of the output: every input character is placed at
      position `i + Dots(i)`, followed by a `.` exactly where there is a gap,
      and the output is no longer than that. Together these say that the
      output is the input in order with one `.` inserted at every gap and
      nothing else. */
  lemma EmittedLayout(isOperand: char -> bool, s: seq<char>)
    ensures |Emitted(isOperand, s, |s|)| == |s| + Dots(isOperand, s, |s|)
    ensures forall i :: 0 <= i < |s| ==> Placed(isOperand, s, Emitted(isOperand, s, |s|), i)
  {
    EmittedLength(isOperand, s, |s|);
    forall i | 0 <= i < |s|
      ensures Placed(isOperand, s, Emitted(isOperand, s, |s|), i)
    {
      EmittedAt(isOperand, s, |s|, i);
    }
  }

  /** The stage itself: a loop that grows `result` one character (and
      perhaps one `.`) at a time. */
  method AddConcat(isOperand: char -> bool, regex: seq<char>) returns (result: seq<char>)
    ensures result == Emitted(isOperand, regex, |regex|)
    ensures |result| == |regex| + Dots(isOperand, regex, |regex|)
    ensures forall i :: 0 <= i < |regex| ==> Placed(isOperand, regex, result, i)
  {
    result := [];
    for i := 0 to |regex|
      invariant result == Emitted(isOperand, regex, i)
    {
      var c1 := regex[i];
      result := result + [c1];
      if i + 1 < |regex| {
        var c2 := regex[i + 1];
        if (isOperand(c1) || c1 == ')' || c1 == '*') && (isOperand(c2) || c2 == '(') {
          result := result + ['.'];
        }
      }
    }
    EmittedLayout(isOperand, regex);
  }
}
