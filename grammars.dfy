/** The three grammars the repository converts: regular expressions over
    lower case letters (regex2dfa.py), regular expressions over lower case
    letters and the digits 0 and 1 (validator.py), and arithmetic over
    letters and digits (codegen.py). */
module Grammars {
  import opened ShuntingYard

  /** `c in string.ascii_lowercase`. */
  predicate IsLower(c: char)
  {
    'a' <= c <= 'z'
  }

  /** `c in string.ascii_lowercase + "01"`. */
  predicate IsLowerOrBit(c: char)
  {
    IsLower(c) || c == '0' || c == '1'
  }

  /** `str.isalnum` on a one-character string, restricted to ASCII. */
  predicate IsAlnum(c: char)
  {
    'a' <= c <= 'z' || 'A' <= c <= 'Z' || '0' <= c <= '9'
  }

  /** The regular-expression precedence table: star, then concatenation,
      then alternation; everything else is 0. */
  function RegexPrecedence(op: char): (p: nat)
    ensures p <= 3
    ensures p == 0 <==> op != '*' && op != '.' && op != '|'
  {
    if op == '*' then 3
    else if op == '.' then 2
    else if op == '|' then 1
    else 0
  }

  /** The arithmetic precedence table: `*` and `/` bind tighter than `+`
      and `-`; everything else is 0. */
  function ArithPrecedence(op: char): (p: nat)
    ensures p <= 2
    ensures p == 0 <==> op !in "+-*/"
  {
    if op == '+' || op == '-' then 1
    else if op == '*' || op == '/' then 2
    else 0
  }

  predicate IsStar(c: char)
  {
    c == '*'
  }

  predicate NoPostfix(c: char)
  {
    false
  }

  /** A regular-expression grammar over the given operands. */
  function RegexGrammar(isOperand: char -> bool): Grammar
  {
    Grammar(isOperand, RegexPrecedence, IsStar)
  }

  /** The grammar of regex2dfa.py. */
  function LowerRegex(): Grammar
  {
    RegexGrammar(IsLower)
  }

  /** The grammar of validator.py. */
  function BitRegex(): Grammar
  {
    RegexGrammar(IsLowerOrBit)
  }

  /** The grammar of codegen.py. */
  function Arith(): Grammar
  {
    Grammar(IsAlnum, ArithPrecedence, NoPostfix)
  }

  /** Both tables are strict orders on their operators: `*` over `.` over
      `|` over every other character, and `*`, `/` over `+`, `-` over every
      other character. */
  lemma PrecedenceOrder()
    ensures RegexPrecedence('*') > RegexPrecedence('.') > RegexPrecedence('|') > RegexPrecedence('(')
    ensures forall c :: c !in "*.|" ==> RegexPrecedence(c) == 0
    ensures ArithPrecedence('*') == ArithPrecedence('/') > ArithPrecedence('+') == ArithPrecedence('-') > ArithPrecedence('(')
    ensures forall c :: c !in "+-*/" ==> ArithPrecedence(c) == 0
  {
  }

  lemma GrammarsSane()
    ensures Sane(LowerRegex()) && Sane(BitRegex()) && Sane(Arith())
  {
  }
}
