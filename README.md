# Regular expressions to DFAs, DFA validation, and stack code

The repository contains three small compilers.

- `regex2dfa.py` turns a regular expression over lower-case letters into a DFA. It has four stages:
  - `add_concat` writes an explicit `.` between juxtaposed tokens.
  - `regex_to_postfix` is a shunting-yard conversion under the precedence `*` > `.` > `|`.
  - `postfix_to_nfa` is Thompson's construction over a stack of `(start, accept)` fragments.
  - `epsilon_closure`, `move` and `nfa_to_dfa` form the subset construction. It names the sets of NFA states `q0`, `q1`, … as it discovers them.
- `validator.py` repeats the same pipeline with lower-case letters and the digits `0` and `1` as operands. It adds `validate_string`, which runs a word through the DFA table.
- `codegen.py` converts arithmetic infix text to postfix with the same shunting-yard loop, using its own precedence table. `generate_stack_code` then translates the postfix tokens into `PUSH`/`ADD`/`SUB`/`MUL`/`DIV` instructions.

How the model is organised:

- **The shared conversion loop is written once.** `ShuntingYard` takes a `Grammar`: an operand predicate, a precedence table and a postfix-operator predicate. `Grammars` instantiates it three times, once per file.
- **The regular-expression stages take the operand predicate as a parameter.** These are `ExplicitConcat` and `Thompson`, applied to `IsLower` for regex2dfa.py and `IsLowerOrBit` for validator.py.
- **Every loop of the source is a `method` with its loop.** Each method is proved equal to a specification function: the same function of the prefix read so far.
- **States are indices into an arena.** The arena is a sequence of edge maps indexed by state number. A fresh `State()` is a new index, and `edges[l].append(y)` becomes `AddEdges`.
- **Labels and state sets:** the empty-word label is its own constructor, `Eps`, and a `frozenset` of states is a `set<nat>`.
- **Derivations are values.** `Derivation.Term` is a parse of an infix text by the usual precedence grammar: an operand, a parenthesised group, a postfix operator, or a binary operator whose left side binds at least as tightly and whose right side binds more tightly. It serves as an independent reference for the shunting-yard loop.
- **Failures become `None`.** Python pops from an empty list in three cases, and each returns `None` here:
  - an unmatched `)`;
  - an operator with too few fragments;
  - `postfix_to_nfa` ending on an empty stack.

What is proved, end to end:

- **Pipeline theorem (`Pipeline.RegexAccepts`).** Run the whole validator pipeline on a regular expression. Then `validate_string` accepts a word exactly when the word is over the alphabet and matches the regular-expression tree that the postfix text denotes.
- **Thompson stage.** Its NFA reads exactly the words of that tree (`ThompsonLanguage.CompiledLanguage`).
- **Subset-construction stage.** The table accepts exactly the words the NFA reads (`Language.SubsetDfaAccepts`).
- **The scenario of validator.py.** `(0|1)*01` becomes `(0|1)*.0.1`, then `01|*0.1.`.
  - The DFA accepts exactly the words over `0`/`1` that end in `01`.
  - `1101` and `0001` are accepted, and `111` is rejected.
- **The conversion against a precedence parse (`Derivation`).** An infix text that is the text of a derivation by the precedence grammar converts to that derivation's postorder, and reading the postorder back gives the derivation's tree. The regular-expression pipeline and the arithmetic translator each get this as a corollary (`Pipeline.DerivedRegexAccepts`, `Codegen.DerivedPostfix`).
- **The arithmetic translator.** For well-formed input, the conversion succeeds and its output is valid Reverse Polish notation. The generated code then never underflows the machine's stack and leaves one value on it.

Two behaviours of the code worth knowing:

- **Unmatched `(`.** `regex_to_postfix` does not fail on `(a|b`. The final loop flushes the open `(` into the postfix text, and `postfix_to_nfa` ignores it. The model does the same (`PostfixLaws.PostfixParentheses` counts the `(` left in the output).
- **Unknown characters.** A character outside all three categories (operand, parenthesis, operator) has precedence 0. So it pops the whole operator stack, including any `(`, and is then pushed itself. `AtLeastHeight` reproduces this. The laws about parentheses therefore assume that every character is an operand, a parenthesis or an operator (`PostfixLaws.AllKnown`).

## Model

| member | source | states |
|---|---|---|
| ExplicitConcat.AddConcat | regex2dfa.py:11-20 | the result is the input in order, with one `.` right after position `i` exactly when `regex[i]` is an operand, `)` or `*` and `regex[i+1]` is an operand or `(`; its length is the input length plus the number of such gaps; the copy in validator.py at 10-19 does the same with `IsLowerOrBit` operands |
| ExplicitConcat.EmittedLayout | regex2dfa.py:11-20 | each input character `i` sits at position `i` plus the number of earlier gaps, followed by `.` exactly at a gap, and nothing else is in the output |
| ExplicitConcat.EmittedLength | regex2dfa.py:13-19 | after `n` iterations the result has `n` characters plus one per gap seen |
| ExplicitConcat.EmittedAt | regex2dfa.py:13-19 | a character, once written, keeps its place as the loop goes on |
| Grammars.RegexPrecedence | regex2dfa.py:25-29 | precedence is at most 3 and is 0 exactly for characters other than `*`, `.`, `\|` |
| Grammars.ArithPrecedence | codegen.py:4-10 | precedence is at most 2 and is 0 exactly for characters other than `+ - * /` |
| Grammars.PrecedenceOrder | regex2dfa.py:25-29 | `*` > `.` > `\|` > everything else (0), and `*` = `/` > `+` = `-` > everything else (0) |
| Grammars.GrammarsSane | validator.py:21-25 | in all three grammars the parentheses are not operands and `(` has precedence 0 |
| ShuntingYard.InfixToPostfix | regex2dfa.py:31-49 | the loop and final flush compute `ToPostfix`: `None` exactly when a `)` finds no `(`, otherwise the output followed by the reversed stack; the copy in validator.py at 27-45 does the same with `IsLowerOrBit` operands |
| Derivation.ScanText | regex2dfa.py:34-46 | the loop over the text of a derivation, above a stack whose top binds less tightly, emits the derivation's postorder except for operators left stacked, which bind at least as tightly as its root and whose popping completes the postorder |
| Derivation.InfixToPostorder | regex2dfa.py:31-49 | the conversion turns the text of every derivation of the precedence grammar into its postorder; codegen.py does the same at 12-35, for the arithmetic grammar |
| Derivation.DepthPost | regex2dfa.py:58-83 | a derivation's postorder adds exactly one value to the Reverse Polish stack |
| Derivation.ConvertedValid | regex2dfa.py:31-49 | the conversion of a derivation's text is valid Reverse Polish notation |
| Derivation.ReadPost | regex2dfa.py:58-83 | reading a derivation's postorder as Reverse Polish notation pushes exactly its tree |
| Derivation.ConvertedTree | regex2dfa.py:31-49 | converting the text of any derivation and reading the result back yields exactly the derivation's tree |
| ShuntingYard.PopToOpen | regex2dfa.py:40-41 | the inner loop pops down to the topmost `(` (or the bottom), emitting in popping order |
| ShuntingYard.PopAtLeast | regex2dfa.py:44-45 | the inner loop pops exactly the run of stacked operators of precedence at least that of the incoming one |
| ShuntingYard.OpenHeight | regex2dfa.py:40-41 | the popped run holds no `(`, and what remains is empty or has `(` on top |
| ShuntingYard.AtLeastHeight | regex2dfa.py:44-45 | every popped character has precedence at least `p`, and the character left on top has less |
| ShuntingYard.ScanFailureSticks | regex2dfa.py:42 | once a `)` has popped an empty stack, the conversion fails on the whole input |
| PostfixLaws.OperandsKeepOrder | regex2dfa.py:35-36 | the operands appear in the output in exactly their input order; codegen.py uses the same loop at 19-20, for the arithmetic grammar |
| PostfixLaws.ScanOperands | regex2dfa.py:34-46 | during the loop no operand is ever stacked, and the output holds the operands read so far in order |
| PostfixLaws.OperatorOrder | regex2dfa.py:43-46 | in `x o1 y o2 z`, `o2` emits `o1` first exactly when `o1` has precedence at least that of `o2` (equal precedence groups to the left), otherwise `o1` is emitted after `o2`; codegen.py uses the same loop at 27-30, for the arithmetic grammar |
| PostfixLaws.PostfixParentheses | regex2dfa.py:39-48 | the conversion fails exactly when some prefix closes more parentheses than it opens; on success the output has no `)`, keeps one `(` per unmatched `(`, and otherwise has the input's characters with their multiplicities |
| PostfixLaws.BalancedPostfix | codegen.py:21-33 | with balanced parentheses the conversion succeeds, the output has no parentheses, it is the input's multiset minus the parentheses, and its length is the token count minus the parenthesis count |
| Rpn.WellFormedToRpn | codegen.py:12-35 | for well-formed infix text the conversion succeeds and its output is valid Reverse Polish notation: no underflow and exactly one value |
| Rpn.FinalFlush | codegen.py:32-33 | after a complete expression with no open parenthesis, flushing the stack leaves valid Reverse Polish notation |
| Rpn.StepTracks | codegen.py:18-30 | each character the well-formedness recogniser accepts is one the conversion handles, keeping stack and output in step with it |
| Codegen.StripSpaces | codegen.py:16 | the result is the expression with only its spaces removed, the other characters in their order; it has no space and every other character with its multiplicity |
| Codegen.Singletons | codegen.py:16 | every remaining character becomes one token, in order |
| Codegen.PostfixOperands | codegen.py:16-20 | the operand tokens of the postfix list are the letters and digits of the expression, one token each, in the order they are written |
| Codegen.InfixToPostfix | codegen.py:12-35 | the arithmetic conversion: strip spaces, run the shared loop with the arithmetic grammar, return one-character tokens, `None` on an unmatched `)` |
| Codegen.GenerateStackCode | codegen.py:37-51 | the emitted lines are the texts of the instructions of the tokens, in token order |
| Codegen.InstrsAreKnownTokens | codegen.py:40-50 | exactly the alphanumeric and `+ - * /` tokens produce an instruction, one each, in order (`PUSH t`, `ADD`, `SUB`, `MUL`, `DIV`); every other token produces nothing |
| Codegen.Listing | codegen.py:42-50 | one line per instruction, in order, with the instruction's text |
| Codegen.RunMatchesDepth | codegen.py:37-51 | running the generated code on a stack machine underflows exactly where reading the postfix text as Reverse Polish notation does, and otherwise leaves as many values |
| Codegen.WellFormedCodeRuns | codegen.py:12-51 | for a well-formed expression the code never underflows and ends with exactly one value on the stack |
| Codegen.DerivedPostfix | codegen.py:12-35 | when the spaces-removed expression is the text of a derivation of the arithmetic grammar, the postfix list is the derivation's postorder, one token per character, and reading it as Reverse Polish notation gives the derivation's tree (`*` and `/` over `+` and `-`, equal precedences grouped to the left) |
| Thompson.PostfixToNfa | regex2dfa.py:58-84 | the loop computes `ToNfa`: the top fragment after reading the whole postfix text, `None` when a pop finds the stack empty; the copy in validator.py at 51-77 does the same with `IsLowerOrBit` operands |
| Thompson.PushOperand | regex2dfa.py:61-64 | an operand adds two fresh states and one fragment |
| Thompson.Concatenate | regex2dfa.py:65-69 | `.` pops two fragments and pushes their join |
| Thompson.Alternate | regex2dfa.py:70-77 | `\|` pops two fragments and pushes one around them with two fresh states |
| Thompson.Repeat | regex2dfa.py:78-83 | `*` pops one fragment and pushes its loop with two fresh states |
| Thompson.OperandEdges | regex2dfa.py:61-64 | an operand fragment is two fresh states joined by exactly one new edge, labelled with the operand |
| Thompson.ConcatEdges | regex2dfa.py:65-69 | concatenation adds exactly one empty-word edge, from the accept state of the second-popped fragment to the start of the first-popped, and no state |
| Thompson.AltEdges | regex2dfa.py:70-77 | alternation adds two states and exactly the four empty-word edges of the construction |
| Thompson.StarEdges | regex2dfa.py:78-83 | the star adds two states and exactly the four empty-word edges of the construction, including the loop back |
| Thompson.StackShape | regex2dfa.py:61-83 | every fragment on the stack has distinct start and accept states in the arena, and its accept state has no outgoing edge |
| Thompson.CompiledShape | regex2dfa.py:84 | the returned automaton has its start and end states in the arena, distinct, with no edge out of the end state |
| Thompson.BuildFailureSticks | regex2dfa.py:66-67 | once an operator finds too few fragments, the construction fails on the whole text |
| Thompson.BuildDepth | regex2dfa.py:58-83 | the fragment stack behaves as the value stack of Reverse Polish notation: it fails exactly when that underflows, and otherwise has as many fragments |
| Thompson.CompileSucceeds | regex2dfa.py:58-84 | `postfix_to_nfa` returns an automaton exactly when reading the text as Reverse Polish notation never underflows and leaves at least one value |
| Thompson.WellFormedCompiles | regex2dfa.py:31-84 | a well-formed regular expression converts to postfix text on which the construction leaves exactly one fragment and succeeds |
| ThompsonLanguage.LangOperand | regex2dfa.py:61-64 | the operand fragment reads exactly the one-character word |
| ThompsonLanguage.LangConcat | regex2dfa.py:65-69 | the joined fragment reads exactly the concatenations of the two fragments' words |
| ThompsonLanguage.LangAlt | regex2dfa.py:70-77 | the alternation fragment reads exactly the union of the two fragments' words |
| ThompsonLanguage.LangStar | regex2dfa.py:78-83 | the star fragment reads exactly the finite concatenations of the fragment's words |
| ThompsonLanguage.BuildLang | regex2dfa.py:58-83 | every fragment on the stack reads exactly the words of the tree its postfix text builds |
| ThompsonLanguage.CompiledLanguage | regex2dfa.py:58-84 | the returned automaton reads from its start to its end state exactly the words matching the top tree of the postfix text |
| Nfa.AddEdges | regex2dfa.py:63 | appending targets to one state's list for one label changes that list only, and leaves every other state and label as it was |
| EpsClosure.EpsilonClosure | regex2dfa.py:89-98 | the worklist loop returns exactly `Closure`, the states reachable from the given set by empty-word edges only |
| EpsClosure.ClosureIsEpsClosure | regex2dfa.py:89-98 | the closure contains the given set, is closed under empty-word edges, and only holds states reachable by such edges |
| EpsClosure.ClosureUnique | regex2dfa.py:89-98 | any set with those three properties is the closure |
| EpsClosure.Visit | regex2dfa.py:93-97 | popping a state and adding its unvisited empty-word successors keeps the worklist invariant and decreases the measure |
| EpsClosure.Move | regex2dfa.py:100-105 | the result is exactly the union of the `symbol`-successors of the given states |
| EpsClosure.ListOf | regex2dfa.py:90 | `list(states)` holds exactly the members of the set |
| Subset.Name | regex2dfa.py:130 | a name is `q` followed by the decimal counter |
| Subset.NameInjective | regex2dfa.py:130 | different counters give different names |
| Subset.Names | regex2dfa.py:111-131 | the names handed out by counter `n` are exactly `q0 … q{n-1}` |
| Subset.SymbolsOf | regex2dfa.py:121-123 | the symbols collected are exactly the non-empty-word labels of the set's states |
| Subset.NoSymbolNoNext | regex2dfa.py:125-128 | a character that labels no edge of the set leads to the empty set |
| Subset.NextSet | regex2dfa.py:126 | the closure of the `sym`-successors, a set of states of the arena |
| Subset.ExpandRow | regex2dfa.py:125-133 | the row gets an entry for exactly the symbols with a non-empty closure of successors, naming that closure; each newly found set is such a closure of a successor set of the current set, not named before and within the arena, and gets the next name and is queued |
| Subset.MarkNext | regex2dfa.py:118-133 | processing one queued set keeps the worklist invariant and decreases the count of unnamed sets or the queue |
| Subset.AcceptingNames | regex2dfa.py:135 | for the naming built by the loop, `q{k}` is accepting exactly when the `k`-th named set contains the end state, and only names handed out are accepting |
| Subset.NfaToDfa | regex2dfa.py:107-136 | in discovery order: `q0` names the closure of the start state and has a row, as does every accepting name; each set is named once, with the next fresh name, and every set after the first is the closure of the successors of a set named before it on some character; every name has exactly one row; a row has entries for exactly the characters whose closure of successors is not empty, naming that closure; a name is accepting exactly when its set contains the end state; the copy in validator.py at 97-126 builds the same table for its automaton |
| Language.SubsetDfaClosed | validator.py:107-123 | the table has `q0` and a row for every name a row mentions, so `dfa[current]` in `validate_string` cannot miss |
| Language.SimIsReads | regex2dfa.py:110-133 | after a word, the simulated set of NFA states is exactly the set of states some walk from the start reading that word ends in |
| Language.DfaTracksSim | regex2dfa.py:117-133 | reading a word from `q0`, the table is in the state named after that set, and has no entry exactly when that set is empty |
| Language.NamedReachable | regex2dfa.py:107-136 | every named set is the simulated set of NFA states after some word |
| Language.NamedIffReachable | regex2dfa.py:107-136 | a set of NFA states gets a name exactly when it is non-empty and is the simulated set after some word |
| Language.SubsetDfaAccepts | regex2dfa.py:2 | the table accepts a word over the alphabet exactly when the NFA has a walk from its start to its end state reading it |
| Matcher.ValidateString | validator.py:164-170 | the loop returns `Validate`: rejected as soon as a character is outside the alphabet or has no entry, otherwise accepted exactly when the final state is accepting |
| Matcher.Run | validator.py:165-169 | the state reached is always a row of the table |
| Matcher.RunFailureSticks | validator.py:167-168 | once a prefix is rejected, the whole word is rejected |
| Matcher.EmptyWord | validator.py:169-170 | the empty word is accepted exactly when `q0` is accepting |
| Matcher.Delta | validator.py:169 | the extended transition function only reaches rows of the table |
| Matcher.DeltaSnoc | validator.py:166-169 | extending the word by one character takes one more entry of the table |
| Matcher.RunIsDelta | validator.py:165-169 | after each prefix, `current` is the extended transition from `q0` when the prefix is over the alphabet, and the run is rejected otherwise |
| Matcher.AcceptedIffDelta | validator.py:164-170 | accepted exactly when the word is over the alphabet and the extended transition from `q0` reaches an accepting state |
| Pipeline.RegexAccepts | validator.py:2 | for the whole pipeline, the verdict is `Accepted` exactly when the word is over the alphabet and matches the regular-expression tree of the postfix text |
| Pipeline.TreesPost | regex2dfa.py:58-83 | reading a derivation's postorder as `postfix_to_nfa` does pushes the regular expression of the derivation's tree |
| Pipeline.DerivedCompiles | regex2dfa.py:31-84 | when `add_concat`'s output is the text of a derivation, the postfix text is its postorder, `postfix_to_nfa` succeeds on it, and it builds the single tree of the derivation |
| Pipeline.DerivedRegexAccepts | validator.py:2 | for such a regular expression, the verdict is `Accepted` exactly when the word is over the alphabet and matches the derivation's regular expression, with `*` over `.` over `\|` and left grouping |
| Pipeline.SampleConcat | validator.py:179 | `add_concat("(0\|1)*01")` is `(0\|1)*.0.1` |
| Pipeline.SamplePostfix | validator.py:180 | the postfix form of the sample is `01\|*0.1.` |
| Pipeline.SampleTrees | validator.py:181 | that postfix text builds the single tree `((0\|1)*·0)·1` |
| Pipeline.SampleCompiles | validator.py:181 | `postfix_to_nfa` succeeds on it |
| Pipeline.SampleTreeLanguage | validator.py:176 | `(0\|1)*01` matches exactly the words over `0`/`1` of length at least 2 that end in `01` |
| Pipeline.BitsStar | validator.py:176 | `(0\|1)*` matches every word over `0` and `1` |
| Pipeline.StarBits | validator.py:176 | `(0\|1)*` matches only words over `0` and `1` |
| Pipeline.SampleAccepts | validator.py:176-188 | with alphabet `0`, `1` the sample's table accepts exactly the words ending in `01` |
| Pipeline.SampleVerdicts | validator.py:177-188 | `1101` and `0001` are accepted and `111` is rejected |
| Pipeline.ValidateSample | validator.py:176-189 | running the four stages and `validate_string` on the scenario returns Accepted, Rejected, Accepted |

## Left out

- `print_dfa` in both regex files: console formatting only.
- The `__main__` blocks of regex2dfa.py and codegen.py: hard-coded literals and printing. The scenario of validator.py is kept, as `Pipeline.ValidateSample` and the lemmas before it, without its printing.
- Python's set iteration order, in the `for s in curr` and `for sym in symbols` loops and in `list(states)`. The model picks an arbitrary element (`:|`), so the contracts of `Subset.NfaToDfa` hold for every order. The names beyond `q0` depend on the order. They are described through a ghost discovery order, not fixed.
- Object identity of `State`, `defaultdict` and `frozenset` hashing: replaced by arena indices, maps that lack absent keys, and `set<nat>`.
- `IndexError` from popping an empty list: modelled as a `None` result, not as an exception.
- `KeyError`: `validate_string` indexes `dfa[current]` without a check. The model requires instead that the table has `q0` and a row for every name it mentions (`Matcher.TableClosed`). `Language.SubsetDfaClosed` proves that `nfa_to_dfa` always returns such a table.
- `str.isalnum`: modelled on ASCII letters and digits only. Python also accepts other Unicode letters and digits.
- EpsClosure.EpsilonClosure, Subset.NfaToDfa: require that every edge of the arena leads to a state of the arena, and that the start state is one. In the source, edges are object references, which always denote existing states. `Thompson.CompiledShape` proves this for every automaton `postfix_to_nfa` returns.
- Nfa.AddEdges: on a state outside the arena it leaves the arena unchanged. In the source, that state would be a new object. The construction never does this (`Thompson.StackShape`).
- `postfix_to_nfa` of regex2dfa.py and validator.py ignores a character it does not know (`(`, `)`, or any other). The model does the same, and the conversion's output may contain a flushed `(`.
- Pipeline.RegexAccepts: states acceptance in terms of the tree the postfix text builds (`ThompsonLanguage.Trees`), not of a parse of the infix text. `Pipeline.DerivedRegexAccepts` states it against the parse for every text that has a derivation. For well-formed input, `Thompson.WellFormedCompiles` shows that the construction leaves exactly one fragment, so `postfix_to_nfa` discards nothing.
- ShuntingYard.InfixToPostfix, Codegen.InfixToPostfix: the round trip against a precedence parse (`Derivation.ConvertedTree`, `Codegen.DerivedPostfix`) is proved for every text that is the text of a derivation. That every text the recogniser `Rpn.WellFormed` accepts has such a derivation is not proved.
- Pipeline.ValidateSample: proves the verdicts, not the particular names `q1`, `q2`, …, which depend on set iteration order.
