# Regular expressions to ε-NFAs, and grammars to Chomsky normal form with CYK

A Dafny model of two textbook algorithms from a course project on the theory
of computation. The Dafny code proves properties of both.

1. **Thompson's construction and ε-NFA simulation** (`afn.py`, `conversor.py`,
   `reconhecedor.py`):
   - a recursive-descent parser with one character of lookahead reads a regular
     expression;
   - the parser builds an ε-NFA bottom-up, updating states in place;
   - the recogniser simulates the automaton on a word, keeping a history of the
     sets of current states.
2. **Context-free grammar to Chomsky normal form, then CYK** (`main.py`,
   classes `GrammarCNF` and `CYKParser`):
   - `remove_epsilon_productions` finds the nullable variables and deletes them
     in every combination;
   - `remove_unit_productions` removes unit rules through unit pairs;
   - `convert_to_cnf` gives terminals their own variables and breaks long right
     sides into chains of binary rules;
   - the CYK table decides membership.

Files and modules:

- `afn.dfy` (module `Afn`) holds states, transition tables and fragments.
  - All states of one compilation live in an arena, class `Arena`, whose
    `states` field is a sequence indexed by state id.
  - The class-level id counter `Estado.contador` is the arena's length.
    Resetting it in `converter` means starting a fresh arena.
  - A state's transition dictionary is an association list in insertion order:
    a key maps to its ordered list of target ids.
  - The two traversals `obter_todos_estados` and `obter_transicoes` are methods
    with loops. Each is proved against a reachability relation on the arena.
- `conversor.dfy` (module `Conversor`) holds the converter.
  - Class `Converter` has the expression, the cursor `pos` and the arena, and
    one method per parser routine and per Thompson combinator.
  - Each method is proved to agree with a functional parser (`ParseExpr` and
    the other `Parse*` functions) and with `Build`, which gives the arena a
    tree produces.
  - `Build` runs straight-line programs of steps (`Alloc`, `Link`, `Mark`) that
    are exactly the in-place updates each combinator performs.
- `reconhecedor.dfy` (module `Reconhecedor`) holds the ε-closure worklist and
  the recognition loop with its history (class `Recognizer`).
  - Both are proved against ghost definitions: the closure is reachability over
    ε-edges, and the trace is the sequence of sets of current states.
- `grammar.dfy` (module `Grammar`) holds class `GrammarCnf`.
  - Its fields are `nonTerminals`, `terminals`, `productions`, `startSymbol`
    and `newVarCounter`.
  - Its methods are proved against reference definitions:
    - the least set closed under the nullable rule;
    - deletions of nullable occurrences;
    - unit reachability by chains of unit rules;
    - the `Spells`/`Converted` relation for binarised right sides.
- `cyk.dfy` (module `Cyk`) holds the CYK table as a recursive specification,
  `Cell`.
  - The lemmas prove that `Cell` agrees with derivability (`Derives`).
  - Class `CykParser` fills an `array2` and is proved to answer `Accepts`.
- `scenarios.dfy` (module `Scenarios`) holds concrete behaviours: literal,
  star, precedence and malformed input.
  - The automata for `ab|cd` and `(aa)*` are derived state by state. The
    current states are then followed through the words the tests read.
  - These scenarios are stated for any letters in place of `a` to `d`, with
    the letters distinct where the verdict needs it.

## Model

| member | source | states |
|---|---|---|
| Afn.Arena.constructor | conversor.py:20 | a fresh allocator: the arena is empty, so the next id is 0 |
| Afn.Arena.NewState | afn.py:4-8 | the new state's id is the old counter value, the arena grows by exactly one state, and that state is non-final with an empty table; the arena invariant is kept |
| Afn.Arena.AddTransition | afn.py:10-13 | the arena after the call is the old one with `AddEdge` applied to state `q`'s table only; tables stay dictionaries and every target stays in the arena |
| Afn.AddEdge | afn.py:10-13 | an existing key keeps the table's length; an absent key is appended at the end as `[d]`; every existing key stays at its position |
| Afn.AddEdgeTargets | afn.py:10-13 | after `adicionar_transicao(sym, d)` the list of `sym` is the old list with `d` appended, and every other symbol's list is unchanged, so repeated calls accumulate |
| Afn.AddEdgeDistinct | afn.py:11-12 | a key is created only when absent, so a table never holds a key twice |
| Afn.TargetsLookup | afn.py:11-13 | a lookup returns the list of the entry holding the key, or nothing when no entry holds it |
| Afn.Arena.SetFinal | conversor.py:90 | assigning `eh_final` changes that one flag and nothing else |
| Afn.Arena.NewFragment | afn.py:26-29 | building an `AFN` returns the (start, final) pair and sets the final state's flag to true, changing nothing else |
| Afn.SortById | afn.py:46 | the result is strictly increasing and holds exactly the members of the set that are below the bound |
| Afn.PushUnvisited | afn.py:41-44 | the stack grows by exactly `Pushed`: the unvisited targets of each key, in table order, after the old stack; what is pushed is unvisited and a target of some key, and every target ends up visited or on the stack |
| Afn.PushTargets | afn.py:43-44 | the stack grows by exactly `Unvisited`: the targets of one key that are not visited, in list order |
| Afn.PushedFacts | afn.py:41-44 | a stack grown by `Pushed` keeps the old stack as prefix, adds only unvisited targets of the table, and ends holding every target not visited |
| Afn.UnvisitedMember | afn.py:43-44 | a target is pushed iff it is in the list and not visited |
| Afn.PushedMember | afn.py:41-44 | a state is pushed iff it is not visited and is a target of some key |
| Afn.DfsPop | afn.py:35-38 | popping a state already visited keeps the search invariant: everything visited or stacked is reachable, the start is one of them, and edges out of visited states end visited or stacked |
| Afn.DfsVisit | afn.py:35-44 | visiting the popped state and pushing its unvisited targets keeps the same invariant |
| Afn.PushedCovers | afn.py:41-44 | once every target in a state's table is visited or stacked, so is every state one step from it |
| Afn.ReachableStates | afn.py:31-46 | the DFS returns exactly the states reachable from the start over edges of any symbol, the start included, each once, in increasing id order |
| Afn.ClosedContainsReach | afn.py:35-44 | a visited set that no edge leaves holds everything reachable from a member, which is why the search misses nothing |
| Afn.ReachesInGraph | afn.py:41-44 | everything reachable from a state of a well-formed arena is a state of that arena |
| Afn.Transitions | afn.py:48-57 | the listing is, state by state over the sorted reachable states, every (state, symbol, target) of its table in table and list order |
| Afn.AppendStateListing | afn.py:53-55 | the inner loops append exactly one state's lines, key by key, target by target |
| Afn.AppendEntryListing | afn.py:54-55 | the innermost loop appends exactly one line per target of one key, in list order |
| Afn.EntryListing | afn.py:54-55 | one key's lines: as many as targets, the i-th naming the i-th target |
| Afn.ListingMember | afn.py:48-57 | a triple is listed iff its source is a listed state and its target is in that state's list for its symbol |
| Afn.StateListingMember | afn.py:53-55 | a triple with source q is in q's lines iff its target is in q's list for its symbol |
| Afn.ListingGrouped | afn.py:52-55 | listing states in increasing id order groups the lines by source in non-decreasing order |
| Afn.ReachesGrows | conversor.py:85-123 | adding states and edges never removes a path |
| Conversor.Converter.constructor | conversor.py:14-16 | the converter holds the expression with the cursor at 0 |
| Conversor.Converter.Advance | conversor.py:23-33 | returns the character under the cursor, or none past the end, and moves the cursor one step, past the end too; the uncounted helper `Peek` is the cursor read of `_proximo_char` |
| Conversor.Converter.Convert | conversor.py:18-21 | a fresh arena (ids from 0); the result is the fragment and arena `Build` gives for the parsed tree, or the parse error (trailing input included) |
| Conversor.Converter.Expression | conversor.py:35-44 | the fragment, the arena and the cursor are those of building `ParseExpr`'s tree, or its error |
| Conversor.Converter.Term | conversor.py:46-55 | the same agreement with `ParseTerm` |
| Conversor.Converter.Factor | conversor.py:57-65 | the same agreement with `ParseFactor` |
| Conversor.Converter.Base | conversor.py:67-79 | the same agreement with `ParseBase`; reading past the end is an error at that position |
| Conversor.ParseExpr | conversor.py:35-44 | on success the cursor advances and stays inside the input; the only failure is running into the end |
| Conversor.ParseTerm | conversor.py:46-55 | on success the cursor advances and stays inside the input; the only failure is running into the end |
| Conversor.ParseFactor | conversor.py:57-65 | on success the cursor advances and stays inside the input; the only failure is running into the end |
| Conversor.ParseBase | conversor.py:67-79 | on success the cursor advances and stays inside the input; the only failure is running into the end |
| Conversor.ExprPrints | conversor.py:35-44 | what `_expressao` consumes is exactly the printed form of its tree |
| Conversor.TermPrints | conversor.py:46-55 | what `_termo` consumes is exactly the printed form of its tree |
| Conversor.FactorPrints | conversor.py:57-65 | what `_fator` consumes is exactly the printed form of its tree |
| Conversor.BasePrints | conversor.py:67-79 | what `_base` consumes is exactly the printed form of its tree; the character a group consumes unchecked is its `)` |
| Conversor.ExprStops | conversor.py:39-44 | an expression stops at `)` or at the end of the input |
| Conversor.TermStops | conversor.py:50-55 | a term stops at `|`, `)` or the end of the input |
| Conversor.PrintLength | conversor.py:81-123 | the printed length of a tree is its symbols, `|` and `*` plus two per group |
| Conversor.ParsePrints | conversor.py:18-79 | a successful parse prints back to the whole input, and the input's length is the operation count plus two per group |
| Conversor.ParseFails | conversor.py:18-79 | the parser fails only by running into the end, or by stopping at an unmatched `)` |
| Conversor.Converter.SymbolFragment | conversor.py:81-86 | `_simbolo` changes the arena exactly as `SymbolOps` does and returns the two new states |
| Conversor.Converter.Concatenation | conversor.py:88-92 | `_concatenacao` changes the arena exactly as `ConcatOps` does and returns (first start, second final) |
| Conversor.Converter.Union | conversor.py:94-108 | `_uniao` changes the arena exactly as `UnionOps` does and returns the two new states |
| Conversor.Converter.Closure | conversor.py:110-123 | `_fechamento` changes the arena exactly as `StarOps` does and returns the two new states |
| Conversor.RunLength | conversor.py:83-84 | a run adds one state per allocation |
| Conversor.RunFlag | conversor.py:90-123 | a state's final flag after a run is the program's last assignment to it, or the old flag |
| Conversor.RunTargets | conversor.py:85-123 | a run only appends to transition lists: a state's list after the run is its old list followed by what the program links |
| Conversor.Allocations | conversor.py:83-84 | `_simbolo`, `_uniao` and `_fechamento` allocate two states each; `_concatenacao` allocates none |
| Conversor.SymbolAfter | conversor.py:81-86 | after `_simbolo`: two more states, only the second newly final, one edge on the symbol between them, nothing else changed |
| Conversor.ConcatAfter | conversor.py:88-92 | after `_concatenacao`: no new state, the first final unflagged, the second final flagged, exactly one ε-edge from the first final to the second start |
| Conversor.UnionAfter | conversor.py:94-108 | after `_uniao`: two more states, ε-edges from the new start to both starts and from both finals to the new final, both old finals unflagged |
| Conversor.StarAfter | conversor.py:110-123 | after `_fechamento`: two more states and the four ε-edges new start→old start, new start→new final, old final→old start, old final→new final; the old final unflagged |
| Conversor.SymbolWired | conversor.py:81-86 | `_simbolo` yields a finished fragment and leaves the older states alone |
| Conversor.ConcatWired | conversor.py:88-92 | joining two finished fragments by concatenation yields a finished fragment (one final state, with no outgoing edge, every state reachable) |
| Conversor.UnionWired | conversor.py:94-108 | the union of two finished fragments is a finished fragment and leaves older states alone |
| Conversor.StarWired | conversor.py:110-123 | the closure of a finished fragment is a finished fragment and leaves older states alone |
| Conversor.StarFinished | conversor.py:110-123 | after the closure, the new final state is the only final one above the operand's first state, it has no outgoing edge, and every state there is reachable from the new start |
| Conversor.StarOnlyFinal | conversor.py:110-123 | the closure adds two states and unflags the old final state, so the new final state is the only final one above the operand's first state |
| Conversor.StarKeeps | conversor.py:110-123 | the closure leaves the flags and edges of older states alone |
| Conversor.ReachBelow | conversor.py:94-108 | in the union, the states of both operands are reachable from the new start, which reaches both operand starts |
| Conversor.BuildWired | conversor.py:35-123 | every tree builds one finished fragment above the arena it starts from, leaving the older states as they were |
| Conversor.Build | conversor.py:83-84 | the arena grows by exactly two states per symbol, `|` and `*`, and the fragment's ends are new states |
| Conversor.BuildShape | conversor.py:18-123 | on a fresh arena: 2 × (symbols + `|` + `*`) states, all reachable from the start; the final state is the only one flagged and has no outgoing transition |
| Reconhecedor.EpsilonClosure | reconhecedor.py:16-30 | the worklist returns exactly the states ε-reachable from the input set; it contains the set and no ε-edge leaves it |
| Reconhecedor.ClosureInvStep | reconhecedor.py:21-28 | one round of the worklist keeps the loop invariant and makes progress |
| Reconhecedor.AddUnseen | reconhecedor.py:25-28 | each listed target not yet in the closure joins both the closure and the worklist |
| Reconhecedor.ClosureLeast | reconhecedor.py:16-30 | the closure is the least ε-closed superset of the input |
| Reconhecedor.ClosureIdempotent | reconhecedor.py:16-30 | closing twice is closing once |
| Reconhecedor.MoveOn | reconhecedor.py:47-52 | the union of the targets on exactly the symbol read; states without that key contribute nothing |
| Reconhecedor.StepOn | reconhecedor.py:46-55 | one symbol: the ε-closure of the move |
| Reconhecedor.FindFinal | reconhecedor.py:67-72 | a state is returned iff some current state is final, and it is a final current state |
| Reconhecedor.Trace | reconhecedor.py:36-65 | the first set is the closure of {start}; each later set is the closure of the move on the symbol read; only the last set can be empty, and the trace is shorter than the input plus one only when it stopped on an empty set |
| Reconhecedor.Records | reconhecedor.py:39-61 | one history entry per set: no symbol for the first, the i-th symbol read for the others, each listing its states sorted by id |
| Reconhecedor.TraceStops | reconhecedor.py:63-65 | once the set is empty, further input is not read |
| Reconhecedor.Recognizer.constructor | reconhecedor.py:12-14 | the recogniser holds the automaton and an empty history |
| Reconhecedor.Recognizer.Recognize | reconhecedor.py:32-72 | the automaton is unchanged; the history is the trace's records; the answer is "no reachable state" iff the loop stopped on an empty set, "accepted" with a final state of the last set, or "no final state" iff the last set is nonempty with no final state |
| Scenarios.LiteralStart | test_afn.py:59-64 | the automaton for one symbol has two states, a non-final start closed under ε, and no edge on another symbol |
| Scenarios.LiteralAccepts | test_afn.py:135-140 | `a` on input `a` ends with the final state among the current states, so the verdict is "accepted" |
| Scenarios.LiteralRejectsEmpty | test_afn.py:328-333 | for `a` and the empty input the last set is {start}, which is not final, so the verdict is "no final state" |
| Scenarios.LiteralRejectsOther | test_afn.py:142-147 | `a` on input `b` ends with the empty set, so the verdict is "no reachable state" |
| Scenarios.StarSkips | conversor.py:116 | in the automaton for `re*` the start reaches the flagged final state over one ε-edge |
| Scenarios.StarAcceptsEmpty | test_afn.py:194-199 | `re*` accepts the empty input for every `re`: the final state is in the last set |
| Scenarios.ClosureOfClosed | reconhecedor.py:16-30 | the closure of a set that no ε-edge leaves is the set itself |
| Scenarios.UnionOfConcatenations | test_afn.py:234-253 | `ab\|cd` parses as the union of `ab` and `cd`: concatenation binds tighter than `\|` |
| Scenarios.ClosureIs | reconhecedor.py:16-30 | a set that holds the given states, is closed under ε-edges and holds only states ε-reachable from them is their closure |
| Scenarios.ClosureChain | reconhecedor.py:16-30 | the closure of a state with one ε-edge, to a state with none, is the two of them |
| Scenarios.ClosureFork | reconhecedor.py:16-30 | the closure of a state with two ε-edges, to states with none, is the three of them |
| Scenarios.MoveOne | reconhecedor.py:50-52 | the step on a symbol enters exactly one state when exactly one current state has an edge on it, to that state alone |
| Scenarios.MoveNone | reconhecedor.py:50-52 | the step on a symbol enters nothing when no current state has an edge on it |
| Scenarios.TraceOfOne | reconhecedor.py:36-65 | for a one-symbol input the last set is the closure of the step from the start's closure |
| Scenarios.TraceOfTwo | reconhecedor.py:36-65 | for a two-symbol input the last set is the third set of the trace when the first two are nonempty |
| Scenarios.TraceOfThree | reconhecedor.py:36-65 | for a three-symbol input the last set is the fourth set of the trace when the first three are nonempty |
| Scenarios.LiteralAfter | conversor.py:81-86 | `_simbolo` above an arena: two new states, one edge on the symbol from the first to the second, nothing else changed |
| Scenarios.PairAfter | conversor.py:46-55 | two symbols in sequence above an arena: four new states wired symbol, ε, symbol in a row, nothing else changed |
| Scenarios.PairSum | conversor.py:81-93 | the three wiring steps of two symbols in sequence together give exactly the row of edges symbol, ε, symbol |
| Scenarios.TwoWordsSum | conversor.py:94-108 | the wiring of the two words and of the union together give exactly the ten-state table |
| Scenarios.TwoWordsShape | test_afn.py:234-253 | the automaton for `ab\|cd` has ten states: `a`, ε, `b` along 0 to 3, `c`, ε, `d` along 4 to 7, start 8 with ε-edges to 0 and 4, 3 and 7 with ε-edges to 9, and 9 the only final state |
| Scenarios.TwoWordsStart | test_afn.py:234-253 | in that automaton the start's closure is {8, 0, 4} |
| Scenarios.TwoWordsEnterFirst | test_afn.py:234-239 | from {8, 0, 4} the first letter of the first word leads to {1, 2} alone |
| Scenarios.TwoWordsEnterSecond | test_afn.py:241-246 | from {8, 0, 4} the first letter of the second word leads to {5, 6} alone |
| Scenarios.TwoWordsFinish | test_afn.py:234-246 | the second letter of either word leads to its last state and the final state 9 |
| Scenarios.TwoWordsTraceFirst | test_afn.py:234-239 | reading `ab` ends with the current states {3, 9} |
| Scenarios.TwoWordsTraceSecond | test_afn.py:241-246 | reading `cd` ends with the current states {7, 9} |
| Scenarios.TwoWordsTraceMixed | test_afn.py:248-253 | reading `ac` ends with no current state |
| Scenarios.TwoWordsAcceptsFirst | test_afn.py:234-239 | `ab\|cd` on input `ab` ends with the final state among the current states: "accepted" |
| Scenarios.TwoWordsAcceptsSecond | test_afn.py:241-246 | `ab\|cd` on input `cd` ends with the final state among the current states: "accepted" |
| Scenarios.TwoWordsRejectsMixed | test_afn.py:248-253 | `ab\|cd` on input `ac` ends with the empty set: "no reachable state" |
| Scenarios.DoubledStarSum | conversor.py:110-123 | the wiring of `aa` and of the star together give exactly the six-state table |
| Scenarios.DoubledStarShape | test_afn.py:387-420 | the automaton for `(aa)*` has six states: `a`, ε, `a` along 0 to 3, start 4 and old final 3 with ε-edges to 0 and 5, and 5 the only final state |
| Scenarios.DoubledStarClosures | test_afn.py:387-420 | in that automaton the closures of 4, 3 and 1 are {4, 0, 5}, {3, 0, 5} and {1, 2} |
| Scenarios.DoubledStarSteps | test_afn.py:387-420 | an odd number of letters leads to {1, 2}, an even one back to {3, 0, 5} |
| Scenarios.DoubledStarRejectsOne | test_afn.py:408-413 | `(aa)*` on input `a` ends on {1, 2}, neither final: "no final state" |
| Scenarios.DoubledStarAcceptsTwo | test_afn.py:394-399 | `(aa)*` on input `aa` ends on {3, 0, 5}, which holds the final state: "accepted" |
| Scenarios.DoubledStarRejectsThree | test_afn.py:415-420 | `(aa)*` on input `aaa` ends on {1, 2}, neither final: "no final state" |
| Scenarios.DoubledStarParse | conversor.py:57-79 | `(aa)*` parses as the star of the group of `aa` |
| Scenarios.StarBindsBase | conversor.py:57-65 | `ab*` parses as `a` followed by `b*`: `*` applies to the base just before it |
| Scenarios.MalformedInputs | conversor.py:18-33 | `a)` reports input left over at position 1, and `(a` reports running into the end of input at position 2, where the group's `)` is missing |
| Grammar.GrammarCnf.constructor | main.py:12-17 | empty sets and productions, no start symbol, counter 0 |
| Grammar.GrammarCnf.AddProduction | main.py:19-30 | `right` is appended after the earlier alternatives of `left`; `left` and every upper-case symbol become variables; every other symbol except ε becomes a terminal; nothing else changes |
| Grammar.GrammarCnf.SetStartSymbol | main.py:32-34 | only the start symbol changes |
| Grammar.GrammarCnf.GenerateNewVariable | main.py:36-43 | the result is `X<k>` for the counter value k just used, not among the old variables, and it becomes one; every counter value skipped before k names an existing variable, so the result is the first free name from the old counter on; the counter ends at k + 1; nothing else changes |
| Grammar.VarNames | main.py:39 | different counter values give different names, and every name is upper case |
| Grammar.DecimalInjective | main.py:39 | different numbers have different decimal numerals |
| Grammar.Decimal | main.py:39 | a numeral is nonempty digits; a single digit exactly below ten |
| Grammar.FindNullable | main.py:64-75 | the `while changed` loop returns the reference nullable set |
| Grammar.NullableLeast | main.py:64-75 | the nullable set is the least set that holds A whenever A has `['ε']` or a right side of nullable symbols only |
| Grammar.NullableFromLeast | main.py:66-75 | rounds from a set below every closed set end at the least closed set |
| Grammar.GenerateCombinations | main.py:101-115 | the recursion returns `Combinations`, in the loop's order |
| Grammar.Prefixed | main.py:110-113 | each combination of the tail gives one with the head and, when the head is nullable, one without |
| Grammar.PrefixedMember | main.py:110-113 | a sequence is among the prefixed combinations iff it is the head followed by one of them, or one of them when the head is nullable |
| Grammar.CombinationsMember | main.py:101-115 | the combinations are exactly the deletions of some nullable occurrences |
| Grammar.CombinationsCount | main.py:101-115 | there are ∏(2 if nullable else 1) combinations, and the right side itself is one of them |
| Grammar.EpsilonFreeAlternatives | main.py:82-91 | one left side's loop returns `EpsilonFree` |
| Grammar.GatherMember | main.py:89-91 | a sequence is gathered iff it was there before or is a nonempty new combination |
| Grammar.GatherDistinct | main.py:90 | gathering skips repeats |
| Grammar.EpsilonFreeMeaning | main.py:80-92 | a left side keeps, each once, exactly the nonempty deletions of nullable occurrences from its alternatives other than `['ε']` |
| Grammar.EpsilonFreeAll | main.py:80-92 | every left side is kept |
| Grammar.GrammarCnf.RemoveEpsilonProductions | main.py:60-99 | the productions become the ε-free alternatives; if the start was nullable, a new variable becomes the start with exactly `[old start]` and `['ε']`; otherwise start, variables and counter are unchanged; the counter grows only when a new start is made (stated as `EpsilonRemoved`) |
| Grammar.UnitReachRefl | main.py:123-124 | every variable is a unit pair of itself |
| Grammar.UnitReachPrepend | main.py:131-136 | a unit rule A→B followed by unit rules from B is a unit chain from A |
| Grammar.AddPair | main.py:134-136 | adding a pair reached through a unit rule keeps the table sound and shrinks the set of missing pairs |
| Grammar.JoinPairs | main.py:131-136 | for a unit rule A→B, afterwards `unit_pairs[B] ⊆ unit_pairs[A]`; the table stays sound, and `changed` is set iff a pair was added |
| Grammar.LeftPairs | main.py:129-136 | one left side's unit rules: progress, and when nothing changes every unit rule A→B has `unit_pairs[B] ⊆ unit_pairs[A]` |
| Grammar.ClosedHasReach | main.py:126-136 | a table closed under unit rules, holding each variable with itself, holds every unit chain's end |
| Grammar.UnitPairs | main.py:121-136 | `unit_pairs[A]` holds exactly the variables A reaches by zero or more unit rules |
| Grammar.AppendNonUnit | main.py:143-146 | non-unit alternatives are appended once each |
| Grammar.UnitFreeAlternatives | main.py:130-146 | a left side gets, once each, every non-unit alternative of a variable it reaches; an unknown variable contributes none, through the uncounted helper `Alternatives` (the `dict.get` with default `[]`) |
| Grammar.GrammarCnf.RemoveUnitProductions | main.py:117-148 | every variable gets exactly the non-unit alternatives of the variables it reaches by unit rules, each once; no unit rule remains (stated as `UnitsRemoved`) |
| Grammar.UnitFreeNonEmpty | main.py:139-148 | no alternative becomes empty, since each kept one is an old alternative |
| Grammar.ReplaceTerminals | main.py:171-176 | same length; each terminal is replaced by its variable and every other symbol kept; no terminal remains |
| Grammar.GrammarCnf.TerminalVariables | main.py:155-159 | each terminal gets a fresh upper-case variable whose only alternative is that terminal; earlier productions are kept |
| Grammar.GrammarCnf.BinaryChain | main.py:187-193 | the chain variable spells all but the last symbol of the right side through new binary rules of fresh variables |
| Grammar.GrammarCnf.CnfAlternatives | main.py:164-193 | each alternative is converted in order into a CNF right side that says what the old one said |
| Grammar.SpellsExtends | main.py:191 | adding rules never breaks a chain |
| Grammar.ConvertedExtends | main.py:191-193 | adding rules never breaks a conversion |
| Grammar.GrammarCnf.ConvertLefts | main.py:162-193 | every old left side gets, in order, the conversion of each of its alternatives; every other left side added is a fresh chain link with one binary alternative; the result is in Chomsky normal form |
| Grammar.CnfConvertedIntro | main.py:150-195 | the terminal variables together with the converted left sides and the chain links make up a `CnfConverted` result |
| Grammar.CnfKeepsEmptyWord | main.py:150-195 | after the conversion, some left side has the alternative `['ε']` exactly when one had it before, so CYK's answer on the empty word (main.py:222-227) is unchanged |
| Grammar.GrammarCnf.ConvertToCnf | main.py:150-195 | the result is in Chomsky normal form (one symbol, or two symbols neither of which is a terminal); every old left side keeps as many alternatives, each the conversion of the old one; terminal variables derive their terminal; every other new left side is a variable not used before, either a terminal's variable or a chain link with one binary alternative (stated as `CnfConverted`) |
| Grammar.GrammarCnf.ToCnf | main.py:197-209 | the result is in Chomsky normal form over the same terminals, and there are intermediate grammars linking it to the old one: `EpsilonRemoved` (old to first), `UnitsRemoved` (first to second) and `CnfConverted` (second to result); the start symbol is the one the first step leaves |
| Cyk.DiagonalHeads | main.py:236-241 | the diagonal cell of a character holds exactly the left sides with that character as a whole alternative |
| Cyk.PairHeads | main.py:253-258 | the left sides with an alternative `B C` where B is in one cell and C in the other |
| Cyk.FillCell | main.py:251-258 | with shorter spans filled, the split loop makes cell [i, j] the union over all split points and changes no other cell |
| Cyk.SplitsMember | main.py:251-258 | A is found by the split points up to k iff some split point m in range has A → B C with B in [i, m-1] and C in [m, j] |
| Cyk.CellSound | main.py:236-258 | a variable in cell [i, j] derives `w[i..j]` |
| Cyk.CellComplete | main.py:236-258 | a variable that derives `w[i..j]` is in cell [i, j] |
| Cyk.CellDerives | main.py:236-258 | a variable is in cell [i, j] iff it derives `w[i..j]` |
| Cyk.AcceptsDerives | main.py:229-266 | a nonempty word is accepted iff the start symbol exists and derives it |
| Cyk.CykParser.constructor | main.py:213-214 | the parser holds the grammar |
| Cyk.CykParser.Parse | main.py:216-271 | the empty word is accepted iff some alternative is exactly `['ε']`; otherwise the table is filled diagonal first, then by span length, and the answer is start ∈ cell [0, n-1] |

## Left out

- `visualizador.py`, `interface.py` and `main_terminal.py` are not part of this model: drawing, the GUI and the terminal loop.
- `print_grammar`, `_print_table`, `load_grammar_from_input`, `load_grammar_example`, `main` and the `print` calls inside the algorithms are not modelled: console I/O.
- `AFN.exibir_texto`, `Estado.__repr__` and `ReconhecedorAFN.obter_historico_texto` are not modelled: string rendering. A history entry keeps the symbol and the sorted ids. The verdict is the enum `Verdict` instead of a message, with the found final state's id for acceptance.
- `Estado.__eq__` and `__hash__` are not separate members. A state is its id (an arena index), so equality and hashing by id hold by construction.
- The static counter `Estado.contador` is the arena length. Each conversion owns a fresh arena instead of resetting global state.
- Epsilon is its own `Symbol` constructor. In the source the label is the character `ε`, so an `ε` written in an expression or a word is silently conflated with the empty move. Here such an `ε` is an ordinary character.
- Conversor.Converter.Base: where the source reads past the end, this diverges from it. `_consumir_char` returns `None` and the source goes on. An unclosed group such as `(a` compiles as `a` in the source, because the missing `)` is consumed unchecked. A missing base (`(`, `a|`, the empty input) builds a transition labelled `None`. The model returns `UnexpectedEnd` with the position in both cases.
- Conversor.Converter.Convert: the source never checks that all input was consumed, so `a)` compiles as `a`. The model reports `TrailingInput` with the position, which diverges from the source.
- Reconhecedor.Recognizer.Recognize: acceptance is stated against the ghost trace (`LastSet`). No lemma relates it to a language of the regular expression, since the model defines no such language.
- Reconhecedor.EpsilonClosure: the worklist is a set, not the source's stack, because the result does not depend on the pop order. Likewise, iteration over Python sets and over dictionary keys that does not affect the result is modelled by arbitrary choice (`:|`).
- Reconhecedor.FindFinal: which final state is named when several are current depends on Python's set iteration order. The model promises only some final current state.
- Grammar.IsUpper: models `str.isupper` over ASCII letters only. Non-ASCII cased letters are treated as uncased.
- Grammar.GrammarCnf.ConvertToCnf: requires that no alternative is empty. On an empty right side the source fails with an `IndexError`. `ToCnf` establishes the requirement from the two earlier steps.
- Grammar.GrammarCnf.ConvertToCnf: the `X<k>` name each terminal variable and each chain link receives is not stated. In the source it follows the iteration order of the terminal set (main.py:156) and the insertion order of the `productions` dictionary (main.py:163). The model picks terminals and left sides by arbitrary choice (`:|`). The contract promises only that the names are fresh, and what each new variable derives.
- Grammar.GrammarCnf.RemoveUnitProductions: the source's pass grows `unit_pairs[left]` while reading `unit_pairs[B]`. The model reads a snapshot of `unit_pairs[B]`. The fixpoint reached is the same, and that fixpoint is what the contract states.
- Cyk.CykParser.Parse: stated for any grammar, without requiring Chomsky normal form. `Derives` covers only alternatives of one character or of two symbols, the shapes the table consults.
