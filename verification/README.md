# Regex to minimised DFA, modelled in Dafny

This project models the backend conversion pipeline of the Regex-To-MinimisedDFA website. A regular expression is lexed into one token per character. A recursive-descent parser turns the tokens into an abstract syntax tree. Thompson's construction builds an epsilon-NFA, which is exported as a dictionary of integer ids. The subset construction turns that dictionary into a DFA, which is exported in turn. Moore's partition refinement then minimises the exported DFA.

The model follows the source's own structure, file by file:

- `lexer.dfy`: the character-to-token mapping and the lexer.
- `parser.dfy`: the AST, the grammar as pure functions over a token sequence and a cursor, and a `RegexParser` class whose `currToken` field advances as tokens are matched. Each of its methods is proved equal to the function for its grammar level.
- `parser_props.dfy`: properties of the parser. These cover the inputs it rejects, the right nesting of both binary operators, bracket classes, and where `Or` nodes come from.
- `thompson.dfy`: the construction, with fresh states drawn from an integer counter. It proves fragment well-formedness, the exact edges each node kind adds, and the state count.
- `nfa_export.dfy`: the `Nfa` class with its memoised state numbering, plus `to_dict`.
- `nfa_semantics.dfy`, `nfa_walks.dfy`: move, epsilon-closure, alphabet and the subset run, all on the exported dictionary. They also prove that the subset run reaches exactly the ends of the NFA's walks.
- `nfa_to_dfa.dfy`: the `NfaToDfaConverter` class (closure worklist, FIFO discovery loop) and the `Dfa` class (`run`, `_num`, `to_dict`).
- `partitions.dfy`, `minimize_dfa.dfy`: partitions, signatures, behavioural equivalence, and the `Minimizer` class (refinement to a fixpoint, then renaming of the groups).
- `literal_language.dfy`: the language of a regex without operator characters. Thompson's construction gives a line of states for it, and the exported NFA accepts exactly that string.
- `pipeline.dfy`: the stage chaining.

The end-to-end result is `Pipeline.ProcessRegex`. In the model, which has no call-stack limit (see below), it returns a parse error exactly when the parser rejects the input. Otherwise its result has three properties:

- the exported DFA accepts exactly the words the exported NFA accepts;
- the minimised DFA reads every word exactly as the DFA does;
- the minimised DFA has no more states than the DFA, and no two of its states behave alike.

For a non-empty regex without operator characters, the conversion succeeds, and both the NFA and the minimised DFA accept exactly that string.

A DFA's behaviour on a sequence of symbols (`Partitions.Outcome`) is either "stuck" or whether the state reached is terminating. "Stuck" means a missing state or a missing edge. This follows the source, where a missing edge gets the signature entry `'stuck'`.

Python's exceptions become `Result` errors (`Parser.ParseError`). State names become `nat` ids, and DFA states are sets of NFA ids, with the empty set as the sink. Iteration over Python sets and dicts becomes a nondeterministic choice inside the methods, so every contract holds whatever order is used.

## Model

| member | source | states |
|---|---|---|
| Lexer.TypeToken | backend/regex_to_nfa.py:17-27 | a character is a literal exactly when it is not one of the nine operator characters (bar, star, plus, question mark, both parentheses, both square brackets, dash), and each operator kind maps back to its own character |
| Lexer.TokenValue | backend/regex_to_nfa.py:29-41 | the operator kinds have a character, and it is an operator character; the literal kind has none |
| Lexer.TokenValueInverts | backend/regex_to_nfa.py:17-41 | for every non-literal kind, the character-to-token mapping inverts the kind-to-character mapping |
| Lexer.Lex | backend/regex_to_nfa.py:51-55 | one token per character, in order: same length, and token i has the kind of character i and that character as content |
| Lexer.LexRoundTrip | backend/regex_to_nfa.py:54-55 | the tokens' contents spell the input back |
| Parser.CodePoints | backend/regex_to_nfa.py:228-229 | exactly the characters whose code points lie in the half-open range |
| Parser.CharRange | backend/regex_to_nfa.py:226-229 | exactly the characters from the popped literal to the end token, inclusive; empty when reversed |
| Parser.ClassBody | backend/regex_to_nfa.py:210-233 | a class body ends at a `]` or at the end of the tokens and never before its start; it never drops a character collected before it; and it fails only with a range that has no start, at a dash |
| Parser.Quantified | backend/regex_to_nfa.py:201-207 | at most one quantifier token is consumed after an atom |
| Parser.Expression | backend/regex_to_nfa.py:163-169 | a successful alternation consumes at least one token and stays within the tokens |
| Parser.Term | backend/regex_to_nfa.py:171-180 | a successful concatenation consumes at least one token |
| Parser.Component | backend/regex_to_nfa.py:182-207 | a successful component consumes at least one token; when no literal, `(` or `[` is at the cursor, the error is UnexpectedComponent at the cursor |
| Parser.Atom | backend/regex_to_nfa.py:182-196 | the same for the atom before any quantifier |
| Parser.ParseFrom | backend/regex_to_nfa.py:157-161 | a parse succeeds only if the alternation consumed every token |
| Parser.RegexParser.constructor | backend/regex_to_nfa.py:153-155 | the parser holds the tokens, and its cursor starts at 0 |
| Parser.RegexParser.Parse | backend/regex_to_nfa.py:157-161 | the parser's result equals the grammar function from the current cursor |
| Parser.RegexParser.ParseE | backend/regex_to_nfa.py:163-169 | result and new cursor equal those of the alternation function |
| Parser.RegexParser.ParseT | backend/regex_to_nfa.py:171-180 | result and new cursor equal those of the concatenation function |
| Parser.RegexParser.ParseC | backend/regex_to_nfa.py:182-207 | result and new cursor equal those of the component function |
| Parser.RegexParser.ParseL | backend/regex_to_nfa.py:210-233 | the loop over `clas` and `que` yields the class-body function's set and end cursor |
| Parser.RegexParser.AddRange | backend/regex_to_nfa.py:228-229 | adds exactly the code points from start to end inclusive |
| Parser.RegexParser.Match | backend/regex_to_nfa.py:235-239 | matches exactly when a token of that kind is at the cursor, and then advances the cursor by one; otherwise leaves it |
| Parser.RegexParser.Expect | backend/regex_to_nfa.py:242-244 | succeeds exactly when the expected kind is at the cursor, advancing past it; the caller turns failure into ExpectedToken |
| ParserProperties.RejectsEmpty | backend/regex_to_nfa.py:195-196 | the empty regex fails with UnexpectedComponent(0) |
| ParserProperties.RejectsLoneStar | backend/regex_to_nfa.py:195-196 | `*` fails with UnexpectedComponent(0) |
| ParserProperties.RejectsClosingParen | backend/regex_to_nfa.py:195-196 | `)` fails with UnexpectedComponent(0) |
| ParserProperties.RejectsDoubleQuantifier | backend/regex_to_nfa.py:157-161 | `a**` fails with UnexpectedToken(2): one quantifier per atom, then tokens remain |
| ParserProperties.RejectsDashOutsideBrackets | backend/regex_to_nfa.py:157-161 | `a-b` fails with UnexpectedToken(1) |
| ParserProperties.RejectsUnclosedParen | backend/regex_to_nfa.py:186-196 | `(` fails with UnexpectedComponent(1) |
| ParserProperties.RejectsUnclosedBracket | backend/regex_to_nfa.py:190-193 | `[a-` fails with ExpectedToken(`]`, 3) |
| ParserProperties.RejectsRangeAfterRange | backend/regex_to_nfa.py:222-226 | `[a-c-e]` fails with RangeWithoutStart(4): the second range dash finds no pending literal |
| ParserProperties.RejectsRangeAfterLiteralDash | backend/regex_to_nfa.py:222-226 | `[--x]` fails with RangeWithoutStart(2) |
| ParserProperties.RangeClass | backend/regex_to_nfa.py:225-231 | `[a-c]` gives the class {a, b, c} |
| ParserProperties.LeadingDashIsLiteral | backend/regex_to_nfa.py:222-224 | `[-ac]` gives {a, c, -} |
| ParserProperties.TrailingDashIsLiteral | backend/regex_to_nfa.py:222-224 | `[ac-]` gives {a, c, -} |
| ParserProperties.ReversedRangeKeepsStart | backend/regex_to_nfa.py:226-229 | `[c-a]` gives just {c} |
| ParserProperties.RightNestingSeq | backend/regex_to_nfa.py:171-180 | `abc` parses as Seq(a, Seq(b, c)) |
| ParserProperties.RightNestingOr | backend/regex_to_nfa.py:163-169 | the three literals a, b, c joined by two bars parse as Or(a, Or(b, c)) |
| ParserProperties.TermOfLiterals | backend/regex_to_nfa.py:171-184 | from any position, a run of plain literals parses as their right-nested concatenation and consumes all of them |
| ParserProperties.LiteralStringParses | backend/regex_to_nfa.py:157-184 | every non-empty operator-free string parses as its right-nested chain of literal nodes |
| ParserProperties.ClassBodyStopsAtFirst | backend/regex_to_nfa.py:213-216 | no `]` lies between the start of a class body and where it ends: it stops at the first one |
| ParserProperties.ClassBodyKeepsLiteral | backend/regex_to_nfa.py:217-219 | a literal met by the scan is in the resulting class, whatever follows it |
| ParserProperties.ClassBodyKeepsDash | backend/regex_to_nfa.py:220-224 | a dash with nothing collected before it, or with `]` or the end right after it, puts the character `-` in the resulting class |
| ParserProperties.ClassBodyAddsRange | backend/regex_to_nfa.py:217-231 | `x-y` with `x` a literal scans as if `x` and every character from `x` to `y` had been collected and the scan resumed after `y` with the same pending starts; so the whole range is in the resulting class |
| ParserProperties.ClassOfLiterals | backend/regex_to_nfa.py:210-233 | a class body made only of literals up to `]` or the end is exactly the set of those literals, and ends there |
| ParserProperties.ExpressionOrs | backend/regex_to_nfa.py:163-169 | an alternation holds no more Or nodes than the bar tokens it consumed |
| ParserProperties.TermOrs | backend/regex_to_nfa.py:171-180 | the same for a concatenation |
| ParserProperties.ComponentOrs | backend/regex_to_nfa.py:182-207 | the same for a quantified component |
| ParserProperties.AtomOrs | backend/regex_to_nfa.py:182-196 | the same for an atom |
| ParserProperties.OrNodesFromBars | backend/regex_to_nfa.py:163-169 | an Or node exists only where a bar was matched: Or nodes never outnumber the input's bar tokens |
| Thompson.StateCount | backend/regex_to_nfa.py:301-360 | the counter advances by two for every AST node except a concatenation |
| Thompson.WellFormedTargets | backend/regex_to_nfa.py:301-360 | in a well-formed fragment every transition target is a key of the states map |
| Thompson.LiteralFragment | backend/regex_to_nfa.py:302-305 | a literal gives a well-formed fragment over two fresh ids |
| Thompson.SquareBracketFragment | backend/regex_to_nfa.py:354-360 | a class gives a well-formed fragment over two fresh ids |
| Thompson.Union | backend/regex_to_nfa.py:330 | merging two state maps with disjoint keys keeps every key of both |
| Thompson.Redirect | backend/regex_to_nfa.py:330 | overwriting one state's table keeps the key set |
| Thompson.Enclose | backend/regex_to_nfa.py:339-340 | adding a fresh start and accept pair gives exactly the ids up to the pair, and the new accept has the table `{'': ∅}` |
| Thompson.Enclosed | backend/regex_to_nfa.py:339-342 | a fresh pair around an inner map gives a well-formed fragment that starts and accepts at the pair |
| Thompson.Wrap | backend/regex_to_nfa.py:308-352 | a sub-fragment with its accept redirected and a fresh pair added is well-formed, starting at the fresh start |
| Thompson.Quantify | backend/regex_to_nfa.py:308-352 | the shared shape of `+`, `?` and `*` is well-formed and allocates exactly two ids |
| Thompson.PlusFragment | backend/regex_to_nfa.py:308-315 | `x+` is well-formed and allocates two ids |
| Thompson.QuestionMarkFragment | backend/regex_to_nfa.py:317-324 | `x?` is well-formed and allocates two ids |
| Thompson.StarFragment | backend/regex_to_nfa.py:344-352 | `x*` is well-formed and allocates two ids |
| Thompson.SeqFragment | backend/regex_to_nfa.py:326-332 | concatenation is well-formed and allocates no ids of its own |
| Thompson.Branches | backend/regex_to_nfa.py:337-340 | the two branches side by side have exactly their ids, with every target in range |
| Thompson.OrFragment | backend/regex_to_nfa.py:334-342 | alternation is well-formed and allocates two ids after both branches |
| Thompson.Build | backend/regex_to_nfa.py:301-363 | every AST gives a well-formed fragment: distinct start and accept, accept table `{'': ∅}`, targets among its states; it uses exactly the counter range of its state count |
| Thompson.BuildUnary | backend/regex_to_nfa.py:308-352 | the same for quantifier nodes |
| Thompson.BuildBinary | backend/regex_to_nfa.py:326-342 | the same for concatenation and alternation |
| Thompson.BuildSize | backend/regex_to_nfa.py:301-360 | the NFA has exactly twice as many states as there are non-concatenation AST nodes |
| Thompson.ChildrenDisjoint | backend/regex_to_nfa.py:326-342 | the two children's state sets are disjoint, and neither holds the parent's fresh pair |
| Thompson.SubFragmentDisjoint | backend/regex_to_nfa.py:308-352 | a quantifier's sub-fragment does not hold the fresh pair |
| Thompson.UnionEdge | backend/regex_to_nfa.py:330 | an edge of a merge of disjoint maps is an edge of one of them |
| Thompson.RedirectEdge | backend/regex_to_nfa.py:330 | after overwriting one state's table, the edges are the others' edges plus the new table's |
| Thompson.EncloseEdge | backend/regex_to_nfa.py:339-340 | the enclosed map adds exactly the fresh start's epsilon edges to the entries |
| Thompson.EnclosedEdge | backend/regex_to_nfa.py:339-340 | the same for the enclosed fragment |
| Thompson.LiteralEdge | backend/regex_to_nfa.py:302-305 | a literal fragment's only edge is start to accept on its character |
| Thompson.SquareBracketEdge | backend/regex_to_nfa.py:354-360 | a class fragment's edges are start to accept on each class member, and no others |
| Thompson.WrapEdge | backend/regex_to_nfa.py:308-352 | a wrapped fragment keeps the sub-fragment's edges and adds exactly the redirect and fresh-start epsilon edges |
| Thompson.QuantifyEdge | backend/regex_to_nfa.py:308-352 | the edges of a quantifier, for each choice of looping and skipping |
| Thompson.StarEdge | backend/regex_to_nfa.py:344-352 | `x*` adds epsilon edges from the new start to the sub-start and the new accept, and from the sub-accept back to the new start and on to the new accept |
| Thompson.PlusEdge | backend/regex_to_nfa.py:308-315 | `x+` loops the sub-accept back to the new start, and the new start cannot skip |
| Thompson.QuestionMarkEdge | backend/regex_to_nfa.py:317-324 | `x?` lets the new start skip to the new accept, and nothing loops |
| Thompson.AcceptIsDeadEnd | backend/regex_to_nfa.py:305 | an accept state has no outgoing edge, so overwriting its table loses nothing |
| Thompson.SeqEdge | backend/regex_to_nfa.py:326-332 | concatenation keeps both parts' edges and adds only the epsilon edge from the left accept to the right start |
| Thompson.BranchesEdge | backend/regex_to_nfa.py:337-340 | the branches' edges plus epsilon edges from both accepts to the new accept |
| Thompson.OrEdge | backend/regex_to_nfa.py:334-342 | alternation adds exactly the epsilon edges from the new start to both branch starts |
| Numbering.NumberedInjective | backend/regex_to_nfa.py:270-273 | memoised ids are distinct: two keys share an id only if they are the same key |
| Numbering.NumberedGrow | backend/nfa_to_dfa.py:19-23 | numbering a new key with the next counter value keeps the ids consecutive and keeps every earlier id |
| NfaExport.LabelKey | backend/regex_to_nfa.py:286 | the empty label is written "epsilon"; every other label is written as its one character |
| NfaExport.LabelKeyRoundTrip | backend/regex_to_nfa.py:286 | the renaming is one to one, and a label is written "epsilon" exactly when it is the empty label |
| NfaExport.Nfa.constructor | backend/regex_to_nfa.py:261-266 | holds the start, final state and states map, with an empty memo and counter 0 |
| NfaExport.Nfa.StateToNumber | backend/regex_to_nfa.py:270-273 | a known state keeps its id; a new state gets the next counter value; earlier ids are unchanged |
| NfaExport.Nfa.ExportTargets | backend/regex_to_nfa.py:287 | the target list holds the ids of exactly the target states, each once |
| NfaExport.Nfa.ExportTable | backend/regex_to_nfa.py:282-287 | one key per label of the table, with that label's targets' ids |
| NfaExport.Nfa.ExportState | backend/regex_to_nfa.py:279-291 | a state's entry is terminating exactly when it is the final state, and holds its exported table |
| NfaExport.Nfa.ToDict | backend/regex_to_nfa.py:275-292 | with a fresh memo the start gets id 0; every state is exported under its id, and every id names a state; exactly one entry, the final state's, is terminating; earlier ids are kept |
| NfaSemantics.MoveSetMembers | backend/nfa_to_dfa.py:50-56 | the move holds exactly the destinations on the symbol of members that are keys |
| NfaSemantics.EpsStepMembers | backend/nfa_to_dfa.py:64-70 | one round of the worklist adds exactly the epsilon destinations of members |
| NfaSemantics.Closure | backend/nfa_to_dfa.py:60-71 | the closure contains the input states |
| NfaSemantics.ClosureWithin | backend/nfa_to_dfa.py:60-71 | the closure adds only edge destinations |
| NfaSemantics.ClosureClosed | backend/nfa_to_dfa.py:60-71 | no epsilon edge leaves the closure |
| NfaSemantics.ClosureLeast | backend/nfa_to_dfa.py:60-71 | the closure is inside every epsilon-closed superset of the input |
| NfaSemantics.ClosureUnique | backend/nfa_to_dfa.py:60-71 | the least epsilon-closed superset is the closure |
| NfaSemantics.ClosureIdempotent | backend/nfa_to_dfa.py:60-71 | closing twice changes nothing |
| NfaSemantics.ClosureWalk | backend/nfa_to_dfa.py:60-71 | every member of the closure ends an epsilon path from an input state |
| NfaSemantics.ClosureReachable | backend/nfa_to_dfa.py:60-71 | the closure holds nothing that is not epsilon-reachable |
| NfaSemantics.ReachableInClosure | backend/nfa_to_dfa.py:60-71 | everything epsilon-reachable is in the closure |
| NfaSemantics.AlphabetMembers | backend/nfa_to_dfa.py:77-86 | the alphabet is exactly the edge keys other than "epsilon" and "isTerminatingState" |
| NfaSemantics.SubsetStepWithin | backend/nfa_to_dfa.py:102-103 | a step reaches an epsilon-closed subset of the NFA's states |
| NfaSemantics.Subsets | backend/nfa_to_dfa.py:98-108 | the subsets of a set of states, as the bound on discovery |
| NfaSemantics.SubsetsCount | backend/nfa_to_dfa.py:98-108 | a set of n states has 2^n subsets |
| NfaWalks.RunWalk | backend/nfa_to_dfa.py:98-112 | every state the subset run reaches ends an NFA walk from the start set that spells the word |
| NfaWalks.WalkRun | backend/nfa_to_dfa.py:98-112 | the end of every such walk is reached by the subset run |
| NfaWalks.RunReads | backend/nfa_to_dfa.py:98-112 | from the start closure, the subset run reaches exactly the ends of walks spelling the word |
| NfaWalks.AcceptsIffSubsetRun | backend/nfa_to_dfa.py:115-117 | the NFA accepts a word exactly when the subset reached holds a terminating state |
| NfaWalks.SpelledInAlphabet | backend/nfa_to_dfa.py:77-86 | every symbol a walk spells is in the alphabet |
| NfaToDfa.Row | backend/nfa_to_dfa.py:32 | a subset without a row has no transitions |
| NfaToDfa.DiscoveredBound | backend/nfa_to_dfa.py:98-108 | the discovered subsets number at most 2^(number of NFA states), so discovery ends |
| NfaToDfa.AcceptStep | backend/nfa_to_dfa.py:115-117 | after each processed subset, the accept list holds exactly the processed accepting subsets, with no duplicates |
| NfaToDfa.ExploreStep | backend/nfa_to_dfa.py:98-117 | one iteration keeps the discovery invariant, and discovering a subset strictly grows the discovered set |
| NfaToDfa.ExploreDone | backend/nfa_to_dfa.py:98-117 | an empty queue leaves the closure of the start first and every subset once, each epsilon-closed with a complete row; the accept list is exactly the accepting subsets |
| NfaToDfa.StepsFollowSubsets | backend/nfa_to_dfa.py:98-112 | over the alphabet, the transition function follows the subset run and stays among the discovered subsets; a symbol outside it has no transition |
| NfaToDfa.SubsetAutomatonLanguage | backend/nfa_to_dfa.py:13-17 | the run is defined exactly for words over the alphabet, and it ends accepting exactly when the NFA accepts the word |
| NfaToDfa.Dfa.constructor | backend/nfa_to_dfa.py:4-11 | holds the five components, with an empty name map and counter 0 |
| NfaToDfa.Dfa.Run | backend/nfa_to_dfa.py:13-17 | the loop follows one transition per symbol and returns whether the state reached is accepting, or None where a lookup fails |
| NfaToDfa.Dfa.Num | backend/nfa_to_dfa.py:19-23 | a known subset keeps its id; a new one gets the next counter value |
| NfaToDfa.Dfa.ExportRow | backend/nfa_to_dfa.py:31-34 | the edges hold exactly the alphabet symbols whose successor is not the empty subset, each to that successor's id |
| NfaToDfa.Dfa.ToDict | backend/nfa_to_dfa.py:25-35 | with a fresh name map the start gets id 0; every non-empty subset is exported with its flag and row, and every id names one; the empty subset gets no id |
| NfaToDfa.NfaToDfaConverter.constructor | backend/nfa_to_dfa.py:38-39 | holds the NFA dictionary |
| NfaToDfa.NfaToDfaConverter.Move | backend/nfa_to_dfa.py:50-56 | the loop computes the move |
| NfaToDfa.NfaToDfaConverter.ListOf | backend/nfa_to_dfa.py:63 | the initial stack lists exactly the input states |
| NfaToDfa.NfaToDfaConverter.EpsilonClosure | backend/nfa_to_dfa.py:60-71 | the stack worklist computes the least epsilon-closed superset |
| NfaToDfa.NfaToDfaConverter.PushUnseen | backend/nfa_to_dfa.py:67-70 | unseen epsilon successors are added to the closure and pushed, and seen ones are not |
| NfaToDfa.NfaToDfaConverter.CollectAlphabet | backend/nfa_to_dfa.py:77-86 | the loop collects exactly the alphabet |
| NfaToDfa.NfaToDfaConverter.Convert | backend/nfa_to_dfa.py:76-126 | the result is the subset automaton of the NFA: the alphabet, the start closure, and the complete exploration from it |
| NfaToDfa.NfaToDfaConverter.Explore | backend/nfa_to_dfa.py:88-117 | the FIFO loop ends with the exploration complete |
| NfaToDfa.NfaToDfaConverter.ExpandState | backend/nfa_to_dfa.py:99-117 | one dequeued subset gets its complete row; new subsets are appended to both the list and the queue |
| NfaToDfa.NfaToDfaConverter.ExpandRow | backend/nfa_to_dfa.py:100-112 | the row maps each alphabet symbol to the closure of the move, and each subset not seen before is appended once |
| Partitions.IndexMap | backend/minimize_dfa.py:26-29 | the group index is defined for exactly the partitioned states, and it is a valid group index |
| Partitions.IndexMapAt | backend/minimize_dfa.py:26-29 | in a disjoint partition, a member of group i has index i |
| Partitions.IndexMapIn | backend/minimize_dfa.py:26-29 | a state is a member of the group its index names |
| Partitions.NonEmptyBound | backend/minimize_dfa.py:47-56 | a disjoint partition has no more non-empty groups than states |
| Partitions.Signatures | backend/minimize_dfa.py:34-45 | every state of the DFA has a signature |
| Partitions.SignaturesAt | backend/minimize_dfa.py:34-45 | each state's signature is its targets' groups under the current partition |
| Partitions.SignatureMoves | backend/minimize_dfa.py:39-45 | "stuck" differs from every group: equal signatures mean edges on the same symbols, into the same groups |
| Partitions.EquivalentSignature | backend/minimize_dfa.py:34-45 | states that behave alike get the same signature under a partition that never separates such states |
| Partitions.StableOutcome | backend/minimize_dfa.py:58-60 | under a stable partition that respects acceptance, the members of a group behave alike on every sequence of symbols |
| Minimize.BucketsSplit | backend/minimize_dfa.py:51-56 | the buckets split a group by signature: each bucket shares one signature, and distinct buckets differ |
| Minimize.SplitSize | backend/minimize_dfa.py:47-56 | an empty group gives no buckets, and a single bucket is the whole group |
| Minimize.SplitDisjoint | backend/minimize_dfa.py:51-56 | the buckets of a group do not overlap |
| Minimize.RefineStep | backend/minimize_dfa.py:47-56 | appending the next group's buckets keeps the round's invariant |
| Minimize.RefineCover | backend/minimize_dfa.py:47-56 | after each group, the parts cover the groups so far exactly once, with no empty part |
| Minimize.RefineUniform | backend/minimize_dfa.py:47-56 | every part keeps to one old group and one signature |
| Minimize.RefineSeparate | backend/minimize_dfa.py:47-56 | no two parts share both old group and signature |
| Minimize.RefineCount | backend/minimize_dfa.py:47-56 | the parts are at least as many as the non-empty groups, and equal in number to the groups only when nothing split |
| Minimize.InitialPartition | backend/minimize_dfa.py:16-23 | the accepting and rejecting states cover the states without overlap, respect acceptance, and never separate states that behave alike |
| Minimize.RefinedRespects | backend/minimize_dfa.py:47-56 | refinement keeps every group within accepting or within rejecting states |
| Minimize.RefinedCoarse | backend/minimize_dfa.py:34-56 | refinement never separates states that behave alike |
| Minimize.RefinedStable | backend/minimize_dfa.py:58-60 | at the fixpoint all members of a group share their signature |
| Minimize.RefinedKeeps | backend/minimize_dfa.py:25-60 | each round keeps the partition invariant and leaves no empty group; it either returns the same partition, which is stable, or strictly progresses, so the loop ends |
| Minimize.GroupsAreClasses | backend/minimize_dfa.py:58-61 | at the fixpoint two states share a group exactly when they behave alike |
| Minimize.QuotientRow | backend/minimize_dfa.py:85-88 | a group's edges are on exactly the symbols of its member's edges |
| Minimize.StableRow | backend/minimize_dfa.py:81-88 | all members of a stable group give the same output row, so the overwrites agree |
| Minimize.GroupFlag | backend/minimize_dfa.py:72-78 | a group is terminating exactly when its members are |
| Minimize.LinkingDone | backend/minimize_dfa.py:63-90 | the filled output is the quotient DFA |
| Minimize.QuotientOutcome | backend/minimize_dfa.py:63-90 | from a state's group, the quotient behaves as the state does |
| Minimize.QuotientLanguage | backend/minimize_dfa.py:63-90 | the quotient reads every sequence of symbols from its start as the DFA does from its own |
| Minimize.QuotientMinimal | backend/minimize_dfa.py:58-90 | no two states of the quotient behave alike |
| Minimize.QuotientSize | backend/minimize_dfa.py:63-90 | the output has one state per group, and never more states than the input |
| Minimize.Minimizer.constructor | backend/minimize_dfa.py:4-19 | takes the states, start, alphabet and accepting and rejecting states from the dictionary, and ends with a final partition |
| Minimize.Minimizer.CollectSymbols | backend/minimize_dfa.py:9-14 | the loop collects exactly the edge keys of every state |
| Minimize.Minimizer.Partition | backend/minimize_dfa.py:21-61 | the returned partition covers the states exactly once, respects acceptance, groups exactly the states that behave alike, has no empty group, and is stable |
| Minimize.Minimizer.Refine | backend/minimize_dfa.py:25-56 | one round splits every group by signature, in order |
| Minimize.Minimizer.GroupIndices | backend/minimize_dfa.py:26-29 | the loop builds the group index of the partition |
| Minimize.Minimizer.AssignGroup | backend/minimize_dfa.py:27-29 | every member of a group is mapped to its index |
| Minimize.Minimizer.NextStates | backend/minimize_dfa.py:31-45 | the loop builds every state's signature |
| Minimize.Minimizer.SignGroup | backend/minimize_dfa.py:35-45 | adds the signature of every member of one group |
| Minimize.Minimizer.SignatureFor | backend/minimize_dfa.py:39-45 | a state's signature maps each alphabet symbol to its target's group, or to "stuck" |
| Minimize.Minimizer.SplitGroup | backend/minimize_dfa.py:48-56 | buckets the members of a group by signature |
| Minimize.Minimizer.ToDict | backend/minimize_dfa.py:63-90 | the output is the quotient: ids 0..k-1, the start's group as start, each group's flag and its members' edges into groups |
| Minimize.Minimizer.AddEdges | backend/minimize_dfa.py:85-88 | adds a member's edges, each to its target's group |
| LiteralLanguage.ChainLabelShift | backend/regex_to_nfa.py:326-332 | the chain for a string, two states further on, is the chain for the rest of the string |
| LiteralLanguage.ChainUnfold | backend/regex_to_nfa.py:302-332 | the construction for a chain of two or more literals is its first literal's fragment joined to the construction for the rest |
| LiteralLanguage.ChainEdges | backend/regex_to_nfa.py:302-332 | the fragment built for the chain of a string s from a given counter is a line: it starts at the counter, accepts 2 times the length of s minus 1 ids later, and its only edges lead from each id to the next, on the characters of s with epsilon edges between them |
| LiteralLanguage.ChainEdgesJoin | backend/regex_to_nfa.py:326-332 | a literal joined to the line for the rest of the string is the line for the whole string |
| LiteralLanguage.BuildIsChain | backend/regex_to_nfa.py:297-332 | the fragment built from counter 0 is the line for the string, with all its ids as states |
| LiteralLanguage.ChainKeys | backend/regex_to_nfa.py:286 | the keys along the exported line: one fewer than twice the length of the string |
| LiteralLanguage.ChainKeysAt | backend/regex_to_nfa.py:286 | each key of the line is the key its edge's label is exported under |
| LiteralLanguage.ChainKeysSpell | backend/regex_to_nfa.py:286 | the keys along the line spell the string once the epsilon keys are dropped |
| LiteralLanguage.SymbolsInjective | backend/regex_to_nfa.py:286 | two words that spell the same symbols are the same word |
| LiteralLanguage.ExportedEdge | backend/regex_to_nfa.py:275-292 | every edge of the exported dictionary is an edge of the fragment under the numbering |
| LiteralLanguage.EdgeExported | backend/regex_to_nfa.py:275-292 | every edge of the fragment is an edge of the exported dictionary under the numbering |
| LiteralLanguage.ExportedTerminating | backend/regex_to_nfa.py:288-290 | an exported state is terminating exactly when it numbers the fragment's accept state |
| LiteralLanguage.ChainStep | backend/regex_to_nfa.py:275-292 | an edge of the exported line leads from the id of state n to the id of state n + 1 under key n |
| LiteralLanguage.ExportIsChain | backend/regex_to_nfa.py:275-292 | the export of the line has exactly those edges, and starts at the id of state 0 |
| LiteralLanguage.ChainWalk | backend/regex_to_nfa.py:275-332 | a walk from the start of the exported line visits the line's states in order and reads the line's keys in order |
| LiteralLanguage.ChainEdgesExported | backend/regex_to_nfa.py:275-292 | every state of the line is numbered, and every edge of the line is in the export under its key |
| LiteralLanguage.ChainIdsWalk | backend/regex_to_nfa.py:275-292 | the ids of the line's states form a walk from the start id to the accept id that spells the string |
| LiteralLanguage.ChainAccepts | backend/regex_to_nfa.py:275-332 | the exported NFA for an operator-free string accepts that string |
| LiteralLanguage.ChainAcceptsOnly | backend/regex_to_nfa.py:275-332 | the exported NFA for an operator-free string accepts no other word |
| LiteralLanguage.LiteralChainLanguage | backend/regex_to_nfa.py:275-332 | the exported NFA for an operator-free non-empty string accepts a word exactly when it is that string |
| Pipeline.SinkRun | backend/nfa_to_dfa.py:102-112 | every step from the empty subset stays empty |
| Pipeline.ExportedDfaFits | backend/nfa_to_dfa.py:25-35 | the exported DFA's start and every edge target are exported states, which is what the minimiser's lookups need |
| Pipeline.ExportedOutcome | backend/nfa_to_dfa.py:25-35 | reading a word from a non-empty subset's id gets stuck exactly when a symbol is outside the alphabet or the run reaches the sink; otherwise it ends accepting exactly when the subset reached does |
| Pipeline.ExportedLanguage | backend/nfa_to_dfa.py:25-35 | the exported DFA accepts exactly the words the exported NFA accepts |
| Pipeline.StagesAgree | backend/convert.py:20-31 | after the subset construction and minimisation, the DFA accepts exactly the NFA's words, the minimised DFA gives every word the same outcome, has no more states and no two states that behave alike |
| Pipeline.LiteralExport | backend/convert.py:20-24 | for a non-empty operator-free regex, the exported NFA of its parse accepts exactly the regex itself |
| Pipeline.LiteralStages | backend/convert.py:20-31 | when the NFA accepts only the regex and the DFAs agree with it, the minimised DFA accepts only the regex |
| Pipeline.ProcessRegex | backend/convert.py:20-31 | a parse error exactly when the parser rejects; otherwise the NFA, DFA and minimised DFA agree on every word, both exports start at 0, and the minimised DFA is no larger and has no two equivalent states; and a non-empty regex without operator characters is converted, with the NFA and the minimised DFA accepting exactly that string |

## Left out

- Rendering, file output, the HTTP endpoint, uuid generation and the front end are not part of this model: they are I/O, and the web front end is a separate program.
- `print_ast` (console output) is not modelled.
- Exception messages are replaced by `ParseError` values that carry the cursor position.
- Python stringifies state ids ("0", "1", ...). The model keeps them as `nat`. DFA states are sets of NFA ids rather than `str(frozenset)` names, and the empty set stands for the "frozenset()" sink.
- Set and dict iteration order is left open. The methods choose elements nondeterministically, and no contract depends on the choice. The numbering produced by the exporters therefore depends on that choice, as it does in the source.
- The minimiser's `sorted(alphabet)` is not modelled. Sorting only aligns the signature tuples, so signatures are maps from symbol to target, and equal tuples correspond to equal maps.
- Parser.CodePoints: Dafny characters are Unicode scalar values, so a range that spans the surrogate block leaves out the lone surrogates, which Python's `chr` would add.
- Parser.ClassBody: a range dash with no pending literal makes Python pop an empty list and raise IndexError. The model returns `RangeWithoutStart` at the dash's position instead.
- NfaToDfa.Dfa.Run: where Python raises KeyError (a symbol outside the alphabet), the model returns None.
- Minimize.Minimizer.constructor: requires every edge of the dictionary to lead to one of its states, where Python would raise KeyError in the group lookup. `Pipeline.ExportedDfaFits` proves that the DFA export meets this requirement, given the model's canonical naming of subsets (see the line on subset names below).
- Minimize.Minimizer.ToDict: requires the start id to be a state, where Python would raise KeyError. `Pipeline.ExportedDfaFits` proves that the DFA export meets this too, under the same canonical naming of subsets.
- Minimize.QuotientMinimal: minimality is stated for behaviour in which "stuck" is an outcome of its own, as the source's `'stuck'` signature entry makes it. A rejecting state with edges is therefore never merged with a missing edge.
- Thompson.Build: the language of the NFA is proved only for regexes without operator characters (`LiteralLanguage.LiteralChainLanguage`). For other regexes the model has no separate semantics of the AST, so the language claims compare the exported NFA, the DFA and the minimised DFA with each other.
- Pipeline.ProcessRegex: the model has no call-stack bound. The parser and the Thompson construction recurse once per character of an operator-free run, and several times per nesting level of parentheses. Python raises RecursionError at roughly 1000 such characters, or roughly 330 nested parentheses. `backend/main.py:33-34` turns that into an HTTP 500 response. So "a parse error exactly when the parser rejects" holds only below that depth.
- Subset names: the source names a DFA state `str(frozenset(...))` (`backend/nfa_to_dfa.py:111-124`) and looks the names up again as dictionary keys (`backend/minimize_dfa.py:42`). Two equal frozensets may print their elements in different orders, so one subset could get two names, and the lookup could raise KeyError. The model names each subset by its value, which is a canonical rendering, so this cannot happen in the model.
