# cfg_parser in Dafny

`cfg_parser` decides whether a word belongs to the language of a
context-free grammar in Chomsky Normal Form (CNF). It does this in two
independent ways, and it ships one concrete grammar to run them on.

* `CYKParser` is the Cocke–Younger–Kasami dynamic program. A `3n × 3n`
  table of cells holds, for each 1-indexed span `[i, j]` of the input, the
  variables seen to derive that span.
  * A unit pass fills the diagonal from the rules `V → t`.
  * A binary pass fills the longer spans, in order of increasing length,
    from the rules `V → B C` at every split point.
  * The word is accepted when the start variable occurs in cell `[1, n]`.
* `Parser` searches by brute force. It grows the tree of every sentential
  form reachable from the start variable. Each child rewrites one variable
  occurrence by one of its expansions. Growth stops at depth `2n − 1`.
  The parser then collects the nodes at exactly that depth whose word is
  the input. A one-symbol input is handled by a special case.
* `MyGrammar` is an arithmetic-expression grammar with 29 rules, over the
  terminals `+ * − 1 0 x`, with start variable `S`.

## Layout

* `grammar.dfy` (`ContextFreeGrammar`) holds the grammar types and the CNF
  test. It also holds the grouping of the rules by left-hand side that both
  parsers build first. That grouping is proved equal to a reference filter
  of the rule list.
* `derivations.dfy` (`Derivations`) has two reference notions of
  derivation:
  * `Derives`, derivation by splitting a span, which is what the CYK table
    records;
  * `StepsTo`, rewriting one variable occurrence per step, which is what
    the search tree enumerates.

  It proves that the two agree for CNF grammars: a terminal word of length
  `n ≥ 1` has a `Derives` derivation exactly when it is reached from the
  start variable in `2n − 1` steps.
* `cyk.dfy` (`CYKParser`) keeps the table as an `array2` updated in place
  by nested loops. The loops carry the invariant "`V` occurs in cell
  `[i, j]` iff `V` derives `w[i..j]`".
* `parser.dfy` (`Parser`) builds the search tree and collects the matches,
  using methods with loops. Both methods are proved equal to pure
  functions. Those functions are proved to enumerate exactly the one-step
  rewrites, and to find a match exactly when the word is reached in the
  given number of steps.
* `mygrammar.dfy` (`MyGrammar`) holds the constant grammar. For it the
  model proves well-formedness, CNF, and concrete facts of membership and
  non-membership.
* `recognizers.dfy` (`Recognizers`) proves that, on a CNF grammar and a
  non-empty terminal word that is not all blanks, the two parsers return
  the same answer.

## Model

| member | source | states |
|---|---|---|
| ContextFreeGrammar.ExpansionMapOf | Parser.java:89-95 | no variable is mapped to an empty list of expansions |
| ContextFreeGrammar.ExpansionMapKeys | Parser.java:89-95 | the grouping has a key for a variable exactly when that variable has a rule |
| ContextFreeGrammar.ExpansionMapIsGrouping | Parser.java:89-95 | each variable's list is exactly the right-hand sides of its rules, in declaration order, as given by an independent filter of the rule list |
| ContextFreeGrammar.ExpansionsOfMember | CYKParser.java:17-20 | a word is listed for `v` exactly when `v → word` is a rule |
| Derivations.DerivesToSteps | Parser.java:102-114 | a span derivation of a word of length n ≥ 1 gives a rewriting derivation of exactly 2n − 1 steps |
| Derivations.StepsToDerives | Parser.java:102-114 | in a CNF grammar, a rewriting derivation of a terminal word of length n ≥ 1 from a variable takes exactly 2n − 1 steps and gives a span derivation |
| Derivations.DerivesIffSteps | Parser.java:102-114 | for CNF grammars and terminal words of length n ≥ 1: the start variable derives w iff w is reached from it in exactly 2n − 1 steps |
| Derivations.DerivationLength | Parser.java:114 | every CNF derivation of a terminal word of length n ≥ 1 from a variable has exactly 2n − 1 steps |
| CYKParser.IndexOfFirst | CYKParser.java:59-60 | the result is −1 exactly when the symbol is absent; otherwise it is the position of its first occurrence |
| CYKParser.IndexOfFirstAppend | CYKParser.java:101-103 | appending a symbol leaves the first position of every symbol already present unchanged |
| CYKParser.ConcatSymbolToWord | CYKParser.java:101-103 | the result is the word with the symbol added at its end |
| CYKParser.Record | CYKParser.java:38-40 | a null cell becomes the one-variable word; otherwise the variable is appended; the cell then holds exactly its old variables plus the new one, at unchanged first positions |
| CYKParser.RulesOfLength | CYKParser.java:27-31 | keeps exactly the rules whose right-hand side has the given length |
| CYKParser.IsValidInput | CYKParser.java:89-99 | the empty word is valid iff the start variable has an ε rule; any other word is valid iff the grammar is in CNF |
| CYKParser.YieldsByList | CYKParser.java:33-43 | scanning the unit rules in order finds exactly the variables with a rule `V → w[i−1]` |
| CYKParser.UnitPass | CYKParser.java:27-43 | after the unit pass, `V` occurs in cell `[i, i]` iff `V` derives `w[i−1]`, and every other cell is still null |
| CYKParser.CombinesByList | CYKParser.java:55-65 | scanning the binary rules in order finds exactly the variables with a rule `V → B C`, B in the left cell and C in the right cell |
| CYKParser.CombineAt | CYKParser.java:54-65 | at one split point, cell `[i, j]` gains exactly the variables combined from the two sub-cells; cells only grow at the end; no other cell changes; for spans past the input nothing changes at all |
| CYKParser.SpanMeaning | CYKParser.java:51-66 | a span of length ≥ 2 is derived from `V` iff some split point k and some rule `V → B C` have B deriving the left part and C the right part |
| CYKParser.SpanCell | CYKParser.java:54-66 | once every split point is processed over final sub-cells, cell `[i, j]` holds exactly the variables deriving `w[i..j]` |
| CYKParser.FillSpan | CYKParser.java:52-66 | one value of `i`: cell `[i, i+l−1]` becomes final, no other cell changes, and an `i` past the input leaves the table untouched |
| CYKParser.BinaryPass | CYKParser.java:45-68 | after the binary pass, every cell `[i, j]` with 1 ≤ i ≤ j ≤ n holds exactly the variables deriving `w[i..j]`, and the cells outside the input stay null |
| CYKParser.IsInLanguage | CYKParser.java:15-72 | false when the input is invalid; an out-of-bounds read for a valid empty word; otherwise true iff the start variable derives w |
| CYKParser.GenerateParseTree | CYKParser.java:76-87 | always no tree |
| Parser.Count | Parser.java:84 | the count is at most the length, and equals it iff every symbol is the given one |
| Parser.IsValidInput | Parser.java:75-87 | the empty word is valid iff the start variable has an ε rule; a word of blanks only is invalid; any other word is valid iff the grammar is in CNF |
| Parser.Rewrite | Parser.java:176-181 | the child's word is the parent's word with position i replaced by the expansion; its depth is one more; it records the replaced symbol, the index and the expansion |
| Parser.RecurseNode | Parser.java:159-189 | the tree the loop builds is the tree given by the recursive definition `Grow` |
| Parser.GrowShape | Parser.java:160-186 | in the grown tree no node is deeper than maxDepth, nodes at maxDepth or with a terminal word have no children, and every child is a one-step rewrite of its parent by a listed expansion |
| Parser.AllRewritesTried | Parser.java:165-186 | every variable position and every expansion of that variable gives a child |
| Parser.ChildrenAreSteps | Parser.java:165-186 | a node has a child with word v iff v is one rewriting step from its word |
| Parser.Matching | Parser.java:191-205 | every collected node has the target word and the target depth |
| Parser.RecurseMatchingChildren | Parser.java:191-205 | the recursion returns the matches given by the function `Matching` |
| Parser.MatchingExact | Parser.java:191-205 | in a grown tree, a node is collected iff it lies in the tree with the target word at the target depth |
| Parser.GrowMatchesSound | Parser.java:139-145 | a match in the tree grown from a word means that the target is reached from that word in the remaining number of steps |
| Parser.GrowMatchesComplete | Parser.java:139-145 | a derivation of the target in the remaining number of steps means that the grown tree has a match |
| Parser.StartSearch | Parser.java:138-147 | the search over the start variable's expansions finds a node iff w is reached from the start variable in exactly D steps |
| Parser.FirstTerminalMatch | Parser.java:120-125 | finds an expansion iff w is terminal and listed, and the one found is w |
| Parser.StartMatchAsWritten | Parser.java:119-136 | as written, the one-symbol branch throws a null dereference exactly when the start variable has no rule `S → w` with w terminal |
| Parser.StartMatch | Parser.java:119-136 | the corrected one-symbol branch: at most one node; a node iff `S → w` is a rule and w is terminal; that node has word w, depth 1 and edge (S, 0, w) |
| Parser.StartMatchDiscrepancy | Parser.java:127-135 | the as-written branch crashes exactly where the corrected one returns no node, and otherwise agrees with it |
| Parser.OneStepFromStart | Parser.java:119-136 | w is reached from the start variable in one step iff `S → w` is a rule |
| Parser.GetComputedDerivations | Parser.java:99-147 | for one symbol the result is the corrected start match; otherwise it is the search at depth 2n − 1 over the start variable's expansions |
| Parser.GenerateParseTree | Parser.java:23-41 | no tree for invalid input; a one-symbol word gives `S` over the leaf `w[0]` iff `S → w` is a rule; a longer word gives a tree iff it is reached from `S` in 2n − 1 steps, and the tree's root is `S` |
| Parser.IsInLanguage | Parser.java:19-21 | true exactly when a tree is generated, with the same cases as `GenerateParseTree` |
| Parser.ResolveChildArray | Parser.java:262-264 | an array shorter than two throws; otherwise the result is the one-slot prefix when the second slot is null, and the whole array when it is not |
| Parser.ResolveTwoSlots | Parser.java:236-264 | for the two-slot arrays the source builds, there is no crash, the first slot is kept and no later slot is null |
| MyGrammar.MakeGrammar | MyGrammar.java:7-85 | the start is S, the variable and terminal sets are the declared ones, and the 29 rules run from `S → E G` to `N → −` |
| MyGrammar.RuleShapes | MyGrammar.java:52-82 | every rule has a declared variable on the left, and one declared terminal or two declared variables on the right |
| MyGrammar.IsWellFormed | MyGrammar.java:17-82 | every symbol a rule uses is declared |
| MyGrammar.IsCnf | MyGrammar.java:52-82 | the grammar is in Chomsky Normal Form |
| MyGrammar.NoEpsilonRule | MyGrammar.java:52-82 | no rule has an empty right-hand side, so the start variable has no ε rule |
| MyGrammar.NoEmptyWord | MyGrammar.java:52-82 | no rewriting derivation from S, of any number of steps, ends in the empty word |
| MyGrammar.EmptyRejected | Parser.java:77-82 | on this grammar both parsers answer false for the empty word, because it fails their input gate |
| MyGrammar.Constants | MyGrammar.java:56-58 | `x`, `0` and `1` are derived from S |
| MyGrammar.XTree | Parser.java:39-41 | the tree parser builds, for `x`, the tree S over the single leaf `x` |
| MyGrammar.SumOfTwo | MyGrammar.java:53-79 | `x+x` is derived from S |
| MyGrammar.ProductPlusX | MyGrammar.java:53-80 | `x*x+x` is derived from S |
| MyGrammar.OnlyPYieldsPlus | MyGrammar.java:53-81 | a variable has the rule `V → +` iff it is P |
| MyGrammar.NoDoublePlus | MyGrammar.java:53-81 | `++` is not derived from S |
| MyGrammar.OnlyNYieldsNegate | MyGrammar.java:81 | a variable has the rule `V → −`, with U+2212, iff it is N |
| MyGrammar.NoRuleYieldsHyphen | MyGrammar.java:53-81 | no variable has the rule `V → -`, with the ASCII hyphen |
| MyGrammar.HyphenNotInLanguage | MyGrammar.java:12 | no word containing the ASCII hyphen anywhere is derived from S |
| MyGrammar.PlusCrashesAsWritten | Parser.java:127 | as written, the one-symbol branch throws on this grammar and the word `+` |
| MyGrammar.PlusRejected | Parser.java:119-136 | with the corrected branch, `+` has no start match, and the tree parser answers false |
| MyGrammar.SumAccepted | CYKParser.java:70-71 | both parsers accept `x+x` |
| Recognizers.Agree | CYKParser.java:70-71 | on a CNF grammar and a non-empty word, CYK answers whether S derives w; the tree parser answers false for a word of blanks, and for any other terminal word it answers the same as CYK |

## Left out

- The `OutOfMemoryError` catch and its console message (Parser.java:149-154). The search is modelled as total, so this path is never reached.
- Performance. The model does not capture the exponential growth of the search tree or the memory it exhausts.
- Steps 2–4 of `Parser.generateParseTree`, with `getLeftMostChild` and `recurseChildren` (Parser.java:43-72, 209-260). These rebuild a tree from parent pointers by a sort heuristic that has no stated contract. The model returns `Reconstructed(S, node)`, with the chosen matching node, and states its root label, its word and its depth. `resolveChildArray` is modelled.
- Parser.GenerateParseTree: the node picked for a word of two or more symbols is the first match in the search order. In the source it is the first element of a `HashSet` of nodes hashed by identity, which has no fixed order.
- Parent pointers and node identity. Nodes are values here, and the source's sets of nodes become sequences in child order.
- Parser.GenerateParseTree: a valid empty word is modelled as `Crash(Diverges)`. In the source the target depth is −1, so no node ever matches. The recursion then stops only when every branch reaches a terminal word: it diverges when a reachable variable is recursive, and otherwise it returns no tree. Either way the empty word is never accepted.
- Parser.IsInLanguage: has the same treatment of the valid empty word as `GenerateParseTree`.
- Parser.GetComputedDerivations: requires a word of at least one symbol. The source also calls it on the empty word, with target depth −1 (Parser.java:113-114); that path is the divergence described above, and the callers stop before it.
- Looking up a variable without rules in the expansion map returns null in the source (Parser.java:78-81, 120-122, 139-141, 174-175; CYKParser.java:92-94). The source then dereferences that null, by `.stream()` or a for-each loop, and throws a NullPointerException. The model instead reads such a variable as having no expansions. `Recognizers.Agree`'s statement about the tree parser rests on this reading: on a grammar with a variable that has no rules, the source's tree parser can throw where the model answers.
- The expansion map is a static field that each call reassigns (Parser.java:17, CYKParser.java:13). The model computes it anew in each call and passes it as a value.
- The library types `Word`, `Symbol`, `Terminal`, `Variable`, `Rule`, `ContextFreeGrammar` and `ParseTreeNode` are not part of this model. They are plain datatypes here.
- The library's `isInChomskyNormalForm` is not part of this model. It is defined here as follows: every rule is `V → t`, `V → B C` or `S → ε`, and when `S → ε` exists, S occurs on no right-hand side.
- Recognizers.Agree: states the equality of the two answers only for terminal words. On a word that contains a variable CYK answers false, since no span derivation yields a variable; the tree parser also answers false there, because no form reached in exactly 2n − 1 steps still holds a variable, but the model does not prove that counting fact.
- The blank gate. The tree parser rejects a word made only of blanks before looking at the grammar; CYK has no such test. `Recognizers.Agree` states both behaviours.

## Findings

| source | as written | input that shows it | evidently intended | confidence | as-written member | corrected member |
|---|---|---|---|---|---|---|
| Parser.java:127 | `matchingWordFromStartVariable.equals(null)` is called on the result of `orElse(null)`, so it throws `NullPointerException` whenever no expansion of S equals the one-symbol word | the grammar of `MyGrammar` with the word `+`: S has no rule `S → +` | return null, meaning no derivation, so that the word is rejected | not executed | Parser.StartMatchAsWritten, MyGrammar.PlusCrashesAsWritten | Parser.StartMatch, MyGrammar.PlusRejected |
