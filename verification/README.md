# Symbol mangler and bad-comparison-sequence lint, modelled in Dafny

This project models two small parts of the oxc JavaScript toolchain and proves properties of the models.

**The symbol mangler** (`crates/oxc_semantic/src/symbol/mangler.rs`). While the semantic builder walks the
tree, it asks the mangler for a *slot* for every binding identifier.
- The counter restarts at slot 1 whenever the builder calls `reset_slot`. The builder, which is not part of this model, decides when to call it. Its documentation example shows a nested function continuing its parent's numbering.
- A high-water mark `max_slot` records the largest counter value over the whole tree.
- Slot value 0 means "unassigned".
- Slot `s` owns row `s - 1` of the table of mangled names.

After the walk, the finalization pass `compute_slot_frequency` does three things:
1. It tallies, for each row, the declarations plus references of the symbols in that row.
2. It stably sorts the rows by descending count.
3. It walks the sorted rows with one shared counter `i`. For each row it draws candidates `base54(i)`, `base54(i+1)`, … until one is not a reserved word, and writes that candidate at the row's index.

The most used slots therefore get the earliest, shortest names.

**The bad-comparison-sequence lint** (`crates/oxc_linter/src/rules/deepscan/bad_comparison_sequence.rs`).
- A binary expression is a *bad comparison* when both it and its left operand are equality operators, or both are relational operators.
- The rule reports a bad comparison only if the walk up its ancestors meets no other bad comparison before the nearest *boundary*. A boundary is the root, a parenthesised expression, a declaration or a statement.
- So an unparenthesised chain `a == b == c == d` is reported once, at its outermost node.

Module layout:

| file | module | contents |
|---|---|---|
| `slots.dfy` | `Slots` | the slot and its index arithmetic |
| `keywords.dfy` | `Keywords` | the reserved-word filter |
| `aggregation.dfy` | `Aggregation` | symbols, frequency buckets, the tally loop |
| `ordering.dfy` | `Ordering` | the stable descending sort and its uniqueness |
| `naming.dfy` | `Naming` | the keyword-skipping candidate walk and the table it writes |
| `mangler.dfy` | `SymbolMangler` | the mangler state, `next_slot`, `reset_slot`, `mangled_name`, the finalization pass and its main theorems |
| `scope_walk.dfy` | `ScopeWalk` | sequences of allocator calls made by the resolver, and what they guarantee to finalization |
| `mangler_scenarios.dfy` | `ManglerScenarios` | concrete runs, including the documentation example |
| `bad_comparison.dfy` | `BadComparison` | the lint's predicates and the number of reports over an expression |
| `bad_comparison_vectors.dfy` | `BadComparisonVectors` | the rule's pass and fail test vectors |

How the models differ from the source:
- The name generator `Atom::base54` is a parameter `base54: nat -> string`.
  - The candidate loop terminates only if some non-reserved candidate always lies ahead (`Naming.Unstuck`).
  - `Naming.InjectiveIsUnstuck` proves that any injective generator meets this condition.
- The source's documentation says the table has `max_slot` entries. The code allocates `max_slot.index()` entries, one fewer, and the model follows the code.

## Model

| member | source | states |
|---|---|---|
| Slots.Slot.Index | crates/oxc_semantic/src/symbol/mangler.rs:63-66 | an assigned slot's row is one below its value: `Slot(Index() + 1)` is the slot again |
| Slots.Slot.Increment | crates/oxc_semantic/src/symbol/mangler.rs:73-76 | the incremented slot is assigned, strictly larger, and its row is the old value |
| Slots.IndexIsBijective | crates/oxc_semantic/src/symbol/mangler.rs:63-71 | two slots for which `IsSome` holds (the source's `is_some`: value not 0) share a row exactly when they are equal |
| Keywords.ShortcutIsSafe | crates/oxc_semantic/src/symbol/mangler.rs:124-133 | the early `len == 1` exit does not change the answer: `is_keyword` holds exactly for the 26 listed words |
| Keywords.ReservedWordLengths | crates/oxc_semantic/src/symbol/mangler.rs:129-132 | every listed word has 2 to 4 characters |
| Keywords.ShortNamesAccepted | crates/oxc_semantic/src/symbol/mangler.rs:125-128 | names of at most one character, the empty default included, are never keywords |
| Keywords.ReservedWordCount | crates/oxc_semantic/src/symbol/mangler.rs:129-132 | there are at most 26 reserved words |
| Keywords.KeywordSetIsSmall | crates/oxc_semantic/src/symbol/mangler.rs:129-132 | any set made only of keywords has at most 26 members |
| Aggregation.FrequencyConcat | crates/oxc_semantic/src/symbol/mangler.rs:100-106 | a row's tally over two runs of symbols is the sum of the two tallies |
| Aggregation.FrequencyAppend | crates/oxc_semantic/src/symbol/mangler.rs:100-106 | one more symbol adds its references plus one to its own row and nothing elsewhere |
| Aggregation.UnassignedContributesNothing | crates/oxc_semantic/src/symbol/mangler.rs:101 | a symbol without a slot leaves every tally unchanged |
| Aggregation.FrequencyPositiveIffUsed | crates/oxc_semantic/src/symbol/mangler.rs:101-104 | a row's tally is positive exactly when some assigned symbol sits in that row |
| Aggregation.TallyFrequencies | crates/oxc_semantic/src/symbol/mangler.rs:99-106 | the loop yields `max_slot.index()` buckets. A used row `k` holds `(k, tally)`. An unused row keeps the `(0, 0)` default |
| Ordering.SortByFrequency | crates/oxc_semantic/src/symbol/mangler.rs:107 | the sort keeps the length and leaves counts non-increasing |
| Ordering.InsertPermutes | crates/oxc_semantic/src/symbol/mangler.rs:107 | inserting adds exactly the inserted row to the multiset of rows |
| Ordering.SortPermutes | crates/oxc_semantic/src/symbol/mangler.rs:107 | the sorted rows are a permutation of the input |
| Ordering.InsertKeepsNonIncreasing | crates/oxc_semantic/src/symbol/mangler.rs:107 | inserting into a descending sequence keeps it descending |
| Ordering.InsertKeepsPrecedence | crates/oxc_semantic/src/symbol/mangler.rs:107 | the insertion is stable: an inserted row goes after rows of equal count with lower index |
| Ordering.SortedWhenTiesAscending | crates/oxc_semantic/src/symbol/mangler.rs:107 | rows whose ties are listed in ascending index come out ordered by count, then by index |
| Ordering.SortedPermutationsAreEqual | crates/oxc_semantic/src/symbol/mangler.rs:107 | two permutations that are both ordered by count then index are equal, so every stable descending sort yields this order |
| Ordering.BucketsTiesAscending | crates/oxc_semantic/src/symbol/mangler.rs:99-106 | in the tally, rows with equal counts appear in ascending index order |
| Naming.NextAccepted | crates/oxc_semantic/src/symbol/mangler.rs:111-117 | the loop stops at the first ordinal at or after `i` whose candidate is not a keyword |
| Naming.FirstAcceptedUnique | crates/oxc_semantic/src/symbol/mangler.rs:111-117 | that first accepted ordinal is unique |
| Naming.Ordinals | crates/oxc_semantic/src/symbol/mangler.rs:109-119 | the shared counter commits strictly increasing ordinals, all at or after the start and none a keyword |
| Naming.OrdinalsSkipOnlyKeywords | crates/oxc_semantic/src/symbol/mangler.rs:111-117 | every ordinal the counter passes over without committing yields a keyword |
| Naming.AssignCommitsOnlyAccepted | crates/oxc_semantic/src/symbol/mangler.rs:108-119 | every table entry is either its initial value or a non-keyword candidate |
| Naming.AssignKeepsUnwritten | crates/oxc_semantic/src/symbol/mangler.rs:108-119 | an index that no row names keeps its initial entry |
| Naming.AssignWritesLast | crates/oxc_semantic/src/symbol/mangler.rs:110-118 | an index named by several rows holds the candidate committed for the last of them |
| Naming.AssignWrites | crates/oxc_semantic/src/symbol/mangler.rs:108-119 | the whole table after the walk: each written index holds its last writer's candidate, and every other index keeps its entry |
| Naming.InjectiveIsUnstuck | crates/oxc_semantic/src/symbol/mangler.rs:111-117 | with an injective generator, the candidate loop always ends: some non-keyword candidate lies ahead of every ordinal, because at most 26 keywords exist |
| Naming.KeywordRunIsShort | crates/oxc_semantic/src/symbol/mangler.rs:111-117 | with an injective generator, 27 consecutive ordinals contain a non-keyword |
| SymbolMangler.NextSlot | crates/oxc_semantic/src/symbol/mangler.rs:80-87 | hands out the current slot and advances the counter by one. The high-water mark never falls and ends at least at the counter. Only the counter and the mark change |
| SymbolMangler.ResetSlot | crates/oxc_semantic/src/symbol/mangler.rs:89-91 | the counter restarts at slot 1 (row 0); the mark and the table are untouched |
| SymbolMangler.SlotBeforeFirstScopeIsUnassigned | crates/oxc_semantic/src/symbol/mangler.rs:46-56 | from the default state, the first slot handed out is the unassigned one |
| SymbolMangler.FirstSlotOfScope | crates/oxc_semantic/src/symbol/mangler.rs:80-91 | the first binding after entering a scope gets slot 1, row 0 |
| SymbolMangler.ProcessingOrderIndicesBelow | crates/oxc_semantic/src/symbol/mangler.rs:99-118 | every row the pass visits, default rows included, indexes inside the table, so the write at line 118 never panics |
| SymbolMangler.FinalTable | crates/oxc_semantic/src/symbol/mangler.rs:108-120 | the table has `max_slot.index()` entries, none of them a reserved word |
| SymbolMangler.Finalize | crates/oxc_semantic/src/symbol/mangler.rs:97-121 | finalization replaces only the table: counters are kept, the table length is the mark's index, and no entry is a keyword |
| SymbolMangler.DrawName | crates/oxc_semantic/src/symbol/mangler.rs:111-117 | the candidate loop returns the first accepted candidate from `i`, and the counter ends one past it |
| SymbolMangler.ComputeSlotFrequency | crates/oxc_semantic/src/symbol/mangler.rs:97-121 | the imperative pass (tally loop, sort, counter loop) produces exactly the state `Finalize` describes |
| SymbolMangler.PositionOf | crates/oxc_semantic/src/symbol/mangler.rs:110-118 | finds the last visited row writing a given index, or reports that none does |
| SymbolMangler.VisitedRowsAreGenuine | crates/oxc_semantic/src/symbol/mangler.rs:99-107 | when every row is used, each visited row carries its own index and tally, and every index is visited |
| SymbolMangler.TableFollowsFrequency | crates/oxc_semantic/src/symbol/mangler.rs:97-121 | when every row is used, row `k` holds the candidate of its ordinal. Ordinals order rows exactly by descending tally, ties by ascending row |
| SymbolMangler.DistinctRowsGetDistinctOrdinals | crates/oxc_semantic/src/symbol/mangler.rs:108-119 | when every row is used, distinct rows receive distinct ordinals |
| SymbolMangler.MoreFrequentGetsEarlierOrdinal | crates/oxc_semantic/src/symbol/mangler.rs:107-118 | when every row is used, a strictly more used row receives a strictly earlier ordinal |
| SymbolMangler.DistinctRowsGetDistinctNames | crates/oxc_semantic/src/symbol/mangler.rs:108-119 | with an injective generator, two distinct rows that some symbol uses receive distinct names, even when other rows are unused: an unused row only overwrites row 0, and with an ordinal of its own |
| SymbolMangler.UsedRowIsVisited | crates/oxc_semantic/src/symbol/mangler.rs:99-107 | a row some symbol uses is among the rows the pass visits, whatever other rows are unused |
| SymbolMangler.MangledNameAfterFinalize | crates/oxc_semantic/src/symbol/mangler.rs:93-95 | after finalization, a slot's name is never a keyword; when every row is used it is the candidate of the slot's ordinal |
| ScopeWalk.Walk | crates/oxc_semantic/src/symbol/mangler.rs:80-91 | a run of slot requests and scope resets never lowers the high-water mark, never touches the table, and hands out exactly one slot per binding, however bindings and scope entries interleave |
| ScopeWalk.WalkKeepsCovered | crates/oxc_semantic/src/symbol/mangler.rs:80-91 | every assigned value below the counter or the mark has been handed out, and every value handed out lies below the mark |
| ScopeWalk.BindingsNumberConsecutively | crates/oxc_semantic/src/symbol/mangler.rs:80-87 | consecutive bindings get consecutive slots from the counter. After at least one binding, the mark ends at the larger of its old value and the final counter |
| ScopeWalk.ScopeNumbersFromOne | crates/oxc_semantic/src/symbol/mangler.rs:89-91 | entering a scope and declaring `count` bindings hands out slots 1 to `count` |
| ScopeWalk.ResolverMeetsFinalizePreconditions | crates/oxc_semantic/src/symbol/mangler.rs:97-106 | when symbols carry exactly the slots handed out, the mark is assigned, every symbol's row fits the table, and every row is used |
| ScopeWalk.LinkedSymbolsGetDistinctNames | crates/oxc_semantic/src/symbol/mangler.rs:93-121 | after a walk whose symbols carry only slots it handed out, with an injective generator, two symbols get the same name exactly when they share a slot. Slots handed out but carried by no symbol do not matter |
| ScopeWalk.WalkMeetsRangePreconditions | crates/oxc_semantic/src/symbol/mangler.rs:97-106 | when symbols carry only slots the walk handed out, the mark is assigned and every symbol's row fits the table |
| ManglerScenarios.DocumentationOrder | crates/oxc_semantic/src/symbol/mangler.rs:27-32 | rows used 4, 2, 1, 2 and 1 times are visited in the order 0, 1, 3, 2, 4 |
| ManglerScenarios.DocumentationExample | crates/oxc_semantic/src/symbol/mangler.rs:27-32 | those rows receive the candidates of ordinals 0, 1, 3, 2, 4 (`a`, `b`, `d`, `c`, `e`) |
| ManglerScenarios.KeywordCandidateIsSkipped | crates/oxc_semantic/src/symbol/mangler.rs:111-118 | if the first candidate is a keyword, the two rows get the second and third candidates |
| ManglerScenarios.SiblingScopesShareSlot | crates/oxc_semantic/src/symbol/mangler.rs:14-25 | bindings of sibling scopes both get slot 1, and the mark stops at slot 2 |
| ManglerScenarios.SiblingScopesShareName | crates/oxc_semantic/src/symbol/mangler.rs:14-25 | sibling-scope bindings share one row and its first candidate |
| ManglerScenarios.UnusedRowOverwritesRowZero | crates/oxc_semantic/src/symbol/mangler.rs:99-118 | as written, an unused row keeps index 0. It is visited last and overwrites row 0, leaving its own row empty |
| ManglerScenarios.ThreeBindingsSlots | crates/oxc_semantic/src/symbol/mangler.rs:80-91 | one scope with three bindings hands out slots 1, 2 and 3 |
| ManglerScenarios.ThreeBindingsHighWater | crates/oxc_semantic/src/symbol/mangler.rs:80-87 | it leaves the mark at slot 4, a table of three rows |
| ManglerScenarios.ThreeBindingsTable | crates/oxc_semantic/src/symbol/mangler.rs:99-120 | rows used 6, 2 and 4 times are named with the candidates of ordinals 0, 2 and 1 |
| ManglerScenarios.ThreeBindingsOneScope | crates/oxc_semantic/src/symbol/mangler.rs:80-120 | the walk and the finalization combined for that scope |
| ManglerScenarios.OrdinalsWithoutKeywords | crates/oxc_semantic/src/symbol/mangler.rs:109-117 | with no keywords ahead, the counter commits consecutive ordinals |
| ManglerScenarios.RowSymbolsFrequency | crates/oxc_semantic/src/symbol/mangler.rs:100-105 | with one symbol per row, a row's tally is its references plus one |
| BadComparison.IsBadComparison | crates/oxc_linter/src/rules/deepscan/bad_comparison_sequence.rs:81-97 | bad exactly when the left operand is a binary expression of the same comparison family, equality or relational. Arithmetic, `instanceof`, `in`, logical and parenthesised operands are never bad |
| BadComparison.FirstBoundary | crates/oxc_linter/src/rules/deepscan/bad_comparison_sequence.rs:62-73 | the walk stops at the nearest root, parenthesis, declaration or statement, and nothing before it is a boundary |
| BadComparison.HasNoBadComparisonInParents | crates/oxc_linter/src/rules/deepscan/bad_comparison_sequence.rs:57-79 | true exactly when no ancestor before the nearest boundary is a bad comparison |
| BadComparison.Reports | crates/oxc_linter/src/rules/deepscan/bad_comparison_sequence.rs:47-54 | a node is reported exactly when three things hold: it is a binary expression, its left operand is a binary comparison of the same family, and no bad comparison stands between it and the nearest boundary |
| BadComparison.ChildHasBoundary | crates/oxc_linter/src/rules/deepscan/bad_comparison_sequence.rs:63 | the `unwrap` never fails for a child, because its ancestor chain still reaches a boundary |
| BadComparison.QuietBelowBadComparison | crates/oxc_linter/src/rules/deepscan/bad_comparison_sequence.rs:75-77 | once the ancestor walk meets a bad comparison before a boundary, nothing in a parenthesis-free subexpression below is reported |
| BadComparison.ParenthesesIsolate | crates/oxc_linter/src/rules/deepscan/bad_comparison_sequence.rs:66-73 | whether the node directly inside parentheses is reported depends only on that node |
| BadComparison.ReportCountDependsOnWalk | crates/oxc_linter/src/rules/deepscan/bad_comparison_sequence.rs:61-78 | two ancestor chains with the same ancestors up to an equally distant nearest boundary give every subexpression the same number of reports |
| BadComparison.ParenthesisedCountIsolated | crates/oxc_linter/src/rules/deepscan/bad_comparison_sequence.rs:66-73 | a parenthesised expression's whole subtree yields the same number of reports wherever it stands |
| BadComparison.ChainReportedOnce | crates/oxc_linter/src/rules/deepscan/bad_comparison_sequence.rs:66-67 | an unparenthesised chain of two or more comparisons of one family gets exactly one report, at its outermost node |
| BadComparison.MixedFamiliesNeverReported | crates/oxc_linter/src/rules/deepscan/bad_comparison_sequence.rs:81-97 | two nested comparisons of different families are never reported, in either operand position |
| BadComparisonVectors.PassEqualityThenRelational | crates/oxc_linter/src/rules/deepscan/bad_comparison_sequence.rs:104-119 | `a == b > c` and its fifteen siblings yield no report |
| BadComparisonVectors.PassRelationalThenEquality | crates/oxc_linter/src/rules/deepscan/bad_comparison_sequence.rs:120-135 | `a > b == c` and its fifteen siblings yield no report |
| BadComparisonVectors.PassJoinedByAnd | crates/oxc_linter/src/rules/deepscan/bad_comparison_sequence.rs:136-137 | parenthesised comparisons joined by `&&` yield no report |
| BadComparisonVectors.FailTwoOfOneFamily | crates/oxc_linter/src/rules/deepscan/bad_comparison_sequence.rs:145-175 | every pair of one family, such as `a === b != c` or `a < b >= c`, yields exactly one report |
| BadComparisonVectors.FailChainOfThree | crates/oxc_linter/src/rules/deepscan/bad_comparison_sequence.rs:142 | `a == b == c == d` yields exactly one report |
| BadComparisonVectors.ParenthesisedChainReportedOnce | crates/oxc_linter/src/rules/deepscan/bad_comparison_sequence.rs:66-67 | a parenthesised chain is reported once wherever it stands |
| BadComparisonVectors.FailParenthesisedThenEquality | crates/oxc_linter/src/rules/deepscan/bad_comparison_sequence.rs:143 | `(a == b == c) == d` yields exactly one report |
| BadComparisonVectors.FailParenthesisedThenChain | crates/oxc_linter/src/rules/deepscan/bad_comparison_sequence.rs:144 | `(a == b == c) == d == e == f` yields exactly two reports, as the comment at line 66 says |

## Left out

- `tasks/minsize/src/lib.rs` and `crates/oxc_index/src/lib.rs` are context files, not part of this model.
- `Atom::base54`'s alphabet and its length growth are left out: the generator is a parameter, and only the properties each lemma states about it are assumed. The concrete runs require the first few candidates to be one character long.
- `RefCell`, `Atom` interning and cloning are left out: the table is a plain sequence of strings, and the mangler is an immutable value that each operation returns updated.
- `usize` overflow of the counters and tallies is left out: integers are unbounded, and real trees stay far below `usize::MAX`.
- The standard library's `sort_by_key` is modelled as a stable insertion sort. `Ordering.SortedPermutationsAreEqual` shows that any stable descending sort produces the same order on the tally.
- SymbolMangler.Finalize requires an assigned `max_slot`. When no binding was ever declared, `max_slot.index()` in the source underflows `0 - 1` and panics.
- SymbolMangler.Finalize requires every symbol's row to be inside the table. The source would panic with an index out of bounds otherwise.
- SymbolMangler.MangledName carries no contract of its own (it is a table lookup). What it returns after finalization is stated by `SymbolMangler.MangledNameAfterFinalize`. Its precondition excludes two cases where the source panics: an unassigned slot, whose `index()` underflows `0 - 1`, and a slot whose row lies outside the table, for example any lookup before `compute_slot_frequency` has filled the empty table.
- SymbolMangler.TableFollowsFrequency assumes every row is used. As written, an unused row keeps the default index 0 and overwrites row 0 (`ManglerScenarios.UnusedRowOverwritesRowZero`). `ScopeWalk.ResolverMeetsFinalizePreconditions` shows that a resolver linking its symbols to exactly the slots it was handed never produces an unused row. `SymbolMangler.DistinctRowsGetDistinctNames` does not need this assumption.
- Keywords.IsKeyword counts characters where the source's `len` counts bytes. The result is the same, because every reserved word is ASCII and at least two characters long.
- The lint's diagnostic, span and message plumbing and the `declare_oxc_lint!` metadata are left out: `BadComparison.Reports` says whether a node is reported, and `BadComparison.ReportCount` counts the reports over an expression.
- BadComparison.BinaryOp lists 13 of the binary operators. Division, remainder, exponentiation, the shifts and the bitwise operators are left out. Like the arithmetic operators kept, they belong to neither comparison family, so no report changes.
- The AST is cut down to binary, logical and parenthesised expressions and leaves. Every other ancestor kind is either a boundary (statement, declaration, root) or a pass-through kind.
- BadComparison.HasNoBadComparisonInParents requires that some ancestor is a boundary. The source's `unwrap` assumes the same, since every node's ancestor chain ends at the root.
- The test harness (`Tester`, snapshots) is left out. Each vector is stated as a lemma about `ReportCount` under an `if` condition.
