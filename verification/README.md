# Verification of the SynnoDB router

SynnoDB answers a SQL statement from a generated engine only when the router can defend the answer
against DuckDB. This project models the parts of that decision that are hard to get right and proves
what they promise:

* **The cross-check verdict.** When two result tables count as equal: exact columns exactly, float
  columns within a tolerance that is not transitive, rows one-to-one. The augmenting-path matcher, the
  sorted pairing and the two-pointer scan are proved against the existence of a matching; the widening
  search makes `ORDER BY k LIMIT n` checkable over every legal tie-break.
* **The template binder.** The quote-aware scanner, the `?` rewriter, unification of two trees into one
  dictionary, splitting of literals that pack several parameters, and the typed-NULL rewriting used at
  registration.
* **The router as a state machine.** Failure counts, execution counts, quarantine and counters over every
  run, and the connection in front of it: what `execute` leaves to be fetched, and when shared engines
  are released.
* **The pipe protocol to the engine process.** Any pipe capacity, any chunking, any interleaving; the JSON
  that travels through it is read back by a reader of RFC 8259.

Everything outside these parts (SQL parsing and rendering, DuckDB, the engine, clocks, random draws)
enters as data: a statement carries what the engine and DuckDB do with it, a template carries the trees
the parser gives.

`dafny verify dfyconfig.toml` checks the whole project.

## Layout

| file | what it holds |
|---|---|
| Wrappers, Numerals, Pairing, Blocks | an option type; decimal numerals; injections, pigeonhole, Hall's condition; tables cut into blocks |
| Cells, SortedMatch, Augmenting, RowVerdict, Verdict | cells and closeness; the two matchers; row multisets; the verdict |
| CandidatePool | the widening search and the LIMIT theorem |
| QuoteScan, PlaceholderNames, MarkerClash | the scanner; the rewriter; when the rewriter can be undone |
| SqlTree, Unify, BindingSound | trees and values; the unifier; what a binding means |
| SplitLiteral, BindTemplate, BindingExact, RoundTrip, InstanceKey | packed literals; the whole binder; exactly what binds; round trips; keys of instances |
| Literalize | typed NULLs for a template's parameters |
| Guards, Registry, Router, RouterRuns, RouterLaws | one routing decision; all runs of them; what decides, over a run, what is reached, checked and recorded |
| Connection, EngineLifetime | the handle; when engines are released |
| TraceChannel, Json, QueryStage | the framed trace; the JSON text and its reader; the payload and the response line |

## Where the code and its comments differ

The model follows the code. These are proved as lemmas:

* Sorted pairing is described as a conservative heuristic above 64 rows; `SortedMatch.SortedPairingTooStrict`
  gives, for every size, any two or more columns and every tolerance between 0 and 1, two groups that match
  one-to-one and are refused, and `SortedMatch.ScanTooStrict` the same for the containment scan. With one
  numeric column, without a tolerance, or on a group against itself both are exact
  (`SortedMatch.PairingExact`, `SortedMatch.ScanExact`).
* A result table equals itself exactly if it holds no NaN (`Verdict.EqualsItselfUnlessNaN`), so an engine that
  returns DuckDB's very table is sidelined exactly if a NaN is in it (`RouterRuns.OwnAnswerSidelined`). An
  engine's NaN is always refused, the reference's wherever no pool is in use (`Verdict.NaNRefused`); a pool can
  let one through (`Verdict.PoolHidesReferenceNaN`).
* The sort key puts numbers before NaN before NULL, the reverse of its comment
  (`src/synnodb/router/adapt.py:86`).
* The last widened query asks for 2048 times the window, though the constant is 1024
  (`src/synnodb/router/adapt.py:289-291`); `CandidatePool.CandidateSuperset` keeps that.
* The comment says wildcard-free cores make a split unambiguous; they do exactly when every delimiter
  between two parameters holds a wildcard (`SplitLiteral.WildSplitUnique`, `SplitLiteral.AmbiguousSplit`).
* Rewriting `?` is not always reversible: two templates share a rewriting exactly where one's own text
  spells the name of a `?` next to it (`MarkerClash.SharedExactlyIfOwned`).
* A typed NULL whose type carries one number is bound to that number
  (`BindingSound.TypedNullBindsTypeLength`), and a repeated name can be bound to TRUE and then 1
  (`BindingSound.LooseRepeatsLoseAValue`).
* Closing one handle twice releases the engines under another (`EngineLifetime.RepeatedCloseReleasesEarly`).
* Without a pool a legal window can be refused (`CandidatePool.OffsetCutOverRejects`), exactly where the
  window cuts a tie group of different rows (`CandidatePool.StrictExactIffClean`).
* The warning of the tripped breaker says the template falls back until its engine is registered again
  (`src/synnodb/router/router.py:211-218`); registering it again under the same template does not lift the
  quarantine (`RouterRuns.NeverRunsAgain`), and nothing in the program calls `reset_quarantine`.
* A statement refused in the test mode can lose the open result of an earlier one, because the schema
  guard queries the same connection (`Connection.FailureKeepsTheResult`).

## Model

| member | source | states |
|---|---|---|
| Pairing.HallViolatorRefutes | src/synnodb/router/adapt.py:120-135 | a set of rows with fewer compatible columns than members rules out every matching |
| Augmenting.Augment | src/synnodb/router/adapt.py:126-133 | one augmenting search places its row and keeps every row already placed, or changes no assignment and marks columns that trap the row |
| Augmenting.MatchAll | src/synnodb/router/adapt.py:120-135 | succeeds exactly when all rows have distinct compatible columns; on failure the rows behind the marked columns violate Hall's condition |
| Augmenting.StuckViolatesHall | src/synnodb/router/adapt.py:196-210 | the marks left by a failing top-level search name a Hall violator |
| Augmenting.AllServed | src/synnodb/router/adapt.py:199-210 | column owners covering all rows, read backwards, are an injection along compatible pairs |
| Cells.CloseBetween | src/synnodb/router/adapt.py:57-63 | two close numbers are both close to everything between them |
| Cells.FloatCloseBetween | src/synnodb/router/adapt.py:57-94 | the same for cells in sort-key order, with NULL, NaN and infinities |
| Cells.FloatCloseSymmetric | src/synnodb/router/adapt.py:57-63 | closeness is symmetric |
| Cells.FloatCloseNotTransitive | src/synnodb/router/adapt.py:57-63 | and not transitive |
| Cells.FloatCloseMeans | src/synnodb/router/adapt.py:57-63 | in a float column two cells are close exactly if they are the same value other than NaN, or numbers that differ by no more than the tolerance, absolutely or relative to either |
| Cells.CellEqualMeans | src/synnodb/router/adapt.py:38-50 | by position two cells are equal exactly if they are the same value other than NaN, or numbers, one of them a float, that differ by no more than the tolerance |
| Cells.NumbersRefused | src/synnodb/router/adapt.py:45-47 | of two numbers, one of them a float, exactly those further apart are refused |
| Cells.SortKeyOrder | src/synnodb/router/adapt.py:85-94 | numbers sort by value between the infinities, then NaN, then NULL |
| Cells.VecLeqTransitive | src/synnodb/router/adapt.py:85-94 | the sort key orders vectors transitively |
| Cells.VecLeqTotal | src/synnodb/router/adapt.py:85-94 | and totally |
| SortedMatch.OrderOfFirstSorts | src/synnodb/router/adapt.py:113-114 | the stable order used for pairing sorts by the key |
| SortedMatch.OrderOfFirstPermutes | src/synnodb/router/adapt.py:113-114 | and is a permutation |
| SortedMatch.SortedColumnConvex | src/synnodb/router/adapt.py:112-118 | one numeric column in sorted order gives a table where compatibility at opposite corners of a block fills the block |
| SortedMatch.DiagonalIsOptimal | src/synnodb/router/adapt.py:100-101 | in such a table, if any perfect matching exists then the diagonal is one |
| SortedMatch.PairsInOrderMeans | src/synnodb/router/adapt.py:112-118 | sorted pairing succeeds only if a matching exists, and on one numeric column exactly if one does |
| SortedMatch.PairsInOrderConvex | src/synnodb/router/adapt.py:112-118 | with several columns it is still exact where the sorted table is convex |
| SortedMatch.SortedPairingTooStrict | src/synnodb/router/adapt.py:104-106 | for every size, every number of columns from two on and every tolerance between 0 and 1, two groups that match one-to-one and fail sorted pairing |
| SortedMatch.ZeroToleranceConvex | src/synnodb/router/adapt.py:57-63 | without a tolerance, numeric columns of any number sort into a convex table |
| SortedMatch.PairingExact | src/synnodb/router/adapt.py:112-118 | sorted pairing, where it is used, is exact on one numeric column, on numeric columns without a tolerance, and on a group against itself |
| SortedMatch.MatchFloatVecs | src/synnodb/router/adapt.py:97-135 | true only if the vectors match one-to-one; exactly then on several columns up to 64 rows, on one numeric column, on numeric columns without a tolerance, or on a group against itself; above 64 rows or on one column it is sorted pairing |
| SortedMatch.ScanSound | src/synnodb/router/adapt.py:183-194 | what the two-pointer scan accepts is an injection along compatible pairs |
| SortedMatch.ScanComplete | src/synnodb/router/adapt.py:183-194 | on a convex table it accepts whenever an injection exists |
| SortedMatch.ScanSorted | src/synnodb/router/adapt.py:184-194 | the loop over two cursors computes the scan |
| SortedMatch.ScanExact | src/synnodb/router/adapt.py:183-194 | the scan of the sorted vectors, where it is used, is exact in the same cases as sorted pairing |
| SortedMatch.ScanTooStrict | src/synnodb/router/adapt.py:183-194 | for every size, every number of columns from two on and every tolerance between 0 and 1, a group that embeds in another and fails the scan |
| SortedMatch.MatchFloatVecsSubset | src/synnodb/router/adapt.py:174-210 | true only if every vector has one of its own in b; exactly then in the same cases, 64 counted in b; above that or on one column it is the scan |
| Blocks.BlockwiseSaturable | src/synnodb/router/adapt.py:238-243 | a table compatible only within equal labels can be served exactly if every label's block can |
| Blocks.PerfectMatchingCounts | src/synnodb/router/adapt.py:163-168 | a perfect matching leaves every label equally often on both sides |
| RowVerdict.FloatColumns | src/synnodb/router/adapt.py:66-74 | the columns holding a float in some row |
| RowVerdict.Group | src/synnodb/router/adapt.py:157-162 | the float vectors of the rows under each exact key, in row order |
| RowVerdict.EqualGroupwise | src/synnodb/router/adapt.py:163-170 | two row lists match one-to-one exactly if one maps injectively into the other and every key's group is as large on both sides |
| RowVerdict.ContainedGroupwise | src/synnodb/router/adapt.py:238-243 | one row list maps injectively into another exactly if every key's vectors do |
| RowVerdict.EqualKeywise | src/synnodb/router/adapt.py:163-170 | two row lists match one-to-one exactly if the same keys occur and every key's vectors match one-to-one |
| RowVerdict.MultisetEqual | src/synnodb/router/adapt.py:138-171 | true only if there is a bijection of rows, exact on exact columns and close on float columns; exactly then where every group is decided exactly |
| RowVerdict.MultisetContained | src/synnodb/router/adapt.py:213-244 | the same for an injection of the first rows into the second |
| Verdict.ResultsEqual | src/synnodb/router/adapt.py:306-359 | true only if the results agree in the sense their ordering calls for, and exactly then where the matching is exact |
| Verdict.PositionalImpliesTieAware | src/synnodb/router/adapt.py:340-359 | strict positional equality implies tie-aware equality, which includes the unordered one, for any key columns |
| Verdict.TieAwareImpliesPool | src/synnodb/router/adapt.py:348-358 | tie-aware equality implies acceptance against any pool that holds the reference as a sub-multiset |
| Verdict.RowsContainedMeans | src/synnodb/router/adapt.py:238-243 | rows match exactly if they can be paired so that each cell is the same value or, in a column that holds a float somewhere, a number within the tolerance |
| Verdict.AgreeMeans | src/synnodb/router/adapt.py:324-359 | what agreement comes to, cell by cell, in every mode: shape, key cells in place, rows paired with the reference or with the pool of a reference that fills its limit |
| Verdict.RoundingTolerated | src/synnodb/router/adapt.py:314-320 | in every mode a reference without NaN is accepted after any of its floats moved within the tolerance; with a pool, if the pool holds the reference |
| Verdict.DecidedUpTo64 | src/synnodb/router/adapt.py:104-113 | where columns with floats hold only numbers, NaN and NULL, the verdict is exact up to 64 rows; for any number of rows with one such column or without a tolerance |
| Verdict.NaNRefused | src/synnodb/router/adapt.py:57-63 | results that agree hold no NaN on the engine's side, nor on the reference's where no pool is in use |
| Verdict.EqualsItselfUnlessNaN | src/synnodb/router/adapt.py:306-359 | in every mode without a pool, and at every size, a result agrees with itself, and the comparison says so, exactly if it holds no NaN |
| Verdict.PoolHidesReferenceNaN | src/synnodb/router/adapt.py:353-357 | a reference holding a NaN and an accepted answer without one, by a pool that holds both |
| CandidatePool.CandidateSuperset | src/synnodb/router/adapt.py:254-303 | how the search ends: the rounds asked, the limit of each, the first closing reply as the pool, or none; a pool only for a reference that fills its limit |
| CandidatePool.SortedUnique | src/synnodb/router/adapt.py:350-352 | two sorted key lists with the same elements are the same list |
| CandidatePool.KeysFixed | src/synnodb/router/adapt.py:330-332 | every legal order of a ranking shows the same key at the same rank |
| CandidatePool.Slotted | src/synnodb/router/adapt.py:353-356 | rows of the ranking under the keys of some ranks can stand at those ranks in a legal order |
| CandidatePool.PoolHoldsWindow | src/synnodb/router/adapt.py:273-276 | a prefix that ends on another key, or is the whole ranking, holds every row any legal window shows |
| CandidatePool.PoolDecides | src/synnodb/router/adapt.py:340-357 | with exact cells and a closing pool, key agreement and membership accept exactly the legal windows |
| CandidatePool.StrictDecides | src/synnodb/router/adapt.py:358 | without a pool every accepted answer is a legal window, and every legal window is accepted where the window is clean (see the next row) |
| CandidatePool.StrictExactIffClean | src/synnodb/router/adapt.py:278-280 | and only there: all legal windows are accepted exactly if the window is empty, or both its ends stand at an end of the ranking, between two keys, or in a tie group of one repeated row |
| CandidatePool.OffsetCutOverRejects | src/synnodb/router/adapt.py:278-280 | a legal window that the strict comparison refuses: an OFFSET inside a tie group, no truncation |
| CandidatePool.WindowVerdict | src/synnodb/router/adapt.py:254-358 | the search and the comparison together, for any ranking and answer of exact cells, any tie-breaks, offset and limit: only legal windows are accepted, and all of them with a pool or in a clean window |
| CandidatePool.PoolFound | src/synnodb/router/adapt.py:288-303 | over replies that show the ranking's keys, a pool is found exactly if for some k up to 11, every reply up to the k-th having come, 2^k windows reach past the ranking or onto another key than the window's last |
| CandidatePool.PoolFoundWithin | src/synnodb/router/adapt.py:288-303 | which, when every reply comes, is exactly if the tie group the window ends in ends within 2048 windows |
| CandidatePool.CheckWindow | src/synnodb/tools/validate/run_and_check_queries.py:310-339 | over exact cells, the validator's check accepts only legal windows, and all of them once a pool is found or where the window is clean; for a reference that fills its limit a pool is found exactly as PoolFound says |
| QuoteScan.DoubledInjective | src/synnodb/router/normalize.py:645-646 | a literal's inner text is determined by its raw text |
| QuoteScan.ScanStringLiterals | src/synnodb/router/normalize.py:642-670 | finds the spans of the text, each starting at a quote, closed by the same quote or the end, with an inner text that re-escapes to the span |
| QuoteScan.BoundsOrdered | src/synnodb/router/normalize.py:642-670 | spans are in order, disjoint and inside the text |
| QuoteScan.SpansAgreeWithAutomaton | src/synnodb/router/normalize.py:649-651 | the spans cover the quotes and exactly those other characters a two-state automaton reads inside |
| QuoteScan.StateMoves | src/synnodb/router/normalize.py:649-668 | the automaton opens at a single or double quote and closes at the same one only |
| PlaceholderNames.NameAnonymousPlaceholders | src/synnodb/router/normalize.py:673-709 | nothing unless there are as many `?` outside literals as names; else the text whose characters are the images of the template's, with the names by key |
| PlaceholderNames.RewriteOutside | src/synnodb/router/normalize.py:690-700 | splitting a quote-free stretch and joining it with markers places exactly that stretch |
| PlaceholderNames.PlacedDetermined | src/synnodb/router/normalize.py:673-709 | a template has one rewriting |
| PlaceholderNames.NamesUpToMeans | src/synnodb/router/normalize.py:696-697 | key k holds the k-th name, and there are no other keys |
| PlaceholderNames.LiteralsUnchanged | src/synnodb/router/normalize.py:702-706 | scanning the rewritten text finds the same literals, in order, with the same text |
| MarkerClash.RewritingUndone | src/synnodb/router/normalize.py:673-709 | for one list of names, a template whose own text spells none of its `?`'s names near them shares its rewriting with no other |
| MarkerClash.SharedExactlyIfOwned | src/synnodb/router/normalize.py:673-709 | a template shares its rewriting with another of as many `?` exactly if, for some j, its own text outside literals between `?` j-1 and `?` j+1 spells `:synp` and j |
| MarkerClash.RewritingsClash | src/synnodb/router/normalize.py:694-700 | `:synp0 ?` is such a template |
| SqlTree.LooseEqNotTransitive | src/synnodb/router/normalize.py:464-466 | TRUE equals 1, 1 equals '1', TRUE does not equal '1' |
| SqlTree.LooseEqByText | src/synnodb/router/normalize.py:464-466 | TRUE equals 'True', NULL 'None', -7 '-7', a decimal both its amount and its text; 1 is not '1.00' |
| Unify.Unifier.Unify | src/synnodb/router/normalize.py:570-623 | fills the dictionary with the placeholders a match meets, in order, or fails; what it leaves is that of recording those occurrences |
| Unify.Unifier.UnifyList | src/synnodb/router/normalize.py:597-615 | a whole-list marker takes a list of constants without NULL or boolean as one tuple; other right-hand sides match piece by piece |
| Unify.Unifier.Record | src/synnodb/router/normalize.py:533-537 | records a value unless the name holds a different one |
| Unify.RecordedAppend | src/synnodb/router/normalize.py:533-537 | recording two stretches of occurrences in turn is recording them as one |
| Unify.ConstantReadsBack | src/synnodb/router/normalize.py:511-530 | at a placeholder, the value of a constant can be written back as that constant exactly if it is plain |
| Unify.ValueReadsBack | src/synnodb/router/normalize.py:511-530 | any value bound from constants, written as a constant, reads as a given one exactly if that one is plain and has the same value; for a constant whose value is the text of a cast, provided that is what is bound |
| Unify.InstanceReads | src/synnodb/router/normalize.py:570-639 | if names are bound to a value or a list as they met one, filling the template reads as the incoming tree exactly when every bound value, written as a constant, reads as what was met there |
| BindingSound.KeysBindConstants | src/synnodb/router/normalize.py:184-214 | with equal structural keys every value is read from a single constant, never from a larger expression |
| BindingSound.AgreesIffRepeatsEqual | src/synnodb/router/normalize.py:533-537 | every occurrence has the value of its name exactly if repeated names met equal values |
| BindingSound.StrictRepeatsAreEqual | src/synnodb/router/normalize.py:533-537 | which holds wherever tolerant equality is equality on those values |
| BindingSound.InlineBindingSound | src/synnodb/router/normalize.py:570-639 | equal keys and a successful match: values come from constants, and the filled template reads as the statement exactly if those are plain and every repeated name met equal values |
| BindingSound.DifferentKeysBindInnerLiteral | src/synnodb/router/normalize.py:527-529 | without equal keys, `col + 5` is bound as 5 |
| BindingSound.TypedNullBindsTypeLength | src/synnodb/router/normalize.py:527-529 | with equal keys, a NULL cast to VARCHAR(10) is bound as 10 |
| BindingSound.LooseRepeatsLoseAValue | src/synnodb/router/normalize.py:533-537 | with equal keys, a repeated name that met TRUE and 1 keeps only 1, and the statement is lost |
| SplitLiteral.BindingGroups | src/synnodb/router/normalize.py:754-766 | cuts the specs, in order, into maximal runs that share a literal |
| SplitLiteral.GroupsMean | src/synnodb/router/normalize.py:754-766 | a group shares one nonnegative number, a spec without one stands alone, and the next group has another |
| SplitLiteral.GroupingDetermined | src/synnodb/router/normalize.py:754-766 | no other cut does |
| SplitLiteral.SearchSound | src/synnodb/router/normalize.py:784-788 | what the search returns reassembles to the value with wildcard-free cores |
| SplitLiteral.SearchComplete | src/synnodb/router/normalize.py:784-788 | a value that assembles from wildcard-free cores is always split |
| SplitLiteral.SearchExactly | src/synnodb/router/normalize.py:784-788 | a value is split exactly if it is the constants around cores without % and _ |
| SplitLiteral.SearchLongest | src/synnodb/router/normalize.py:784-788 | of all splits the one with the longest first core is given, then the longest second one, and so on |
| SplitLiteral.WildSplitUnique | src/synnodb/router/normalize.py:784-788 | with a wildcard in every delimiter between two parameters, a value has one split |
| SplitLiteral.AmbiguousSplit | src/synnodb/router/normalize.py:784-788 | with a delimiter that has none, some value has two |
| SplitLiteral.SplitUndoesAssembly | src/synnodb/router/normalize.py:769-795 | with wildcards in the delimiters the search recovers any assembled cores |
| SplitLiteral.SplitValue | src/synnodb/router/normalize.py:769-795 | gives each parameter of the group its core, or the whole value; refuses exactly the values that carry nothing |
| SplitLiteral.CarriedDetermined | src/synnodb/router/normalize.py:769-795 | the parameters of a group are determined by the value |
| SplitLiteral.MergeSplit | src/synnodb/router/normalize.py:798-814 | merges the groups' parameters, or refuses when a group carries nothing or a name recurs with a different value |
| SplitLiteral.MergedExactly | src/synnodb/router/normalize.py:798-814 | parts merge exactly if each name that recurs has a value loosely equal to the last one |
| BindTemplate.UnifyAndBind | src/synnodb/router/normalize.py:712-751 | the user's bindings of the two trees, or nothing if the `?` are not as many as the names or a tree is missing |
| BindTemplate.UserBindingSound | src/synnodb/router/normalize.py:712-751 | the same in the user's names: every name bound, and the template filled with the bindings reads as the statement exactly if the constants are plain and those under one user name are equal, as they are where tolerant equality is equality on them |
| BindingExact.ListBindsExactly | src/synnodb/router/normalize.py:597-609 | a whole-list marker binds a list exactly if the left-hand sides match and every member is a signed or typed literal without NULL or boolean anywhere in it; then to all their values |
| BindingExact.UnmatchedInside | src/synnodb/router/normalize.py:570-639 | what does not match where two subtrees meet does not match as a whole |
| BindingExact.NullInListUnbound | src/synnodb/router/normalize.py:605-608 | a statement with NULL or a boolean anywhere in a list that faces a whole-list marker gets no binding |
| BindingExact.ValueExactly | src/synnodb/router/normalize.py:511-530 | an expression is bound as its one literal, or as its text if it holds none or several; a sign turns a number around |
| BindingExact.RecordsExactly | src/synnodb/router/normalize.py:533-537 | the dictionary takes the occurrences exactly if each repetition of a name has a value loosely equal to the last |
| BindingExact.BindsExactly | src/synnodb/router/normalize.py:712-751 | a statement binds exactly if it matches, repeated names and the names under one user name met loosely equal values, and every user name was met |
| BindTemplate.BindTemplate | src/synnodb/router/normalize.py:817-834 | one `?` per group, each bound literal split and merged; a template without `?` never binds any spec |
| RoundTrip.InstanceMatches | src/synnodb/router/normalize.py:570-639 | matching a filled template meets every placeholder, with the value it was filled with, whole lists included |
| RoundTrip.UnifyUndoesFilling | src/synnodb/router/normalize.py:712-751 | a filled template binds, each user name to the value it was filled with |
| RoundTrip.LiteralCarries | src/synnodb/router/normalize.py:769-795 | a literal assembled from parameters carries exactly them |
| RoundTrip.LiteralExists | src/synnodb/router/normalize.py:769-795 | every group whose delimiters hold wildcards has a literal for any texts without one, and a group of one whole literal for any value |
| RoundTrip.MergeRecovers | src/synnodb/router/normalize.py:798-814 | splitting and merging assembled literals gives every parameter back and nothing else |
| RoundTrip.BindRecovers | src/synnodb/router/normalize.py:817-834 | filling a template with any constants, packed literals included, binds each group to its literal; splitting and merging these succeeds and gives exactly the parameters |
| RoundTrip.BindFilled | src/synnodb/router/normalize.py:817-834 | the binder, given the statement of a filled template, returns exactly the parameters |
| InstanceKey.InstanceKeepsKey | src/synnodb/router/normalize.py:184-214 | a filled template keeps the template's key exactly if every `?` under a minus sign got a text or a nonnegative number, every `?` in a cast no negative number (for `$name` the opposite), and whole-list markers lists |
| InstanceKey.NegativeUnderMinus | src/synnodb/router/normalize.py:199-202 | a negative number under a template's minus sign has another key |
| Literalize.Scan | src/synnodb/router/registration.py:131-159 | collects the parameters in textual order: the k-th `?` with the k-th group's type, a named one with its name's type |
| Literalize.ParameterExactly | src/synnodb/router/registration.py:140-159 | a parameter starts exactly at a `?`, a `$` with a word right behind it, or a `:` with a declared name right behind it; a name gets the type it was last declared with |
| Literalize.LoneParameterExactly | src/synnodb/router/registration.py:137-141 | a `?` gets the type of its group, by the number of `?` before it, or VARCHAR for a literal that packs parameters |
| Literalize.SplicedExactly | src/synnodb/router/registration.py:131-159 | every parameter is collected, and nothing else |
| Literalize.SplicesApart | src/synnodb/router/registration.py:131-159 | the collected parameters are in order, disjoint and inside the text |
| Literalize.SpliceAll | src/synnodb/router/registration.py:161-164 | splicing right to left is simultaneous substitution at the original offsets |
| Literalize.OutsideKept | src/synnodb/router/registration.py:161-164 | every character outside the parameters is kept, in order |
| Literalize.ParameterReplaced | src/synnodb/router/registration.py:161-164 | every parameter has become the typed NULL of its type |
| Literalize.LiteralizeTemplate | src/synnodb/router/registration.py:89-164 | the whole rewriting, with the groups the binder uses |
| Guards.Evaluate | src/synnodb/router/guards.py:143-161 | runs the guards up to the first that does not pass; the trace ends there |
| Registry.TemplateRegistry.Register | src/synnodb/router/registry.py:94-104 | a binding under its key replaces what was there |
| Registry.TemplateRegistry.Quarantine | src/synnodb/router/registry.py:155-157 | sidelines one template and changes nothing else |
| Registry.TemplateRegistry.ClearDirty | src/synnodb/router/registry.py:142-148 | clears the given tables, or all |
| Router.QueryRouter.Route | src/synnodb/router/router.py:237-427 | one decision is a step of the state machine, and where it compares, the verdict is true only if the tables agree, and false only if they do not where the comparison is exact |
| Router.QueryRouter.CrossCheck | src/synnodb/router/router.py:343-427 | from the check on: what is served, counted and sidelined |
| Router.QueryRouter.TallyTrace | src/synnodb/router/router.py:96-116 | what one trace adds to the counters |
| Router.QueryRouter.RecordFailure | src/synnodb/router/router.py:204-219 | counts a failure and sidelines the template at the threshold |
| RouterRuns.CountersConserved | src/synnodb/router/router.py:91-116 | over every run: calls are routed, fell back, reference-served or (in the test mode) refused; checks, mismatches, errors and fallback reasons are each counted once |
| RouterRuns.Perform | src/synnodb/router/registry.py:94-157 | every call and registry operation on a router is the step of the state machine the runs are made of |
| RouterRuns.PerformAll | src/synnodb/router/registry.py:94-157 | a whole sequence of operations on a new router leaves the state of a run of the machine with the router's own verdicts |
| RouterRuns.BreakerStep | src/synnodb/router/router.py:204-222 | what one step does to a template's failure count, quarantine and execution count |
| RouterRuns.QuarantineExplained | src/synnodb/router/router.py:404-421 | over every run: the count is the failures since the last success, and a template is quarantined exactly if it diverged or reached the threshold |
| RouterRuns.QuarantineEarned | src/synnodb/router/router.py:404-421 | over every run with the router's own verdicts: a sidelined template's engine really disagreed with DuckDB, where the comparison is exact, or failed up to the threshold |
| RouterRuns.OwnAnswerSidelined | src/synnodb/router/router.py:404-421 | an engine returning DuckDB's own table, checked, is sidelined exactly if the table holds a NaN |
| RouterRuns.BreakerBound | src/synnodb/router/router.py:204-219 | the count never exceeds a threshold of at least one, and at the threshold the template is quarantined |
| RouterRuns.NeverRunsAgain | src/synnodb/router/registry.py:119-125 | once sidelined, a template's engine is never reached again in the run, registrations included |
| RouterRuns.ExecutionsCounted | src/synnodb/router/router.py:330-333 | the burn-in counter is the number of engine results of the template |
| RouterRuns.BurnInChecked | src/synnodb/router/router.py:135-149 | with sampling on, none of a template's first executions is served without a check that found it equal |
| RouterRuns.EngineServesOnlyEqual | src/synnodb/router/router.py:343-427 | a checked engine serve was found equal; a reference serve is DuckDB's answer; with a rate of at least one every engine serve is checked |
| RouterRuns.InactiveRoutesNothing | src/synnodb/router/router.py:242-251 | with routing off or nothing registered every statement falls back |
| RouterRuns.DirtyNeverRuns | src/synnodb/router/guards.py:108-111 | a template over a changed table never runs |
| RouterLaws.SampledExactly | src/synnodb/router/router.py:135-149 | over every run an engine's answer is checked exactly if sampling is on with a positive rate, there is a connection and DuckDB answers, and it is among the first executions, the rate is full, or the draw is below it; else it is served, or falls back if DuckDB fails |
| RouterLaws.DivergenceCaught | src/synnodb/router/router.py:404-421 | over every honest run an answer due for a check that does not agree is not served: DuckDB's is, and the template is sidelined |
| RouterLaws.EngineRunsExactly | src/synnodb/router/router.py:252-328 | an engine runs exactly if routing is on, the key is registered for a template that is not sidelined and reads no changed table, every other guard passes, and the statement binds |
| RouterLaws.DirtyExactly | src/synnodb/router/registry.py:137-153 | over every run a table is dirty exactly if it was marked and not cleared since |
| RouterLaws.RegisteredExactly | src/synnodb/router/registry.py:94-108 | over every run the binding under a key is the one last registered there, if not removed since |
| RouterLaws.ReachedExactly | src/synnodb/router/router.py:252-328 | the same told from the history alone: which binding was last registered, whether it was sidelined, which tables were marked since |
| RouterLaws.RefusedExactly | src/synnodb/router/router.py:122-133 | a statement is refused exactly in the test mode, when a template matched and nothing was routed |
| RouterLaws.FirstGuardBlamed | src/synnodb/router/guards.py:143-161 | the reason given is that of the first guard that did not pass, in the order ready, read-only, clean tables, schema, placeholders |
| RouterLaws.ReasonsCounted | src/synnodb/router/router.py:112-116 | over every run each reason is recorded as often as a statement fell back for it |
| Connection.SynnoConnection.Execute | src/synnodb/duckdb_compat/connection.py:113-143 | one execute, with or without a router: what is blocked, raised, held and left open, the schema guard's own queries included |
| Connection.ReturnedIsDefended | src/synnodb/duckdb_compat/connection.py:122-133 | under full checking, what a returning statement leaves to be fetched is DuckDB's answer or agrees with it |
| Connection.BlockedExactly | src/synnodb/duckdb_compat/connection.py:115-121 | a statement is blocked exactly if the policy blocks writes and it is one; then only the count of blocked writes changes |
| Connection.BlockedWritesCounted | src/synnodb/router/router.py:118-120 | over every session that counter is the writes this handle was asked, if the policy blocks them, and those blocked on other handles |
| Connection.FetchedIsRead | src/synnodb/duckdb_compat/connection.py:115-121 | over every session that blocks writes, under full checking, what is fetched is defended for a read-only statement of the session, and no write returns |
| Connection.ReturnedFetches | src/synnodb/duckdb_compat/connection.py:122-143 | what a returning statement leaves to be fetched is what was routed, or DuckDB's direct answer if nothing was |
| Connection.SchemaGuardRunsExactly | src/synnodb/router/guards.py:143-161 | the schema guard queries the connection exactly for a registered template that is not sidelined, ready, read-only and over clean tables |
| Connection.OnlyFullCheckingDefends | src/synnodb/router/router.py:135-149 | under any other policy some such session, its comparisons all honest, hands back a table defended for none of its statements |
| Connection.EngineTablesAreFetched | src/synnodb/duckdb_compat/connection.py:122-133 | under full checking with routing on some such session hands back an engine's table |
| Connection.FailureKeepsTheResult | src/synnodb/duckdb_compat/connection.py:113-143 | a statement that is blocked or raises keeps a result held in memory; one still open on the wrapped connection survives a block, and a refusal before the schema guard queries that connection, and nothing else |
| Connection.FetchedIsDefended | src/synnodb/duckdb_compat/connection.py:271-272 | over every session under full checking, with registrations, changed tables and other handles' calls on the shared router, what is fetched is defended for a statement of the session, and after a statement that returned for that one |
| Connection.RunSession | src/synnodb/duckdb_compat/connection.py:113-143 | a whole session on a new handle and a new router leaves the handle and the router as the session of the machine does, with the router's own verdicts |
| Connection.EngineRack.CloseEngines | src/synnodb/duckdb_compat/connection.py:431-447 | closes every registered engine once, however many bindings it backs |
| Connection.SynnoConnection.Cursor | src/synnodb/duckdb_compat/connection.py:417-429 | a new handle on the shared router and count |
| Connection.SynnoConnection.Close | src/synnodb/duckdb_compat/connection.py:449-456 | one count down, and the engines released at zero or below |
| EngineLifetime.CountIsOpenLessRepeats | src/synnodb/duckdb_compat/connection.py:83-91 | over every run the count is the open handles less the repeated closes |
| EngineLifetime.CloseReleases | src/synnodb/duckdb_compat/connection.py:449-456 | a close releases exactly when no more handles are open than closes were repeated |
| EngineLifetime.RepeatedCloseReleasesEarly | src/synnodb/duckdb_compat/connection.py:449-456 | closing a cursor twice releases any registered engine under its open parent |
| EngineLifetime.ReleasedOnceByTheLast | src/synnodb/duckdb_compat/connection.py:417-456 | used properly, engines are released exactly once, by the close of the last handle |
| TraceChannel.LengthRoundTrip | src/synnodb/cpp_runner/db.cpp:46-48 | a 32-bit length is read back from its four bytes |
| TraceChannel.DeliveredWhole | src/synnodb/cpp_runner/db.cpp:46-50 | a payload arrives whole exactly if its size fits 32 bits |
| TraceChannel.TraceReader.TakeChunk | src/synnodb/cpp_runner/db.cpp:145-158 | what one chunk does to the reader's variables |
| TraceChannel.ChunkKeepsKnowledge | src/synnodb/cpp_runner/db.cpp:148-158 | wherever a chunk ends, the reader knows the length and the payload exactly when it has seen them |
| TraceChannel.InvStep | src/synnodb/cpp_runner/db.cpp:90-186 | every step of writer or reader keeps the invariant |
| TraceChannel.NeverStuck | src/synnodb/cpp_runner/db.cpp:87-89 | while a batch is in flight some process can move |
| TraceChannel.StepsSpendWork | src/synnodb/cpp_runner/db.cpp:98-185 | every step but a new request spends work |
| TraceChannel.EveryRunDelivers | src/synnodb/cpp_runner/db.cpp:90-186 | over every run of any number of batches each trace returned is the payload of its own batch, and between batches the pipe is empty |
| TraceChannel.EveryBatchEnds | src/synnodb/cpp_runner/db.cpp:90-186 | no run of a batch is longer than its work, and a run that cannot go on has returned |
| TraceChannel.RunBatch | src/synnodb/cpp_runner/db.cpp:90-186 | one batch under any scheduler returns the payload |
| Json.JsonEscape | src/synnodb/cpp_runner/db.cpp:22-43 | escapes a string character by character |
| Json.ReadStringUndoesEscape | src/synnodb/cpp_runner/db.cpp:22-43 | a reader of section 7 of RFC 8259 reads an escaped string back |
| Json.ReadUndoesRender | src/synnodb/cpp_runner/db_usecase.hpp:59-77 | reading any printed value gives it back, whatever separated text follows |
| Json.DocumentRoundTrip | src/synnodb/cpp_runner/db_usecase.hpp:59-77 | a printed document reads back as its value |
| Json.RenderPrintable | src/synnodb/cpp_runner/db.cpp:25-41 | printed text holds no control character |
| QueryStage.AppendRecord | src/synnodb/cpp_runner/db_usecase.hpp:63-73 | appends the JSON object of one query's result |
| QueryStage.PrintPayload | src/synnodb/cpp_runner/db_usecase.hpp:59-77 | prints the JSON object of all results and the stage error |
| QueryStage.PayloadReadable | src/synnodb/cpp_runner/db_usecase.hpp:59-78 | the payload reads back with all fields exactly if every time is a finite number |
| QueryStage.ElapsedDenotes | src/synnodb/cpp_runner/db_usecase.hpp:66-67 | the text printed for a finite time, read as a decimal, is that time |
| QueryStage.IntegerDenotes | src/synnodb/cpp_runner/db.cpp:230-232 | the text printed for an integer, read as a decimal, is that integer |
| QueryStage.FailureReported | src/synnodb/cpp_runner/db.cpp:238-252 | a killed batch is reported with the number and name of its signal; of the others exactly a stage that threw and a child that did not start are |
| QueryStage.Respond | src/synnodb/cpp_runner/db.cpp:229-256 | writes one response line: for any non-empty object as trace, the object of the header and its members; without a braced trace, of the header, no results and the failure text |
| QueryStage.LineCarriesTrace | src/synnodb/cpp_runner/db.cpp:233-237 | with a trace, the line is the object of the header and the trace's own members |
| QueryStage.LineReportsFailure | src/synnodb/cpp_runner/db.cpp:238-254 | without one, the object of the header, no results and the failure text |
| QueryStage.ResponseReadable | src/synnodb/cpp_runner/db.cpp:229-256 | the response of a finished batch ends in its only newline and reads back with every field exactly if every time is a finite number |
| QueryStage.FailureReadable | src/synnodb/cpp_runner/db.cpp:238-256 | so does the response of a failed one |

## Left out

- SortedMatch.MatchFloatVecs: above 64 rows with several float columns and a tolerance it is only sound on two different groups (and, as stated, equal to sorted pairing); that is the code's own limit.
- SortedMatch.MatchFloatVecsSubset: the same above 64 rows in b, where it is stated to be the scan of the sorted vectors.
- Verdict.ResultsEqual: exactness is claimed for a tolerance below 1 and float columns that hold numbers, NULL, NaN or infinities; a Decimal or numeric string in a float column is an opaque cell that only equals itself, while Python would convert it.
- CandidatePool.CheckWindow: rankings and answers with float cells are outside the window theorems: tolerant keys do not order a ranking.
- Cells.CloseBetween: over real numbers; IEEE rounding and the overflow of a huge integer to float are not modelled.
- Unify.Unifier.Unify: a node's class, present arguments, scalar arguments and list lengths are one tag; a list argument matched against a bare one of the same element is not modelled.
- SqlTree.LooseEqNotTransitive: the text of a tuple is not modelled, so a whole list is never loosely equal to a string that spells it; a decimal keeps its shown text and its amount, not the context's rounding.
- BindingSound.InlineBindingSound: the structural key is a tree; that two different keys never render to the same text is the library's business. Types are taken to hold no placeholders, number literals no sign, and decimals to be shown with number characters.
- BindTemplate.UnifyAndBind: the trees of the template and of the statement are inputs; parsing is not part of this model.
- Literalize.LiteralizeTemplate: tokens and their offsets are inputs, names are words of ASCII letters, digits and underscores, and the final parse and rendering are not modelled.
- Router.QueryRouter.Route: parsing, binding, the guards other than the dirty-table guard, the engine, DuckDB and the random draw enter as the statement's inputs; exception texts are their messages.
- Connection.SynnoConnection.Execute: engine discovery, `executemany`, materialising a fallback result for display, timing and footers are not modelled (a session's registrations before a statement are what discovery does to the router); what the schema guard's queries leave open is an input, and what the cross-check leaves open is hidden by the held result.
- EngineLifetime.ReleasedOnceByTheLast: one family per registry, as `connect()` makes it without a registry argument.
- TraceChannel.EveryRunDelivers: batches whose stage is signalled, throws or fails to start return early in the code without draining the trace, and are left out, as are EINTR, end of file, hang-ups and poll errors; the order trace before done is the documented one, pipeline.hpp is not part of this model.
- QueryStage.PayloadReadable: a byte of the text is one character, so UTF-8 decoding is not modelled; the reader takes no white space between tokens and no surrogate escapes.
- `order_by_key_indices`, `top_level_limit_offset`, `widened_query`, `same_statement`: they depend on the parser; their results are inputs here.
- `results_diff`: documented as approximate.
- The binding of explicit parameters and of concrete-example templates: it compares no template constants; only its outcome enters the router.
- `reset_quarantine`: the runs are those without it.
- Locks: the registry's methods are taken as atomic.
- The factory, the dashboard, prompts, shared-memory transport and process plumbing.
