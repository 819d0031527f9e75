# Adapper core in Dafny

Adapper is an Android library of RecyclerView adapters. This project models the
parts of it that compute something, and proves properties of those models:

- **ListUtils.** It diffs an old and a new list of items. Insertions and
  deletions are sparse boolean arrays keyed by index. Reorderings are a sparse
  int array that maps a new index to an old index. They come from a table of
  moves, net move scores corrected for insertions and deletions, and a loop
  that repeatedly extracts the largest move and shifts the scores it passes.
- **SparseArrayUtils.** It combines sparse arrays, iterates over their entries
  and finds the contiguous range of a boolean array's keys.
- **GroupableAdapper.** It lays items out under group headers. It covers the
  category positions (the index of each group's first item), the mapping
  between flat positions and item or header indices, and the relabelling of
  change sets into flat positions.
- **RecursiveAdapper.** It concatenates child adapters. It covers the item
  count, which child a position falls in, position offsets (current and as of
  the last update), the count snapshot taken on change, and child change sets
  shifted into the parent's positions.
- **FunctionList.** It is a read-through list whose elements are a function
  of an underlying list's elements.
- **InvertedSpanSizeLookup.** It works out grid spans from gcd, lcm and a
  span table.
- **CompareUtils and GroupComparatorImpl.** They compose comparators
  lexicographically and compare values that may be null.
- **MultiSelectManager, RadioSelectManager and NaiveLookup.** They hold
  selection state keyed by item id, and look up models by id.

Other notes on the model:

- Android's `SparseBooleanArray` and `SparseIntArray` (library classes) become
  one value type, `SparseArrays.SparseArray`. Its keys are strictly ascending,
  which gives `keyAt` order, with `put`, `get`, `delete` and `append`.
- Java `null` becomes `Option.None`.
- A comparator is a function to `int`.
- An adapter is represented by the few values a routine reads from it (item
  ids, counts, models, change sets).
- Code that changes state step by step is modelled as methods with loop
  invariants, proved against pure functions that define their results. This covers the list
  helpers, the relabelling loops, gcd, lcm and the selection managers. Score
  lists are updated in place in an `array<int>`. Adapters and managers are
  classes whose methods update their fields.

## Model

Source paths are relative to the repository root.

| member | source | states |
|---|---|---|
| ListUtils.IndexOf | adapper/src/main/java/com/scopely/adapper/utils/ListUtils.java:101 | List.indexOf: -1 exactly when the item is absent; otherwise the first index holding it |
| ListUtils.GetInsertions | adapper/src/main/java/com/scopely/adapper/utils/ListUtils.java:39-51 | no old list gives an empty result; otherwise key k is present iff new[k] occurs nowhere in the old list, and every value is true |
| ListUtils.GetDeletions | adapper/src/main/java/com/scopely/adapper/utils/ListUtils.java:60-72 | no old list gives an empty result; otherwise key k is present iff old[k] occurs nowhere in the new list, and every value is true |
| ListUtils.NewMoves | adapper/src/main/java/com/scopely/adapper/utils/ListUtils.java:100-104 | entry n of the table pairs new index n with the first old index of new[n] (NOT_PRESENT when absent) |
| ListUtils.DeletedMovesShape | adapper/src/main/java/com/scopely/adapper/utils/ListUtils.java:105-109 | the tail of the table lists exactly the old indices whose item is absent from the new list, ascending, each paired with NOT_PRESENT |
| ListUtils.CalculateMoves | adapper/src/main/java/com/scopely/adapper/utils/ListUtils.java:97-112 | the loops build exactly the move table: new-index entries first, then deletions; empty without an old list |
| ListUtils.MoveTableNewEntries | adapper/src/main/java/com/scopely/adapper/utils/ListUtils.java:100-104 | entry k < new size of the move table is (indexOf(new[k]), k) |
| ListUtils.MoveTableWellFormed | adapper/src/main/java/com/scopely/adapper/utils/ListUtils.java:119 | the move table has the shape later routines assume: all deletions after the new-index entries |
| ListUtils.RawScoresAligned | adapper/src/main/java/com/scopely/adapper/utils/ListUtils.java:124-132 | on a well-formed table the raw scores have one entry per new index: new - old for a move, 0 for an insertion |
| ListUtils.AboveWellFormed | adapper/src/main/java/com/scopely/adapper/utils/ListUtils.java:239-247 | the new indices of entries whose old index exceeds the given one are exactly those positions, in ascending order |
| ListUtils.GetNewIndicesOfOldIndicesAboveIndex | adapper/src/main/java/com/scopely/adapper/utils/ListUtils.java:239-247 | the loop returns exactly that list of new indices, in table order |
| ListUtils.CorrectedClosedForm | adapper/src/main/java/com/scopely/adapper/utils/ListUtils.java:189-206 | after the first k corrections each score equals its closed form, counted from insertions and deletions directly |
| ListUtils.NetMoveScoresClosedForm | adapper/src/main/java/com/scopely/adapper/utils/ListUtils.java:124-135 | the corrected score of an insertion is 0; any other entry scores new - old, minus the insertions before it, plus the deleted old indices below its own |
| ListUtils.CorrectForInsertion | adapper/src/main/java/com/scopely/adapper/utils/ListUtils.java:192-197 | for an insertion entry, every later score from a non-inserted entry loses 1, in place; nothing else changes |
| ListUtils.CorrectForDeletion | adapper/src/main/java/com/scopely/adapper/utils/ListUtils.java:198-203 | for a deletion entry, every score of an entry whose old index is above the deleted one gains 1, in place |
| ListUtils.CleanNetMoveList | adapper/src/main/java/com/scopely/adapper/utils/ListUtils.java:189-206 | the array afterwards is the old scores with all table corrections applied in order |
| ListUtils.CalculateNetMoveScores | adapper/src/main/java/com/scopely/adapper/utils/ListUtils.java:124-135 | returns a fresh array holding exactly the corrected net move scores |
| ListUtils.HighestNetMove | adapper/src/main/java/com/scopely/adapper/utils/ListUtils.java:216-227 | -1 iff every score is 0; otherwise an index of maximal absolute score with every earlier score strictly smaller |
| ListUtils.IndexOfHighestNetMove | adapper/src/main/java/com/scopely/adapper/utils/ListUtils.java:216-227 | the scan over the array returns that index |
| ListUtils.CascadeUp | adapper/src/main/java/com/scopely/adapper/utils/ListUtils.java:153-158 | every score from index - score up to the chosen index whose entry has both indexes gains one; all other scores are unchanged |
| ListUtils.CascadeDown | adapper/src/main/java/com/scopely/adapper/utils/ListUtils.java:159-164 | every score from index - score down past the chosen index whose entry has both indexes loses one; all other scores are unchanged |
| ListUtils.ExtractReordering | adapper/src/main/java/com/scopely/adapper/utils/ListUtils.java:145-169 | no move: false, array and reorderings unchanged; a move: records new -> old, zeroes its score and shifts the cascade in place; a cascade beyond the table is reported as the out-of-bounds failure |
| ListUtils.RunMoved | adapper/src/main/java/com/scopely/adapper/utils/ListUtils.java:85 | a step that found a move hands the loop on to the new scores and reorderings |
| ListUtils.ExtractTurn | adapper/src/main/java/com/scopely/adapper/utils/ListUtils.java:85 | one turn of the loop either finishes with the loop's result or continues from the updated state with the same eventual result |
| ListUtils.ExtractAll | adapper/src/main/java/com/scopely/adapper/utils/ListUtils.java:83-86 | the loop over the score array returns what the extraction process gives from an empty reordering table, within the fuel bound |
| ListUtils.GetReorderings | adapper/src/main/java/com/scopely/adapper/utils/ListUtils.java:81-87 | returns the extraction process run on the move table and its net move scores |
| ListUtilsProperties.ScoresStartSilent | adapper/src/main/java/com/scopely/adapper/utils/ListUtils.java:129-130 | initially every insertion entry scores 0 |
| ListUtilsProperties.StepKeepsInvariants | adapper/src/main/java/com/scopely/adapper/utils/ListUtils.java:145-169 | an extraction step keeps insertion scores at 0 and records only moved table entries |
| ListUtilsProperties.RunRecorded | adapper/src/main/java/com/scopely/adapper/utils/ListUtils.java:85 | whatever the loop records is a table entry with an old index |
| ListUtilsProperties.ReorderRecorded | adapper/src/main/java/com/scopely/adapper/utils/ListUtils.java:81-87 | a finished getReorderings records only moved entries of the move table |
| ListUtilsProperties.ReorderingsMatchItems | adapper/src/main/java/com/scopely/adapper/utils/ListUtils.java:81-87 | each returned k -> v has k a new index and v the first old index holding new[k]; none without an old list |
| ListUtilsProperties.RunFuelMonotone | adapper/src/main/java/com/scopely/adapper/utils/ListUtils.java:85 | more steps than a finished run needed change nothing, so the fuel bound does not alter results |
| ListUtilsProperties.QuietRun | adapper/src/main/java/com/scopely/adapper/utils/ListUtils.java:146-147 | with every score 0 the loop stops at once with the reorderings it was given |
| ListUtilsProperties.ReorderWithoutOldList | adapper/src/main/java/com/scopely/adapper/utils/ListUtils.java:99 | without an old list there are no reorderings |
| ListUtilsProperties.UnchangedTable | adapper/src/main/java/com/scopely/adapper/utils/ListUtils.java:97-112 | a list without repeats compared with itself: every entry keeps its index |
| ListUtilsProperties.IdentityScoresZero | adapper/src/main/java/com/scopely/adapper/utils/ListUtils.java:124-135 | a table in which every entry keeps its index scores 0 everywhere |
| ListUtilsProperties.ReorderUnchanged | adapper/src/main/java/com/scopely/adapper/utils/ListUtils.java:81-87 | a list without repeats compared with itself has no reorderings |
| ListUtilsProperties.ReorderNothingShared | adapper/src/main/java/com/scopely/adapper/utils/ListUtils.java:81-87 | lists with no common item have no reorderings |
| ListUtilsScenarios.PermutationTable | adapper/src/main/java/com/scopely/adapper/utils/ListUtils.java:97-112 | a rearrangement of a list without repeats has a table of pure moves |
| ListUtilsScenarios.PermutationScores | adapper/src/main/java/com/scopely/adapper/utils/ListUtils.java:124-135 | on such a table the net move score of p is p - sigma(p) |
| ListUtilsScenarios.HighestIs | adapper/src/main/java/com/scopely/adapper/utils/ListUtils.java:216-227 | an index with nonzero maximal absolute score, strictly above all earlier ones, is the one chosen |
| ListUtilsScenarios.StepDown | adapper/src/main/java/com/scopely/adapper/utils/ListUtils.java:159-164 | a negative highest score zeroes it and subtracts 1 over the cascade above it |
| ListUtilsScenarios.StepUp | adapper/src/main/java/com/scopely/adapper/utils/ListUtils.java:153-158 | a positive highest score zeroes it and adds 1 over the cascade below it |
| ListUtilsScenarios.TestSwapLastTwo | adapper/src/test/java/com/scopely/adapper/utils/ListUtilsTest.java:86-91 | 0..5 to 0,1,2,3,5,4 gives exactly {4 -> 5} |
| ListUtilsScenarios.TestLastToFront | adapper/src/test/java/com/scopely/adapper/utils/ListUtilsTest.java:93-98 | 0..5 to 5,0,1,2,3,4 gives exactly {0 -> 5} |
| ListUtilsScenarios.TestTwoToFront | adapper/src/test/java/com/scopely/adapper/utils/ListUtilsTest.java:100-106 | 0..5 to 5,0,4,1,2,3 gives exactly {0 -> 5, 2 -> 4} |
| ListUtilsScenarios.TestSwapLastTwoBack | adapper/src/test/java/com/scopely/adapper/utils/ListUtilsTest.java:108-113 | 0,1,2,3,5,4 to 0..5 gives exactly {4 -> 5} |
| ListUtilsScenarios.TestFrontToLast | adapper/src/test/java/com/scopely/adapper/utils/ListUtilsTest.java:115-120 | 5,0,1,2,3,4 to 0..5 gives exactly {5 -> 0} |
| ListUtilsScenarios.TestTwoToBack | adapper/src/test/java/com/scopely/adapper/utils/ListUtilsTest.java:122-128 | 5,0,4,1,2,3 to 0..5 gives exactly {4 -> 2, 5 -> 0} |
| ListUtilsScenarios.TestSwapEnds | adapper/src/test/java/com/scopely/adapper/utils/ListUtilsTest.java:130-136 | 0..5 to 5,1,2,3,4,0 gives exactly {0 -> 5, 5 -> 0} |
| ListUtilsCascade.CascadeLeavesTable | adapper/src/main/java/com/scopely/adapper/utils/ListUtils.java:159-164 | old [0,1,2,3], new [2,0,3,1]: the second step's cascade reads past the move table |
| ListUtilsCascade.ExtractStepClamped | adapper/src/main/java/com/scopely/adapper/utils/ListUtils.java:145-169 | the extraction step with its cascade cut to the table never fails |
| ListUtilsCascade.ClampedStepAgrees | adapper/src/main/java/com/scopely/adapper/utils/ListUtils.java:153-164 | wherever the cascade as written stays in the table the corrected step does the same |
| ListUtilsCascade.RunClamped | adapper/src/main/java/com/scopely/adapper/utils/ListUtils.java:85 | the `while` loop of getReorderings with the corrected step, under a fuel bound (with TurnClamped, one call of the step); a finished loop hands back a well-formed table |
| ListUtilsCascade.ReorderClamped | adapper/src/main/java/com/scopely/adapper/utils/ListUtils.java:81-87 | the corrected getReorderings: the move table and its net move scores run through the corrected step; without an old list it finds nothing |
| ListUtilsCascade.ReorderClampedInBounds | adapper/src/main/java/com/scopely/adapper/utils/ListUtils.java:81-87 | the corrected process never reads outside the move table, whatever the lists: it never ends in the out-of-bounds failure |
| ListUtilsCascade.ReorderClampedAgrees | adapper/src/main/java/com/scopely/adapper/utils/ListUtils.java:81-87 | whenever the code as written returns, the corrected one returns the same reorderings |
| ListUtilsCascade.StepClampedKeepsInvariants | adapper/src/main/java/com/scopely/adapper/utils/ListUtils.java:145-169 | the corrected step keeps insertion scores at 0 and records only moved entries |
| ListUtilsCascade.RunClampedRecorded | adapper/src/main/java/com/scopely/adapper/utils/ListUtils.java:85 | the corrected loop records only moved entries |
| ListUtilsCascade.ReorderClampedMatchesItems | adapper/src/main/java/com/scopely/adapper/utils/ListUtils.java:81-87 | the corrected result still pairs each new index with the first old index of the same item |
| SparseArrayUtils.AppendAll | adapper/src/main/java/com/scopely/adapper/utils/SparseArrayUtils.java:36-38 | appending every entry of one array gives the union of contents, the appended array winning on shared keys |
| SparseArrayUtils.Combine | adapper/src/main/java/com/scopely/adapper/utils/SparseArrayUtils.java:33-51 | the combined array holds the left-to-right merge of all arrays' contents |
| SparseArrayUtils.MergedKeys | adapper/src/main/java/com/scopely/adapper/utils/SparseArrayUtils.java:33-51 | a key is in the merge iff some array holds it |
| SparseArrayUtils.CombinedKeys | adapper/src/main/java/com/scopely/adapper/utils/SparseArrayUtils.java:33-51 | a key is in the combined array iff some argument holds it |
| SparseArrayUtils.GetRange | adapper/src/main/java/com/scopely/adapper/utils/SparseArrayUtils.java:141-155 | the loop returns the range as the code computes it: null for no keys or a gap, else (smallest, largest) with both starting at 0 |
| SparseArrayUtils.ContiguousRangeCorrect | adapper/src/main/java/com/scopely/adapper/utils/SparseArrayUtils.java:134-139 | the documented range is present iff the keys are nonempty and contiguous, and then holds exactly the keys |
| SparseArrayUtils.RangeAsWrittenAgrees | adapper/src/main/java/com/scopely/adapper/utils/SparseArrayUtils.java:141-155 | the code agrees with the documented range when there are fewer than two keys or they straddle 0 |
| SparseArrayUtils.RangeAsWrittenMisreports | adapper/src/main/java/com/scopely/adapper/utils/SparseArrayUtils.java:144-145 | keys {3, 4} give (0, 4) although 0 is not a key; the documented answer is (3, 4) |
| SparseArrayUtils.EntryIterator.constructor | adapper/src/main/java/com/scopely/adapper/utils/SparseArrayUtils.java:57-58 | a new iterator stands before the first entry |
| SparseArrayUtils.EntryIterator.HasNext | adapper/src/main/java/com/scopely/adapper/utils/SparseArrayUtils.java:61-63 | true iff entries remain |
| SparseArrayUtils.EntryIterator.Next | adapper/src/main/java/com/scopely/adapper/utils/SparseArrayUtils.java:66-69 | advances the cursor and yields the next key and value; remaining entries drop their head |
| SparseArrayUtils.EntryIterator.Remove | adapper/src/main/java/com/scopely/adapper/utils/SparseArrayUtils.java:72-74 | deletes the key under the cursor without moving the cursor, so the following entry is skipped |
| SparseArrayUtils.EntryIterator.RemoveCorrected | adapper/src/main/java/com/scopely/adapper/utils/SparseArrayUtils.java:72-74 | deletes the key under the cursor and steps back, so the remaining entries are unchanged |
| SparseArrayUtils.Entries | adapper/src/main/java/com/scopely/adapper/utils/SparseArrayUtils.java:53-78 | iterating visits every entry once, in key order |
| SparseArrayUtils.RemoveEach | adapper/src/main/java/com/scopely/adapper/utils/SparseArrayUtils.java:53-78 | removing each entry during iteration, with the corrected remove, empties the array |
| SparseArrayUtils.RemoveEachAsWritten | adapper/src/main/java/com/scopely/adapper/utils/SparseArrayUtils.java:72-74 | keys {1, 2, 3} with remove as written: only 1 and 3 are visited and key 2 is left behind |
| GroupableAdapters.StartsFacts | adapper/src/main/java/com/scopely/adapper/adapters/GroupableAdapper.java:117-126 | the prefix positions ascend, start at 0 and are exactly the group-opening indices |
| GroupableAdapters.CategoryPositionsValid | adapper/src/main/java/com/scopely/adapper/adapters/GroupableAdapper.java:115-129 | category positions start at 0, ascend, lie below the list size, and are exactly the indices whose group differs from the previous item's |
| GroupableAdapters.GenerateCategoryPositions | adapper/src/main/java/com/scopely/adapper/adapters/GroupableAdapper.java:115-129 | the loop returns those category positions |
| GroupableAdapters.Leading | adapper/src/main/java/com/scopely/adapper/adapters/GroupableAdapper.java:270-276 | counts the leading entries not above x, stopping at the first larger one |
| GroupableAdapters.LeadingMonotone | adapper/src/main/java/com/scopely/adapper/adapters/GroupableAdapper.java:270-276 | the count grows with x |
| GroupableAdapters.HeaderPositions | adapper/src/main/java/com/scopely/adapper/adapters/GroupableAdapper.java:281-283 | one header position per group |
| GroupableAdapters.ItemToSuperPosition | adapper/src/main/java/com/scopely/adapper/adapters/GroupableAdapper.java:268-279 | the loop gives index plus the number of groups starting at or before it, and that position decodes back to the index |
| GroupableAdapters.ItemInGroup | adapper/src/main/java/com/scopely/adapper/adapters/GroupableAdapper.java:251-256 | an item of group g sits at j + g + 1 and decodes back to j |
| GroupableAdapters.ItemRoundTrip | adapper/src/main/java/com/scopely/adapper/adapters/GroupableAdapper.java:243-279 | superPositionToIndex(listIndextoSuperPosition(j)) == j |
| GroupableAdapters.HeaderRoundTrip | adapper/src/main/java/com/scopely/adapper/adapters/GroupableAdapper.java:243-283 | the header position of group k decodes to -(k + 1) |
| GroupableAdapters.PositionDecoded | adapper/src/main/java/com/scopely/adapper/adapters/GroupableAdapper.java:243-283 | every nonnegative position decodes to an item whose position it is, or a header whose position it is |
| GroupableAdapters.PositionsCovered | adapper/src/main/java/com/scopely/adapper/adapters/GroupableAdapper.java:138-140 | every position below items + groups decodes to an existing item or an existing header |
| GroupableAdapters.LayoutInRange | adapper/src/main/java/com/scopely/adapper/adapters/GroupableAdapper.java:268-283 | item and header positions lie below items + groups and never collide |
| GroupableAdapters.ItemPositionMonotone | adapper/src/main/java/com/scopely/adapper/adapters/GroupableAdapper.java:268-279 | items keep their order in the flat layout |
| GroupableAdapters.SuperPositionToIndex | adapper/src/main/java/com/scopely/adapper/adapters/GroupableAdapper.java:243-262 | the nested loops with early returns compute the decoding: an item index, or -(k + 1) for header k |
| GroupableAdapters.GetDelegate | adapper/src/main/java/com/scopely/adapper/adapters/GroupableAdapper.java:226-233 | a header delegate names the group whose header is at the position; an item delegate names the item at it |
| GroupableAdapters.TranslationMonotone | adapper/src/main/java/com/scopely/adapper/adapters/GroupableAdapper.java:268-283 | item and header relabelling keep the order of indices |
| GroupableAdapters.Translate | adapper/src/main/java/com/scopely/adapper/adapters/GroupableAdapper.java:268-283 | computes the item or header position of an index |
| GroupableAdapters.RelabelledFind | adapper/src/main/java/com/scopely/adapper/adapters/GroupableAdapper.java:285-351 | a relabelled array finds each old entry's value under its new key, and has no other keys |
| GroupableAdapters.RelabelFlags | adapper/src/main/java/com/scopely/adapper/adapters/GroupableAdapper.java:285-339 | the put loop gives the entries under translated keys with values unchanged |
| GroupableAdapters.RelabelMoves | adapper/src/main/java/com/scopely/adapper/adapters/GroupableAdapper.java:307-351 | the put loop translates both keys and values |
| GroupableAdapters.CleanInsertions | adapper/src/main/java/com/scopely/adapper/adapters/GroupableAdapper.java:285-294 | insertion keys become item positions in the next layout, values unchanged |
| GroupableAdapters.CleanDeletions | adapper/src/main/java/com/scopely/adapper/adapters/GroupableAdapper.java:296-305 | deletion keys become item positions in the current layout |
| GroupableAdapters.CleanReorderings | adapper/src/main/java/com/scopely/adapper/adapters/GroupableAdapper.java:307-318 | keys become positions in the next layout, values positions in the current one |
| GroupableAdapters.CleanCategoryInsertions | adapper/src/main/java/com/scopely/adapper/adapters/GroupableAdapper.java:320-329 | category insertion keys become header positions in the next layout |
| GroupableAdapters.CleanCategoryDeletions | adapper/src/main/java/com/scopely/adapper/adapters/GroupableAdapper.java:330-339 | category deletion keys become header positions in the current layout |
| GroupableAdapters.CleanCategoryReorderings | adapper/src/main/java/com/scopely/adapper/adapters/GroupableAdapper.java:340-351 | keys become next header positions, values current header positions |
| GroupableAdapters.GroupableAdapter.constructor | adapper/src/main/java/com/scopely/adapper/adapters/GroupableAdapper.java:63-103 | the adapter starts with category positions consistent with its visible list |
| GroupableAdapters.GroupableAdapter.OnChanged | adapper/src/main/java/com/scopely/adapper/adapters/GroupableAdapper.java:106-110 | takes the new visible list and regenerates the category positions from it |
| GroupableAdapters.GroupableAdapter.GetItemCount | adapper/src/main/java/com/scopely/adapper/adapters/GroupableAdapper.java:138-140 | items plus groups, and every position below it decodes to an existing item or header |
| GroupableAdapters.GroupableAdapter.IsGroup | adapper/src/main/java/com/scopely/adapper/adapters/GroupableAdapper.java:354-356 | true iff superPositionToIndex is negative: the position is some group's header position, or below 0 |
| GroupableAdapters.GroupableAdapter.ListIndexToSuperPosition | adapper/src/main/java/com/scopely/adapper/adapters/GroupableAdapper.java:264-266 | an item's flat position, which decodes back to it and lies below the item count |
| RecursiveAdapters.BeforeMonotone | adapper/src/main/java/com/scopely/adapper/adapters/RecursiveAdapper.java:139-149 | the count before a child never decreases along the list |
| RecursiveAdapters.FirstIndex | adapper/src/main/java/com/scopely/adapper/adapters/RecursiveAdapper.java:142-146 | the first child with the given identity, or the end if there is none |
| RecursiveAdapters.DistinctOffset | adapper/src/main/java/com/scopely/adapper/adapters/RecursiveAdapper.java:139-149 | with distinct children, a child's offset is the count of the children before it |
| RecursiveAdapters.LocatesUnique | adapper/src/main/java/com/scopely/adapper/adapters/RecursiveAdapper.java:168-177 | a position falls in at most one child, at one local position |
| RecursiveAdapters.ItemLocated | adapper/src/main/java/com/scopely/adapper/adapters/RecursiveAdapper.java:168-177 | local position q of child k is located at its offset plus q |
| RecursiveAdapters.LocatedOffset | adapper/src/main/java/com/scopely/adapper/adapters/RecursiveAdapper.java:139-177 | getSuperIndex of a located position gives the position back |
| RecursiveAdapters.ViewTypesMembers | adapper/src/main/java/com/scopely/adapper/adapters/RecursiveAdapper.java:86-91 | a view type is collected iff some child has it |
| RecursiveAdapters.SnapshotAt | adapper/src/main/java/com/scopely/adapper/adapters/RecursiveAdapper.java:205-210 | when children with one identity agree, the snapshot records every child's count |
| RecursiveAdapters.SnapshotOffsets | adapper/src/main/java/com/scopely/adapper/adapters/RecursiveAdapper.java:151-166 | when children with one identity agree, offsets recorded after the snapshot equal the current ones |
| RecursiveAdapters.InsertionsAt | adapper/src/main/java/com/scopely/adapper/adapters/RecursiveAdapper.java:232-245 | a key is in the combined insertions iff a reorderable child has it shifted by its current offset; values true |
| RecursiveAdapters.DeletionsAt | adapper/src/main/java/com/scopely/adapper/adapters/RecursiveAdapper.java:248-261 | a key is in the combined deletions iff a reorderable child has it shifted by its offset at the last update |
| RecursiveAdapters.ReorderingAt | adapper/src/main/java/com/scopely/adapper/adapters/RecursiveAdapper.java:264-279 | a child's reordering survives under its shifted key unless a later reorderable child has the same key; its value is the old index shifted by the child's offset at the last update |
| RecursiveAdapters.ReorderingsStep | adapper/src/main/java/com/scopely/adapper/adapters/RecursiveAdapper.java:264-279 | adding one child: a position it moves takes its shifted move, any other position keeps what the earlier children gave it |
| RecursiveAdapters.ReorderingsAt | adapper/src/main/java/com/scopely/adapper/adapters/RecursiveAdapper.java:264-279 | a key is in the combined reorderings iff some reorderable child moves it under its current offset; the value is the last such child's old index shifted by that child's offset at the last update |
| RecursiveAdapters.PutFlags | adapper/src/main/java/com/scopely/adapper/adapters/RecursiveAdapper.java:237-241 | the inner loop puts a child's flags shifted by its offset over the list |
| RecursiveAdapters.PutMoves | adapper/src/main/java/com/scopely/adapper/adapters/RecursiveAdapper.java:269-275 | the inner loop puts a child's moves, keys shifted by the current and values by the old offset |
| RecursiveAdapters.RecursiveAdapter.constructor | adapper/src/main/java/com/scopely/adapper/adapters/RecursiveAdapper.java:53-64 | starts with the given children, their view types and no snapshot |
| RecursiveAdapters.RecursiveAdapter.SetViewTypes | adapper/src/main/java/com/scopely/adapper/adapters/RecursiveAdapper.java:86-91 | the view types become exactly the union of the children's |
| RecursiveAdapters.RecursiveAdapter.AddAdapter | adapper/src/main/java/com/scopely/adapper/adapters/RecursiveAdapper.java:67-71 | appends the child and keeps the view types in step |
| RecursiveAdapters.RecursiveAdapter.AddAdapterAt | adapper/src/main/java/com/scopely/adapper/adapters/RecursiveAdapper.java:74-78 | inserts the child at an index in range; an index out of range fails and changes nothing |
| RecursiveAdapters.RecursiveAdapter.RemoveAdapter | adapper/src/main/java/com/scopely/adapper/adapters/RecursiveAdapper.java:81-84 | removes the first occurrence of the child, if any |
| RecursiveAdapters.RecursiveAdapter.GetItemCount | adapper/src/main/java/com/scopely/adapper/adapters/RecursiveAdapper.java:94-100 | the sum of the children's counts |
| RecursiveAdapters.RecursiveAdapter.GetSuperIndex | adapper/src/main/java/com/scopely/adapper/adapters/RecursiveAdapper.java:139-149 | the local position plus the counts of the children before the first occurrence of the source |
| RecursiveAdapters.RecursiveAdapter.GetSuperIndexAtLastUpdate | adapper/src/main/java/com/scopely/adapper/adapters/RecursiveAdapper.java:151-166 | the same with the counts recorded at the last update, 0 for children never recorded |
| RecursiveAdapters.RecursiveAdapter.GetInternalAdapter | adapper/src/main/java/com/scopely/adapper/adapters/RecursiveAdapper.java:168-177 | null iff there are no children or the position is at or past the total; otherwise the unique child and local position holding it |
| RecursiveAdapters.ViewTypesAgree | adapper/src/main/java/com/scopely/adapper/adapters/RecursiveAdapper.java:86-91 | children with the same view types, position by position, give the same union, so a refresh that keeps them keeps the adapter's view types correct |
| RecursiveAdapters.RecursiveAdapter.OnChanged | adapper/src/main/java/com/scopely/adapper/adapters/RecursiveAdapper.java:205-210 | each child is replaced by its state after its own refresh and that count is recorded over the old map; when children with one identity agree, recorded offsets then equal current ones; view types stay as they were |
| RecursiveAdapters.RecursiveAdapter.GetInsertions | adapper/src/main/java/com/scopely/adapper/adapters/RecursiveAdapper.java:232-245 | the result holds every reorderable child's insertions shifted by its current offset |
| RecursiveAdapters.RecursiveAdapter.GetDeletions | adapper/src/main/java/com/scopely/adapper/adapters/RecursiveAdapper.java:248-261 | the result holds every reorderable child's deletions shifted by its offset at the last update |
| RecursiveAdapters.RecursiveAdapter.GetReorderings | adapper/src/main/java/com/scopely/adapper/adapters/RecursiveAdapper.java:264-279 | the result holds every reorderable child's reorderings, keys and values shifted as described |
| FunctionLists.Mapped | adapper/src/main/java/com/scopely/adapper/utils/FunctionList.java:78-81 | element i of the presented list is the function applied to underlying element i |
| FunctionLists.LastMatch | adapper/src/main/java/com/scopely/adapper/utils/FunctionList.java:120-128 | the last matching index within the scanned range, or -1 iff none matches |
| FunctionLists.LastMatchFromOne | adapper/src/main/java/com/scopely/adapper/utils/FunctionList.java:120-128 | a scan stopping before index 1 agrees with the full scan except when the only match is at 0, where it gives -1 |
| FunctionLists.LastIndexOfMissesFirst | adapper/src/main/java/com/scopely/adapper/utils/FunctionList.java:123 | on [x], lastIndexOf(x) as written is -1, while the full scan finds 0 |
| FunctionLists.FunctionList.constructor | adapper/src/main/java/com/scopely/adapper/utils/FunctionList.java:35-38 | wraps the given list and function |
| FunctionLists.FunctionList.Get | adapper/src/main/java/com/scopely/adapper/utils/FunctionList.java:78-81 | the presented element at the location |
| FunctionLists.FunctionList.Size | adapper/src/main/java/com/scopely/adapper/utils/FunctionList.java:213-216 | the number of presented elements |
| FunctionLists.FunctionList.IsEmpty | adapper/src/main/java/com/scopely/adapper/utils/FunctionList.java:93-96 | true iff nothing is presented |
| FunctionLists.FunctionList.IndexOf | adapper/src/main/java/com/scopely/adapper/utils/FunctionList.java:83-91 | -1 iff the object is not presented; otherwise the first index presenting it |
| FunctionLists.FunctionList.Contains | adapper/src/main/java/com/scopely/adapper/utils/FunctionList.java:65-68 | true iff the object is presented |
| FunctionLists.FunctionList.ContainsAll | adapper/src/main/java/com/scopely/adapper/utils/FunctionList.java:70-76 | true iff every element of the collection is presented |
| FunctionLists.FunctionList.LastIndexOf | adapper/src/main/java/com/scopely/adapper/utils/FunctionList.java:120-128 | as written: the last match among indices 1 and up, so never 0 |
| FunctionLists.FunctionList.LastIndexOfCorrected | adapper/src/main/java/com/scopely/adapper/utils/FunctionList.java:120-128 | -1 iff the object is not presented; otherwise the last index presenting it |
| FunctionLists.FunctionList.Remove | adapper/src/main/java/com/scopely/adapper/utils/FunctionList.java:188-191 | removes the underlying element and returns its image; the presented list loses that element |
| FunctionLists.FunctionList.RemoveObject | adapper/src/main/java/com/scopely/adapper/utils/FunctionList.java:193-196 | reports false and changes nothing |
| FunctionLists.FunctionList.RemoveAll | adapper/src/main/java/com/scopely/adapper/utils/FunctionList.java:198-201 | reports false and changes nothing |
| FunctionLists.FunctionList.RetainAll | adapper/src/main/java/com/scopely/adapper/utils/FunctionList.java:203-206 | reports false and changes nothing |
| FunctionLists.FunctionList.Mutate | adapper/src/main/java/com/scopely/adapper/utils/FunctionList.java:40-58 | add, addAll, set and the list iterator's add and set are unsupported and change nothing |
| FunctionLists.FunctionList.SubList | adapper/src/main/java/com/scopely/adapper/utils/FunctionList.java:218-222 | a new function list over the slice, presenting the slice of the elements |
| FunctionLists.FunctionList.Clear | adapper/src/main/java/com/scopely/adapper/utils/FunctionList.java:60-63 | empties the underlying and so the presented list |
| FunctionLists.FunctionList.ToArray | adapper/src/main/java/com/scopely/adapper/utils/FunctionList.java:224-246 | the presented elements in index order |
| SpanSizeLookups.GcdOf | adapper/src/main/java/com/scopely/adapper/extras/InvertedSpanSizeLookup.java:46-53 | Euclid's gcd, positive when either argument is |
| SpanSizeLookups.GcdDivides | adapper/src/main/java/com/scopely/adapper/extras/InvertedSpanSizeLookup.java:46-53 | the gcd divides both arguments |
| SpanSizeLookups.GcdGreatest | adapper/src/main/java/com/scopely/adapper/extras/InvertedSpanSizeLookup.java:46-53 | every common divisor divides the gcd |
| SpanSizeLookups.JavaRem | adapper/src/main/java/com/scopely/adapper/extras/InvertedSpanSizeLookup.java:49 | Java's remainder: magnitude below the divisor, sign of the dividend |
| SpanSizeLookups.Gcd | adapper/src/main/java/com/scopely/adapper/extras/InvertedSpanSizeLookup.java:46-53 | the loop computes the gcd on naturals, with gcd(a, 0) == a; a nonpositive b returns a |
| SpanSizeLookups.LcmOf | adapper/src/main/java/com/scopely/adapper/extras/InvertedSpanSizeLookup.java:61-63 | a * (b / gcd) is positive and divisible by both arguments |
| SpanSizeLookups.Lcm | adapper/src/main/java/com/scopely/adapper/extras/InvertedSpanSizeLookup.java:61-63 | computed through the gcd loop, and divisible by both arguments |
| SpanSizeLookups.LcmFold | adapper/src/main/java/com/scopely/adapper/extras/InvertedSpanSizeLookup.java:65-69 | the left fold of lcm is positive |
| SpanSizeLookups.LcmFoldDivides | adapper/src/main/java/com/scopely/adapper/extras/InvertedSpanSizeLookup.java:65-69 | every input divides the fold |
| SpanSizeLookups.LcmAll | adapper/src/main/java/com/scopely/adapper/extras/InvertedSpanSizeLookup.java:65-69 | the loop computes the fold; the result is positive and every input divides it |
| SpanSizeLookups.GcdFold | adapper/src/main/java/com/scopely/adapper/extras/InvertedSpanSizeLookup.java:55-59 | the left fold of gcd is positive |
| SpanSizeLookups.GcdFoldCommon | adapper/src/main/java/com/scopely/adapper/extras/InvertedSpanSizeLookup.java:55-59 | the fold divides every input, and every common divisor of the inputs divides it |
| SpanSizeLookups.GcdAll | adapper/src/main/java/com/scopely/adapper/extras/InvertedSpanSizeLookup.java:55-59 | the loop computes the fold, which divides every input |
| SpanSizeLookups.RequiredSpansExamples | adapper-example/src/main/java/com/scopely/adapper/example/fragments/BuckWildFragment.java:217 | row counts (1, 5, 8) need 40 spans and (1, 5, 10) need 10 |
| SpanSizeLookups.SpanTable | adapper/src/main/java/com/scopely/adapper/extras/InvertedSpanSizeLookup.java:33-35 | the table built by the constructor's loop finds exactly the given row counts, each with total / n spans |
| SpanSizeLookups.InvertedSpanSizeLookup.constructor | adapper/src/main/java/com/scopely/adapper/extras/InvertedSpanSizeLookup.java:30-37 | the total is the lcm fold and each row count n maps to total / n, nothing else |
| SpanSizeLookups.InvertedSpanSizeLookup.GetSpanSize | adapper/src/main/java/com/scopely/adapper/extras/InvertedSpanSizeLookup.java:40-42 | an item whose row holds n takes total / n spans, so n of them fill the row exactly; an unknown row count gives 0 |
| SpanSizeLookups.InvertedSpanSizeLookup.GetRequiredSpans | adapper/src/main/java/com/scopely/adapper/extras/InvertedSpanSizeLookup.java:71-73 | the total: positive and divisible by every row count |
| CompareUtils.FirstDecisive | adapper/src/main/java/com/scopely/adapper/utils/CompareUtils.java:50-58 | the index of the first comparator that does not return 0, every earlier one returning 0 |
| CompareUtils.MultiDimensionalCompare | adapper/src/main/java/com/scopely/adapper/utils/CompareUtils.java:50-58 | the first nonzero comparator result in order; 0 iff every comparator (or none) returns 0 |
| CompareUtils.MergeSingle | adapper/src/main/java/com/scopely/adapper/utils/CompareUtils.java:35-42 | one comparator merged alone compares as itself |
| CompareUtils.MergeConcat | adapper/src/main/java/com/scopely/adapper/utils/CompareUtils.java:35-42 | merging a concatenation consults the second list only on a tie of the first |
| CompareUtils.MergeAntisymmetric | adapper/src/main/java/com/scopely/adapper/utils/CompareUtils.java:35-42 | merging antisymmetric comparators is antisymmetric |
| CompareUtils.NullableCompare | adapper/src/main/java/com/scopely/adapper/utils/CompareUtils.java:77-87 | two values: the comparator's result; two nulls: 0; one null: nonzero and negative iff the null is the left one exactly when nulls are less |
| CompareUtils.NullableAntisymmetric | adapper/src/main/java/com/scopely/adapper/utils/CompareUtils.java:106-116 | swapping the arguments negates the sign whenever the comparator does |
| CompareUtils.NullSwapNegates | adapper/src/main/java/com/scopely/adapper/utils/CompareUtils.java:82-86 | a null on the left gives -1 if nulls are less, else 1, and swapping negates it exactly |
| GroupComparators.GroupComparator.IntraGroupComparator | adapper/src/main/java/com/scopely/adapper/impls/GroupComparatorImpl.java:25-45 | delegates exactly to itemCompare |
| GroupComparators.GroupComparator.GroupOrder | adapper/src/main/java/com/scopely/adapper/impls/GroupComparatorImpl.java:31-50 | delegates exactly to groupCompare |
| GroupComparators.GroupComparator.CompareIsMerge | adapper/src/main/java/com/scopely/adapper/impls/GroupComparatorImpl.java:53-56 | compare is the lexicographic merge of the group order and the item order |
| GroupComparators.GroupComparator.CompareAntisymmetric | adapper/src/main/java/com/scopely/adapper/impls/GroupComparatorImpl.java:53-56 | compare is antisymmetric whenever both orders are |
| Selection.MultiSelectManager.constructor | adapper/src/main/java/com/scopely/adapper/selection/MultiSelectManager.java:40-47 | starts with no selections and the given maximum |
| Selection.MultiSelectManager.Create | adapper/src/main/java/com/scopely/adapper/selection/MultiSelectManager.java:40-47 | fails iff the adapter lacks stable ids; otherwise an empty, valid manager |
| Selection.MultiSelectManager.CreateUnbounded | adapper/src/main/java/com/scopely/adapper/selection/MultiSelectManager.java:36-38 | the same with maximum Integer.MAX_VALUE |
| Selection.MultiSelectManager.SelectItem | adapper/src/main/java/com/scopely/adapper/selection/MultiSelectManager.java:50-62 | refused, unchanged, when the set is full, even for a selected id; otherwise adds or removes the id and accepts; other ids untouched; the maximum bound is kept |
| Selection.MultiSelectManager.ClearSelections | adapper/src/main/java/com/scopely/adapper/selection/MultiSelectManager.java:74-77 | nothing is selected afterwards |
| Selection.MultiSelectManager.GetCount | adapper/src/main/java/com/scopely/adapper/selection/MultiSelectManager.java:85-87 | the number of selected ids, never above a nonnegative maximum |
| Selection.MultiSelectSharedIds | adapper/src/main/java/com/scopely/adapper/selection/MultiSelectManager.java:69-71 | positions sharing an id share selection state |
| Selection.RadioSelectManager.constructor | adapper/src/main/java/com/scopely/adapper/selection/RadioSelectManager.java:37-42 | starts with nothing selected |
| Selection.RadioSelectManager.Create | adapper/src/main/java/com/scopely/adapper/selection/RadioSelectManager.java:37-42 | fails iff the adapter lacks stable ids |
| Selection.RadioSelectManager.SelectItem | adapper/src/main/java/com/scopely/adapper/selection/RadioSelectManager.java:45-49 | always accepted; selecting replaces the selection, unselecting clears it whatever was selected |
| Selection.RadioSelectManager.ClearSelections | adapper/src/main/java/com/scopely/adapper/selection/RadioSelectManager.java:63-66 | no position is selected afterwards |
| Selection.RadioSelectsOneId | adapper/src/main/java/com/scopely/adapper/selection/RadioSelectManager.java:52-54 | two selected positions share one id |
| NaiveLookups.ModelsMatchingNext | adapper/src/main/java/com/scopely/adapper/impls/NaiveLookup.java:41-45 | one more position adds its model exactly when its id is wanted |
| NaiveLookups.GetModels | adapper/src/main/java/com/scopely/adapper/impls/NaiveLookup.java:39-47 | exactly the models of positions below the count whose id is wanted; none for no ids |

## Left out

- The three `update()` methods (ListAdapper, GroupableAdapper, RecursiveAdapper): their notifications re-enter `onChanged` through the RecyclerView observer, so their effect depends on framework dispatch.
- Adapter plumbing: view creation and binding, filters, observers, `getItemViewType`, `getModel`, `getItem`, `isModel`, `addLayout`, `setSelectionManager`, `getAdapperForViewType`, `getInternalAdapterForViewType`; it is UI toolkit glue.
- The `notifyItemChanged` calls in the selection managers and the `onMaximumExceeded` hook: they only notify observers and change neither manager's state.
- GroupableAdapters.GroupableAdapter.OnChanged: `notifyDataSetChanged` on the internal list adapter runs that adapter's own `onChanged`, which recomputes its visible list. The model does not run that code; it takes the visible list after the refresh as the parameter `nextVisible`. The refresh of the internal category adapter is not modelled.
- RecursiveAdapters.RecursiveAdapter.OnChanged: `notifyDataSetChanged` on a child runs that child's own `onChanged` through the observer it registers in BaseAdapper, and that can change its count (a ListAdapper re-reads its source). The model does not run that code. It takes the children as they stand after their own refresh as the parameter `refreshed`, with each child's identity kept.
- `getSelections` in both managers: it delegates to the adapter's `getItems`, which is not part of this model.
- Java `int` overflow: all arithmetic is unbounded (lcm products, score arithmetic, position sums).
- The binary search inside Android's sparse arrays; `append` is modelled as `put`, which is what it amounts to for the key orders used here.
- `ListUtils.generateString`: unused debug formatting.
- `getNullSafeComparator` (both overloads): a comparator object wrapping `nullableCompare`, which is modelled.
- The `Comparable` overload of `nullableCompare` is the `Comparator` one with `compareTo` as the comparator, so one function stands for both.
- GroupableAdapters.GenerateCategoryPositions: the `Collections.sort` of its argument is library code; the model scans the list in the order given, which stands for the list already sorted by the comparator.
- GroupableAdapters.CleanInsertions: the source recomputes the next category positions for every key; they do not change during the loop, so they are one parameter.
- GroupableAdapper `getInsertions`, `getDeletions` and `getReorderings` composition with its two internal adapters: each cleaned part and `combine` are modelled; the internal adapters are not.
- GroupableAdapters.CleanCategoryInsertions, CleanCategoryDeletions and CleanCategoryReorderings: require every category index to be in range, where Java would throw IndexOutOfBoundsException.
- GroupableAdapters.CleanInsertions, CleanDeletions, CleanReorderings and the category cleaners: require strictly ascending category positions, which is what generateCategoryPositions produces.
- ListUtils.CalculateNetMoveScores, CleanNetMoveList, CorrectForInsertion, CorrectForDeletion, ExtractReordering, ExtractTurn and ExtractAll: require the move table to have the shape calculateMoves produces (MoveTableWellFormed), as the private helpers' own documentation assumes.
- ListUtils.GetReorderings: the `while` loop has no evident decreasing measure, so it runs with a `fuel` bound and reports running out; RunFuelMonotone shows extra fuel never changes a finished result.
- ListUtilsCascade.ReorderClampedInBounds: states only that the corrected process never reads outside the move table; like the code as written it runs under a fuel bound, and no lemma shows that some amount of fuel always suffices, so its termination is not proved.
- RecursiveAdapters: a child adapter's identity (`equals` on the adapter object) is its `id` field.
- RecursiveAdapters.RecursiveAdapter.GetInsertions, GetDeletions, GetReorderings: require every child's change sets to be well-formed sparse arrays.
- FunctionLists.FunctionList.Get, Remove and SubList: require indices in range where Java throws IndexOutOfBoundsException.
- FunctionList iterators (`iterator`, `listIterator`): they delegate to the underlying list's iterator, which is not part of this model; their throwing `add` and `set` are covered by `Mutate`.
- FunctionLists.FunctionList.SubList: Java's sub-list is a view sharing the underlying list; the model makes a copy, so aliasing is not captured.
- FunctionLists.FunctionList.ToArray: returns a sequence; the `toArray(T[])` overload that fills a given array and null-terminates it is not modelled.
- `FunctionList.getList` overriding by subclasses: the underlying list is a field.
- FunctionLists.FunctionList.IndexOf and LastIndexOf: the object is never null (Java would throw on `null.equals`).
- SpanSizeLookups.InvertedSpanSizeLookup.constructor: requires a nonempty list of positive row counts; an empty list throws at `input[0]`, a zero divides by zero, and negative counts give meaningless spans.
- SpanSizeLookups.Lcm: requires positive arguments, as its only caller guarantees.
- SpanSizeLookups.InvertedSpanSizeLookup: `getItemsPerRow` is left abstract in the source and is a function field here.
- Selection: the adapter's `hasStableIds` and `getItemId` are parameters; the constructors' exception is a `None` result.
- SparseArrayUtils.EntryIterator.Next: `next()` past the end throws in Java; the model returns `None`.
- SparseArrayUtils.EntryIterator: the Java iterator deletes from the caller's own array; the model iterates over a copy held in its `backing` field, so sharing the array with the caller or with other iterators is not captured.
- Java exceptions in general are `Option` or Boolean results.

## Findings

| source | as written | input that shows it | evidently intended | confidence | as-written member | corrected member |
|---|---|---|---|---|---|---|
| adapper/src/main/java/com/scopely/adapper/utils/ListUtils.java:153-164 | the cascade reads `moveList.get(i)` for every i between the move's index and index - score, with no bound | old [0,1,2,3], new [2,0,3,1]: the second extraction cascades from index 4 of a four-entry table, so getReorderings throws | the cascade stays inside the move table | not executed | ListUtilsCascade.CascadeLeavesTable | ListUtilsCascade.ReorderClampedInBounds |
| adapper/src/main/java/com/scopely/adapper/utils/SparseArrayUtils.java:144-145 | `smallest` and `largest` start at 0 | keys {3, 4}: returns (0, 4) | (3, 4), the smallest and largest key as documented | not executed | SparseArrayUtils.RangeAsWrittenMisreports | SparseArrayUtils.ContiguousRangeCorrect |
| adapper/src/main/java/com/scopely/adapper/utils/FunctionList.java:123 | the backward scan stops at `i > 0` | lastIndexOf(x) on the list [x] returns -1 | the scan includes index 0 and returns 0 | not executed | FunctionLists.LastIndexOfMissesFirst | FunctionLists.FunctionList.LastIndexOfCorrected |
| adapper/src/main/java/com/scopely/adapper/utils/SparseArrayUtils.java:72-74 | `remove()` deletes the current key but leaves the cursor in place | keys {1, 2, 3}, removing each visited entry: 2 is never visited and stays | the cursor steps back so iteration continues with the next entry | not executed | SparseArrayUtils.RemoveEachAsWritten | SparseArrayUtils.RemoveEach |
