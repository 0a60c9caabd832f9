# Paged table storage, modelled in Dafny

This project models the storage layer of a small Java database engine. A
table is a list of page references plus a row count. Each page lives in
its own file and holds tuples strictly sorted by their clustering key.
A page is meant to hold at most C = `MaxRowsCountInPage` tuples. The
engine reads C from a configuration file; the model fixes it at 200, a
chosen positive constant, and no proof depends on its value beyond C > 0.

The model has these parts:

- `Utils` (utils.dfy): the JDK-style indexed binary search, and the
  decoding of its negative result into an insertion point.
- `Tuples` (tuple.dfy): tuples as a key name plus a column map. It covers
  key lookup, the two `compareTo` overloads and the probe tuple
  `createInstance` builds.
- `PageReferences` (page_reference.dfy): the reference a table keeps per
  page, its setters, and its two comparisons (against a key and against
  another reference).
- `Pages` (page.dfy): a `class Page` whose tuple sequence, min, max and
  own reference are updated in place by `addTuple`, `removeTuple`,
  `updateTuple` and `updateMinMax`. The key-ordered specification
  functions (`InsertionPoint`, `InsertSorted`, `RemoveAt`) and their
  lemmas sit beside it.
- `Storage` (storage.dfy): the page files of one table, as a map from page
  index to a snapshot of the page's fields. A load builds a new page from
  the snapshot, so the loaded page and the file never share state, as with
  Java deserialisation. A deleted or never-written file makes a load fail.
- `Tables` (table.dfy): a `class Table` with `insert` and the
  rearrangement that follows it. The rearrangement is a redistribution
  pass over adjacent page pairs (`distributePages` with
  `shiftTuplesNext` and `shiftTuplesPrevious`), then `removeEmptyPages`.

Exceptions are results: `Outcome<T>` (`Ok` or `Err`) or `Option<DbError>`.
Every state change made before an exception stays in the model, as it
stays in memory and on disk in the engine.

Facts the model brings out, all stated and proved in the contracts:

- The table's own references never learn their pages' ranges. `addPage`
  stores the reference of a fresh, empty page, and `updateMinMax` only
  updates the reference inside a loaded copy of a page. Every range
  comparison therefore answers 0, so the binary search stops at its
  first probe. `getPageIndex` thus returns the middle index `(n-1)/2`,
  and `insert` sends every key to that page whatever its value
  (`Table.GetPageIndex`, `Placed`).
- `distributePages` saves only page i of each pair (i, i+1). The next
  step reloads page i+1 from its file, so every saved page is a step over
  the pages as they were before the pass (`PairStepped`, `Distributed`).
  A tuple pushed out of an overflowing page reaches only the in-memory
  copy of page i+1, which is then discarded (`OverflowDropsLargest`).
  Tuples that page i pulls from page i+1 stay in page i+1's file as well.
- `removePage` removes the reference by object identity. The reference
  passed in belongs to a page just loaded from its file, so it is never
  in the table's list. The page file is deleted but the page count does
  not change, and a later load of that index fails (`RemoveEmptyPages`,
  `Insert`).
- When the rearrangement succeeds is stated outright. A push or pull
  round throws when it would empty the giving page (the refresh after
  the removal fails) or when the receiving page already holds the key.
  So `shiftTuplesNext` succeeds exactly when it leaves a tuple behind and
  none of the keys it moves is in the next page (`PushSucceeds`), and
  likewise for `shiftTuplesPrevious` (`PullSucceeds`). A pair step, the
  pass and `insert` carry this up (`StepSucceeds`, `PairSucceeds`,
  `PassSucceeded`, `Rearranged`), for pages of at most C+1 tuples, which
  is what an insert into pages within capacity leaves
  (`PlacedWithinOverflow`). The first insert into a new table succeeds
  (`FirstInsert`).
- Which exception a failure raises is stated as well. A round throws
  IndexOutOfBounds exactly when it takes the page's only tuple, and
  DBAlreadyExistsException when the key is already there. So a shift
  throws IndexOutOfBounds exactly when every round before its last one
  met a new key and the last one empties the page (`PushEmpties`,
  `PullEmpties`). A push out of an overflowing page can only meet a
  duplicate key. A pair step throws IndexOutOfBounds exactly when its
  pull empties page i+1 (`StepEmpties`, `PairEmpties`), and a missing
  page file gives MissingFile. A duplicate key at insert gives
  AlreadyExists before the row is counted.
- `updateMinMax` on a page that has become empty fails reading its first
  tuple. This happens after `removeTuple` has already removed the last
  tuple (`Page.UpdateMinMax`, `Page.RemoveTuple`).

## Model

| member | source | states |
|---|---|---|
| Common.CompareValues | Tuple.java:42 | the comparison answers -1, 0 or 1 exactly when the first value is below, equal to or above the second |
| Utils.BinarySearch | Utils.java:15-26 | the result is a match index or the negative code of an insertion point. A non-negative result's element compares equal. Over a list partitioned by the probe, a negative result -(p+1) has every element before p below the probe and every element from p on above it. When the middle element compares equal, the result is that middle index |
| Utils.InsertionIndex | Utils.java:28-32 | a non-negative index is returned unchanged; a negative code r becomes -(r+1) ≥ 0 |
| Utils.InsertionIndexRoundTrip | Utils.java:28-32 | decoding the code -(p+1) gives back p for every p ≥ 0 |
| Tuples.GetColValue | Tuple.java:19-21 | the value stored under the column name, or none exactly when the column is absent |
| Tuples.GetClusterKeyValue | Tuple.java:23-25 | exactly the value stored under the tuple's clustering-key name, or none when that column is absent |
| Tuples.CompareTo | Tuple.java:27-43 | the sign compares this tuple's key with the other tuple's key, or with the raw key value |
| Tuples.CompareToOn | Tuple.java:45-50 | the comparison of the two tuples' values in the named column; a missing value in either tuple throws a null-pointer error |
| Tuples.CreateInstance | Tuple.java:53-60 | the probe's clustering-key name is "whateverKey", that is its only column, and it holds the given value |
| Tuples.CompareTuplesOnlyByKey | Tuple.java:32-35 | two tuple comparisons agree whenever the keys agree, whatever the other columns |
| Tuples.ProbeComparesAsKey | Tuple.java:54-58 | comparing with the probe of v is comparing with v |
| Tuples.CompareToOnOnlyByColumn | Tuple.java:46-50 | the column comparison depends only on the two values of that column |
| PageReferences.NewReference | PageReference.java:15-19 | a new reference has the given table and index, size 0 and no min or max |
| PageReferences.SetMin | PageReference.java:37-40 | only min changes, to the given value |
| PageReferences.SetMax | PageReference.java:46-49 | only max changes, to the given value |
| PageReferences.SetSize | PageReference.java:56-58 | only size changes, to the given value |
| PageReferences.CompareToKey | PageReference.java:68-84 | 0 when min or max is missing. Otherwise 0 exactly when min ≤ key ≤ max, 1 exactly when key < min, and -1 exactly when key is above a range it does not precede |
| PageReferences.CompareToReference | PageReference.java:62-67 | 0 when this min is missing. A missing other min throws a null-pointer error. Otherwise the sign compares the two mins |
| PageReferences.KeyInRange | PageReference.java:74-83 | over a non-empty range, 0 means min ≤ key ≤ max and a non-zero answer places the key below or above the range |
| PageReferences.OrderedRangesArePartitioned | PageReference.java:68-84 | over references with ordered, disjoint ranges, the key comparison partitions the list, as the binary search needs |
| Pages.InsertionPointSplits | Page.java:48-49 | in a sorted page, every key before the insertion point is below the key and every key from it on is at least the key |
| Pages.InsertionPointUnique | Page.java:48 | any index splitting a sorted page that way is the insertion point |
| Pages.FailedSearchIsInsertionPoint | Page.java:44-49 | a failed search's decoded index is the insertion point, and the key is absent |
| Pages.InsertionPointOfPresentKey | Page.java:58-62 | a present key's index is its insertion point |
| Pages.RemovingLast | Table.java:196-197 | removing the page's max key removes exactly the last tuple |
| Pages.RemovingFirst | Table.java:208-209 | removing the page's min key removes exactly the first tuple |
| Pages.InsertSortedKeepsOrder | Page.java:48-49 | inserting an absent key at its insertion point keeps the page strictly sorted, adds one tuple and moves nothing else |
| Pages.RemoveAtKeepsOrder | Page.java:62-63 | removing one tuple keeps the page strictly sorted and drops exactly that tuple |
| Pages.ReplaceKeepsOrder | Page.java:75-77 | replacing a tuple by one with the same key keeps the page strictly sorted |
| Pages.SortedIsPartitioned | Page.java:15 | a strictly sorted page is partitioned by any probe, so the search on it is exact |
| Pages.NewImage | Page.java:22-30 | a new page's snapshot is empty and consistent, with no min or max and a new reference of the same table and index |
| Pages.Page.constructor | Page.java:22-30 | a new page is empty, with no min or max, and owns a new reference of the same table and index |
| Pages.Page.GetTuple | Page.java:33-41 | returns a stored tuple with the key exactly when one exists; otherwise NotFound |
| Pages.Page.UpdateMinMax | Page.java:87-95 | on an empty page it fails with IndexOutOfBounds and changes nothing. Otherwise min and max become the first and last keys, and the page's reference gets that min, max and the size |
| Pages.Page.AddTuple | Page.java:43-52 | a present key throws AlreadyExists and leaves the page unchanged. Otherwise the tuple is inserted at its insertion point, the page stays sorted, its contents grow by exactly that tuple, and min, max and reference are refreshed |
| Pages.Page.RemoveTuple | Page.java:54-68 | a missing or absent key throws NotFound and changes nothing. Otherwise the tuple with that key is removed in place. The removed tuple is returned unless the page became empty, in which case the refresh fails after the removal |
| Pages.Page.UpdateTuple | Page.java:70-79 | an absent key throws NotFound. Otherwise the tuple at the key's index is replaced, so size and key order are kept |
| Pages.Page.IsEmpty | Page.java:113-115 | a consistent page that is not empty has min and max equal to its first and last keys |
| Pages.Page.IsFull | Page.java:117-119 | a full page is neither empty nor overflowing |
| Pages.Page.IsOverflow | Page.java:121-123 | an overflowing page holds at least C+1 tuples, so it is not empty |
| Pages.Page.IsPageFull | Page.java:81-83 | `isPageFull(p)` holds exactly when p is full or overflowing |
| Pages.CapacityStates | Page.java:117-123 | every page is below capacity, full (size C) or overflowing (size > C), and never both full and overflowing |
| Pages.Page.Restore | SerializationManager.java:48-53 | a loaded page is a new object whose fields equal the stored copy, and it is consistent |
| Storage.PageStore.SerializePage | SerializationManager.java:40-46 | the file named by the page's index holds a copy of the page; no other file changes |
| Storage.PageStore.DeserializePage | SerializationManager.java:48-53 | a load succeeds exactly when the file exists, giving a new page equal to the stored copy |
| Storage.PageStore.DeletePage | Table.java:179-180 | the page's file is gone and every other file is unchanged |
| Tables.ShiftCount | Table.java:194 | the loop count is at most the page's size and at most numShifts, and 0 when numShifts ≤ 0; otherwise it is one of the two |
| Tables.PullCount | Table.java:204-207 | the pull count is at most the loop count. From a page within capacity it never takes the receiving page past C. A pull cut short leaves the receiving page exactly full |
| Tables.StepsCompose | Table.java:147-154 | the push and the pull of one step together give the step `PairStepped` describes |
| Tables.PairSteppedWithinCapacity | Table.java:147-155 | a page holding at most C+1 tuples is saved within capacity |
| Tables.OverflowDropsLargest | Table.java:147-155 | a page of C+1 tuples is saved with C tuples, without its largest |
| Tables.DistributedWithinCapacity | Table.java:141-156 | after a pass over pages of at most C+1 tuples, every page it saved holds at most C |
| Tables.Table.constructor | Table.java:22-32 | a new table has no pages, no rows and an empty pages folder |
| Tables.Table.GetPagesCount | Table.java:242-244 | the number of references in the table's list; `AddPage` raises it by one and `RemovePage` leaves it unchanged |
| Tables.Table.IsFull | Table.java:246-248 | with at least one page, the table is full exactly when it holds C or more rows per page on average |
| Tables.Table.AddPage | Table.java:168-173 | appends a new page's reference, saves the empty page under the next index, raises the page count by one, and keeps the row count |
| Tables.Table.GrowIfFull | Table.java:45-46 | a new empty page with the next index is appended exactly when rowsCount ≥ C × pagesCount (`isFull`, Table.java:246-248); otherwise nothing changes, and the row count is kept |
| Tables.Table.SavePage | SerializationManager.java:40-46 | saving a valid page of the table replaces only its own file and keeps the table consistent |
| Tables.Table.RemovePage | Table.java:175-181 | deletes the page's file, which must exist; the reference list and page count are unchanged, because the removal is by identity |
| Tables.Table.GetPageIndex | Table.java:184-190 | the result is in 0..n. Over ordered ranges it is an index with every range before it below the key, the key at most its own range's max, and every range after it above the key. With no range known, it is the middle page (n-1)/2 |
| Tables.Table.MoveLargest | Table.java:196-198 | one push round removes the last tuple of the page and adds it to the next page, or throws and loses it. It succeeds exactly when the page held two or more tuples and the next page lacked the moved key. It throws IndexOutOfBounds exactly on a one-tuple page, and AlreadyExists exactly when the page held more and the next page had the key |
| Tables.HasKeyOfSum | Page.java:43-46 | a page holding the tuples of two others holds a key exactly when one of them does, so a round's `AlreadyExists` depends only on the receiving page's original keys and the keys moved so far |
| Tables.PushRoundOutcome | Table.java:196-198 | the next push round succeeds exactly when it keeps the promise of `PushSucceeds`; a failing round means the whole shift fails. A round that takes the page's only tuple means `PushEmpties`, and a round that meets a duplicate key rules it out |
| Tables.PushedFreshMeans | Table.java:194-198 | none of the i largest keys of the page is in the next page, stated as a quantifier over those keys |
| Tables.PushedFreshPrefix | Table.java:194-198 | if the first j push rounds meet no key of the next page, neither do the first i ≤ j |
| Tables.Table.PushRound | Table.java:196-198 | one push round as a step of the loop's progress. On success no key met so far is in the next page. On failure the shift cannot succeed, and the error is IndexOutOfBounds exactly when `PushEmpties`, otherwise AlreadyExists |
| Tables.PushProgressStep | Table.java:196-198 | one more push round extends the moved tail by the page's last tuple, and the next page gains exactly it |
| Tables.Table.PushLoop | Table.java:194-199 | the push loop stops at numShifts rounds or at the page's size. On success the old page is the remaining page followed by the moved tuples, the next page gained exactly those, and none of their keys was in it. On failure `PushSucceeds` is false, and the error is IndexOutOfBounds exactly when `PushEmpties`, otherwise AlreadyExists |
| Tables.PushDone | Table.java:194-199 | when the push loop stops, the moved tuples are exactly the last min(numShifts, n) tuples of the page, and the shift met the condition `PushSucceeds` |
| Tables.Table.ShiftTuplesNext | Table.java:192-200 | succeeds exactly when `PushSucceeds`: m = min(numShifts, n) is 0 or below n, and none of the last m keys is in the next page. On success the page keeps its first n-m tuples and the next page gains exactly the m tuples of its tail. It throws IndexOutOfBounds exactly when `PushEmpties` (m = n and the first n-1 rounds met new keys), and AlreadyExists in every other failure. An exception loses the one tuple in flight |
| Tables.Table.MoveSmallest | Table.java:208-210 | one pull round removes the first tuple of the page and adds it to the previous page, or throws and loses it. It succeeds exactly when the page held two or more tuples and the previous page lacked the moved key. It throws IndexOutOfBounds exactly on a one-tuple page, and AlreadyExists exactly when the page held more and the previous page had the key |
| Tables.PullRoundOutcome | Table.java:205-210 | the next pull round succeeds exactly when it keeps the promise of `PullSucceeds`; a failing round means the whole shift fails. A round that takes the page's only tuple means `PullEmpties`, and a round that meets a duplicate key rules it out |
| Tables.PulledFreshMeans | Table.java:204-210 | none of the i smallest keys of the page is in the previous page, stated as a quantifier over those keys |
| Tables.PulledFreshPrefix | Table.java:204-210 | if the first j pull rounds meet no key of the previous page, neither do the first i ≤ j |
| Tables.PullProgressStep | Table.java:208-210 | one more pull round extends the moved head by the page's first tuple, and the previous page gains exactly it |
| Tables.Table.PullRound | Table.java:205-210 | one pull round as a step of the loop's progress. On success no key met so far is in the previous page. On failure the shift cannot succeed, and the error is IndexOutOfBounds exactly when `PullEmpties`, otherwise AlreadyExists |
| Tables.Table.PullLoop | Table.java:203-211 | the pull loop stops at numShifts rounds, at the page's size, or once the previous page is exactly full. On success the moved tuples are the old head of the page, the previous page gained them, and none of their keys was in it. On failure `PullSucceeds` is false, and the error is IndexOutOfBounds exactly when `PullEmpties`, otherwise AlreadyExists |
| Tables.PullStops | Table.java:203-211 | the pull loop stops after exactly the pull count of rounds |
| Tables.PullDone | Table.java:203-211 | when the pull loop stops, the moved tuples are exactly the first m tuples of the page, m being the pull count, and the shift met the condition `PullSucceeds` |
| Tables.Table.ShiftTuplesPrevious | Table.java:202-212 | succeeds exactly when `PullSucceeds`: the pull count m is 0 or below n, and none of the first m keys is in the previous page. On success the page loses its first m tuples and the previous page gains exactly them. m stops once the previous page is exactly full. It throws IndexOutOfBounds exactly when `PullEmpties`, and AlreadyExists in every other failure. An exception loses the one tuple in flight |
| Tables.Table.PushOverflow | Table.java:147-150 | only an overflowing page pushes, and then exactly its largest tuple. It succeeds exactly when the page does not overflow or the next page lacks that largest key. The push takes one of more than C tuples, so its only exception is AlreadyExists |
| Tables.Table.PullBack | Table.java:151-154 | a page that is not exactly full pulls from a non-empty next page, taking as many as its own size, capped by the capacity. It succeeds exactly when it does not pull or the pull meets `PullSucceeds`. It throws IndexOutOfBounds exactly when it pulls and `PullEmpties` holds, and otherwise fails only with AlreadyExists |
| Tables.Table.StepPair | Table.java:147-154 | one pair step in memory satisfies `PairStepped`. For a page of at most C+1 tuples it succeeds exactly when `StepSucceeds`: an overflowing page's largest key is new to the next page, and otherwise the pull, if it runs, succeeds. It throws IndexOutOfBounds exactly when `StepEmpties` (the pull empties page i+1) and otherwise fails only with AlreadyExists |
| Tables.Table.DistributeAt | Table.java:144-155 | loads pages i and i+1 and saves only page i, as a step over the two. On an exception nothing is saved. It fails with MissingFile exactly when one of the two files is missing. For a page i of at most C+1 tuples it succeeds exactly when `PairSucceeds`, and throws IndexOutOfBounds exactly when `PairEmpties`; any other failure is AlreadyExists |
| Tables.SavingKeepsSteps | Table.java:142-156 | saving page i keeps the pages saved before it as steps over their original pairs and adds page i as one |
| Tables.PairUntouched | Table.java:142-146 | during the pass, pages i and i+1 are still as the pass found them when pair i is loaded. Their files exist as they did, and the pair succeeds, or empties page i+1, as it would have at the start |
| Tables.PassStep | Table.java:142-156 | a completed step of pair i extends the pass state by one pair |
| Tables.Table.DistributeRound | Table.java:142-156 | one round of the pass, in terms of the store the pass started from. On success one more pair is stepped and succeeded. On failure pair i is one that fails: MissingFile exactly when one of its files was missing, and, over pages of at most C+1 tuples, IndexOutOfBounds exactly when `PairEmpties` |
| Tables.Table.DistributePages | Table.java:141-157 | visits the pairs i = 0..n-2 in order. Each saved page i is a step over the original pages i and i+1. Page n-1 and the pages after a failure are untouched, and no file is created or deleted. A failure at pair `visited` is MissingFile exactly when one of its files is missing. Over pages of at most C+1 tuples, every pair before the stop succeeded, the pass fails exactly at the first pair that fails, it succeeds exactly when every pair does, and a failure is IndexOutOfBounds exactly when that pair empties page i+1 |
| Tables.Table.RemoveIfEmpty | Table.java:162-164 | deletes page i's file exactly when the page is empty; a missing file fails |
| Tables.RemovalStep | Table.java:161-164 | handling page i, which has a file, deletes it exactly when empty and keeps every other file |
| Tables.RemovalStops | Table.java:161-163 | a page whose file is missing when the loop reaches it means not every page had its file |
| Tables.RemovalDone | Table.java:160-165 | once pages n-1 down to 0 are handled, every page had its file and no remaining file is empty |
| Tables.Table.RemoveEmptyPages | Table.java:159-166 | deletes only empty page files, from the last page down. It succeeds exactly when every page had its file, and then no empty page file is left. On a missing file at page `stop`, the empty pages above `stop` are deleted and every page from `stop` down is untouched |
| Tables.Table.PlaceTuple | Table.java:34-51 | an empty table gains page 0 first, and the key goes to the middle page. A page is appended exactly when the target page loaded and the table was full; a missing target file throws before the check. The tuple is added, in key order, exactly when the page loaded and lacked the key, and only then is the row counted. When it is not added the error is AlreadyExists if the page file existed, MissingFile otherwise |
| Tables.Table.PlaceInto | Table.java:38-51 | the placement step once the table has a page, with the outcome `Placed`. When the tuple is not added the error is AlreadyExists if the target page file existed, MissingFile otherwise |
| Tables.Table.AddLoaded | Table.java:45-51 | the placement step after the target page has loaded |
| Tables.Table.Insert | Table.java:34-53 | placement as above, so a duplicate key gives AlreadyExists before the row is counted and a missing target file gives MissingFile. Then, when the tuple went in, `Rearranged`: the pass stops at the first failing pair, with MissingFile exactly when one of its files is missing and, over pages of at most C+1 tuples, IndexOutOfBounds exactly when `PairEmpties`. The removal of empty pages runs only after a complete pass and fails exactly when a page file is missing, at the highest such page, and a successful insert leaves no empty page file |
| Tables.Table.Rearrange | Table.java:136-139 | the redistribution pass, then, after a complete pass, the removal of empty pages, with the outcome `Rearranged` over the store it started from: which pair stopped the pass and with which exception, as for `DistributePages`, and MissingFile from the removal |
| Tables.PlacedWithinOverflow | Table.java:34-51 | placing a tuple in a table whose pages are within capacity leaves every page at most C+1 tuples, so the success conditions of the pass apply |
| Tables.FirstPlacement | Table.java:35-51 | the first insert into a new table creates page 0, adds the tuple to it alone and counts one row |
| Tables.FirstInsert | Table.java:34-53 | the first insert into a new table succeeds, leaving one page holding exactly the tuple |
| Tables.DuplicateInsert | Table.java:34-53 | inserting a key the only page already holds throws AlreadyExists, leaves the row count unchanged and leaves that page's tuples as they were |

## Left out

- `Table.delete` does not compile as written: it uses undeclared names and assigns an Object to a String. It is not part of this model.
- DBApp, MetaDataManager, Validation and SQLTerm (orchestration, CSV metadata, library parsing, a data holder) are not part of this model.
- Reading C from the configuration file is replaced by the constant 200. Folder creation and file paths are dropped, and page files are the `Storage` map.
- Clustering keys and column values are `int`. Other `Comparable` types and their orderings are not modelled, and neither is 32-bit overflow of `rowsCount` or indexes.
- `PageReference` is a value, not a shared object. `addPage` does put the new page's own reference object into the table's list, so the two are briefly one object. That `Page` object is dropped right after it is saved, though, and every later page is a loaded copy with a reference of its own. No setter ever reaches a reference in the table's list, so value semantics gives the same results.
- Tuples.CompareTo: a tuple without its clustering key is excluded by the `KeyedTuple` type, where the engine would throw a null-pointer error. `insertIntoTable` checks the key columns before building the tuple (DBApp.java:62-65). For the same reason `Page.GetTuple` takes an `int` key and cannot be given a null one; the engine would throw a null-pointer error there on a non-empty page.
- Tables.Table.Insert: the row count of the table object is not written back to the table's file. Persisting the table object belongs to DBApp.
- Tables.Table.DistributePages: success and the IndexOutOfBounds case are characterised only when every stored page holds at most C+1 tuples before the pass (`WithinOverflow`); a single larger page anywhere drops that characterisation for every pair, for the reason given for `StepPair`. Such a larger page is only said to be saved sorted and holding tuples of its pair; how many it keeps is not stated.
- Tables.Table.StepPair: when the page holds more than C+1 tuples, neither success nor the exception kind is characterised. The pull then starts from the next page with the pushed tuple added, and which keys it meets depends on where that tuple sorts.
- Tables.Table.DistributeAt: success and the IndexOutOfBounds case are characterised only for a page i of at most C+1 tuples, for the reason given for `StepPair`; MissingFile is characterised for every page.
- Tables.Table.DistributeRound: success and the IndexOutOfBounds case are characterised only when every stored page held at most C+1 tuples when the pass started, for the reason given for `StepPair`.
- Tables.Table.Insert: the success of the pass and its IndexOutOfBounds case are characterised only when every stored page holds at most C+1 tuples after placement (`WithinOverflow`), for the reason given for `StepPair`.
- Tables.Table.Rearrange: the same limit as for `Insert`; the pass's MissingFile case is characterised for every store.
