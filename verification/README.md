# karia2, modelled and verified in Dafny

Five parts of the karia2 download manager, each modelled the way its code works and proved
correct:

- the open-addressed **hash table** of `hash.cpp`: linear probing with wrap-around, deletion
  without tombstones, growth through a table of primes, and the sweep that survives removals
  (`PrimeTable`, `Slots`, `Rehash`, `Sweeps`, `KeyMap`, `HashTable`, `HashRuns`,
  `HistoryIndependence`);
- the **segment allocator** of `sqlitesegmentmodel.cpp`: the list of segments of a download, the
  rows that mirror it, and the splitting, clamping and resuming of segments (`Segments`,
  `SegmentLaws`, `SegmentModel`, `SegmentRuns`, `SegmentSplitting`);
- the **category tree** that `sqlitecategorymodel.cpp` keeps in a flat table, with the recursive
  search of `karia2.cpp` (`CategoryTree`, `CategoryModel`);
- the **option grouping** loop of `getopt_pp.cpp` and its inverse (`OptionGrouping`,
  `OptionRendering`, `OptionParser`);
- the **task-id numeral** of `aria2manager.cpp` (`TaskIds`).

`Cardinality` holds the pigeonhole facts the others use.

## How it is built

Objects whose methods update their fields are classes. A method's contract ties the new state to
a function of the old one, or to an abstract value, and the results about whole runs are lemmas
about those functions. The classes' loops are the source's loops; where a method of the source is
long, its body is divided over a few helper methods.

**Hash table.** A slot is empty or holds a key and a value; the reserved all-bits-set key is not a
key. The hash is an arbitrary function to the naturals and the test an equivalence that agrees with
it, which is what the source asks of its callbacks. A valid table represents a finite map `M` from
stored keys to values. Lookups go "modulo the test": `Lookup` finds the stored key that tests equal.
The 0.75 fullness factor is exact integer arithmetic (`3 * size / 4`, and `1 + 4 * items / 3`
truncated towards zero); for int-sized operands the source's double arithmetic gives the same
integers. `abort()` in the prime search is out of reach: the table ends with the largest int, so
every int request is met. A put is asked for `MayPut`, that doubling the size does not leave the int
range if the table has to grow; `MayPutIff` says which tables that is. A whole run is asked for the
same, put by put (`StaysInRange`), and any number of puts meets it as long as the run never holds more
than 881027640 keys at once (`FewKeysStayInRange`). The ghost counters `puts` and `moved` count the puts
made and the placements made by the loops of all grows. A sweep's callback may remove the entry it is
called with or give it a new value, and may end the sweep there. A ghost log records every call,
with the keys of visited entries that a removal carried round the array end: those, and no others,
are called again (`Paced`, `Visit`). Every entry is what the calls logged for it made of its old
value (`Swept`). A sweep that removes nothing calls each entry exactly once; `StableSweep` says
what the result is for callbacks that a second visit does not matter to.

**Segments.** Byte offsets are naturals; `Free` asks that capacity plus size stays below the 64-bit
range, and in valid states no subtraction of the source goes below zero. Where the source's comments
and its code disagree the code is followed: a free that is cut short answers 0, never a partial
length (`FreeAnswer` says exactly when the answer is the number of bytes taken in, and
`FreeCutShortAnswersZero` gives an input). A stopped segment that obtained nothing is handed out again
without being marked busy, and 0 is both a legal start and the answer "nothing left" (`NullAnswer`). No start of an owned segment
is handed out while a gap is open; once all are closed that can happen, and `GivesOwnedStartIff` says
exactly when.
The sort is a single bubble pass, which sorts exactly the lists `OnePassSortsIff` describes; reachable
lists are in order already (`SortedKeeps`). The same start can be handed out twice in a row:
`HandsTwiceIff` says exactly when, `MarkedHandsTwiceIff` when marking it busy in between does not prevent
it, and `ClosedNeverEnds` that it then goes on for ever.

**Categories.** A row is its id and its parent's id. A model index is row, column and id, valid when
row and column are not negative. An insertion with an invalid parent uses id 0, so its rows go under
the root, as in the source.

**Options.** A C string is a string without a zero character. Reading one past a one-character
token, or at the start of an empty one, yields the terminating zero, where the source looks one
character further for an empty token; the outcome does not depend on that character. `isalpha` is
that of the "C" locale.

**Task ids.** The format string's place marker is followed by sixteen zeros. A formatter that reads
`%1` and one that reads `%10` leave different numbers of zeros; the sixteen characters kept are the
same (`MarkerWidthDoesNotMatter`).

## Model

| member | source | states |
|---|---|---|
| PrimeTable.PrimeSize | hash.cpp:210-239 | the search from the remembered offset returns the smallest entry of the whole table that is at least the request, and leaves the offset just after it |
| PrimeTable.OffsetStaysSafe | hash.cpp:229-233 | the offset left by a search skips nothing for any larger request, so the optimisation never changes the answer |
| PrimeTable.TableFacts | hash.cpp:213-223 | the 71 primes ascend from 13 to the largest int |
| HashTables.PreallocationSuffices | hash.cpp:247-251 | the size asked for is met exactly by the sizes of which the items fill less than three quarters, and those leave a threshold of at least the items, the commented-out assertion |
| HashTables.HashTable.constructor | hash.cpp:267-299 | a new table is valid and empty; its size is the smallest prime of which the items fill less than three quarters |
| HashTables.HashTable.Fullness | hash.cpp:194-195 | in every valid table the count is the number of filled slots and at most three quarters of the size; one more entry would still be exactly when the count is below the threshold; an empty slot exists, so every probe ends |
| HashTables.HashTable.FindMapping | hash.cpp:314-326 | probing from hash modulo size ends at the slot of the key that tests equal if one is held, else at an empty slot all of whose predecessors are filled; it answers exactly as the map does |
| HashTables.HashTable.Get | hash.cpp:335-343 | the value of the stored key that tests equal, or the null value |
| HashTables.HashTable.GetPair | hash.cpp:348-363 | the stored key and value of the key that tests equal, or failure |
| HashTables.HashTable.Contains | hash.cpp:367-372 | true exactly when some stored key tests equal |
| HashTables.HashTable.Count | hash.cpp:539-543 | the number of keys of the map |
| HashTables.HashTable.FindEmpty | hash.cpp:408-410 | probing without key comparison ends at an empty slot with a filled path |
| HashTables.HashTable.TransferAll | hash.cpp:401-412 | re-placing every entry in a fresh array, keys not compared, keeps all bindings and the probe invariant, with one placement an entry |
| HashTables.HashTable.Grow | hash.cpp:377-415 | a grow keeps the map, takes the smallest table prime at least twice the size, makes exactly count placements, and leaves room below the threshold |
| HashTables.HashTable.UpdateAt | hash.cpp:424-430 | updating replaces stored key and value, keeps the count and validity even though the stored key changes |
| HashTables.HashTable.AddAt | hash.cpp:440-443 | filling the empty slot found adds exactly the binding |
| HashTables.HashTable.MayPutIff | hash.cpp:386 | a put can fail to find room exactly for a new key that would fill more than three quarters of a table of at least the last size that cannot be doubled |
| HashTables.HashTable.Put | hash.cpp:420-444 | the map loses any equal key and gains the new binding; the table grows exactly when the key is new and would fill more than three quarters of the slots, and then to the smallest prime at least twice its size |
| HashTables.HashTable.NewPlace | hash.cpp:475-481 | comparing keys by identity, re-placing finds the first hole on the entry's path or the entry itself, because stored keys are pairwise different |
| HashTables.HashTable.RehashOne | hash.cpp:470-488 | one round moves or leaves the current entry and keeps the re-placement invariant |
| HashTables.HashTable.RehashAfter | hash.cpp:469-488 | the re-placement loop ends, keeps every binding, restores the probe invariant and moves entries only towards the emptied slot |
| HashTables.HashTable.RemoveAt | hash.cpp:461-489 | emptying a slot and re-placing its cluster removes exactly that key and lowers the count by one |
| HashTables.HashTable.Remove | hash.cpp:449-491 | exactly the key that tests equal goes, every other key keeps its value, and the answer says whether there was one |
| HashTables.HashTable.Visit | hash.cpp:521-532 | one visit makes exactly one call: it removes or changes the current entry only, logs the keys its removal carried to later slots, ends the sweep exactly when asked to, and is repeated exactly when the slot then holds another entry |
| HashTables.HashTable.Map | hash.cpp:504-533 | a sweep ends; an entry is called again only after a removal carried it round the array end; every entry left is what the calls logged for it made of its old value, the call that ended the sweep included, and every entry gone was removed by its last call; a sweep not ended calls every entry, and if it removes nothing each exactly once, so the number of calls is the count |
| Sweeps.StableSweep | hash.cpp:504-533 | if a second visit to an entry would do nothing, a sweep leaves exactly the entries not removed, each changed once |
| Sweeps.EachOnce | hash.cpp:716-722 | a sweep that removed nothing called each entry once, made as many calls as there are entries and changed each value once |
| HashTables.HashTable.Clear | hash.cpp:497-502 | the map is empty, the size stays |
| Rehash.RehashMove | hash.cpp:475-484 | moving an entry into the first hole of its path keeps the invariant: holes lie behind the loop and matter only to entries still ahead of it, across the array end too |
| Rehash.RehashStay | hash.cpp:478-481 | an entry whose path is filled stays, and the invariant advances |
| Rehash.RehashDone | hash.cpp:470-488 | at the next empty slot no entry has an empty slot between its home and its slot |
| Slots.CyclicWalk | hash.cpp:188-191 | a probe step is addition modulo the size, and a slot is passed exactly when it is fewer steps away than the end |
| Sweeps.RoundAfterRemoval | hash.cpp:504-533 | after a removal at a slot every entry before it has still been called once more often than carried round, every other as often; what lands behind it unvisited is only what came from further on |
| Sweeps.AfterRemoval | hash.cpp:521-532 | a call that removes its entry keeps all that is known of a running sweep |
| Slots.FillSlot | hash.cpp:440-443 | filling the first empty slot of a probe path keeps the probe invariant and adds one binding |
| Slots.AbsentAtEmpty | hash.cpp:310-312 | an empty slot after a walk of entries that fail the test proves the key absent |
| Slots.EmptySlotExists | hash.cpp:432-434 | fewer bindings than slots leave an empty slot, by counting |
| Slots.TransferNext | hash.cpp:401-412 | one more re-placed entry keeps the new array an exact image of the old prefix |
| KeyMap.LookupIsLastWord | hash.cpp:68-107 | after any history a lookup answers with the last put of an equal key, stored key included, unless a later remove or clear took it away |
| KeyMap.RunIsDistinct | hash.cpp:405-407 | no run ever holds two keys that test equal |
| HashRuns.Apply | hash.cpp:420-502 | one operation refines the map step, and the size and the entries moved change exactly when a new key would fill more than three quarters of the slots |
| HashRuns.PreallocatedNeverGrows | hash.cpp:247-251 | a run that never holds more keys than three quarters of the first size keeps the first size |
| HashRuns.FewKeysStayInRange | hash.cpp:386 | a run that never holds more than 881027640 keys at once never leaves the int range, however many puts it makes |
| HashRuns.RunOn | hash.cpp:88-91 | any run from an empty table refines its history, has the size its history says, and moves fewer than two entries a put in all its grows together |
| HashRuns.Execute | hash.cpp:243-299 | the same from the creation of the table: lookups answer with the last word on a key, and a run within its preallocation never grows |
| HistoryIndependence.FilledInBoth | hash.cpp:114-120 | pigeonhole over a cyclic run: a slot filled in one table is filled in any other of the same size with equal keys |
| HistoryIndependence.SameKeysSameSlots | hash.cpp:314-326 | the set of filled slots depends only on the keys held, up to the test, and the size |
| HashRuns.TablesFillTheSameSlots | hash.cpp:420-491 | two tables of one size with equal keys fill the same slots whatever puts and removes led to them |
| SegmentModels.SegmentModel.constructor | sqlitesegmentmodel.h:33-34 | a model starts without segments and rows |
| SegmentModels.SegmentModel.SortMMList | sqlitesegmentmodel.cpp:405-425 | the loop is one bubble pass |
| Segments.BubblePassCarriesMaximum | sqlitesegmentmodel.cpp:412-422 | a pass carries a largest start to the end, no more |
| Segments.SortedKeeps | sqlitesegmentmodel.cpp:412-422 | in a valid list the pass swaps nothing, so rows and segments stay aligned |
| Segments.PassPermutes | sqlitesegmentmodel.cpp:412-422 | a pass loses no segment and changes none |
| Segments.PassAt | sqlitesegmentmodel.cpp:412-422 | a pass leaves at each place the smaller of the largest start so far and the next start |
| Segments.OnePassSortsIff | sqlitesegmentmodel.cpp:405-425 | one pass sorts a list exactly when no segment has two before it that start strictly after it |
| Segments.InsertKeepsMirrored | sqlitesegmentmodel.cpp:547-555 | a segment and a row inserted at the same place keep rows and segments in agreement |
| SegmentModels.SegmentModel.SetCapacity | sqlitesegmentmodel.cpp:705-739 | the first capacity makes one owned segment from 0 and its row; later ones change nothing and answer 0 |
| SegmentModels.SegmentModel.FindWidest | sqlitesegmentmodel.cpp:450-511 | the scan finds the first widest gap and its width |
| Segments.WidestIsFirstMaximum | sqlitesegmentmodel.cpp:450-511 | no gap is wider than the one found, and every earlier one is narrower |
| SegmentModels.SegmentModel.SplitPoint | sqlitesegmentmodel.cpp:517-537 | an owned segment is cut in the middle of its gap, a stopped one where it stopped |
| SegmentModels.SegmentModel.TakeFrom | sqlitesegmentmodel.cpp:539-556 | the new segment and its row are inserted at the same place, or a stopped empty segment is handed out unchanged |
| SegmentModels.SegmentModel.MallocFromList | sqlitesegmentmodel.cpp:448-592 | malloc on a list that is not empty computes the specified transition |
| SegmentModels.SegmentModel.Malloc | sqlitesegmentmodel.cpp:431-597 | malloc keeps the invariant and computes the specified transition |
| SegmentModels.SegmentModel.Free | sqlitesegmentmodel.cpp:610-683 | the first segment with the start grows, clamped at its limit, and so does its row |
| SegmentModels.SegmentModel.Release | sqlitesegmentmodel.cpp:688-703 | the first segment with the start loses its owner |
| SegmentModels.SegmentModel.SetBlockBusy | sqlitesegmentmodel.cpp:792-804 | every segment with the start, and its row, take the flag |
| SegmentModels.SegmentModel.IsMemFullAlloced | sqlitesegmentmodel.cpp:741-790 | true exactly when the obtained lengths sum to the capacity |
| Segments.MallocKeepsInv | sqlitesegmentmodel.cpp:515-587 | malloc keeps segments ordered and mirrored, and starts distinct while a gap is open |
| Segments.FreeKeepsInv | sqlitesegmentmodel.cpp:618-651 | free keeps them too: no segment runs into the next or past the capacity |
| SegmentLaws.OwnedIsSplit | sqlitesegmentmodel.cpp:515-592 | whatever has been obtained, an owned segment with the first widest gap is cut half of that gap before its limit if the gap is above 102400, one owned empty segment and its row being added after it and all else unchanged; otherwise nothing changes and the answer is 0 |
| SegmentLaws.SplitHalves | sqlitesegmentmodel.cpp:515-556 | such a cut leaves the owner the larger half of its gap and gives the other half to the new segment |
| SegmentLaws.StoppedIsTakenUp | sqlitesegmentmodel.cpp:523-587 | a stopped segment with the first widest gap is continued at the first byte it is missing, or handed out unchanged if it obtained nothing |
| SegmentLaws.MallocOnNothing | sqlitesegmentmodel.cpp:440-446 | malloc on an empty list changes nothing and answers the largest 64-bit number |
| SegmentLaws.FreeAdds | sqlitesegmentmodel.cpp:618-651 | a free changes the length of the first segment with the start, and of its row, by what fits below the next start or the capacity, and nothing else: flags, other segments and rows are kept |
| SegmentLaws.ReleaseStops | sqlitesegmentmodel.cpp:693-699 | after a release the first segment with the start is not busy and keeps start and length; every other segment, every row and the capacity are unchanged |
| SegmentLaws.ReleasedIsContinued | sqlitesegmentmodel.cpp:523-526 | if the released segment's gap is the first widest, the next malloc answers that segment's end and hands over its whole gap |
| SegmentLaws.MarkingSetsFlags | sqlitesegmentmodel.cpp:792-804 | marking sets the flag of exactly the segments with the start and of their rows |
| SegmentLaws.CapacityIsSetOnce | sqlitesegmentmodel.cpp:705-739 | the first capacity that is not 0 is answered and makes one owned empty segment from 0 and its row; any later one changes nothing and answers 0 |
| Segments.InsertSplitsGap | sqlitesegmentmodel.cpp:547 | an inserted segment splits the gap of its predecessor and no other |
| Segments.Conservation | sqlitesegmentmodel.cpp:741-790 | obtained lengths and open gaps sum to the capacity from the first start on |
| Segments.ClosedIffAllObtained | sqlitesegmentmodel.cpp:743-775 | all gaps are closed exactly when the obtained lengths sum to the capacity |
| Segments.MallocKeepsObtained | sqlitesegmentmodel.cpp:515-587 | malloc leaves the obtained bytes as they are |
| SegmentRuns.NoByteTwice | sqlitesegmentmodel.cpp:610-683 | over any run of operations the byte ranges taken in by frees are pairwise disjoint, inside the capacity, and sum to what the segments record |
| SegmentRuns.ReachedConserves | sqlitesegmentmodel.cpp:741-790 | in every reachable state bytes taken in plus open gaps are the capacity, and the download is complete exactly when no gap is open |
| SegmentRuns.Step | sqlitesegmentmodel.cpp:431-804 | every operation keeps the invariant: order, mirror agreement, distinct starts |
| SegmentRuns.Reached | sqlitesegmentmodel.cpp:405-804 | so does every run from an empty model |
| SegmentRuns.StepKeepsSegments | sqlitesegmentmodel.cpp:515-651 | every old segment keeps a place of its own, in the same order, and all it has obtained; a capacity once set is kept |
| SegmentRuns.TakenIsFresh | sqlitesegmentmodel.cpp:618-651 | what a free takes in was obtained by no segment before |
| SegmentSplitting.MallocSplits | sqlitesegmentmodel.cpp:515-537 | malloc halves the first of the largest gaps, or finds none above the minimum and changes nothing |
| SegmentSplitting.SegmentsAreBounded | sqlitesegmentmodel.cpp:515-556 | from a fresh capacity above 102400 there are never more than capacity/51200 segments and no gap falls below 51200 |
| SegmentSplitting.SplittingEnds | sqlitesegmentmodel.cpp:588-592 | after capacity/51200 calls malloc answers that nothing is left and every gap is at most 102400 |
| SegmentSplitting.ClosedNeverEnds | sqlitesegmentmodel.cpp:558-577 | with every gap closed and the first segment stopped with bytes obtained, every call hands out the same start and adds a segment |
| SegmentSplitting.MallocGivesNoOwnedStart | sqlitesegmentmodel.cpp:515-587 | while a gap is open malloc never hands out the start of an owned segment |
| SegmentSplitting.GivesOwnedStartIff | sqlitesegmentmodel.cpp:558-587 | malloc hands out an owned start exactly when every gap is closed and the first segment is stopped and ends where an owned one starts |
| SegmentSplitting.GivesOwnedStartExample | sqlitesegmentmodel.cpp:558-587 | a run of five operations reaches such a state |
| SegmentSplitting.StoppedIsContinued | sqlitesegmentmodel.cpp:523-556 | a stopped segment is continued at the first byte it is missing and its whole gap is handed over |
| SegmentSplitting.HandsTwiceIff | sqlitesegmentmodel.cpp:539-577 | two calls in a row hand out the same start exactly when the segment chosen is stopped and empty, or every gap is closed and the first segment is stopped |
| SegmentSplitting.MarkedHandsTwiceIff | sqlitesegmentmodel.cpp:792-804 | marking the start busy in between prevents that, except exactly when every gap is closed and the first segment is stopped with bytes obtained |
| SegmentSplitting.NullAnswer | sqlitesegmentmodel.cpp:569-592 | the answer 0 means nothing left, except when the first segment is the one to resume |
| SegmentSplitting.FreeAnswer | sqlitesegmentmodel.cpp:624-648 | the answer is all or nothing, and is the number of bytes taken in exactly when the free fits its gap or the gap is closed |
| SegmentSplitting.FreeCutShortAnswersZero | sqlitesegmentmodel.cpp:605-609 | a free of 25 bytes at a gap of 10 takes in 10 and answers 0, unlike the comment |
| CategoryModels.CategoryModel.constructor | abstractstorage.cpp:69-79 | a model starts as a single-rooted tree with the ids 0 to 8, of which 1, 2, 7 are under 0 and 3, 4, 5, 6, 8 under 2 |
| CategoryModels.CategoryModel.Index | sqlitecategorymodel.cpp:218-272 | the scan finds the row-th child of the parent, or no index |
| CategoryModels.CategoryModel.LookupParentId | sqlitecategorymodel.cpp:285-317 | the unbroken scans find the parent id of the last row with the id |
| CategoryModels.CategoryModel.Parent | sqlitecategorymodel.cpp:274-342 | the parent's index at column 0 and its rank among its siblings, or no index |
| CategoryModels.CategoryModel.RowCount | sqlitecategorymodel.cpp:344-394 | the number of children, and 1 at the top |
| CategoryModels.CategoryModel.DataId | sqlitecategorymodel.cpp:141-187 | for a node the id column is the node's own id, although the top node is read through id 0 |
| CategoryModels.CategoryModel.FindMaxId | sqlitecategorymodel.cpp:434-441 | the largest id in the table |
| CategoryModels.CategoryModel.InsertRows | sqlitecategorymodel.cpp:396-491 | new rows go at the end of the table, each with the next free id, wherever they are announced; they become the last children of the parent, or of the root if the parent is no index |
| CategoryModels.CategoryModel.SiblingDataId | karia2.cpp:1196-1197 | reading the id column of an index through its parent gives its own id |
| CategoryModels.CategoryModel.FindAmongChildren | karia2.cpp:1200-1208 | the loop over children finds an id exactly when it lies strictly below the node |
| CategoryModels.CategoryModel.FindByCatId | karia2.cpp:1191-1215 | the search ends and finds exactly the ids below its index, and from the top exactly the ids in the table, with the right row and column 0 |
| CategoryTree.IndexValidIffRow | sqlitecategorymodel.cpp:218-272 | an index is valid exactly for 0 <= row < rowCount and a column that is not negative |
| CategoryTree.ParentOfIndex | sqlitecategorymodel.cpp:274-342 | the parent of an index made under p is p at column 0 |
| CategoryTree.IndexOfParent | sqlitecategorymodel.cpp:218-342 | an index is made again from its row, column and parent |
| CategoryTree.OneRoot | sqlitecategorymodel.cpp:356-360 | the top has exactly one row, the category 0 |
| CategoryTree.InsertKeepsWellFormed | sqlitecategorymodel.cpp:425-487 | insertion keeps a single-rooted tree with unique ids and parents below their children's ids |
| CategoryTree.InsertedChildren | sqlitecategorymodel.cpp:425-487 | only the chosen parent's children change: the new ids in rising order come last |
| CategoryTree.InsertKeepsNodes | sqlitecategorymodel.cpp:425-487 | every old index keeps its node, row and parent |
| CategoryTree.NewNodesAreLastRows | karia2.cpp:1345-1350 | the announced rows are the new nodes' rows exactly when they start at the parent's row count |
| CategoryTree.BelowSomeChild | karia2.cpp:1200-1208 | whatever lies strictly below a node lies below one of its children |
| CategoryTree.AllBelowRoot | karia2.cpp:1210-1213 | every id of the table lies below the root |
| CategoryTree.DefaultIsWellFormed | abstractstorage.cpp:69-79 | the default categories are such a tree |
| CategoryTree.DefaultChildren | abstractstorage.cpp:69-79 | the children of every id in the default table: 1, 2 and 7 under the root, 3, 4, 5, 6 and 8 under 2, none under any other |
| CategoryTree.ReachedTable | abstractstorage.cpp:69-89 | so is every table insertions lead to from there |
| OptionParsers.OptionParser.constructor | getopt_pp.cpp:122-127 | the tables are those of grouping the tokens after the program name |
| OptionParsers.OptionParser.TouchKey | getopt_pp.cpp:60 | naming an option makes it present; no other option appears and no option's data changes |
| OptionParsers.OptionParser.PushBack | getopt_pp.cpp:82 | a value goes to the end of one option's arguments; no other option appears or changes |
| OptionParsers.OptionParser.TouchCluster | getopt_pp.cpp:67-73 | every letter of a cluster is created and the last one is current |
| OptionParsers.OptionParser.Parse | getopt_pp.cpp:42-87 | the loop over argv feeds the tokens one by one into the tables |
| OptionParsers.OptionParser.OptionsRemain | getopt_pp.cpp:187-208 | true exactly when some option has not been extracted |
| OptionGrouping.GroupsByLastNamed | getopt_pp.cpp:49-84 | each value is an argument of exactly the option named last before it, in order; an option exists exactly when it was named or is the empty option with values |
| OptionGrouping.SomethingRemains | getopt_pp.cpp:187-208 | after parsing some option is still to be extracted exactly when there were tokens |
| OptionGrouping.OptionTokens | getopt_pp.cpp:49-54 | a token names options exactly when it is a dash followed by one of the 52 letters or by a second dash |
| OptionRendering.ClusterIsSpelled | getopt_pp.cpp:63-73 | anywhere on the command line a cluster stands for its characters named one by one, each letter by a token of its own, so the last one is current |
| OptionRendering.LeadingValues | getopt_pp.cpp:76-82 | values before any option belong to the option named by the zero character |
| OptionRendering.RoundTrip | getopt_pp.cpp:42-87 | writing tables out as tokens and parsing them gives the tables back |
| OptionRendering.ParseIsRenderable | getopt_pp.cpp:54-83 | whatever parsing produces can be written out: values look like no option, the empty option has values, no long name is empty, a short option that is neither a letter nor a dash comes with a letter |
| OptionRendering.RenderableIffParsed | getopt_pp.cpp:42-87 | those tables are exactly the ones parsing can produce |
| TaskIds.TidToHex | aria2manager.cpp:34-38 | the numeral is always sixteen decimal digits |
| TaskIds.MarkerWidthDoesNotMatter | aria2manager.cpp:36 | it does not depend on how many digits the place marker takes |
| TaskIds.ValueInjective | aria2manager.cpp:30 | numerals of one length with the same hexadecimal value are the same |
| TaskIds.GidFits | aria2manager.cpp:27-32 | the id fits an unsigned 64-bit integer |
| TaskIds.GidDigits | aria2manager.cpp:27-38 | the sixteen base-16 digits of the id are the numeral's characters: the task id's decimal digits, then zeros |
| TaskIds.CollideIffMultiple | aria2manager.cpp:27-38 | two task ids get the same id, and the same numeral, exactly when one is the other times a power of ten |
| TaskIds.OneAndTenCollide | aria2manager.cpp:27-38 | the task ids 1 and 10 get the same id |
| TaskIds.NoTrailingZeroNoCollision | aria2manager.cpp:27-38 | ids that do not end in zero never collide |

## Left out

- Case-insensitive tables: their hash subtracts 32 from upper-case letters, so keys that test equal need not hash equally and the callbacks' contract fails.
- The bit mixing of `hash_pointer` and the string hash: any function to the naturals is covered.
- Freeing a table, and the stale value left in a slot whose key is marked empty, which no operation reads.
- HashTables.HashTable.Put: sizes whose double leaves the int range are excluded by `MayPut`; the source overflows there.
- HashTables.HashTable.Map: callbacks that add entries or remove others are not modelled, since the source leaves them undefined, nor are callbacks that replace the current key by another that tests equal: each such change makes the source visit the slot again, for ever if the key differs every time.
- The segment model's storage: loading, `submit`, `removeRows`, the columns the allocator does not write, and the log output; the mutex makes each operation atomic.
- SegmentModels.SegmentModel.Free: a start that no segment has ends the program in an assertion; the method asks for one that exists, and in runs such a call changes nothing.
- SegmentModels.SegmentModel.SetCapacity: capacity 0 on an empty model ends the program in an assertion and is excluded.
- The category model's `removeRows`: it asks the top level for its row count and skips rows after removing one, so it does not delete a subtree.
- Category columns other than the two ids, their display and storage.
- Option extraction, conversion of values, and the environment variables of the parser.
- TaskIds.TidToHex: negative task ids are not modelled; their numeral starts with a minus sign and the reading back depends on the formatter.
- RPC, websocket, process and file access, the stat queues, MetaUri and all dialogs and widgets.
