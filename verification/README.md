# libqttracker: a model of its algorithms

libqttracker is a client library that shows the answers of RDF queries as live tables. This project models the
algorithms inside it that have strong invariants, and proves what its code, tests and documentation promise of them.

| file | models |
|---|---|
| BlockNodes, NodeEdits, SparseVector | the sparse row store: a map of blocks that stands for one long sequence of optional rows |
| SparseCursor | its iterators, and copying a range from another store |
| Transition, RowTransitions | the smooth transition from old rows to new ones, with what a listener hears and can read, and the row operations around it |
| SequencerWorld, Sequencer | the sequencer: its state and what always holds of it; the cascade of notifications |
| SequencerSteps | the counters of one step of a dependency chain, operations or branches alike |
| StreamFilter, Streaming | asking for a result block by block, "strictly after the last row" |
| Composition | modules of a compositor, and the rings that calls are forwarded along |
| Transactions | sub-transactions that share one buffered update |
| Fusion | fusing neighbouring update operations |
| DerivedColumns | expanding trees of derived properties into columns |
| LanguageTags | basic and extended matching of language ranges, and lookup (RFC 4647, section 3.3 and 3.4) |
| DateTimes | printing and parsing dates and times |
| Options, Arithmetic | what several of them share |

An object whose methods change it is a class here, with the same fields; a signal is an entry in a ghost log; the
outcome of calling a slot, a module's consent, the calendar and the order of the store's values are parameters.
Several methods of the original are cut into more methods here, so that each proof stays small: `ResetImpl` of the row
store, `Migrate` of the transition, the cascade of the sequencer. Each piece keeps the order of the original's steps.

Where the code does what it promises, and where it does not:

- The row store refines a plain sequence. Inserting, appending or removing nothing breaks the map in all but a few
  cases (`InsertGap`, `InsertBlock`, `Append`, `Remove` say which); replacing strictly inside a populated block always
  does (`StillCovered`), and `ReplaceWorksExactly` says when a replacement works.
- Range copies forget the offset of a block (`CopyExactly` says for which slices that shows).
- The transition announces honestly and spares every row that can stay (`Migrate`), but a cell read from inside its change signal is still the old one
  (`AdvanceChanged`, `StaleWhileSignalled`). The run of equal identities that the lookup could hold is never used, as the identity of
  the run is not remembered (src/lnm_transitionstrategy_p.cpp:120-146); each row gets an entry of its own.
- A hard transition of a slice that reaches past the end announces rows that are not there (`HardTransition`).
- A step that waits for all to start may fail late (`GivesUpAtOnce`).
- The streaming filter passes over rows that are unbound in a descending resource column (`FilterMeans`); whether a
  streamed result comes complete depends on where its blocks end (`Stream`, `SecondRowLost`).
- Streaming is to stop at its limit (src/include/sopranolive/document_global.h:1316-1319). Switched on while a block
  larger than the limit is on its way it does not (`RunPastLimit`). Setting no limit later, as the documentation shows
  (lines 1345-1348 there), makes it stop at once: 0 is written as LIMIT 0 (src/rdfunbound_p.cpp:2005-2006), which
  leaves no rows (section 15.5 of SPARQL 1.1 Query Language; `NoLimitStops`). A block size set to 0 later never ends
  (`EmptyBlock`). A single block has the first block size, where the documentation sets the other one.
- A hidden column is not numbered again when columns are made in front of it, so that its parent's lookup leads to
  another column (`HiddenAstray`).
- The documentation of transactions says that none becomes active while the active one is pending rollback
  (src/include/sopranolive/rdfservice.h:564-572); in the code it joins (src/transaction_p.cpp:234-251), and what it
  edits is lost (`JoinsInVain`). Where the answers agree is part of `Reinitiate` and `CreateTransaction`.
- Fusing may wake triples that an operation carries and ignores; the factories make no such operations
  (`MergeExactly`, `TidyNeverWakes`).
- A printed time without zone cannot be parsed, a fraction of more than three digits is misread, and most offsets behind
  UTC that are not whole hours do not survive (`TimeAloneFails`, `FractionExactly`, `OffsetExactly`). Texts are accepted
  as dates that are none in ISO 8601 (`DateAccepted`, `DigitsAreDate`).

## Model

| member | source | states |
|---|---|---|
| BlockNodes.NodeFacts | src/sparsevector_p.h:399-451 | in a map that keeps its invariant every node's range is the distance to the key before it and its offset and range stay within its block; keys ascend and the last is the size |
| BlockNodes.RowsOf | src/sparsevector_p.h:395-451 | the sequence of optional rows a node map stands for is as long as the last key |
| BlockNodes.PutBetween | src/sparsevector_p.h:449-450 | storing a node under a new key puts it between the nodes with smaller and larger keys and changes nothing else |
| BlockNodes.PutOver | src/sparsevector_p.h:449-450 | storing a node under a key that is there replaces that node only |
| BlockNodes.TrimHeadTiled | src/sparsevector_p.h:440-444 | cutting the head off a block drops exactly its first rows, by range and offset alike |
| NodeEdits.Overwrite | src/sparsevector_p.h:456-479 | what overwriting makes of the plain sequence, row by row: the given rows from the position on, everywhere else the row that was there, or a gap where there was none; long enough for both |
| NodeEdits.InsertRows | src/sparsevector_p.h:536-567 | what inserting makes of it, row by row: the rows in front stay, the given ones follow, those behind move up by their number |
| NodeEdits.RemoveRows | src/sparsevector_p.h:607-612 | what removing makes of it, row by row: the rows in front stay and those behind the range move down; past the end it only pads |
| NodeEdits.ResetRows | src/sparsevector_p.h:399-451 | splitting, dropping and trimming the overlapped blocks and storing the fresh one keeps the map invariant and overwrites exactly the range, with gaps up to a position past the end |
| NodeEdits.ResetIsSafe | src/sparsevector_p.h:399-451 | outside the in-place branch a reset refines the overwrite of a plain sequence |
| NodeEdits.ReplaceWorksExactly | src/sparsevector_p.h:425-435 | replacing a block works for every block of that length exactly when the in-place branch is not taken, or the block starts at the node's start without offset and stays inside it |
| NodeEdits.SpoiltRows | src/sparsevector_p.h:425-435 | where a replacement is not safe there are rows for which the vector is wrong afterwards |
| NodeEdits.StillCovered | src/sparsevector_p.h:409-435 | an edit strictly inside a block leaves a node that reaches back over the one split off, so the map is broken |
| NodeEdits.InsertOutcome | src/sparsevector_p.h:541-543 | shifting the nodes behind and storing the new one inserts the rows, unless nothing is inserted into a vector that is not empty |
| NodeEdits.AppendOutcome | src/sparsevector_p.h:590-594 | appending a block appends its rows exactly when the block has rows or the vector has none |
| NodeEdits.RemoveOutcome | src/sparsevector_p.h:607-612 | erasing the reset node and shifting those behind it removes the rows, unless an empty range is removed at or before the end |
| SparseVector.QSparseVector.ResetImpl | src/sparsevector_p.h:399-451 | every case of the central routine: the new map is the closed form of a reset, or the in-place copy; the index returned is the node that ends behind the range |
| SparseVector.QSparseVector.EraseCovered | src/sparsevector_p.h:437-439 | erases the nodes that end before the range does, and no others |
| SparseVector.QSparseVector.ResetPastEnd | src/sparsevector_p.h:445-450 | past the end the hole is filled with a gap |
| SparseVector.QSparseVector.Find | src/sparsevector_p.h:312-331 | a lookup gives the row of the plain sequence, and nothing for a gap or past the end |
| SparseVector.QSparseVector.Size | src/sparsevector_p.h:643-646 | the size is that of the plain sequence |
| SparseVector.QSparseVector.Reset | src/sparsevector_p.h:456-459 | overwrites the range with gaps |
| SparseVector.QSparseVector.ReplaceRow | src/sparsevector_p.h:464-472 | overwrites one row, populated, gap or past the end |
| SparseVector.QSparseVector.ReplaceBlock | src/sparsevector_p.h:476-479 | overwrites the rows of a block where that is safe, and does exactly what the reset does elsewhere |
| SparseVector.QSparseVector.InsertNode | src/sparsevector_p.h:536-567 | the common part of gap and block insertion, with its exact condition |
| SparseVector.QSparseVector.InsertGap | src/sparsevector_p.h:536-544 | inserts gaps into the plain sequence, padding up to the position; exactly unless the gap is empty and the vector or position is not |
| SparseVector.QSparseVector.InsertBlock | src/sparsevector_p.h:558-567 | inserts the rows of a block, under the same exact condition |
| SparseVector.QSparseVector.Append | src/sparsevector_p.h:590-594 | appends the rows of a block, exactly when there are some or the vector is empty |
| SparseVector.QSparseVector.Remove | src/sparsevector_p.h:607-612 | removes a range, padding first if it reaches past the end, exactly when the range is not empty or starts past the end |
| SparseVector.QSparseVector.ResizeTo | src/sparsevector_p.h:648-656 | afterwards there are as many rows as asked for, each of them the row that was there before, or a gap where there was none |
| SparseVector.OffsetArises | src/sparsevector_p.h:440-444 | appending a block to an empty vector and resetting its first row leaves the block with an offset |
| SparseVector.ReplaceBreaks | src/sparsevector_p.h:409-435 | replacing one row strictly inside a block that was appended to an empty vector breaks the map |
| SparseCursor.BlockIterator.Key | src/sparsevector_p.h:210 | the key of an iterator is the position it stands for, the end included |
| SparseCursor.BlockIterator.BlockOverflow | src/sparsevector_p.h:98-104 | walks forward to the node that holds the target, or to the end |
| SparseCursor.BlockIterator.BlockUnderflow | src/sparsevector_p.h:105-111 | walks back to the node that holds the target, or off the map for a target before the start |
| SparseCursor.BlockIterator.Advance | src/sparsevector_p.h:131-142 | from a row, or backwards from the end, lands at the position plus the offset for every target from 0 to the size |
| SparseCursor.BlockIterator.SkipGap | src/sparsevector_p.h:168-173 | lands on the first populated row at or behind the current one, or at the end |
| SparseCursor.BlockIterator.SkipGapFrom | src/sparsevector_p.h:178-184 | the same after moving by an offset first, forward or backward, no further than to the ends |
| SparseCursor.SamePosition | src/sparsevector_p.h:215-222 | iterators compare equal exactly when they stand for the same position |
| SparseCursor.CopiedRowsAreRows | src/sparsevector_p.h:483-531 | what a copy of a slice reads is the source's rows when no populated node with rows of the slice has an offset |
| SparseCursor.CopyExactly | src/sparsevector_p.h:491-517 | whatever the blocks hold, what a copy of a slice reads is the source's rows exactly when no populated node with rows of the slice has an offset |
| SparseCursor.Spoilt | src/sparsevector_p.h:491-517 | for any such node there are block contents for which a row of the slice is copied wrong |
| SparseCursor.ReplaceRange | src/sparsevector_p.h:483-531 | replacing a gap by the rows between two iterators writes exactly the slice read, gaps included, for any head, middle and tail split over blocks |
| SparseCursor.InsertRange | src/sparsevector_p.h:571-576 | inserting the rows between two iterators inserts exactly the slice read into the plain sequence, unless the slice is empty and the vector or position is not; that is the slice of the source when it is read through no offset |
| SparseCursor.CopyGoesWrong | src/sparsevector_p.h:483-531 | all rows of such a vector, copied into an empty one, are not the rows it holds |
| Transition.InStep | src/lnm_transitionstrategy_p.cpp:237-383 | a listener who follows an honest log holds the readable rows after every announcement |
| Transition.StaleWhileSignalled | src/lnm_transitionstrategy_p.cpp:327-334 | in the log of a whole run, as a migration announces it, a listener who reads a cell while its change is signalled gets what the log has told so far and not what the cell is changed to |
| Transition.RowIdentityCompare | src/lnm_transitionstrategy_p.cpp:148-156 | rows compare as the same exactly when their identity columns agree, and otherwise by the first that differs, turned where it descends |
| Transition.CompareTurned | src/lnm_transitionstrategy_p.cpp:148-156 | swapping two texts turns the sign of their comparison |
| Transition.CompareOrders | src/lnm_transitionstrategy_p.cpp:148-156 | the first character in which two texts differ decides, and a text comes behind those it begins with |
| Transition.FirstRowDataChangedCompare | src/lnm_transitionstrategy_p.cpp:159-175 | rows compare as equal exactly when they are, and otherwise by the first column that differs; the mask marks exactly the columns that differ |
| Transition.ContinuousRowDataChangedCheck | src/lnm_transitionstrategy_p.cpp:178-188 | true exactly when the rows differ in the marked columns and no others |
| Transition.PrepareLookup | src/lnm_transitionstrategy_p.cpp:120-146 | the lookup has every identity of the new rows, each with the first row that has it and a count of one |
| Transition.SmoothTransition.CreateRow | src/lnm_transitionstrategy_p.cpp:89-102 | the three-part mapping gives the rows old prefix, new middle, old tail |
| Transition.SmoothTransition.AdvanceEqual | src/lnm_transitionstrategy_p.cpp:288-309 | passing equal rows leaves the readable rows as they are, with both cursors on the first rows that differ |
| Transition.SmoothTransition.AnnounceRuns | src/lnm_transitionstrategy_p.cpp:321-332 | the runs announced name every marked column and none that is not marked |
| Transition.SmoothTransition.WhileSameColumns | src/lnm_transitionstrategy_p.cpp:316-319 | the rows passed all differ in the marked columns and no others |
| Transition.SmoothTransition.AdvanceChanged | src/lnm_transitionstrategy_p.cpp:316-334 | the cells announced turn the rows readable before into those readable once the cursors have moved; every marked column is announced, none of them belongs to the identity, and what can be read during the signal is what could be read before, so that each cell named is still the old one |
| Transition.SmoothTransition.AdvanceRows | src/lnm_transitionstrategy_p.cpp:285-337 | rows are matched until their identities part, with every announcement honest |
| Transition.SmoothTransition.IterateTargetToIdentitySource | src/lnm_transitionstrategy_p.cpp:190-210 | finds the next old row whose identity first occurs at a new row not passed yet, and that new row, or both ends; no old row passed over could stay, as its identity first occurs at a new row already passed, or at none |
| Transition.SmoothTransition.MoveToIdentity | src/lnm_transitionstrategy_p.cpp:339-348 | sets both cursors on the next old row that stays and the first new row with its identity, or on both ends, further on than before; none of the rows in between can stay |
| Transition.SmoothTransition.RemoveOld | src/lnm_transitionstrategy_p.cpp:350-361 | the removal announced is the one that becomes readable, and names only rows that cannot stay |
| Transition.SmoothTransition.InsertNew | src/lnm_transitionstrategy_p.cpp:363-372 | the insertion announced is the one that becomes readable, and ends in front of a row that stays, or where nothing of the slice is left |
| Transition.SmoothTransition.Round | src/lnm_transitionstrategy_p.cpp:283-374 | every round makes progress, keeps the offsets in agreement, announces honestly and spares every row that can stay |
| Transition.SmoothTransition.Migrate | src/lnm_transitionstrategy_p.cpp:237-383 | the migration terminates; what it announces is an edit script from the old rows to prefix, new rows, suffix, followed step by step by what can be read, and those are the rows in the end; throughout the script no row is removed whose identity first occurs at a new row still to come, new rows are only inserted up to the one that a row which stays becomes, and no identity column is announced as changed |
| RowTransitions.RowStoreModel.RemoveRows | src/rowstoremodel_p.cpp:601-609 | what is announced is honest exactly when the rows asked for are all there |
| RowTransitions.RowStoreModel.InsertRows | src/rowstoremodel_p.cpp:667-675 | inserted rows are announced honestly |
| RowTransitions.RowStoreModel.HardTransition | src/rowstoremodel_p.cpp:575-587 | replaces the slice; a listener can follow exactly when the slice does not reach past the end |
| RowTransitions.RowStoreModel.TransitionRows | src/rowstoremodel_p.cpp:588-598 | both ways, smooth and hard, give the same rows; the smooth one can also be followed when the slice reaches past the end, and spares the rows that can stay |
| SequencerWorld.WaitsForEarlier | src/sequencer_p.cpp:372-420 | a waiting operation's current step is registered on an earlier operation that has not finished |
| SequencerWorld.FirstHasStarted | src/sequencer_p.cpp:372-420 | no deadlock: at rest the first operation of the list has started |
| SequencerWorld.StartsWhenReady | src/sequencer_p.cpp:372-432 | when an operation starts, every step of its chain was registered on nothing or has had its condition met by the log so far |
| SequencerWorld.WaitsUnmet | src/sequencer_p.cpp:307-319 | at rest the condition of the step an operation waits with is not met |
| SequencerWorld.WaitsWithHope | src/sequencer_p.cpp:307-319 | nor is it lost for good, unless all it depends on are to start |
| SequencerWorld.FailsWhenHopeless | src/sequencer_p.cpp:427-431 | when an operation fails for its dependencies, the condition of its current step can no longer be met |
| SequencerWorld.FinishesSince | src/sequencer_p.cpp:395-407 | what a step was registered on finishes, if at all, after the step was evaluated |
| SequencerWorld.OnceEach | src/sequencer_p.cpp:563-595 | an operation starts at most once, finishes at most once and last, and is in the list exactly until it finishes |
| SequencerWorld.DependedOnAll | src/sequencer_p.cpp:395-407 | a step depends on every earlier listed operation with its quality |
| SequencerWorld.DependedOnLatest | src/sequencer_p.cpp:395-407 | a latest step depends on the last such operation only |
| SequencerWorld.ChangedInv | src/sequencer_p.cpp:563-595 | a change of state keeps the invariant, with its notifications on their way |
| SequencerWorld.ArrivesTooLate | src/sequencer_p.cpp:569-593 | a notification to a step that is gone changes nothing |
| SequencerWorld.StillWaits | src/sequencer_p.cpp:307-319 | an undecided step's counters keep counting what it has still to be told |
| SequencerWorld.Succeeds | src/sequencer_p.cpp:307-319 | when the required counter reaches zero, the condition of the step holds of the operations' states |
| SequencerWorld.Fails | src/sequencer_p.cpp:307-319 | when too few are left, the condition can no longer be met by any states to come |
| SequencerWorld.RegisteredInv | src/sequencer_p.cpp:388-418 | evaluating a step registers it on what it depends on and keeps the invariant |
| SequencerWorld.AddedInv | src/sequencer_p.cpp:733-751 | a new operation at the end of the list keeps the invariant |
| Sequencing.Sequencer.Register | src/sequencer_p.cpp:393-407 | the backward search registers the step on exactly those operations, once each, and counts those that have started |
| Sequencing.Sequencer.Deliver | src/sequencer_p.cpp:307-338 | telling a step something keeps the invariant through whatever it sets off |
| Sequencing.Sequencer.TellStarted | src/sequencer_p.cpp:408-416 | the step is told once of every operation that has started already, until it is gone |
| Sequencing.Sequencer.EvaluateCurrentStep | src/sequencer_p.cpp:372-420 | evaluating goes on past steps that depend on nothing; an operation that has nothing to wait for gets the outcome of its slot; whatever else comes of it, each operation from there on is left as it was, fails for its dependencies, or gets the outcome of its slot and the emitters that left; the recursion terminates |
| Sequencing.Sequencer.ChangeState | src/sequencer_p.cpp:563-595 | the cascade of one change of state terminates, touches no earlier operation, ends with the invariant, and takes later operations no other way than to a dependency failure or the outcome of their slot |
| Sequencing.Sequencer.Begin | src/sequencer_p.cpp:599-626 | the operation ends up started exactly when its slot is there, can be invoked and has emitters left, else failed for that reason, whatever the cascade does |
| Sequencing.Sequencer.CheckRemainingSuccessSignalers | src/sequencer_p.cpp:634-641 | a started operation without emitters fails, and nothing else changes |
| Sequencing.Sequencer.AddOperation | src/sequencer_p.cpp:733-751 | keeps the sequencer at rest and all earlier operations in their states; the new one has the outcome of its slot exactly when it has reached the end of its chain, and always when no operation in the list has a quality its steps ask for |
| Sequencing.Sequencer.Success | src/sequencer_p.cpp:643-650 | a started operation succeeds and its cascade ends at rest, with the others gone only where a cascade may take them; otherwise nothing changes |
| Sequencing.Sequencer.Failure | src/sequencer_p.cpp:651-658 | a started operation fails and its cascade ends at rest, in the same way; otherwise nothing changes |
| Sequencing.Sequencer.Abort | src/sequencer_p.cpp:487-494 | aborting a started operation ends it; one that has finished is left alone |
| Sequencing.Sequencer.Destroyed | src/sequencer_p.cpp:659-663 | one emitter less; the loss of the last one fails a started operation; at rest every started operation has an emitter left and none more than its slot left it, a null starting object is told only of a slot that is gone, a failed invocation only of one that is there and fails, and no operation has begun without a slot that could be called |
| Sequencing.StaysSound | src/sequencer_p.cpp:599-663 | when one operation is changed and the others only follow, the state of every operation fits its slot again, and every started one has emitters left |
| Sequencing.SlotDecides | src/sequencer_p.cpp:372-379 | an operation that had not started before a cascade has the outcome of its slot after it exactly when it is at the end of its chain |
| Sequencing.Sequencer.RunDry | src/sequencer_p.cpp:563-595 | progress: at rest with operations left the first of them can be finished, and finishing the first again and again, one way or the other, empties the list with every operation finished, succeeded or failed by signal as the signals were |
| Sequencing.StaysFinished | src/sequencer_p.cpp:563-595 | an operation that has finished keeps its outcome and does not come back into the list |
| Sequencing.ListShrinks | src/sequencer_p.cpp:563-595 | finishing a listed operation leaves fewer in the list, whatever the cascade does |
| SequencerSteps.HopelessExactly | src/sequencer_p.cpp:307-319 | no continuation reaches the threshold exactly when too few sub-objects have matched or not finished |
| SequencerSteps.GivesUpOnlyWhenHopeless | src/sequencer_p.cpp:315-318 | a step fails only when no continuation can make it succeed |
| SequencerSteps.GivesUpAtOnce | src/sequencer_p.cpp:307-319 | it fails as soon as that is so, but for exactly one case of steps that wait for all to start |
| SequencerSteps.GivesUpLate | src/sequencer_p.cpp:307-319 | an input for that case |
| SequencerSteps.SequencerStep.SubObjectEvent | src/sequencer_p.cpp:307-319 | success exactly with the event that reaches the threshold, failure exactly with a finish after which the counters rule it out, before or after a verdict; the first verdict is never both, and comes once all sub-objects have finished at the latest |
| SequencerSteps.OneVerdict | src/sequencer_p.cpp:307-319 | over a whole run there is success at most once, and never both success and failure |
| SequencerSteps.NothingAfterSuccess | src/sequencer_p.cpp:307-319 | after success no event gives a verdict |
| SequencerSteps.NoSuccessAfterFailure | src/sequencer_p.cpp:307-319 | after failure no event gives success |
| SequencerSteps.FailsTwice | src/sequencer_p.cpp:315-318 | an input for which failure comes again |
| StreamFilter.BuildFilter | src/updatermodule_p.cpp:583-635 | the loop over the orderings, last one first, builds the filter that is meant |
| StreamFilter.FilterMeans | src/updatermodule_p.cpp:585-635 | the filter holds for a row exactly when the row comes strictly after the last one and is not hidden by an unbound descending resource column |
| StreamFilter.FilterIsAfter | src/updatermodule_p.cpp:585-635 | with descending resource columns bound the filter means strictly after, in the mixed order with unbound lowest |
| StreamFilter.FilterMisses | src/updatermodule_p.cpp:622-626 | otherwise a row that comes after may be passed over |
| StreamFilter.NeverWhen | src/updatermodule_p.cpp:612-638 | no query is made exactly when all ordering columns are descending and unbound in the last row |
| StreamFilter.NoneFollows | src/updatermodule_p.cpp:636-638 | and then no row can follow |
| StreamFilter.AfterIsStrict | src/updatermodule_p.cpp:585-635 | no row comes after itself, nor two after each other |
| StreamFilter.AfterChains | src/updatermodule_p.cpp:585-635 | coming after is transitive |
| StreamFilter.AfterIsTotal | src/updatermodule_p.cpp:585-635 | of two rows one comes after the other exactly when they differ in a column they are ordered by |
| Streaming.NextComplete | src/updatermodule_p.cpp:579-675 | the block answered behind the first rows is the next stretch of the result exactly when no row of that stretch is hidden from the last row there is |
| Streaming.IdentityOrderings | src/updatermodule_p.cpp:56-59 | the orderings added are ascending ones over exactly the identity columns, in the order of the columns |
| Streaming.AddIdentityOrderings | src/updatermodule_p.cpp:52-60 | attaching adds each identity column, ascending, behind the orderings of the query |
| Streaming.IdentityMakesUnique | src/updatermodule_p.cpp:52-60 | with these, a sorted result whose rows differ in their identities is strictly ordered |
| Streaming.Taken | src/updatermodule_p.cpp:567-732 | whatever a block passes over, the rows stay in the order of the result, none twice, and move on in it |
| Streaming.BlockStartIs | src/updatermodule_p.cpp:642-647 | blocks begin at the first block size and then at multiples of the block size behind it |
| Streaming.Updater.constructor | src/updatermodule_p.cpp:61-82 | block sizes that make no sense are replaced, no limit becomes -1 and any other limit stays, the first block is asked for, and the result will come complete exactly when no row is hidden from the last row in front of its block |
| Streaming.Updater.InitiateStreamPiece | src/updatermodule_p.cpp:567-675 | asks for the next rows, in the size configured but no more than the limit leaves, or finds that there are none |
| Streaming.Updater.ReceivedStreamPiece | src/updatermodule_p.cpp:677-689 | stops at the limit or when not streaming, else asks for more or ends |
| Streaming.Updater.EndOfStream | src/updatermodule_p.cpp:703-711 | ends the streaming and the running for good |
| Streaming.Updater.UpdateModel | src/updatermodule_p.cpp:713-732 | appends exactly the block that came and stops or asks on; whether the result will come complete up to the goal is as decided before as after |
| Streaming.Updater.CancelStreamPiece | src/updatermodule_p.cpp:691-701 | forgets the block on its way and keeps the rows |
| Streaming.Updater.ChangeState | src/updatermodule_p.cpp:488-500 | switching keeps the rows, asks anew from where they end, counts the limit again from there, and does not cut a block on its way: one larger than the limit makes the streaming run to the end; rows stay the first ones of a result without hidden rows, in any order of switching |
| Streaming.Updater.AlterStrategy | src/updatermodule_p.cpp:92-115 | switching is refused when the stream has ended or the other modules do not agree, and then changes nothing; else the states change as `ChangeState` says |
| Streaming.Updater.SetAttributes | src/livenodemodelbase_p.cpp:648-663 | the block sizes and the limit can be set at any time, and a block on its way keeps its size |
| Streaming.Updater.Run | src/updatermodule_p.cpp:567-732 | from any state the streaming, or the single block on its way, stops with exactly the first rows of the result up to the goal if and only if no row up to it is hidden from the last row in front of its block |
| Streaming.Stream | src/updatermodule_p.cpp:61-82 | a result streamed from the start comes complete up to the limit if and only if, at each place where a block ends, no row of the next block is hidden from the last row there is; in any case its rows are in order, each once |
| Streaming.SecondRowLost | src/updatermodule_p.cpp:622-626 | two rows of which the second is lost with a first block of one row, and is not with one of two |
| Streaming.RunPastLimit | src/updatermodule_p.cpp:488-500 | streaming that has stopped at its limit, switched on again while a single block larger than the limit is on its way, does not stop before the end of the result |
| Streaming.NoLimitStops | src/updatermodule_p.cpp:555-559 | with the limit set to no limit, streaming switched on again asks with LIMIT 0, gets nothing, and is switched off without having seen the end |
| Streaming.EmptyBlock | src/updatermodule_p.cpp:642-732 | with a block size of 0 and no limit every block that comes is empty and leaves everything as it was, however many come, so that the streaming never stops |
| Composition.Module.FindPrevious | src/compositemodule_p.h:355-363 | finds the last implementing module in front of a place |
| Composition.Module.FindNext | src/compositemodule_p.h:345-353 | finds the first implementing module from a place on |
| Composition.Module.InterfaceAttach | src/compositemodule_p.h:365-376 | relinks one pointer of the module and of the one in front of it, and no other |
| Composition.Module.InterfaceDetach | src/compositemodule_p.h:378-383 | takes the module out of the chain, and changes no other interface |
| Composition.LinkingIn | src/compositemodule_p.h:365-376 | linking in keeps the ring exactly when an implementing module is in front, or there is no other |
| Composition.LinkedInIs | src/compositemodule_p.h:365-376 | a module that is linked in leads to the implementer behind it or else to the first, the one in front of it leads to it, and no other link changes |
| Composition.LinkingOut | src/compositemodule_p.h:378-383 | taking out keeps the ring exactly when an implementing module is in front, or there is no other |
| Composition.LinkedOutIs | src/compositemodule_p.h:378-383 | where a module is taken out the implementer in front leads to the one behind it or else to the first, and no other link changes |
| Composition.Compositor.AttachModule | src/compositemodule_p.h:207-224 | behind the base module attaching keeps all rings of its interfaces in list order; a module that refuses or is attached already changes nothing |
| Composition.Compositor.DetachModule | src/compositemodule_p.h:231-249 | detaching keeps the rings, frees the module and removes its entry only |
| Composition.Compositor.ReplaceModule | src/compositemodule_p.h:251-280 | replacing keeps the rings, frees the old module and takes in the new one |
| Composition.Compositor.Forward | src/compositemodule_p.h:448-474 | a forwarded call visits the implementing modules in list order, once each, and ends at the base module |
| Transactions.GroupOutcome | src/transaction_p.cpp:208-233 | a group of sub-transactions executes all its edits as one update when the last finishes, or nothing at all: exactly when one has rolled back or there are none |
| Transactions.Transaction.Commit | src/transaction_p.cpp:53-87 | executes the buffered edits once, if there are any, and leaves the service without transaction; nothing when inactive |
| Transactions.Transaction.Rollback | src/transaction_p.cpp:90-107 | drops the buffered edits and leaves the service without transaction; nothing when inactive |
| Transactions.Transaction.Reinitiate | src/transaction_p.cpp:109-121 | becomes the active transaction exactly when there is none |
| Transactions.InPlaceSubTransaction.Commit | src/transaction_p.cpp:208-221 | counts the sub-transaction out; the last of a group without rollback executes |
| Transactions.InPlaceSubTransaction.Rollback | src/transaction_p.cpp:222-233 | dooms the group; the last drops it |
| Transactions.InPlaceSubTransaction.Reinitiate | src/transaction_p.cpp:234-251 | joins a group exactly when there is none active, its own is, or the active one adopts it; the answer is that of the documentation exactly when it refuses or the group is not pending rollback |
| Transactions.JoinsInVain | src/transaction_p.cpp:234-251 | a transaction that joins a group pending rollback is accepted against the documentation, what it edits is taken into the update of the group, and it is never executed |
| Transactions.DoomedGroup | src/transaction_p.cpp:234-251 | three transactions of any service without active one come to that |
| Transactions.Service.ExecuteQuery | src/backends/tracker/tracker_p.cpp:1361-1375 | with an active transaction an update only joins its buffer |
| Transactions.Service.InsertTripleToGraph | src/rdfservice_p.cpp:379-394 | an insertion joins the active group or is executed at once |
| Transactions.Service.DeleteTripleFromGraph | src/rdfservice_p.cpp:396-411 | a deletion joins the active group or is executed at once |
| Transactions.Service.CreateTransaction | src/rdfservice_p.cpp:413-434 | refused exactly when it should be active at once and the active transaction does not adopt it, which is the documented answer exactly when it refuses or the group is not pending rollback; otherwise begins or joins a group, or neither when made inactive |
| Fusion.Insertion | src/rdfunbound_p.cpp:2885-2887 | has the type, the graph and the triples to insert it is given and deletes nothing; it is definite exactly when none of them is constrained, and then it adds them to any set of triples |
| Fusion.Deletion | src/rdfunbound_p.cpp:2889-2891 | has the type, the graph and the triples to delete it is given and inserts nothing; it is definite exactly when all of them are, and then it takes them out of any set of triples |
| Fusion.Modification | src/rdfunbound_p.cpp:2893-2895 | has the type, the graph, the triples to delete and those to insert it is given; it is definite exactly when all deletes are and no insert is constrained, and then it takes the ones out of any set of triples and adds the others |
| Fusion.MergedIs | src/rdfunbound_p.cpp:3074-3085 | the type of a fused operation, computed on the bits, is that of both or else modify, and it stays definite |
| Fusion.MergeExactly | src/rdfunbound_p.cpp:3074-3085 | the fused operation has the effect of the two in a row on every set of triples exactly when nothing comes into force that either carried and ignored |
| Fusion.FusingWakes | src/rdfunbound_p.cpp:2836-2839 | operations made by the public constructor for which it does |
| Fusion.FusedWherePossible | src/rdfunbound_p.cpp:3074-3079 | of two definite operations on one graph those are fused whose types never let fusing change the effect, and no others |
| Fusion.FusedInList | src/rdfunbound_p.cpp:3074-3085 | fusing two neighbours anywhere in a list keeps the effect of the list, whatever the store does with other operations |
| Fusion.Update.MergeOperations | src/rdfunbound_p.cpp:3074-3085 | fuses exactly when both are definite, not silent, on one graph, and delete comes first or insert last |
| Fusion.Update.AddOperation | src/rdfunbound_p.cpp:3038-3044 | adding an operation has the effect of running it after the others, whenever nothing wakes that the two fused carry and ignore |
| Fusion.FusedAlone | src/rdfunbound_p.cpp:3074-3085 | a list of two operations keeps its effect by fusing exactly when nothing wakes |
| Fusion.Update.AppendUpdate | src/rdfunbound_p.cpp:3092-3102 | appending an update has the effect of running it after this one, whenever nothing wakes at the seam |
| Fusion.FusedAllIsSame | src/rdfunbound_p.cpp:3038-3044 | adding any operations in order has the effect of running them in order, on every set of triples and whatever the store does with other operations |
| Fusion.FusedAllSettles | src/rdfunbound_p.cpp:3038-3085 | no two neighbours of the list are left that could be fused, although only the last is looked at each time |
| DerivedColumns.DerivedSelect.AddColumn | src/rdfderivedselect_p.cpp:213-263 | a column is appended, its parent looks it up and counts it if it is real; the layout is kept exactly when its kind belongs at the end and its parent is a real column |
| DerivedColumns.DerivedSelect.ExpandProperties | src/rdfderivedselect_p.cpp:338-367 | the properties of one column go behind the real or the virtual columns, in order, and no column number in front changes |
| DerivedColumns.DerivedSelect.ExpandColumns | src/rdfderivedselect_p.cpp:329-377 | every real column, also one made on the way, is expanded once; the expansion of a finite tree terminates |
| DerivedColumns.DerivedSelect.FinalizeIndices | src/rdfderivedselect_p.cpp:402-419 | every column is numbered by its place and looked up by its parent, the last one with a key winning |
| DerivedColumns.DerivedSelect.ProcessDerivedColumns | src/rdfderivedselect_p.cpp:316-419 | base, single-valued, multiple-valued columns in this layout, parents in front of children, the number of every visible column its place, and lookups, counts and orderings to match; hidden columns keep the numbers they had |
| DerivedColumns.ColumnFor | src/rdfderivedselect_p.cpp:338-367 | every property that expands has its column behind that of its parent, on the side of its kind |
| DerivedColumns.AllKidsAre | src/rdfderivedselect_p.cpp:338-367 | no column is made but for such a property |
| DerivedColumns.LeadsBack | src/rdfderivedselect_p.cpp:413-414 | a column whose key no sibling has is the last one with that key, which is the one that a lookup finds |
| DerivedColumns.VisibleFound | src/rdfderivedselect_p.cpp:402-419 | in the end the lookup in its parent leads to every numbered column whose key no sibling has |
| DerivedColumns.HiddenAstray | src/rdfderivedselect_p.cpp:354-419 | and to a hidden column exactly when no column was made, as those made push it back |
| DerivedColumns.KidsAreLess | src/rdfderivedselect_p.cpp:331-368 | expanding a column leaves less to expand |
| LanguageTags.MatchBasicText | src/soprano/languagetag.cpp:75-97 | basic matching of texts is matching of the lists of their subtags |
| LanguageTags.MatchBasic | src/soprano/languagetag.cpp:99-117 | a range matches exactly the tags it begins, or all if it is the wildcard |
| LanguageTags.MatchExtended | src/soprano/languagetag.cpp:128-168 | the greedy walk succeeds exactly when the wanted subtags can be placed in order without passing over a subtag of one character |
| LanguageTags.MatchExtendedTags | src/soprano/languagetag.cpp:119-126 | accepting equal texts at once makes no difference for tags without wildcard |
| LanguageTags.PlacedFirst | src/soprano/languagetag.cpp:153-158 | a wanted subtag may always be placed where it first occurs |
| LanguageTags.JoinSplit | src/soprano/languagetag.cpp:473-476 | splitting a text into subtags loses nothing |
| LanguageTags.Truncate | src/soprano/languagetag.cpp:395-398 | truncating drops the last subtag and those of one character in front of it, and no others |
| LanguageTags.FallbacksAre | src/soprano/languagetag.cpp:393-399 | truncating again and again gives the range and exactly those of its beginnings that do not end in a subtag of one character |
| LanguageTags.LookupOne | src/soprano/languagetag.cpp:372-399 | finds the first choice that matches the longest truncation any choice matches |
| LanguageTags.Lookup | src/soprano/languagetag.cpp:347-403 | the answer is the first choice to match the longest truncation that any matches, for the earliest priority that has one, or -1 exactly when none has; a choice matches if it is neither empty nor the wildcard and its subtags match by the scheme |
| LanguageTags.FoundIfAmong | src/soprano/languagetag.cpp:347-403 | a choice that equals a priority tag is not looked for in vain: always by basic matching, and by extended matching if no wildcard is in it |
| LanguageTags.ChosenIsOne | src/soprano/languagetag.cpp:347-403 | the answer of a lookup is settled by choices, priorities, scheme and flag: there is no other one that meets what it promises |
| DateTimes.TimeToString | src/soprano/datetime.cpp:204-215 | the loop over trailing zeros prints the clock and the fraction without them |
| DateTimes.FractionIsShortest | src/soprano/datetime.cpp:204-215 | no shorter fraction is read as the same milliseconds |
| DateTimes.FromTimeString | src/soprano/datetime.cpp:55-152 | the steps of the parser compute the time that `TimeAccepted` describes, or none |
| DateTimes.TimeAccepted | src/soprano/datetime.cpp:55-152 | a text is accepted exactly when it splits into hour, minute, second, an optional fraction and a zone of the form given, and is then read as what those mean |
| DateTimes.ToIntExactly | src/soprano/datetime.cpp:66-83 | digits are read as their number, behind a sign or without one, if an int holds it, and nothing else is read |
| DateTimes.TwoCharacters | src/soprano/datetime.cpp:66-83 | a number of two characters is two digits, or a digit behind a sign |
| DateTimes.FromDateString | src/soprano/datetime.cpp:155-182 | the steps of the parser compute the date that `DateAccepted` describes, or none |
| DateTimes.DateAccepted | src/soprano/datetime.cpp:155-182 | a text is accepted exactly when it has a year, a dash, a month, any character, a day, and anything, or no dash and four characters or more, the numbers can be read, and the date they make exists |
| DateTimes.DigitsAreDate | src/soprano/datetime.cpp:161-179 | four digits without a dash are taken for a date |
| DateTimes.FromDateTimeString | src/soprano/datetime.cpp:185-201 | the steps of the parser compute what `DateTimeAccepted` describes, or none |
| DateTimes.DateTimeAccepted | src/soprano/datetime.cpp:185-201 | a text is accepted exactly when it is a date and a time that are accepted, around its first T |
| DateTimes.TimeRoundTrip | src/soprano/datetime.cpp:55-215 | a printed time of UTC is parsed back, for every millisecond |
| DateTimes.TimeAloneFails | src/soprano/datetime.cpp:103-106 | a printed time without zone is never parsed |
| DateTimes.FractionExactly | src/soprano/datetime.cpp:87-98 | a fraction is read as its milliseconds exactly when it has at most three digits or is zero |
| DateTimes.ZoneSubtracts | src/soprano/datetime.cpp:108-149 | a time with a zone is parsed to the time less the offset, modulo a day |
| DateTimes.DateRoundTrip | src/soprano/datetime.cpp:155-228 | a printed date is parsed back, for every year, before year 0 or above four digits too |
| DateTimes.YearIsShortest | src/soprano/datetime.cpp:221-225 | no text with fewer characters and at least four digits is read as the year than the one printed |
| DateTimes.DateTimeRoundTrip | src/soprano/datetime.cpp:185-248 | a printed date and time of UTC is parsed back |
| DateTimes.OffsetExactly | src/soprano/datetime.cpp:230-237 | a time printed with an offset is parsed to the time less that offset exactly for whole minutes that are ahead of UTC, whole hours behind it, or less than ten minutes behind it |
| DateTimes.OffsetBehind | src/soprano/datetime.cpp:230-237 | what becomes of any other offset behind UTC |

## Left out

- SparseCursor.InsertRange: does not model copying from the vector itself.
- SparseCursor.ReplaceRange: is stated for a target range without populated rows, as `InsertRange` leaves it; over populated rows it may take the in-place branch of the reset.
- SparseVector.QSparseVector.ResetImpl: blocks are values, so that a block shared between vectors is never written through; the branch that writes into a block asks for a replacement as long as the range.
- Transition.SmoothTransition.Migrate: is stated for rows without gaps that have all columns the identity needs and are all of one width, a slice and new rows that are not empty, and at least one identity column; without one the original dereferences no entry. The content modules and the cache swap around it are not modelled.
- Transition.Compare: compares code units and gives only a sign.
- RowTransitions.RowStoreModel.RemoveRows: is for a first row that is there; from a later one on the row store would pad with gaps, which the rows here do not have.
- RowTransitions.RowStoreModel.InsertRows: is for a first row up to the end, for the same reason, and so are `HardTransition` and `TransitionRows`.
- RowTransitions.RowStoreModel.HardTransition: is for a first row up to the end, as `InsertRows`.
- RowTransitions.RowStoreModel.TransitionRows: is for a first row up to the end, as `InsertRows`.
- Sequencing.Sequencer.Abort: is for operations that have started; one aborted earlier keeps its chain registered while a caller holds it.
- Sequencing.Sequencer.ChangeState: the dependents of an operation are told from the list as it is when the telling begins; the original iterates the list itself, which an operation evaluated meanwhile may append to.
- Sequencing.Sequencer.EvaluateCurrentStep: is for steps that depend on operations; branch steps are left to `SequencerStep`.
- Sequencing.Sequencer.AddOperation: is for chains without branch steps.
- Sequencing.Sequencer.Begin: whether the slot is there, can be invoked, and how many emitters there are then is given for each operation; a slot that calls back into the sequencer while it is invoked is not modelled.
- Sequencing.Sequencer.Destroyed: does not model an emitter destroyed while the starting slot is invoked.
- Branch steps are modelled for the counters of a step only (`SequencerStep`): a branch settled while its step is still being constructed can be overwritten by the assignment that follows (src/sequencer_p.cpp:352, 384).
- StreamFilter.BuildFilter: takes the order of the values and of resources by their text as given; ordering by a variable that is not a column is skipped as the original does, so the order meant is that of the columns.
- Streaming.Updater.SetAttributes: is for block sizes that are not negative; those are written into the query as they are. The result of the query does not change between blocks, and live updates are not part of it.
- Composition.Compositor.AttachModule: whether a module agrees to come or go is given by the caller; modules belong to one compositor at a time and attach themselves; nothing is attached in front of the base module, where `LinkingIn` says what happens.
- Composition.Compositor.DetachModule: is not for the base module, at which every ring ends; `LinkingOut` says what happens to a ring with nothing in front.
- Composition.Compositor.ReplaceModule: is not for the base module either.
- Transactions.Transaction.Rollback: is not for a transaction that sub-transactions share, as `Commit`.
- Transactions.Transaction.Commit: is not for a transaction that sub-transactions share; a caller who gets hold of it as the pending transaction could commit it. Destruction, signals and the combined commit-and-reinitiate calls are not modelled.
- Fusion.Update.AddOperation: where something wakes, states the new list only; `FusedAlone` says what that means for the two fused. Blank nodes in inserts are taken for ground terms.
- Fusion.Update.AppendUpdate: the same at the seam.
- DerivedColumns.DerivedSelect.ProcessDerivedColumns: leaves out joining column variables, aggregation groupings, and marking all columns as identity when none is.
- LanguageTags.Lookup: takes texts as already in lower case; tables of languages and countries and the conversion from locales are left out.
- DateTimes.TimeAccepted: digits are ASCII, numbers have no spaces around them; a zone behind a time that does not exist gives no time here, where Qt decides.
- DateTimes.DateTimeRoundTrip: is for UTC; with another offset the time is taken back but the date is not carried (`OffsetExactly` is about the time).
- Updating in place with gaps and update keys (src/lnm_transitionstrategy_p.cpp:395-634) mixes block boundaries and role clearing without a clear end state.
- The SPARQL text of patterns and filters, signal delivery, the event loop, pointer lifetimes, logging, D-Bus, the visualizer and the ontology code are not part of this model.
- The graph cache does not implement removal and invalidation, so there is nothing to state of it.
