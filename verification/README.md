# GoDB, modelled and verified

GoDB is a page-based database: a page cache with strict two-phase locking, a slotted heap-file
store, and an iterator-style query engine. This project models its core and proves, for all
inputs and all interleavings, what that core is for. `dafny verify dfyconfig.toml` checks it.

## How the model is laid out

**Buffer pool.** `PoolState` is a step machine over unboundedly many transactions and pages: fetch
a page (evicting one if the pool is full), ask for it, poll and block, poll and be aborted by the
detector, be granted, read, write, commit, abort, and append an empty page. A *run* is any sequence
of enabled events from a new pool. Nothing in a run stops an id whose transaction has ended from
asking again: a *session* is the use of an id from one end to the next. `BufferPool` is the object
with its maps updated in place; each method is proved to do exactly events of the machine, so what
is proved of runs holds of sequences of calls. `LockInvariants`, `WaitGraph`, `Deadlock` and the
session part of `Serializability` hold of every run. Where a theorem speaks of transactions instead
of sessions it has the hypothesis that their ids do not come back after their end (`NoReturn`);
`Returning` gives the run in which one does. `PoolContents` and `Refinement` are about page contents
and need that a granted page object is still fresh and a written one still cached, because `GetPage`
captures the object before it waits and never looks it up again; `Staleness` proves that these
hypotheses are exactly what keeps the store invariant and shows a run that breaks them. `Mutexes` is
a second machine, for the pool and file mutexes.

**Storage.** `TupleCodec`, `HeapPages`, `HeapFiles` and `DeleteScan` go from bytes to a whole
file: 64-bit little-endian integers, 32-byte strings, 4096-byte pages, first-fit insert, scanning,
and deletion of a filtered scan of the file being scanned.

**Queries.** `PlanGroups`, `PlanTrees` and `PlanBuilder` cover the construction of an operator tree
from a logical plan; `JoinPairs`, `JoinIterator`, `Aggregates`, `GroupBy`, `Ordering` and `SortKeys`
the operators; `CatalogText` and `Catalog` the printed catalog. The meaning of a plan and the join
iterator refer to the same list of pairs.

What an operation and its specification share - lock compatibility, comparison operators, byte order,
the words of the catalog - is also stated in numbers, bytes and permissions alone (`BlockersMean`,
`IntsDecide`, `Int64BytesAre`, `IntsMean`, `TypeWords` and their like).

Where the code and its comments disagree the model follows the code:

- A comment in `agg_state.go` says that AVG always sees a tuple before it is finalised. Without
  grouping and without input it sees none and divides by zero (`AvgOfNothingFails`).
- `insertTuple` reports success without storing anything when a tuple is wider than a page
  (`InsertCanLoseRows`).
- The locking is there to make transactions serializable, but a join drops the error of its right
  input and goes on under the id that the detector has just cleared. The transaction then commits
  with accesses from before and after, and the conflict graph has a cycle (`VictimGoesOn`).
- A deletion takes an error of its scan for the end: it reports the rows deleted so far as success
  (`DeleteMatching`).
- A waiting transaction can be granted a page object that an abort has thrown away and read
  contents nobody committed (`DirtyRead`).
- A printed catalog is not always read back: a table without fields prints a line the parser
  refuses, and the scanner stops without an error at a line of 65536 bytes (`CatalogRoundTrip`).
- Locks clash by page number alone, across files, which is stricter than needed.

## Model

| member | source | states |
|---|---|---|
| WaitGraph.DeadLockPrevent | godb/buffer_pool.go:273-293 | the recursive search with its shared visited map: a positive answer comes with a walk to the root, a negative one leaves every newly visited node explored; terminates because the unvisited transactions shrink |
| WaitGraph.HasCycle | godb/buffer_pool.go:273-293 | the detector answers yes exactly when a non-empty waits-for walk leads from the transaction back to itself |
| LockInvariants.StepKeepsLocks | godb/buffer_pool.go:173-211 | every event keeps the lock table free of clashing locks, and keeps every page in hand covered by a lock as strong as it was asked with |
| LockInvariants.StepKeepsWaits | godb/buffer_pool.go:244-265 | every event keeps each waits-for edge a real wait: a pending request that clashes with a lock held now |
| LockInvariants.RunsKeepLocks | godb/buffer_pool.go:173-211 | both invariants hold in every reachable state |
| LockInvariants.BlockersMean | godb/buffer_pool.go:244-265 | a request is obstructed exactly by the others that hold a lock of that page number, unless both are for reading |
| LockInvariants.ReadGrantable | godb/buffer_pool.go:173-188 | a pending read is granted exactly when nobody else write-locks that page number |
| LockInvariants.WriteGrantable | godb/buffer_pool.go:173-188 | a pending write is granted exactly when nobody else locks that page number |
| LockInvariants.PollDecides | godb/buffer_pool.go:173-229 | a poll has exactly one outcome: grant, abort or wait |
| Deadlock.EdgesAreWaits | godb/buffer_pool.go:244-265 | no stale edge exists in any reachable state |
| Deadlock.NoFalseVictims | godb/buffer_pool.go:213-222 | a detector abort happens only on a real cycle of blocked transactions through the victim, and leaves it without locks, request or edges |
| Deadlock.DeadlockHasCycle | godb/buffer_pool.go:244-265 | any set of transactions blocked within itself contains a cycle of blocked requests |
| Deadlock.NoDeadlockSurvives | godb/buffer_pool.go:173-229 | once a set is deadlocked and each member has polled since, the detector has aborted a member, although grants elsewhere delete edges |
| Serializability.LockStays | godb/buffer_pool.go:190-211 | a held lock never weakens and is dropped only by its transaction's end |
| Serializability.WhatConflicts | godb/buffer_pool.go:254-261 | a read and a write, either way round, and two writes of one page number conflict; two reads do not |
| Serializability.ConflictsAreSeparated | godb/buffer_pool.go:173-211 | between two conflicting accesses of different transactions the first one ends |
| Serializability.SessionsInOrder | godb/buffer_pool.go:173-211 | in every run, a session with an access before a conflicting access of another session ends before that access |
| Serializability.SessionGraphAcyclic | godb/buffer_pool.go:173-211 | the conflict graph of the sessions of any run follows the order of their ends, so it has no cycle, whatever ids come back |
| Serializability.CommitOrder | godb/buffer_pool.go:87-108 | a committed transaction whose id does not come back commits between its access and any later conflicting access |
| Serializability.ConflictGraphAcyclic | godb/buffer_pool.go:87-108 | the conflict graph of committed transactions whose ids do not come back has no cycle |
| Returning.VictimGoesOn | godb/join_op.go:82-92 | a concrete run in which a victim goes on under its id and the conflict graph of the committed transactions has a cycle |
| PoolContents.EvictDrops | godb/buffer_pool.go:144-151 | deleting by the recomputed key removes exactly the evicted page, since every cached page recomputes the key it is stored under |
| PoolContents.FetchFits | godb/buffer_pool.go:142-164 | a miss keeps the pool within its size although the size is not looked at after the eviction |
| PoolContents.CapacityRespected | godb/buffer_pool.go:142-164 | the pool never holds more than its size in pages, in any reachable state |
| PoolContents.StepKeepsContents | godb/buffer_pool.go:127-211 | every coherent event keeps the agreement of cache, locks, pages in hand and disk |
| Refinement.HandShowsView | godb/buffer_pool.go:132-170 | a granted page shows the transaction's own uncommitted contents if it wrote the page, else the committed ones |
| Refinement.StepRefines | godb/buffer_pool.go:87-211 | every coherent event is a step of "one committed store plus a private workspace per transaction": commit installs, abort discards |
| Refinement.DirtyPagesAreOwned | godb/buffer_pool.go:142-155 | NO STEAL: a dirty cached page is write-locked through that very object by exactly one transaction |
| Refinement.EquivalentToCommitOrder | godb/buffer_pool.go:93-107 | FORCE and crash safety: at every step boundary the disk is what the committed sessions produce when replayed one after another in commit order, each seeing what it saw, on the initial disk plus appended empty pages; a returning id counts as a new session |
| Refinement.SessionsAreTransactions | godb/buffer_pool.go:87-108 | where no id comes back, the committed sessions are the committed transactions with all their accesses |
| Staleness.WriteExact | godb/buffer_pool.go:144-151 | a write keeps the invariant of cache, locks and disk if and only if the page in hand is still the cached one |
| Staleness.GrantExact | godb/buffer_pool.go:134-138 | a grant keeps the invariant of cache, locks and disk if and only if the captured object is fresh |
| Staleness.CachedRunsAreSerial | godb/buffer_pool.go:127-171 | serial equivalence for every run whose granted and written page objects are still the cached ones |
| Staleness.CommittedWrite | godb/buffer_pool.go:87-108 | the hypotheses of the content theorems can be met: a coherent run writes a page and commits it to disk |
| Staleness.DirtyRead | godb/buffer_pool.go:134-138 | a concrete run in which a waiter reads contents that were never committed |
| BufferPoolObject.BufferPool.constructor | godb/buffer_pool.go:52-60 | a new pool is an initial state of the machine |
| BufferPoolObject.BufferPool.IsConflicted | godb/buffer_pool.go:244-265 | true exactly when another transaction holds a lock of that page number and not both are for reading; exactly the edges to those transactions are added |
| BufferPoolObject.BufferPool.DeleteWaitTidLocks | godb/buffer_pool.go:295-307 | exactly the edges into and out of the transaction and the entries thereby emptied disappear |
| BufferPoolObject.BufferPool.SaveMapAndUpgradeLock | godb/buffer_pool.go:190-199 | a read keeps an existing entry, a write files a new one with its page, number and permission; every other entry stays |
| BufferPoolObject.BufferPool.ClearMap | godb/buffer_pool.go:201-211 | throws away exactly the cached pages that the transaction write-locks, and its locks, edges and request; nothing else |
| BufferPoolObject.BufferPool.Poll | godb/buffer_pool.go:173-229 | one turn of the polling loop: granted exactly when no lock of another transaction stands against the permission asked for, else a detector abort or a wait |
| BufferPoolObject.BufferPool.TakeLock | godb/buffer_pool.go:180-187 | files the lock and drops exactly the transaction's edges |
| BufferPoolObject.BufferPool.EvictOne | godb/buffer_pool.go:142-155 | evicts one clean page and makes room for one, or changes nothing when all cached pages are dirty |
| BufferPoolObject.BufferPool.FindPage | godb/buffer_pool.go:132-164 | a hit changes nothing; a miss evicts if the pool is full and loads; both errors and what each leaves behind |
| BufferPoolObject.BufferPool.GetPage | godb/buffer_pool.go:127-171 | plays fetch, request and poll in this order, with the two error outcomes and when they occur, for any id that has no pending request |
| BufferPoolObject.BufferPool.ReadRows | godb/heap_file.go:306-316 | looking at the page got last is exactly a read event |
| BufferPoolObject.BufferPool.WriteRows | godb/heap_page.go:116-122 | changing the page got last for writing is exactly a write event and makes it dirty |
| BufferPoolObject.BufferPool.AppendPage | godb/heap_file.go:206-211 | flushing a new empty page is exactly an append event: the file gains a page without rows |
| BufferPoolObject.BufferPool.FlushPages | godb/buffer_pool.go:93-104 | the flush loop writes exactly the dirty pages of the held locks, in whatever order |
| BufferPoolObject.BufferPool.CommitTransaction | godb/buffer_pool.go:87-108 | performs exactly the commit event: the disk changes exactly at the pages that the transaction locks through a dirty object, to their contents |
| BufferPoolObject.BufferPool.AbortTransaction | godb/buffer_pool.go:75-80 | performs exactly the abort event |
| Mutexes.UnlockByHolder | godb/heap_file.go:178-256 | over all interleavings every mutex is unlocked by its holder |
| Mutexes.PoolMutexTakenFirst | godb/heap_file.go:178-256 | a thread about to take the pool mutex holds no mutex, in particular no file mutex |
| Mutexes.HolderCanMove | godb/buffer_pool.go:87-104 | from any held mutex at most one wait leads to a holder that can move |
| Mutexes.SomeOwnerCanMove | godb/buffer_pool.go:87-130 | whenever a mutex is held some owner can move |
| Mutexes.NoMutexDeadlock | godb/buffer_pool.go:213-229 | while a thread is at work, some thread at work can move |
| TupleCodec.IntRoundTrip | godb/tuple.go:163-167 | every integer in range comes back from its bytes |
| TupleCodec.BytesIntRoundTrip | godb/tuple.go:200-207 | every byte string is the encoding of the integer read from it |
| TupleCodec.Int64BytesAre | godb/tuple.go:163-167 | an integer is written as its eight digits to the base 256 in two's complement, the lowest first |
| TupleCodec.BytesInt64Is | godb/tuple.go:200-207 | eight bytes read as their weighted sum, less 2^64 when the last is at least 128 |
| TupleCodec.StringBytesAre | godb/tuple.go:168-173 | a string is written as its bytes followed by NULs up to 32 bytes |
| TupleCodec.FieldAt | godb/tuple.go:161-177 | each field stands behind the fields before it, in 8 or 32 bytes |
| TupleCodec.WriteTo | godb/tuple.go:159-179 | fails exactly when a string is longer than 32 bytes, else appends the fields' bytes |
| TupleCodec.ReadTupleFrom | godb/tuple.go:194-224 | fails exactly when the buffer is shorter than a tuple, else takes the tuple off its front |
| TupleCodec.RowRoundTrip | godb/tuple.go:159-224 | a written row has the descriptor's size and reads back with trailing NULs cut from its strings |
| TupleCodec.RowBytesRoundTrip | godb/tuple.go:194-224 | every byte string of tuple size is the written form of the row read from it |
| TupleCodec.RowSurvives | godb/tuple.go:168-217 | a row reads back unchanged if and only if no string ends in a NUL |
| HeapPages.HeapPage.constructor | godb/heap_page.go:67-84 | a new page has empty slots only, as many as fit into the 4088 bytes behind the header and not one fewer |
| HeapPages.FullIffCounted | godb/heap_page.go:110-126 | there is a free slot exactly when fewer tuples than slots are stored |
| HeapPages.OccupiedAt | godb/heap_page.go:175-182 | the row of an occupied slot stands behind those of the occupied slots before it, and empty slots give none |
| HeapPages.HeapPage.InsertTuple | godb/heap_page.go:107-127 | refuses exactly on a full page, else fills the first free slot with the right record id; the used counter keeps equal to the occupied slots |
| HeapPages.HeapPage.DeleteTuple | godb/heap_page.go:131-141 | clears exactly the slot the record id names, or refuses exactly when that is no occupied slot of this page |
| HeapPages.HeapPage.ToBuffer | godb/heap_page.go:165-194 | exactly 4096 bytes: slot count and tuple count as four bytes each, the lowest first, then the occupied slots in order, then NULs; fails exactly when a string or the page would not fit |
| HeapPages.PageBytesAre | godb/heap_page.go:165-192 | the layout of a page byte by byte |
| HeapPages.BytesInt32Is | godb/heap_page.go:199-208 | a header field reads as the weighted sum of its four bytes, less 2^32 when the last is at least 128 |
| HeapPages.HeapPage.InitFromBuffer | godb/heap_page.go:197-222 | succeeds exactly when the buffer has the header and announced tuples and the page the slots; fills the first slots with matching record ids |
| HeapPages.RowsBytesRoundTrip | godb/heap_page.go:197-222 | rows read from any page body write back to the very bytes they came from |
| HeapPages.PageRoundTrip | godb/heap_page.go:165-222 | header and rows come back and re-serialise to the same body |
| HeapPages.RowsSurvive | godb/heap_page.go:165-222 | rows come back unchanged if and only if none of their strings ends in a NUL |
| HeapFiles.FlushedPage | godb/heap_file.go:263-277 | flushing page k replaces that page, keeps all others and the whole-page size of the file |
| HeapFiles.ReloadedPage | godb/heap_file.go:144-164 | a stored page loads with its rows in order in the first slots, matching record ids, and a second store is byte-identical |
| HeapFiles.FlushPage | godb/heap_file.go:263-277 | writes the page's bytes at its place and marks it clean, or writes nothing |
| HeapFiles.ReadPage | godb/heap_file.go:144-164 | a page beyond the file or with an impossible header is refused, else a new page object holds the stored slots |
| HeapFiles.HeapFile.Extend | godb/heap_file.go:206-214 | appends one empty page on disk, loads it and leaves the other pages alone |
| HeapFiles.HeapFile.InsertTuple | godb/heap_file.go:178-228 | first free slot of the first page that is not full, or of one new page; stops with an error at the first page the pool refuses; no page already on disk is overwritten |
| HeapFiles.InsertLands | godb/heap_file.go:183-227 | all pages before the one used are full and handed out; the row goes into its first free slot with the right record id and no other slot changes |
| HeapFiles.HeapFile.DeleteTuple | godb/heap_file.go:237-256 | clears exactly the slot of the tuple's record id, on a page that exists and is handed out, or fails; reports success even if the slot was empty |
| HeapFiles.HeapFile.Reload | godb/buffer_pool.go:144-164 | evicting and loading a clean page packs its rows into the first slots in order and touches no other page |
| HeapFiles.ReloadKeepsRows | godb/buffer_pool.go:144-164 | an eviction and reload keeps the number of rows of the file, and the rows themselves if none of their strings ends in a NUL |
| HeapFiles.InsertConserves | godb/heap_file.go:178-228 | success adds exactly the row to the file's multiset if pages have a slot and nothing if they have none; an error changes no row |
| HeapFiles.InsertCanLoseRows | godb/heap_file.go:222-227 | a descriptor of 128 strings leaves no slot, and an insert reports success without storing the row |
| DeleteScan.FileScan.Next | godb/heap_file.go:293-324 | delivers the next occupied slot after the position, or nothing once all later slots before the first refused page are empty; fails exactly at such a page |
| DeleteScan.FilterScan.Next | godb/filter_op.go:59-80 | delivers the next row that satisfies the predicate and skips no other; passes a failure on only when it comes first |
| DeleteScan.SweptUpTo | godb/delete_op.go:33-52 | a file swept up to a page holds the rows that do not satisfy the predicate before it and all rows from it on, in order |
| DeleteScan.RejectCounts | godb/filter_op.go:70-76 | what stays is every row that does not satisfy the predicate, as often as before, and no other |
| DeleteScan.DeleteOp.Next | godb/delete_op.go:33-52 | each call deletes and counts on up to the first refused page; a call that starts there changes nothing and returns the same count |
| DeleteScan.DeleteMatching | godb/delete_op.go:33-52 | deleting a filtered scan from its own file removes exactly the satisfying rows before the first refused page, all of them when there is none, keeps every other tuple in its slot, and returns their number |
| PlanGroups.ConnectedSnoc | godb/parser.go:925-935 | two tables are connected by one more join exactly when they were, or the join bridges their components |
| PlanTrees.IntsDecide | godb/types.go:91-104 | what the six operators decide on integers |
| PlanTrees.StringsDecide | godb/types.go:91-104 | what they decide on strings: less is a proper prefix or a smaller byte at the first difference |
| PlanTrees.FilterKeeps | godb/filter_op.go:59-80 | a filter keeps exactly the rows whose field compares with the constant as the operator says |
| PlanTrees.FilterDenotes | godb/parser.go:833-869 | a filter on top of a plan adds exactly its condition to what the plan denotes |
| PlanTrees.JoinEnvsAt | godb/join_op.go:81-104 | a join in a plan means its rows merged along that same reference list |
| PlanTrees.JoinDenotes | godb/parser.go:871-925 | joining the plans of two separate components denotes the rows of both that satisfy all their conditions and the new equality, each once |
| PlanBuilder.PlaceFilters | godb/parser.go:821-869 | accepts exactly the filters that resolve to a table of the query and a field of the right type, and stacks each on its table |
| PlanBuilder.MergeEntries | godb/parser.go:925-935 | the loop over the table map gives the same map for every iteration order |
| PlanBuilder.PlaceJoins | godb/parser.go:871-938 | accepts exactly the joins that resolve, and merges nodes join by join |
| PlanBuilder.SameOperator | godb/parser.go:940-952 | for every iteration order the check finds whether all entries hold one operator |
| PlanBuilder.FinalMapGroups | godb/parser.go:871-938 | two tables share a node of the final map if and only if the joins connect them, with or without cycles |
| PlanBuilder.PlanPreservesMeaning | godb/parser.go:833-952 | over every database the plan denotes the rows of the product that satisfy all filters and join equalities, each once, if no join closes a cycle |
| PlanBuilder.PlanScansOnce | godb/parser.go:833-952 | an accepted plan scans every table, and each only once if and only if no join closes a cycle |
| PlanBuilder.ResolvedMeans | godb/parser.go:833-899 | a query resolves exactly when its filters and joins name fields of its tables and the types are equal |
| PlanBuilder.DenotesWanted | godb/parser.go:833-952 | a plan with the meaning of a query delivers, once each, exactly the choices of one row per table whose values pass every filter and agree on every join |
| PlanBuilder.MakePhysicalPlan | godb/parser.go:806-954 | refuses exactly what does not resolve or is not connected; over every database an accepted plan without cycles delivers exactly the choices of rows whose values pass every filter and agree on every join |
| JoinPairs.PairsExact | godb/join_op.go:81-104 | from any position on, the reference list holds exactly the matching pairs that are not before it |
| JoinPairs.AllPairs | godb/join_op.go:81-104 | the reference list holds exactly the matching pairs, each once, in left-major order |
| JoinIterator.EqualityJoin.Next | godb/join_op.go:73-105 | each call delivers the next pair with equal field values joined, left fields first, then nothing for ever; terminates on left and right rows remaining |
| JoinIterator.Open | godb/join_op.go:73-79 | no iterator exactly for an empty left input |
| JoinIterator.Drain | godb/join_op.go:73-105 | successive calls deliver exactly the joined rows of all pairs with equal field values, each pair once, in left-major order |
| Aggregates.TruncatedDivMeans | godb/agg_state.go:157-163 | the quotient is truncated toward zero for either sign |
| Aggregates.FoldMeans | godb/agg_state.go:48-291 | adding rows one by one and finalising gives each aggregate its definition over all rows, with 64-bit wrap-around |
| Aggregates.BestOfInts | godb/agg_state.go:187-263 | MAX (MIN) over integers is some row's value and no row has a greater (smaller) one; 0 over no rows |
| Aggregates.BestOfStrings | godb/agg_state.go:187-263 | MAX (MIN) over strings is some row's value and no row has a later (earlier) one; empty over no rows |
| Aggregates.NumbersExact | godb/agg_state.go:48-115 | without overflow COUNT is the number of rows and SUM their total |
| Aggregates.TotalIsSum | godb/agg_state.go:96-99 | the total is additive over the rows |
| Aggregates.AvgIsExact | godb/agg_state.go:143-163 | without overflow AVG is the sum divided by the number of rows, truncated |
| Aggregates.AvgOfNothingFails | godb/agg_state.go:157-163 | AVG over no rows divides by zero |
| GroupBy.FirstSeenExact | godb/agg_op.go:113-120 | exactly the occurring keys are listed, in the order in which they first occur |
| GroupBy.GroupsPartition | godb/agg_op.go:95-126 | the sizes of the groups add up to the size of the input |
| GroupBy.GroupHolds | godb/agg_op.go:107-124 | a group holds exactly the rows with its key, as often as the input does |
| GroupBy.AddTupleToGroup | godb/agg_op.go:171-187 | missing states are started and every aggregate of the group takes the tuple |
| GroupBy.FinalizeStates | godb/agg_op.go:205-220 | the key followed by one value per aggregate, or a division by zero |
| GroupBy.GroupRowFails | godb/agg_op.go:205-220 | a result row fails if and only if it has an AVG over a number of rows that wraps to zero |
| GroupBy.OutputMeans | godb/agg_op.go:189-221 | one row per distinct key in first-seen order, each aggregate as defined over the rows of that group |
| GroupBy.NextMeans | godb/agg_op.go:128-141 | without grouping the result is one row for the whole input, with grouping one per key, each value by the definition of its aggregate |
| GroupBy.Aggregator.Deliver | godb/agg_op.go:93-142 | one call drains the child up to a failure and delivers the next result row |
| GroupBy.Aggregator.Next | godb/agg_op.go:64-143 | every failing input is reported; then, without grouping, the first call delivers one value per aggregate over all rows, or a division by zero exactly for an AVG over a count that wraps to zero, and every later call nothing; with grouping each call delivers one key with its aggregates, in first-seen order |
| Ordering.CompareTotal | godb/tuple.go:281-314 | comparing the other way round flips the result, and values are equal exactly when they compare equal |
| Ordering.CompareTransitive | godb/tuple.go:281-314 | less-than is transitive on integers and on strings |
| Ordering.IntsMean | godb/tuple.go:293-301 | integers compare as numbers |
| Ordering.BytesMean | godb/tuple.go:302-310 | a string is less exactly when it is a proper prefix or smaller at the first differing byte |
| SortKeys.LessByKey | godb/order_by_op.go:74-88 | an ascending key is less exactly when its value is smaller, a descending one when it is greater; on integers by number |
| SortKeys.Less | godb/order_by_op.go:143-162 | true exactly when, at the first key whose values differ, the value is smaller (ascending) or greater (descending); for any non-empty list of keys |
| SortKeys.LessDecides | godb/order_by_op.go:143-162 | the lexicographic order is decided by the first key whose values differ |
| SortKeys.LexicographicTotal | godb/order_by_op.go:143-162 | flips with its arguments; tied exactly when all key values are equal |
| SortKeys.StrictWeakOrder | godb/order_by_op.go:143-162 | irreflexive, asymmetric, transitive, with transitive ties, as sorting needs |
| CatalogText.ParsePrintedLine | godb/catalog.go:81-116 | the line of a table is read back if and only if it has a field |
| CatalogText.TypeWords | godb/catalog.go:98-111 | the type read for each of the five words, and that no other word is one |
| CatalogText.FieldsTextSnoc | godb/catalog.go:185-190 | fields are printed as name, blank and type word, with a comma and a blank between them |
| CatalogText.TableTextIs | godb/catalog.go:183-192 | a line is the name, a blank and the fields in parentheses |
| CatalogText.LinesAre | godb/catalog.go:79-83 | a line ends at a newline, loses one carriage return, and stops the scanner at 65536 bytes |
| CatalogText.ReadOnlyIf | godb/catalog.go:84-97 | a line is read only with exactly one opening parenthesis, a field only with exactly one blank inside |
| CatalogText.CatalogRoundTrip | godb/catalog.go:72-118 | parsing the printed catalog returns the same tables if and only if each has a field and a line under 65536 bytes |
| CatalogObject.ParseCatalog | godb/catalog.go:72-118 | the scanning loop computes the specified parse, with its refusals |
| CatalogObject.Catalog.CatalogString | godb/catalog.go:181-194 | the printing loops produce the specified text |
| CatalogObject.Catalog.AddTable | godb/catalog.go:134-152 | appends the table, or refuses exactly when the name is taken; list and name index stay in agreement |
| CatalogObject.Catalog.DropTable | godb/catalog.go:34-45 | removes exactly the table of that name and keeps the others in order, or refuses exactly when there is none |
| CatalogObject.LoadCatalog | godb/catalog.go:120-132 | a loaded catalog holds the parsed tables less those whose name was taken |
| CatalogObject.SaveAndLoad | godb/catalog.go:23-32 | saving a catalog and loading the text gives the same tables |

## Left out

- The step machine cuts the critical sections finer than the mutex does (fetch and request are separate events, and a read or write is one atomic event on the page got last), so it allows more interleavings than the pool does; sleeping and random delays are the scheduler's choice.
- A transaction has one pending request at a time, as its callers guarantee.
- Serializability.CommitOrder: assumes that the ids concerned do not come back after their end, which the join iterator does not guarantee; `Serializability.SessionsInOrder` does not assume it.
- Serializability.ConflictGraphAcyclic: the same hypothesis; `Serializability.SessionGraphAcyclic` does not have it.
- Staleness.GrantExact: is exact for the invariant of cache, locks and disk; a stale object may by chance hold the contents that the transaction should see.
- Page objects are references into a map and page contents the rows in slot order; `HeapFiles.ReloadedPage` makes that abstraction of flush and load sound for rows that have the types of the file, fit, and hold no string that ends in a NUL, since a stored string loses its trailing NULs.
- DeleteScan.DeleteMatching: a page that the scan could read is also granted for the deletion; the counter is unbounded.
- HeapFiles.HeapFile.InsertTuple: is stated for calls that are not interleaved with others on the same file and for pages that stay cached during the call (`HeapFiles.HeapFile.Reload` is an eviction between calls); tuples are values, so the write of the record id into the caller's tuple is not visible.
- HeapPages.HeapPage.constructor: requires a tuple size of at least one byte, since the source divides by it.
- JoinIterator.EqualityJoin.Next: requires a non-empty right input, since the source loops for ever otherwise.
- PlanBuilder.PlanPreservesMeaning: a join list with a cycle joins an operator with itself; such plans are only shown to scan a table twice.
- PlanBuilder.PlaceFilters: filters compare a field with a constant by the six comparison operators; LIKE rests on a regular-expression library, and computed expressions are not modelled.
- PlanBuilder.MakePhysicalPlan: starts from a logical plan whose fields are table-qualified; a subquery is a leaf like a table; projection, aggregates, ordering and limits on top of the joins are not modelled; a query without tables is an outcome of its own, where the source goes on with no operator.
- GroupBy.Aggregator.Next: takes group keys as equal when their hashes are, that is, treats `tupleKey` as injective; aggregate states are values, so aliasing of state objects is not modelled; the expressions under the aggregates do not fail.
- SortKeys.Less: requires at least one key, since the source indexes past the list without one; `sort.Sort` itself is an unseen library.
- CatalogText.CatalogRoundTrip: text is valid Unicode; the lower-casing of characters beyond ASCII is any function.
- CatalogObject.Catalog.AddTable: the column index is not modelled, since dropping a table does not maintain it.
- CatalogObject.Catalog.DropTable: neither the column index nor the removal of the table's file is modelled.
- Mutexes.NoMutexDeadlock: a panic inside a critical section and `FlushAllPages` and `LoadFromCSV`, which bypass the commit protocol, are not modelled.
- SQL text parsing, name lookup, `findFieldInTd`, `project`, `LIMIT`, value operators, descriptors, date, random and regular-expression functions, pretty printing and the shell: user interface, foreign calls or easy members.
