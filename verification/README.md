# Verified models of a Bitcoin node's data structures and protocols

The node keeps several data structures whose invariants span many functions: a script-check
queue shared by worker threads, the address manager with its five linked indexes, the layered
cache of unspent outputs, two hash-based filters, 256-bit arithmetic with compact targets, the
block index with its skip list, Base58 text, and the reconstruction of compact blocks.  Each
part is modelled in Dafny and proved against an independent reference, for all inputs and, for
the stateful parts, for all sequences of operations.

| part | files | reference |
|---|---|---|
| script-check queue and pool | CheckQueue, CheckQueueSafety, CheckQueueHistory, CheckQueuePool, CheckQueuePoolRuns | a step system: one step per critical section and per executed check, over every interleaving; the list of events |
| address manager | AddrTables, AddrInvariant, AddrRuns, AddrLaws, AddrMan, AddrCheck | one invariant over tables given as values, laws about the fields of entries; the class refines the table functions |
| stored address manager | AddrImage, AddrRestore, AddrLoad, AddrStore | equality of tables up to a renaming of ids |
| unspent outputs | Coins, CoinsView, CoinsStore, CoinsDB | a flat map from outpoints to coins |
| cuckoo cache, rolling filter | CuckooTable, CuckooCache, RollingBloom | the set of live elements; the history of inserted keys |
| 256-bit numbers | Limbs, ArithUint256, Shifts, Division, CompactTarget | integers modulo 2^256 |
| block index, chain, descendants | BlockIndex, Chain, Forest, Descendants | walking parent pointers; recursive pre-order |
| Base58 | Radix, Base58, Base58Codec | values of digit strings |
| compact blocks | CompactSlots, CompactBlocks, CompactDownload | the outcome of all matches of a short id |

Wrappers, Sets, MapSum and Arithmetic hold what several parts share.  Code that the source
writes as updates of objects, arrays and loops is written the same way here: classes with
`modifies` clauses, arrays for limbs, digit buffers and buckets, loops with invariants.  Each
such method is tied by its postcondition to a function of the old state, and the theorems are
about these functions.

Hash functions are arbitrary functions, so every result holds for all of them.  Random choices,
clock readings and the verdicts of called code are parameters.

## Where the code differs from its comments or from what one would expect

- Cuckoo insertion: a comment says that the first displaced location is the first of the eight.
  The code takes the second, and so does the model (`NextStep`).
- In-place multiplication of a 256-bit number by itself gives 0, because the operand is cleared
  before it is read.  `MulAssign` states both cases.
- `Good_` with a time of 0 or less leaves a tried entry that `Check_` rejects.  `GoodTimes` gives
  the exact condition, `UntimelyRun` and `UntimelyFails` the failing runs.
- `AddCoin` without overwriting needs the caller to have looked the outpoint up first.
  `AddNewKeeps` gives the exact condition, `AddNewNeedsLookup` a cache for which it fails.
- The counter of extra transactions of a compact block wraps below zero when an extra transaction
  empties a slot that the pool had filled.  `ExtraCountExact` gives the exact condition.
- `Check_` compares mapAddr only at the addresses of entries, where a missing address reads as id
  0 and is added.  It does not look at surplus addresses, at an address missing for id 0, or at the
  range of ids.  `PassesExactly` says that this is all that is missing for tables that pass: they
  satisfy the invariant if and only if `AddrsOk` holds, that is, mapAddr is the inverse of mapInfo
  and ids lie below the counter.  `SurplusPasses` gives tables that pass and do not.
- Loading a stored address manager accepts negative counts and an address that is stored twice.
  Negative counts always give an inconsistent manager (`LoadNegative`).  With natural counts
  `LoadConsistent` gives the exact condition, `TwinsInconsistent` an image that fails it.
- Prefilled transactions of a compact block: a comment says that adding a 32-bit index cannot
  overflow.  The sum of the index and 1 is itself taken in 32 bits, so the index 2^32-1 does not move
  on and the transaction replaces the one before it.  `Overwritten` gives such a message,
  `PlacedExactly` says exactly when prefilled transactions and short ids have slots of their own.
  All further results about the slots hold for these messages too.
- `GetLocator` doubles its step once too often above heights of 2^30 + 9.  The overflowing step is
  never used (`StepFits`).

## Model

| member | source | states |
|---|---|---|
| `CheckQueue.BatchLength` | src/checkqueue.h:236-241 | a thread takes at least one and never more than the queued checks, and at most max(1, batch size) of them, although the quotient may be 0 |
| `CheckQueue.BatchExact` | src/checkqueue.h:236-241 | a batch is the largest that the batch size and an equal share for all threads and one more allow, but at least one check |
| `CheckQueue.TotalUpdate` | src/checkqueue.h:100-127 | the counters, as sums over threads, change by exactly the weight of the one thread that changed phase |
| `CheckQueueSafety.InitKeeps` | src/checkqueue.h:93-138 | a new queue with any number of workers satisfies the invariant |
| `CheckQueueSafety.BeginKeeps` | src/checkqueue.h:407-419 | installing a new session token keeps the invariant, and no thread holds a batch of the old session at that moment |
| `CheckQueueSafety.AddKeeps` | src/checkqueue.h:369-391 | adding checks keeps the invariant: every ticket is queued once, the outstanding count stays exact |
| `CheckQueueSafety.ExecuteKeeps` | src/checkqueue.h:246-257 | executing one check keeps the invariant: tickets are owned by one thread, verdicts other than passed have a cause |
| `CheckQueueSafety.CleanupKeeps` | src/checkqueue.h:156-183 | merging a finished batch, accounting for it and draining a canceled queue keeps the invariant inside the critical section |
| `CheckQueueSafety.TakeKeeps` | src/checkqueue.h:236-243 | moving any part of the queue into a thread's own batch keeps ownership disjoint and the outstanding count exact |
| `CheckQueueSafety.DispatchKeeps` | src/checkqueue.h:191-244 | the tail of the critical section (take a batch, leave with the result, or sleep) restores the full invariant |
| `CheckQueueSafety.StepKeeps` | src/checkqueue.h:141-260 | every possible step of master, workers and canceller keeps the whole invariant |
| `CheckQueueSafety.RunKeeps` | src/checkqueue.h:141-260 | the invariant holds after every interleaving of possible steps |
| `CheckQueueHistory.RunAgrees` | src/checkqueue.h:141-260 | after every run, the checks added, the results reported, the cancellation and the call of Wait() that the queue has recorded are those of the events since the last StartCheckingSession |
| `CheckQueueHistory.WaitVerdict` | src/checkqueue.h:349-359 | for every event list that ends with Wait() about to return: true only if every check added since the session began was executed and passed, false only if one reported false, empty only if the session was canceled or one reported empty |
| `CheckQueueHistory.WaitExact` | src/checkqueue.h:201-215 | in the step that fixes the result it is a function of the events: empty if and only if canceled or some check reported empty, else true if and only if every added check passed, and false if and only if some check reported false |
| `CheckQueueHistory.ExecutedOnce` | src/checkqueue.h:245-258 | in every run, only added checks are executed, none twice in a session and none after its cancellation |
| `CheckQueueHistory.AddAccepted` | src/checkqueue.h:369-391 | in every run, Add() is accepted exactly while a session is open and Wait() has not been called in it |
| `CheckQueueSafety.CancelDrains` | src/checkqueue.h:167-175 | a batch that finishes in a canceled session empties the queue and takes exactly its checks off the count |
| `CheckQueueSafety.IdleOnceWaited` | src/checkqueue.h:393-396 | after Wait() has returned the queue is idle and empty and every thread is outside or asleep, so the next session is accepted |
| `CheckQueueSafety.CountersExact` | src/checkqueue.h:151-244 | outside critical sections nTodo is queue length plus all batches in flight, and nTotal - nIdle is the number of threads that hold a batch or are leaving |
| `CheckQueueSafety.WaitNeverStuck` | src/checkqueue.h:191-227 | a master inside Wait() is never stuck: some step is possible, and a sleeping master with work outstanding always has a busy worker |
| `CheckQueueSafety.WaitProgress` | src/checkqueue.h:141-260 | while the master waits, a non-negative measure of remaining work never grows and strictly falls with every executed check and every finished batch |
| `CheckQueuePool.WorstUnique` | src/checkqueuepool.h:254-266 | at most one running checker is the first that no other is worse than |
| `CheckQueuePool.FindWorst` | src/checkqueuepool.h:254-266 | the scan loop finds that worst checker: lowest value, then longest running, first of equals |
| `CheckQueuePool.StartAccepted` | src/checkqueuepool.h:278-301 | starting a session on a queue taken from the idle list never throws |
| `CheckQueuePool.RequestCancelsWorst` | src/checkqueuepool.h:249-274 | a request changes at most one session: the worst one, only if no queue is idle and only for a strictly higher value |
| `CheckQueuePoolRuns.AcquireExact` | src/checkqueuepool.h:276-301 | the queue that is idle longest is handed out and registered with the requested value and the given time, and gets a fresh session; no other queue changes |
| `CheckQueuePoolRuns.RequestExact` | src/checkqueuepool.h:249-274 | with no queue idle and the worst checker worth less, exactly its session is canceled; otherwise nothing changes |
| `CheckQueuePoolRuns.GiveBackExact` | src/checkqueuepool.h:305-330 | a returned queue becomes the last idle one, and exactly its checker stops running |
| `CheckQueuePoolRuns.RunLists` | src/checkqueuepool.h:242-330 | in every run the idle queues, in order, and the running checkers with their values and start times are those that the events give |
| `CheckQueuePoolRuns.RequestInRun` | src/checkqueuepool.h:249-274 | after every run a request cancels exactly the least valuable and longest running checker, and only if nothing is idle and it is worth less |
| `CheckQueuePoolRuns.QueueRuns` | src/checkqueuepool.h:242-330 | in every run of the pool each queue is in the state that a queue of its own reaches by the events meant for it |
| `CheckQueuePoolRuns.PooledVerdict` | src/checkqueuepool.h:242-330 | what Wait() answers for a pooled checker has its cause among the checks added since it was handed out, or in a cancellation by its owner or a more valuable request |
| `CheckQueuePool.GiveBackKeeps` | src/checkqueuepool.h:305-330 | returning a queue never fails the idle assertion or the found assertion and keeps the pool consistent |
| `CheckQueuePool.StepKeeps` | src/checkqueuepool.h:242-330 | every possible step of the pool or of one of its queues succeeds and keeps idle and running queues a partition |
| `CheckQueuePool.PoolSafe` | src/checkqueuepool.h:242-330 | in every state of every run of a non-empty pool no possible step throws or asserts, every queue is in exactly one of the two lists once, and listed idle queues are idle |
| `AddrInvariant.DeleteKeeps` | src/addrman.cpp:119-130 | deleting an unreferenced entry keeps all five indexes linked and removes nothing else |
| `AddrInvariant.ClearNewKeeps` | src/addrman.cpp:132-144 | clearing a place of the new table keeps the invariant and loses at most the entry whose last reference it was |
| `AddrInvariant.PlaceKeeps` | src/addrman.cpp:291-312 | placing a reference gives the entry its place or deletes it, and restores the invariant |
| `AddrInvariant.FoundAll` | src/addrman.cpp:147-157 | the bucket walk of MakeTried finds every place of the entry, because each is where the hash dictates |
| `AddrInvariant.UnlinkKeeps` | src/addrman.cpp:147-157 | unlinking removes exactly the entry's places; its reference count reaches 0, so the assertion holds |
| `AddrInvariant.EvictKeeps` | src/addrman.cpp:163-187 | moving the tried entry in the way back to the new table keeps the invariant; the evicted entry survives |
| `AddrInvariant.MakeTriedKeeps` | src/addrman.cpp:146-192 | a promotion keeps the invariant and loses at most one other address, never the promoted entry and never the evicted tried one |
| `AddrRuns.FindExact` | src/addrman.cpp:81-88 | Find returns the one entry with the address, and nothing exactly if there is none |
| `AddrRuns.GoodPromotes` | src/addrman.cpp:194-240 | a known new entry is always found in some bucket, so Good_ always promotes it |
| `AddrRuns.GoodLoses` | src/addrman.cpp:194-240 | Good_ loses at most one address, never a tried one and never the praised one, which ends up tried |
| `AddrRuns.PlaceLoses` | src/addrman.cpp:291-312 | placing a reference loses at most one other entry, and only a terrible one; the entry itself stays exactly if the place was free, its own or takeable |
| `AddrRuns.AddLoses` | src/addrman.cpp:242-314 | Add_ reports "new" exactly for an unknown routable address, loses at most one entry and only a terrible one, and leaves the tried table alone |
| `AddrLaws.AddUnknown` | src/addrman.cpp:242-314 | an unknown routable address stays exactly if the place its source dictates is free, or held by a worthless entry or by one with another reference; then its entry holds the announced address, services and source, the announced time less the penalty (none for a self-announcement), no history, and that one place; otherwise only an id is used up |
| `AddrLaws.AddKnown` | src/addrman.cpp:242-314 | a known address gains the announced services; its time changes exactly by the hourly or daily rule; it gains a reference exactly if the announcement is news, it is not tried, has fewer than eight references, the roll succeeds and the place is free or held by a worthless other entry |
| `AddrLaws.GoodExact` | src/addrman.cpp:194-240 | a praised known service is tried, at its own place only, with the given time as last try and success and no failed attempts; the tried entry that was there gets one reference where its own source dictates; no other entry changes anything but its place |
| `AddrLaws.GoodUnknown` | src/addrman.cpp:194-208 | praising an unknown service only records the time |
| `AddrLaws.AttemptExact` | src/addrman.cpp:316-335 | only the entry of exactly that service changes: its last try, and one more failed attempt if failures count and none was counted since the last success of any address |
| `AddrLaws.AttemptOnce` | src/addrman.cpp:316-335 | two attempts without a success in between count as one failure |
| `AddrLaws.ConnectedExact` | src/addrman.cpp:478-493 | only the time of the entry changes, and only if it is more than twenty minutes old |
| `AddrLaws.SetServicesExact` | src/addrman.cpp:495-509 | only the services of the entry change, to the given ones |
| `AddrLaws.TerribleExact` | src/addrman.cpp:45-66 | an entry is terrible if and only if it was not tried within a minute and is undated, dated ten minutes ahead, unseen for a week, or fails as described |
| `AddrLaws.AnswerLimitExact` | src/addrman.cpp:462-463 | the limit is the largest number within 23 percent of all addresses and 2500 |
| `AddrLaws.GetAddrShuffles` | src/addrman.cpp:461-476 | getaddr performs exactly a Fisher-Yates shuffle up to where it stops, and answers with the entries there that are not terrible |
| `AddrRuns.GetAddrAnswer` | src/addrman.cpp:461-476 | GetAddr_ only reorders; its answer is the decent entries of an initial part of the new random order, and short only if the whole order was searched |
| `AddrRuns.GoodTimes` | src/addrman.cpp:194-218 | the time stamps stay acceptable to Check_ after Good_ if and only if the service was unknown or the time is positive |
| `AddrRuns.UntimelyRun` | src/addrman.cpp:194-240 | for every routable address and every time of 0 or less, adding the address and praising it with that time gives a consistent manager whose time stamps Check_ refuses |
| `AddrRuns.StepKeeps` | src/addrman.cpp:81-314 | each of the six operations keeps the invariant, for all hash functions and random choices |
| `AddrRuns.RunKeeps` | src/addrman.cpp:81-314 | every sequence of operations keeps the invariant |
| `AddrRuns.RunConsistent` | src/addrman.cpp:396-458 | with positive times every sequence of operations also keeps the time stamp conditions of Check_ |
| `AddrMan.AddrMan.constructor` | src/addrman.h:472-493 | a fresh manager is the empty tables and consistent |
| `AddrMan.AddrMan.Find` | src/addrman.cpp:81-88 | the lookup on the object is the lookup on the tables |
| `AddrMan.AddrMan.Create` | src/addrman.cpp:90-99 | the new object state is the table function's result |
| `AddrMan.AddrMan.SwapRandom` | src/addrman.cpp:101-117 | both assertions on membership hold; the new state is the swapped tables |
| `AddrMan.AddrMan.Delete` | src/addrman.cpp:119-130 | under the source's own assertions the new state is the table function's result |
| `AddrMan.AddrMan.ClearNew` | src/addrman.cpp:132-144 | the reference count assertion holds, the place is empty afterwards, the new state is the table function's result |
| `AddrMan.AddrMan.MakeTried` | src/addrman.cpp:146-192 | all assertions hold (reference count 0, free place after eviction); consistent again, and equal to the table function |
| `AddrMan.AddrMan.FindBucket` | src/addrman.cpp:220-234 | the search from a random bucket finds a bucket that holds the entry exactly if there is one |
| `AddrMan.AddrMan.Good` | src/addrman.cpp:194-240 | consistent, and equal to the table function whatever bucket the search starts at |
| `AddrMan.AddrMan.Refresh` | src/addrman.cpp:250-282 | updating a known address, and whether that is all there is to do |
| `AddrMan.AddrMan.Place` | src/addrman.cpp:291-312 | inserting into the bucket the source dictates equals the table function |
| `AddrMan.AddrMan.Add` | src/addrman.cpp:242-314 | consistent, and equal to the table function including the returned flag |
| `AddrMan.AddrMan.Attempt` | src/addrman.cpp:316-335 | consistent, and equal to the table function |
| `AddrMan.AddrMan.Connected` | src/addrman.cpp:478-493 | consistent, and equal to the table function |
| `AddrMan.AddrMan.SetServices` | src/addrman.cpp:495-509 | consistent, and equal to the table function |
| `AddrMan.AddrMan.GetAddr` | src/addrman.cpp:461-476 | consistent, and state and answer equal to the table function for every random choice |
| `AddrCheck.Check` | src/addrman.cpp:396-458 | returns 0 if and only if the declarative conditions hold: counts, entries, exact places of tried entries, and reference counts equal to the numbers of places; mapAddr gains at most missing addresses with id 0, and leads from every entry to its id when 0 is returned |
| `AddrCheck.CheckTried` | src/addrman.cpp:428-440 | the walk over the tried buckets: every occupied place holds a tried entry at its only place, and what is left over was not seen |
| `AddrCheck.CheckNew` | src/addrman.cpp:442-451 | the walk over the new buckets pays off one reference per place; a failure means a wrong place or a wrong count |
| `AddrCheck.CheckEntries` | src/addrman.cpp:402-423 | the walk over mapInfo accepts exactly if every entry is acceptable, and sorts the ids; reading a missing address adds it with id 0 |
| `AddrCheck.ConsistentPasses` | src/addrman.cpp:396-458 | the invariant with acceptable time stamps satisfies all conditions of Check_ |
| `AddrCheck.PassesMeansConsistent` | src/addrman.cpp:396-458 | if mapAddr is the inverse of mapInfo, the conditions of Check_ are equivalent to the whole invariant |
| `AddrCheck.PassesExactly` | src/addrman.cpp:396-458 | tables that pass satisfy the whole invariant if and only if mapAddr is the inverse of mapInfo with ids below the id counter |
| `AddrCheck.SurplusPasses` | src/addrman.cpp:396-458 | an empty manager with a surplus address passes and is not consistent |
| `AddrCheck.UntimelyFails` | src/addrman.cpp:396-458 | adding any routable address and praising it with a time of 0 or less makes the check fail, though all indexes are consistent |
| `AddrCheck.RestoredPasses` | src/addrman.h:356-470 | a consistent manager that passes its check still passes after saving and loading |
| `AddrCheck.RunPasses` | src/addrman.cpp:396-458 | every sequence of operations with positive times from an empty manager ends in tables that Check_ accepts |
| `AddrRestore.OldIdsExact` | src/addrman.h:317-340 | the two walks of Serialize list every id exactly once, nNew new ones and nTried tried ones |
| `AddrRestore.CountsFit` | src/addrman.h:377-385 | a consistent manager never exceeds the limits that Unserialize enforces |
| `AddrRestore.TriedStep` | src/addrman.h:409-427 | restoring a tried entry never finds its place taken, so none is lost |
| `AddrRestore.RowLoaded` | src/addrman.h:430-449 | restoring a bucket puts every entry back at its own place, with room in the reference count |
| `AddrRestore.NothingPruned` | src/addrman.h:451-462 | no entry is pruned after loading |
| `AddrRestore.RoundTrip` | src/addrman.h:305-470 | loading the saved form of a consistent manager into a fresh one gives, up to a renaming of ids, the same entries (address, time, services, source, last success, attempts, state and references of each), places, address map and counts; last try and last counted attempt start at 0; the result is consistent, and its time stamps are acceptable if the saved ones were |
| `AddrRestore.ImageExact` | src/addrman.h:305-354 | what is written: version, key size, both counts, the toggled bucket count, the fields of each new and then each tried entry, and the positions of the holders of each bucket |
| `AddrLoad.LoadConsistent` | src/addrman.h:356-470 | every accepted image with natural counts, whatever its version, bucket count and positions, gives tables in which all indexes but mapAddr are in order; the manager is consistent if and only if before pruning every entry with a place is the only one with its address, in particular if no address is stored twice; a new entry is kept exactly if it has a place, with the stored fields |
| `AddrLoad.LoadOrder` | src/addrman.h:387-427 | a tried place holds the first record that belongs there; without usable positions the place that a source dictates holds the first such record |
| `AddrLoad.TwinsInconsistent` | src/addrman.h:387-405 | a concrete image that stores an address twice and loads into an inconsistent manager |
| `AddrLoad.LoadNegative` | src/addrman.h:369-385 | negative counts are accepted and give an inconsistent manager |
| `AddrStore.SaveNew` | src/addrman.h:317-329 | the walk writes the new entries in order, gives each its rank, and never fails the assertion on nNew |
| `AddrStore.SaveTried` | src/addrman.h:330-340 | the walk writes the tried entries in order and never fails the assertion on nTried |
| `AddrStore.SaveRow` | src/addrman.h:341-353 | a bucket's size is counted right and its entries are written by rank in order of position |
| `AddrStore.Serialize` | src/addrman.h:305-354 | the saved form equals the specification |
| `AddrStore.Unserialize` | src/addrman.h:356-470 | loading into a fresh manager equals the specification for every image: the key size and limit errors, a stream that ends early, negative counts and the ids they give, unusable places, collisions and pruning |
| `Coins.AddFetchedKeeps` | src/coins.cpp:233-252 | caching a fetched coin changes nothing visible and keeps the flags truthful |
| `Coins.LoadScriptKeeps` | src/coins.h:426-435 | adding the script to a cached coin changes nothing visible |
| `Coins.UncacheKeeps` | src/coins.cpp:338-346 | dropping an unmodified entry changes nothing visible |
| `Coins.SpendKeeps` | src/coins.cpp:302-316 | spending removes exactly that coin from the flat map, whether the entry is erased (FRESH) or kept as spent (DIRTY) |
| `Coins.AddNewKeeps` | src/coins.cpp:254-282 | adding succeeds exactly if overwriting is allowed or no unspent coin is cached; the flags stay truthful if and only if overwriting was allowed or the outpoint had been looked up |
| `Coins.AddNewNeedsLookup` | src/coins.cpp:254-282 | without the documented lookup there is a cache for which AddCoin sets a wrong FRESH flag |
| `Coins.AddedAndSpent` | src/coins.cpp:254-316 | a coin unknown below leaves no trace once it is added and spent |
| `Coins.FetchedAddedAndSpent` | src/coins.cpp:233-316 | nor does it if the base returned a spent coin before |
| `Coins.SpentAndFlushed` | src/coins.cpp:348-391 | a spent coin that the base of the parent does not have leaves no trace in the parent |
| `CoinsView.GetCoinCorrect` | src/coins.cpp:25-76 | GetCoin answers from the flat map, with a script if one is needed, and only fills the cache |
| `CoinsView.AnswerAbove` | src/coins.cpp:25-76 | what GetCoin of a view returns is an answer that a view on top of it may rely on |
| `CoinsView.HaveCoinCorrect` | src/coins.cpp:130-134 | HaveCoin is membership in the flat map |
| `CoinsView.SpendCoinCorrect` | src/coins.cpp:115-128 | SpendCoin removes exactly that coin and hands over the very coin that was there; it returns true exactly if the cache has an entry or the base returns one |
| `CoinsView.RunRefines` | src/coins.cpp:25-134 | any sequence of view operations is the same sequence on a flat map, and keeps the flags truthful |
| `CoinsView.WriteOneKeeps` | src/coins.cpp:348-391 | each of the flag cases of BatchWrite writes without error and makes the parent show what the child showed |
| `CoinsView.FlushKeeps` | src/coins.cpp:348-391 | flushing a truthful child into a truthful parent never fails, shows exactly what the child showed, and leaves the parent truthful, in any order of entries |
| `CoinsView.StoredIsFlat` | src/txdb.cpp:223-238 | writing only dirty entries makes the database equal to the flat map, and every unspent dirty entry has its script |
| `CoinsView.StackRefines` | src/txdb.cpp:648-662 | a sequence of operations on a view, flushed into the store and then into the database, leaves in the database what the flat map would hold |
| `CoinsDB.DbGetCorrect` | src/txdb.cpp:489-614 | the database and its cache answer every request as a base must, loading scripts only while there is space, and change nothing visible |
| `CoinsDB.DbGetCaches` | src/txdb.cpp:489-614 | a read caches exactly what the database has, with the script exactly if the threshold leaves room, keeps the flags of entries and changes no other |
| `CoinsDB.CoinsDB.GetCoin` | src/txdb.cpp:489-614 | equals the specified read; the assertions on loaded scripts and on storage hold |
| `CoinsDB.NotAsked` | src/coins.cpp:25-50 | where the view does not go on to its base, no answer of the base has any influence |
| `CoinsDB.PerformAllRefines` | src/txdb.cpp:489-614 | any sequence of operations of a view over the database and its cache, whose answers are computed and not assumed, is the same sequence on a flat map |
| `CoinsDB.DatabaseRefines` | src/txdb.cpp:489-662 | such a run, flushed into the cache and then into the database, never fails and leaves in the database what the flat map would hold, whatever scripts were cached |
| `CoinsStore.CoinsStore.FetchCoin` | src/coins.cpp:216-231 | the cached coin, without a copy of its script |
| `CoinsStore.CoinsStore.AddFetched` | src/coins.cpp:233-252 | the usage total stays the sum over entries; the new cache is the specified one |
| `CoinsStore.CoinsStore.AddNew` | src/coins.cpp:254-282 | the usage total stays exact; cache and error as specified |
| `CoinsStore.CoinsStore.SpendCoin` | src/coins.cpp:302-316 | the usage total stays exact; found exactly if cached; the new cache is the specified one |
| `CoinsStore.CoinsStore.AddEntry` | src/coins.cpp:284-300 | the entry is stored dirty with its FRESH flag; the usage total stays exact |
| `CoinsStore.CoinsStore.UpdateEntry` | src/coins.cpp:318-330 | the coin is replaced, the entry becomes dirty and keeps its own FRESH flag; the usage total stays exact |
| `CoinsStore.CoinsStore.EraseCoin` | src/coins.cpp:332-336 | the entry is gone; the usage total stays exact |
| `CoinsStore.CoinsStore.UncacheAll` | src/coins.cpp:338-346 | exactly the listed entries without flags are dropped; with truthful flags nothing visible changes |
| `CoinsStore.CoinsStore.ReplaceWithCoinWithScript` | src/coins.h:426-435 | the usage total grows by the script |
| `CoinsStore.CoinsStore.MoveOutCoins` | src/coins.h:408-415 | the whole cache is handed over and the total is 0 |
| `CoinsStore.CoinsStore.WriteOne` | src/coins.cpp:350-389 | one turn of the flush loop equals the specified case analysis; the usage total stays exact |
| `CoinsStore.CoinsStore.BatchWrite` | src/coins.cpp:348-391 | the consuming loop stops at the first error; under truthful flags there is none, in any order, and the store then shows what the child showed |
| `CoinsStore.CoinsViewCache.GetCoin` | src/coins.cpp:25-76 | equals the specified read; visible coins and the memory total unchanged |
| `CoinsStore.CoinsViewCache.AddCoin` | src/coins.cpp:78-98 | succeeds exactly if the output is unspendable, overwriting is allowed or no unspent coin is cached; the flags stay truthful if and only if nothing was added, overwriting was allowed or the outpoint had been looked up; then the flat map changes as specified |
| `CoinsStore.CoinsViewCache.SpendCoin` | src/coins.cpp:115-128 | the coin is gone from the flat map and handed over if asked; true exactly if the cache has an entry or the base returns one |
| `CoinsStore.CoinsViewCache.HaveCoin` | src/coins.cpp:130-134 | membership in the flat map; nothing visible changes |
| `BitFlags.BitIndependent` | src/cuckoocache.h:88-111 | setting or clearing one packed flag changes that flag only |
| `CuckooTable.LiveDistinct` | src/cuckoocache.h:368-418 | live elements are pairwise different and each is in one of its own eight locations |
| `CuckooTable.PlaceKeeps` | src/cuckoocache.h:381-389 | storing an element in its first collectable location adds exactly that element to the live set |
| `CuckooTable.SwapKeeps` | src/cuckoocache.h:405-416 | one displacement exchanges exactly two elements |
| `CuckooCache.Cache.constructor` | src/cuckoocache.h:315-329 | after setup nothing is live; the 45% is taken modulo 2^32 |
| `CuckooCache.Cache.AllowErase` | src/cuckoocache.h:243-243 | marks exactly one slot as collectable |
| `CuckooCache.Cache.PleaseKeep` | src/cuckoocache.h:250-250 | unmarks exactly one slot |
| `CuckooCache.Cache.EpochCheck` | src/cuckoocache.h:262-294 | never revives or moves an element, drops only old-epoch elements and only when the current epoch is full, and leaves room for one insertion in the epoch budget |
| `CuckooCache.Cache.CountCurrent` | src/cuckoocache.h:267-272 | counts the live slots of the current epoch |
| `CuckooCache.Cache.Age` | src/cuckoocache.h:277-283 | exactly the slots of the old epoch become collectable and the current epoch becomes the old one |
| `CuckooCache.Cache.NextStep` | src/cuckoocache.h:405-408 | which location is displaced: the one after the location just filled, else the second; never the location just filled if the eight are different |
| `CuckooCache.Cache.Displace` | src/cuckoocache.h:381-417 | the displacement loop adds the element and drops at most one, none if a location was collectable |
| `CuckooCache.Cache.Insert` | src/cuckoocache.h:368-418 | the live set becomes what the epoch check left plus the element minus at most one element, for all hash functions; an element found already loses nothing; current-epoch entries plus the heuristic counter stay within epoch_size + max(1, epoch_size / 16) |
| `CuckooCache.Cache.Contains` | src/cuckoocache.h:446-457 | every live element is found; erasing removes exactly that element from the live set; an erased element may still be found |
| `RollingBloom.EntriesEnough` | src/bloom.cpp:221-224 | two generations hold at least the promised number of elements |
| `RollingBloom.PosExact` | src/bloom.cpp:260-262 | a 32-bit hash is scaled to the number of words, rounding down |
| `RollingBloom.RecentReported` | src/bloom.cpp:264-314 | a key is reported as long as at most two generations of keys were inserted after it, for every hash function |
| `RollingBloom.LastNReported` | src/bloom.h:112-124 | a filter for N elements reports each of the last N inserted keys |
| `RollingBloom.WipePair` | src/bloom.cpp:271-279 | the masks clear exactly the bits tagged with the reused generation |
| `RollingBloom.WipeExact` | src/bloom.cpp:265-280 | entering a generation leaves every cell tagged by its last touch in a generation still kept |
| `RollingBloom.WriteCell` | src/bloom.cpp:288-293 | writing a generation into a cell changes that cell only |
| `RollingBloom.InsertExact` | src/bloom.cpp:264-295 | after an insert every cell is tagged by its last touch |
| `RollingBloom.Filter.Reset` | src/bloom.cpp:321-328 | the filter is empty and valid, with new hash functions and otherwise the same parameters |
| `RollingBloom.Filter.NextGeneration` | src/bloom.cpp:265-280 | the counters advance and the tags are exact for the next generation |
| `RollingBloom.Filter.WriteAll` | src/bloom.cpp:283-294 | exactly the cells of the key are tagged with the current generation |
| `RollingBloom.Filter.Insert` | src/bloom.cpp:264-295 | the key is appended to the history that the filter represents exactly |
| `RollingBloom.Filter.Contains` | src/bloom.cpp:302-314 | reported if and only if each of its cells was touched in a generation still kept |
| `ArithUint256.AddAssign` | src/arith_uint256.h:119-127 | sum modulo 2^256, also in place with itself; no 64-bit overflow |
| `ArithUint256.Increment` | src/arith_uint256.h:152-158 | successor modulo 2^256 although the loop stops at the first limb that does not wrap |
| `ArithUint256.Complement` | src/arith_uint256.h:61-66 | 2^256 - 1 minus the value |
| `ArithUint256.Negate` | src/arith_uint256.h:68-74 | negation modulo 2^256 |
| `ArithUint256.SubAssign` | src/arith_uint256.h:129-132 | difference modulo 2^256 |
| `ArithUint256.MulSmall` | src/arith_uint256.cpp:46-55 | product with a 32-bit factor modulo 2^256; no 64-bit overflow |
| `ArithUint256.MulRow` | src/arith_uint256.cpp:61-68 | one row of the schoolbook product adds the shifted multiple modulo 2^256 |
| `ArithUint256.MulAssign` | src/arith_uint256.cpp:57-70 | product modulo 2^256 for different operands; a number multiplied by itself in place becomes 0 |
| `Shifts.ShiftLeft` | src/arith_uint256.cpp:16-29 | product with 2^shift modulo 2^256, for every shift |
| `Shifts.ShiftRight` | src/arith_uint256.cpp:31-44 | quotient by 2^shift, for every shift |
| `Division.Compare` | src/arith_uint256.cpp:102-109 | the sign of the difference of the values |
| `Division.Bits` | src/arith_uint256.cpp:147-157 | the bit length of the value |
| `Division.Subtract` | src/arith_uint256.cpp:88-97 | the shift-subtract loop leaves the quotient |
| `Division.Divide` | src/arith_uint256.cpp:72-100 | the integer quotient; fails exactly for a zero divisor and has cleared the number by then |
| `CompactTarget.SetCompact` | src/arith_uint256.cpp:177-194 | the decoded magnitude modulo 2^256; overflow if and only if it needs more than 256 bits; negative if and only if the sign bit is set and the magnitude is not 0 |
| `CompactTarget.OverflowExact` | src/arith_uint256.cpp:189-192 | the three size tests of the source together are exactly "at least 2^256" |
| `CompactTarget.GetCompact` | src/arith_uint256.cpp:196-217 | the normal form; its mantissa, exponent and sign read back; both assertions hold |
| `CompactTarget.RoundingError` | src/arith_uint256.cpp:196-217 | encoding rounds down, with (n - m) * 2^15 < m |
| `CompactTarget.Lossless` | src/arith_uint256.cpp:177-217 | re-encoding any decoded compact value loses nothing |
| `CompactTarget.ProofFormula` | src/block_index.cpp:116-120 | ~t / (t + 1) + 1 is floor(2^256 / (t + 1)) |
| `CompactTarget.TargetNotMax` | src/block_index.cpp:108-121 | no compact target is 2^256 - 1, so target + 1 never wraps to 0 |
| `CompactTarget.GetBlockProof` | src/block_index.cpp:108-121 | 0 for a negative, overflowing or zero target, else floor(2^256 / (target + 1)); no division by zero |
| `SkipHeights.LowestOneCleared` | src/block_index.cpp:21-23 | n & (n - 1) takes away exactly the lowest set bit |
| `SkipHeights.SkipGoesDown` | src/block_index.cpp:26-36 | the skip height is below the height, for every height from 1 |
| `SkipHeights.SkipEven` | src/block_index.cpp:25-36 | an even height loses exactly its lowest set bit |
| `SkipHeights.SkipOdd` | src/block_index.cpp:25-36 | an odd height loses exactly its second and third lowest set bits, as far as it has them |
| `SkipHeights.SkipLow` | src/block_index.cpp:25-29 | up to height 1 the skip height is 0 |
| `BlockIndex.BlockIndex.Child` | src/block_index.h:804-836 | a block built on a parent has the next height and the right skip pointer, and keeps the index linked |
| `BlockIndex.BlockIndex.Temporary` | src/block_index.h:988-999 | a temporary block without skip pointer keeps the index linked |
| `BlockIndex.BlockIndex.BuildSkip` | src/block_index.cpp:101-106 | the skip pointer becomes the ancestor at the skip height; used by the constructor and after loading in order of height (src/block_index.h:345-351) |
| `BlockIndex.GetAncestor` | src/block_index.cpp:75-99 | the same block as walking parents one by one; null exactly outside 0..height; never a missing parent; skip pointers may be null |
| `BlockIndex.LastCommonAncestor` | src/block_index.cpp:150-166 | the highest common ancestor; null exactly if the first blocks differ |
| `BlockIndex.HighestUnique` | src/block_index.cpp:150-166 | there is at most one highest common ancestor, so FindFork and LastCommonAncestor agree |
| `Chain.Rebuild` | src/chain.cpp:20-24 | the loop of SetTip: entry i is the tip's ancestor at height i although it stops at the first entry that already agrees |
| `Chain.Chain.SetTip` | src/chain.cpp:11-25 | for any tip, including none, the array is exactly the chain of the tip |
| `Chain.Chain.ContainsExact` | src/chain.h:54-56 | containing a block is being the tip's ancestor at its height |
| `Chain.Chain.FindFork` | src/chain.cpp:58-69 | the highest block shared with the chain; null exactly for no block, an empty chain or a different first block |
| `Chain.Chain.GetLocator` | src/chain.cpp:27-56 | for every 32-bit height the ancestors of the block (or tip) at height h - i for i up to 10 and h - 9 - 2^(i-10) after that, as long as this is positive, and then the first block; looked up by chain or by skip list |
| `Chain.LocatorClosed` | src/chain.cpp:27-56 | the heights in closed form: h - i, then h - 9 - 2^(i-10), and 0 as the last, exactly when the next would not be positive |
| `Chain.StepFits` | src/chain.cpp:41-52 | while a height is left the doubled step does not overflow 32 bits; an overflowing step is never used |
| `Chain.LocatorDescends` | src/chain.cpp:27-56 | the heights are strictly descending and end at 0 |
| `Chain.LocatorShort` | src/chain.cpp:27-56 | at most k + 11 entries up to height 2^k + 9 |
| `Descendants.Collect` | src/blockindex_with_descendants.h:163-177 | the root and exactly the blocks above it up to the maximal height, each once |
| `Descendants.Connect` | src/blockindex_with_descendants.h:187-205 | every item is linked to its parent's item, and into its children in array order; the assertion of Item_SetParent holds |
| `Descendants.BlockIndexWithDescendants.constructor` | src/blockindex_with_descendants.h:163-206 | the items are the collected blocks, fully linked |
| `Descendants.BlockIndexWithDescendants.Next` | src/blockindex_with_descendants.h:102-138 | the next node of the recursive pre-order |
| `Descendants.BlockIndexWithDescendants.Traverse` | src/blockindex_with_descendants.h:84-86 | repeating Next from the root lists the recursive pre-order and then ends |
| `Forest.SubtreeWalk` | src/blockindex_with_descendants.h:102-138 | following Next through any subtree lists its recursive pre-order and leaves to the node after it |
| `Forest.PreExact` | src/blockindex_with_descendants.h:102-138 | the pre-order holds exactly the descendants, each once |
| `Forest.PreOrder` | src/blockindex_with_descendants.h:84-86 | parents come before their children |
| `Descendants.AllDescendants` | src/blockindex_with_descendants.h:163-206 | building and walking the tree visits the root and its descendants up to the maximal height, each once, none of another chain, parents first |
| `Radix.Fits` | src/base58.cpp:34-37 | a^p >= b^q and q*s >= p*n imply that n digits of base b fit into s digits of base a |
| `Base58Codec.EncodeSize` | src/base58.cpp:86-89 | the 138/100 buffer holds every byte string |
| `Base58Codec.DecodeSize` | src/base58.cpp:34-37 | the 733/1000 buffer holds every word |
| `Base58Codec.MulAdd` | src/base58.cpp:45-55 | the carry loop multiplies and adds on the whole number; the carry is 0 at the end, so the assertion holds |
| `Base58Codec.EncodeBase58` | src/base58.cpp:78-119 | one 1 per leading zero byte, then the value in base 58 without leading zeros |
| `Base58Codec.DecodeBase58` | src/base58.cpp:22-76 | accepts exactly one word over the alphabet in white space, up to the first NUL; its value as bytes below 256; output untouched on failure |
| `Base58.DecodeEncode` | src/base58.cpp:22-119 | decoding an encoded byte string gives it back, for every byte string |
| `Base58.DecodeIff` | src/base58.cpp:22-119 | a text decodes to x if and only if it is x's encoding with white space around it |
| `Base58Codec.EncodeBase58Check` | src/base58.cpp:129-135 | the encoding of the bytes followed by four bytes of their hash |
| `Base58Codec.DecodeBase58Check` | src/base58.cpp:137-150 | accepts exactly if the last four bytes match the hash; bytes below 256; output cleared on failure |
| `Base58Codec.DecodeCheckEncode` | src/base58.cpp:129-150 | the checked form round-trips for every hash function |
| `Base58Codec.DecodeCheckIff` | src/base58.cpp:129-150 | a text decodes to x if and only if it is x's checked encoding with white space around it |
| `CompactDownload.PlacePrefilled` | src/blockencodings.cpp:94-118 | for every list of 32-bit indexes: accepted exactly if all tests pass; the array is left exactly by a first index of 2^32-1 with at least 2^32-1 short ids; each slot named holds the last transaction named for it, and the free slots are the short ids plus the number of indexes 2^32-1 |
| `CompactSlots.FirstOutside` | src/blockencodings.cpp:103-118 | a first index of 2^32-1 passes the tests, with slot -1, exactly if there are at least 2^32-1 short ids |
| `CompactSlots.PlacedExactly` | src/blockencodings.cpp:94-118 | an accepted message has a slot of its own for each prefilled transaction if and only if no index is 2^32-1, and exactly as many free slots as short ids if and only if no index is 2^32-1 |
| `CompactSlots.Overwritten` | src/blockencodings.cpp:94-118 | the indexes 0 and 2^32-1 are accepted with any number of short ids; the second transaction replaces the first and one slot too many stays free |
| `CompactBlocks.NextFree` | src/blockencodings.cpp:128-132 | skipping taken slots never leaves the array while fewer ids are placed than slots are free |
| `CompactBlocks.MapIds` | src/blockencodings.cpp:126-158 | for every array with at least as many free slots as short ids, the i-th short id stands for the i-th free slot; fails exactly for a crowded bucket or a repeated short id |
| `CompactBlocks.OfferPool` | src/blockencodings.cpp:162-180 | one pool transaction: the first match fills, a second one empties for good |
| `CompactBlocks.OfferExtra` | src/blockencodings.cpp:190-215 | one extra transaction: the first match fills, a later one with another hash empties |
| `CompactBlocks.ScanPool` | src/blockencodings.cpp:160-188 | stops only at the end or when every short id is matched; the count is the number of slots filled; slots that no short id names stay as they were |
| `CompactBlocks.ScanExtra` | src/blockencodings.cpp:190-223 | after both scans each slot holds exactly the specified outcome of its matches |
| `CompactBlocks.FilledNamed` | src/blockencodings.cpp:160-223 | no more slots are filled than short ids name, and as many only if every named slot is filled, also when free slots are left over |
| `CompactBlocks.ExtraCountExact` | src/blockencodings.cpp:195-214 | the extra counter equals the number of slots filled from extra transactions if and only if none of them emptied a slot filled from the pool |
| `CompactBlocks.ExtraCountWraps` | src/blockencodings.cpp:207-213 | one pool and one extra transaction with one short id make the unsigned extra counter wrap |
| `CompactDownload.PartiallyDownloadedBlock.InitData` | src/blockencodings.cpp:80-231 | INVALID, FAILED and OK each exactly in the stated cases, for every message including 32-bit wrap-around of an index; on OK the slots are as specified |
| `CompactDownload.PartiallyDownloadedBlock.FillBlock` | src/blockencodings.cpp:239-279 | INVALID exactly if the number of downloaded transactions differs from the free slots; otherwise OK, FAILED or CHECKBLOCK_FAILED exactly as the block checks out, is possibly corrupt or is bad, and each free slot takes the next transaction; afterwards it cannot be called again, except that running out keeps the header |
| `CompactDownload.CompressAccepted` | src/blockencodings.cpp:19-30 | a compact block built from a block is accepted exactly if the coinbase is not null and the block is not too large |
| `CompactDownload.Reconstructs` | src/blockencodings.cpp:80-279 | with the missing transactions supplied in order the rebuilt block is the original one, if no offered transaction collides with a short id of the block |
| `CompactDownload.Relay` | src/blockencodings.cpp:80-279 | compressing a block, initialising the download, asking for the transactions of the free slots and filling them in ends in the original block and the verdict of the block check, if no foreign transaction carries one of its short ids; too large blocks and colliding short ids are refused as stated |
| `CompactDownload.PoolSuffices` | src/blockencodings.cpp:160-188 | a fresh download holds every transaction of the block that the pool offers exactly once, despite the early exit |
| `CompactDownload.CountNotNegative` | src/blockencodings.cpp:166-179 | the pool counter never falls below its start and never rises by more than the number of short ids |

## Left out

- Script-check queue: quitting, thread interruption, destructors, timeouts, and the list of failed
  checks, which the source does not clear between batches.
- Script-check queue: lost or spurious wake-ups of workers; a sleeping worker may wake at any time,
  and the progress results do not rely on a particular worker being notified.
- Address manager: `Select_` and `GetChance` (random choice with floating point), the null key, and
  wrap-around of 32-bit ids after 2^31 additions.
- AddrStore.Unserialize: version, key size and counts are taken as read; what follows may end early.
- AddrMan.AddrMan.constructor: `Clear` leaves mapInfo and mapAddr alone, so only the use in a fresh
  object is modelled.
- Unspent outputs: packing of height and coinbase flag into one word, the compressed forms, best
  block bookkeeping, database batches of limited size, `HaveInputsLimited`, and the locks of the
  database.  While one thread loads a coin, others may only load other coins, so the memory in use
  does not fall meanwhile.
- Cuckoo cache: the floating point logarithm of setup (the number of slots and the depth limit are
  parameters) and relaxed memory order of concurrent erasing.
- Rolling filter: the floating point sizing of the constructor; the number of hash functions and of
  words are parameters.  Words are sequences of 64 booleans.
- 256-bit numbers: decrement, bitwise operators, hexadecimal text and conversion to double.
- Block index: chain work, time stamps, status flags and soft rejection; 32-bit heights.
- Descendant tree: items are positions in the array instead of pointers into it.
- Base58: address versions and key types above the two codecs; lengths beyond 32-bit int; white
  space is that of the C locale.
- Compact blocks: messages with 2^32 or more transactions.  The length of a message is a 32-bit
  number of bytes, so none can be received; the source keeps slot numbers in 32 bits.
- Compact blocks: serialisation of the messages, SipHash itself, and logging.  The size of a hash
  bucket is an arbitrary answer per short id.
- CompactDownload.PartiallyDownloadedBlock.FillBlock: the verdict of the block check is a parameter.
