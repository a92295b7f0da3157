# Verified model of the PHICOIN core

PHICOIN is a full node in C++ that descends from Bitcoin and Ravencoin. This project models the parts of
it where a mistake would lose coins, addresses, bytes or work, and proves what each part is for. The model
is written in the form of the code: an object whose methods update its fields is a class proved against a
function of its old state, a loop is a loop with invariants, a pure definition is a function.

| file | what it models | main result |
|---|---|---|
| `Coins.dfy` | the stack of coin caches over the coin database | every run of operations on a stack of any depth acts and answers as the same run on plain maps (`Run`); a flush never meets the "FRESH flag misapplied" exception |
| `AddrMan.dfy`, `AddrManCheck.dfy` | the address manager with its new and tried tables | every run keeps the cross-table invariant (`Run`); the manager's own consistency check passes exactly on the states it should (`Check`, `PassesExact`) |
| `AddrManStore.dfy` | its serialization | a manager that is saved and loaded has the same entries, field by field, in the same places, up to their numbers (`SaveAndLoad`) |
| `Miner.dfy` | transaction selection for a block | ancestors first, no duplicates, only final transactions, within the limits; what is left out had no room, or the selection had a reason to stop (`SelectTransactions`) |
| `CheckQueue.dfy` | the parallel check queue, as a transition system over its threads | in every interleaving `Wait` answers correctly, nothing is run twice, no wake-up is lost and `Wait` returns under every scheduling (`RunSafe`, `RunAnswers`, `WaitEnds`) |
| `MerkleBlock.dfy` | partial merkle trees | extracting what was built gives the root and the matches, also through the wire format; whatever yields the right root is genuine; whatever has a hash or a byte too many is refused (`WireRoundTrip`, `Soundness`, `MoreHashesRefused`) |
| `CuckooCache.dfy` | the cuckoo cache of checked signatures | every run keeps the placement and epoch invariants; an insertion is a chain of swaps that loses nothing, or at full length exactly its last element (`Run`, `InsertionLaw`) |
| `RollingBloom.dfy` | the rolling bloom filter | a key is reported exactly if recent insertions hit all its places, so the recent keys always are (`Contains`) |
| `ArithUint256.dfy`, `CompactTarget.dfy` | 256-bit arithmetic, compact targets, block proof | the limb loops compute the arithmetic modulo 2^256, long division is exact, the compact form loses no more than it must (`Divide`, `RoundTrip`, `GetBlockProof`) |
| `Chain.dfy` | the block index and the active chain | skip pointers reach the same ancestor as plain ones; forks and locators are right (`GetAncestor`, `FindFork`, `GetLocator`) |
| `Base58.dfy` | base 58 with and without a checksum | encoding and decoding are inverse, and the fixed buffers are large enough (`EncodeDecode`, `DecodeEncode`, `EncodeFits`) |
| `BlockEncodings.dfy` | compact blocks | the block is put together again from the message, the pool and the missing transactions (`Reconstruct`); exactly when the 16-bit search for places ends and the places are right (`MappingEndsExact`, `PlacesFit`, `Misplaced`) |
| `NetMessage.dfy` | message framing on a byte stream | however the stream is cut, the messages sent are the messages received and no byte is lost (`ReceiveStream`, `MessagesCut`, `RunConserves`) |
| `BoolEE.dfy` | the evaluator of verifier expressions | a printed formula evaluates to its truth value, white space anywhere, exactly if all its names have values (`ResolveAnyText`) |
| `Compressor.dfy` | amount compression | a bijection on the naturals; exactly which of all 64-bit amounts survive on words (`ReadBackExact`) |
| `Bits.dfy`, `Basics.dfy` | bits of machine words; options and powers of two | used by the above |

Conventions. Hash functions, clocks, random numbers and the reading of a message header are parameters.
Integers are unbounded; where the code's width matters (limbs, 16-bit indexes, 64-bit amounts, the 32-bit
epoch size) the wrap-around is written out. Exceptions and error returns are results.

Where the code differs from its comments, or does what a reader may not expect, the model follows the code:

- `SpendCoin` returns true for a spent entry that is still cached, although nothing is spent then (`SpendTwice`).
- The comments of the cuckoo cache say that displacement starts with the first slot of an element; it
  starts with the second one.
- `Add_` of the address manager says that an address is new even if it was dropped again at once.
- Multiplying a 256-bit number in place by itself gives zero.
- The 16-bit offset of differentially coded indexes starts again at zero after index 65535, so a decoded
  list need not be increasing (`DecodedIncreasing`, `OffsetWraps`).
- The places of short ids in a compact block and the offset that finds them are 16-bit numbers. In blocks of
  more than 65536 transactions places are confused (`PlacesFit`, `Misplaced`), and if all 16-bit places are
  prefilled the search for the place of a short id does not end (`MappingEndsExact`, `SearchNeedNotEnd`).
- Amounts below the largest valid amount exist whose compressed form wraps and is not read back (`Wraps`,
  `ReadBackExact`).
- The consistency check of the address manager does not look for stray entries of the address index or for
  ids that have not been given out (`PassesExact` says what is missing).

## Model

| member | source | states |
|---|---|---|
| `Coins.CoinsViewCache.Run` | src/coins.cpp:50-95 | Every run of fetches, additions, spends, uncachings and flushes on a stack of caches of any depth leaves the views, and gives the answers, of the same run on a stack of plain maps |
| `Coins.CoinsViewCache.Perform` | src/coins.cpp:359-494 | One operation at any level of the stack acts, and answers, as on plain maps |
| `Coins.CoinsViewCache.FetchCoin` | src/coins.cpp:50-65 | Loading an entry changes no view at any level; it is found exactly if the cache then holds it, and a visible coin is always found |
| `Coins.CoinsViewCache.GetCoin` | src/coins.cpp:67-74 | Gives the visible coin if there is one, never a spent one |
| `Coins.CoinsViewCache.HaveCoin` | src/coins.cpp:404-407 | True exactly for visible coins |
| `Coins.CoinsViewCache.AddCoin` | src/coins.cpp:76-95 | Throws exactly if the caller rules out an overwrite and the cache shows an unspent coin; otherwise the view gains the coin, except an unspendable one |
| `Coins.CoinsViewCache.SpendCoin` | src/coins.cpp:359-391 | The view loses the coin and the caller gets it; the result is true exactly if the coin was visible or an entry was cached, and the entry stays unless it was fresh |
| `Coins.CoinsViewCache.SpendTwice` | src/coins.cpp:359-391 | The second spending changes no view and hands nothing out, yet is true exactly if the first left an entry behind |
| `Coins.CoinsViewCache.Uncache` | src/coins.cpp:487-494 | Drops exactly an unflagged entry; no view changes |
| `Coins.CoinsViewCache.MergeEntry` | src/coins.cpp:424-474 | A child entry that keeps the flag contract merges without exception and the view then shows it |
| `Coins.CoinsViewCache.BatchWrite` | src/coins.cpp:424-478 | Merging a child cache in any order never throws, keeps the flag contract and gives the child's view |
| `Coins.CoinsViewCache.Flush` | src/coins.cpp:480-485 | The view below becomes this view, this cache becomes empty, and nothing throws |
| `Coins.CoinsViewDB.BatchWrite` | src/txdb.cpp:117-128 | Writing and erasing dirty entries in any order gives the view of the flushed cache and stores no spent coin |
| `Coins.FetchedOk` | src/coins.cpp:50-65 | A fetched entry keeps the flag contract, the view and the memory account |
| `Coins.UncachedOk` | src/coins.cpp:487-494 | Removing a clean entry keeps the flag contract and the view and frees its memory |
| `Coins.AddCoinExact` | src/coins.cpp:76-95 | The flag contract survives AddCoin exactly if an overwrite is announced, the outpoint is cached, or the view below has no coin there |
| `Coins.AfterSpendOk` | src/coins.cpp:359-391 | Spending keeps the flag contract and removes exactly that coin from the view, whether the entry is erased or kept as dirty and spent |
| `Coins.MergeOk` | src/coins.cpp:424-474 | For all flags of parent and child entry: the merge is defined, keeps the contract over the grandparent, and shows the child's coin |
| `Coins.MergeUsage` | src/coins.cpp:424-474 | The increments of cachedCoinsUsage keep it equal to the memory of the cached coins |
| `Coins.StoredOk` | src/txdb.cpp:117-128 | Storing one entry leaves the combined view of store and remaining entries unchanged |
| `AddrMan.AddrManager.constructor` | src/addrman.h:457-478 | A new manager is consistent and empty |
| `AddrMan.AddrManager.SwapRandom` | src/addrman.cpp:101-119 | Swaps two places of the random order and the positions stored in the two entries, nothing else |
| `AddrMan.AddrManager.Delete` | src/addrman.cpp:121-133 | Removes an entry that is not tried and has no references, as the asserts demand of every caller, from all indexes by swapping it to the end |
| `AddrMan.AddrManager.ClearNew` | src/addrman.cpp:135-148 | Empties one slot, whose entry has a reference as the assert demands of every caller, uncounts it and deletes the entry with its last reference |
| `AddrMan.AddrManager.Create` | src/addrman.cpp:89-99 | Adds an entry at the end of the random order under the next id |
| `AddrMan.AddrManager.LeaveNew` | src/addrman.cpp:150-162 | The entry leaves every new bucket and its reference count is zero |
| `AddrMan.AddrManager.Evict` | src/addrman.cpp:168-190 | The occupant of a tried slot goes to its home slot in the new table, clearing it first; the asserts of the code hold |
| `AddrMan.AddrManager.MakeTried` | src/addrman.cpp:150-196 | The three parts together compute the specified state |
| `AddrMan.AddrManager.Promote` | src/addrman.cpp:150-196 | From a consistent state, moves the entry to its tried slot; data of entries stay, and the new table changes exactly as specified |
| `AddrMan.AddrManager.FindBucket` | src/addrman.cpp:227-242 | Finds a new bucket holding the entry wherever the search starts, so the "no bucket" exit is never taken |
| `AddrMan.AddrManager.Good` | src/addrman.cpp:198-248 | Keeps the invariant; an unknown or different service changes nothing, a tried one only its times, any other is moved with the tables changed exactly as specified |
| `AddrMan.AddrManager.Place` | src/addrman.cpp:299-319 | Takes the slot exactly if it is free or its occupant may be replaced, and otherwise deletes an entry without references |
| `AddrMan.AddrManager.AddNew` | src/addrman.cpp:292-319 | An unknown address is entered, field by field, with its penalised time, its services and one reference if its slot can be taken, and otherwise dropped again; the invariant holds and the rest of the tables is untouched |
| `AddrMan.AddrManager.AddAgain` | src/addrman.cpp:264-319 | A known address has its time and services updated; it gains a reference exactly if there is new information, it is not tried, has fewer than eight, the draw allows it and the slot can be taken, and otherwise nothing else changes |
| `AddrMan.AddrManager.Add` | src/addrman.cpp:250-321 | Keeps the invariant; the result says exactly whether the address was routable and unknown, with the whole new state in each case |
| `AddrMan.AddrManager.Attempt` | src/addrman.cpp:323-343 | Keeps the invariant; counts an attempt once per success of anyone, and only for the same service |
| `AddrMan.AddrManager.Connected` | src/addrman.cpp:491-509 | Keeps the invariant; moves the time of the same service on if it is more than 20 minutes old |
| `AddrMan.AddrManager.SetServices` | src/addrman.cpp:511-527 | Keeps the invariant; sets the services of the same service only |
| `AddrMan.AddrManager.GetAddr` | src/addrman.cpp:470-489 | A sample of distinct entries worth keeping, with their address, time and services: at most 2500 and 23 percent of all, and if fewer then every such entry; only the random order changes |
| `AddrMan.TerribleExact` | src/addrman.cpp:34-52 | The tests in order say exactly: tried within a minute, or seen within thirty days and not ten minutes ahead, with fewer than three attempts if it never succeeded and fewer than ten if the last success is over a week ago |
| `AddrMan.LimitExact` | src/addrman.cpp:472-474 | The largest sample of at most 2500 entries and 23 percent |
| `AddrMan.RefreshedExact` | src/addrman.cpp:264-272 | Exactly when the time of a known entry moves on, and to what; services are added |
| `AddrMan.SlotsExact` | src/addrman.cpp:13-32 | Which hashes give bucket and position, and the numbers of buckets and positions |
| `AddrMan.NewSpread` | src/addrman.cpp:20-26 | What is heard from one source falls into at most 64 new buckets |
| `AddrMan.TriedSpread` | src/addrman.cpp:13-18 | The addresses of one group fall into at most eight tried buckets |
| `AddrMan.AddrManager.KnownExact` | src/addrman.cpp:69-80 | A service with its port is found exactly if some entry has it |
| `AddrMan.SwappedInv` | src/addrman.cpp:101-119 | Swapping keeps the cross-table invariant |
| `AddrMan.DeletedInv` | src/addrman.cpp:121-133 | Deleting an entry without references keeps it |
| `AddrMan.CreatedInv` | src/addrman.cpp:89-99 | Creating an unknown address keeps it, up to the one missing reference |
| `AddrMan.ClearedInv` | src/addrman.cpp:135-148 | Clearing a slot keeps it, whether or not the entry goes |
| `AddrMan.UnrefInv` | src/addrman.cpp:141-143 | Removing a reference keeps it, up to the count of that entry |
| `AddrMan.RefInv` | src/addrman.cpp:310-313 | Adding a reference in the hashed position keeps it while there are fewer than eight |
| `AddrMan.UnrefAllDone` | src/addrman.cpp:152-162 | After all buckets no slot holds the entry and its count is zero, although only one position per bucket is looked at |
| `AddrMan.LeftNewInv` | src/addrman.cpp:150-162 | The state between leaving the new table and entering the tried table |
| `AddrMan.EvictedInv` | src/addrman.cpp:168-190 | Eviction keeps the invariant, including the counters |
| `AddrMan.MadeTriedInv` | src/addrman.cpp:150-196 | A move to the tried table ends in a consistent state |
| `AddrMan.MadeTriedEffect` | src/addrman.cpp:150-196 | The tried table changes in one slot, the new table in the slots of the entry and the home slot of the evicted one, and no entry's data change |
| `AddrMan.PlacedInv` | src/addrman.cpp:299-319 | Placing ends in a consistent state whether the slot is taken or not |
| `AddrMan.PlacedEffect` | src/addrman.cpp:299-319 | Exactly which slot and which entries change, and when the entry is dropped |
| `AddrMan.PlaceCreated` | src/addrman.cpp:292-319 | Creating and placing an unknown address gives a consistent state with the specified effect |
| `AddrMan.Referenced` | src/addrman.cpp:227-242 | In a consistent state every entry that is not tried is in some new bucket at its hashed position |
| `AddrMan.SampledDone` | src/addrman.cpp:470-489 | A complete pass over the random order has seen every entry exactly once |
| `AddrManCheck.Run` | src/addrman.cpp:198-527 | Every run of operations with positive times keeps the manager consistent |
| `AddrManCheck.ConsistentPasses` | src/addrman.cpp:393-467 | A consistent state passes every question of the check |
| `AddrManCheck.PassesExact` | src/addrman.cpp:393-467 | A state is consistent exactly if it passes the check and its index and counter conditions hold |
| `AddrManCheck.CheckEntries` | src/addrman.cpp:401-425 | Passes exactly if the questions about entries do, and collects exactly the tried ids and the reference counts |
| `AddrManCheck.CheckTried` | src/addrman.cpp:432-444 | Passes with an empty remainder exactly if the tried table holds every tried entry in its hashed slot |
| `AddrManCheck.CheckNew` | src/addrman.cpp:446-457 | Passes with an empty remainder exactly if the new table holds the entries in hashed positions as often as counted |
| `AddrManCheck.Check` | src/addrman.cpp:393-467 | Returns zero exactly if the key is set and everything asked for holds; on a consistent manager with a key it returns zero and changes nothing |
| `AddrManStore.OrderEnumerates` | src/addrman.h:302-349 | The order of writing lists every entry once, entries that are not tried first, as many as the counter says |
| `AddrManStore.NewRemain` | src/addrman.h:315-325 | The assert on the counter of new entries holds |
| `AddrManStore.TriedRemain` | src/addrman.h:326-334 | The assert on the counter of tried entries holds |
| `AddrManStore.SaveNew` | src/addrman.h:315-325 | Writes the entries that are not tried in the order of their ids and numbers them |
| `AddrManStore.SaveTried` | src/addrman.h:326-334 | Writes the tried entries in the order of their ids |
| `AddrManStore.SaveBucket` | src/addrman.h:335-348 | Writes the size of a bucket and the numbers of its entries |
| `AddrManStore.Save` | src/addrman.h:302-349 | Writes the specified stream for every consistent manager |
| `AddrManStore.CountersBound` | src/addrman.h:372-378 | The counters of a consistent manager pass the size tests of the reader |
| `AddrManStore.Clear` | src/addrman.h:457-478 | Empties both tables and all indexes |
| `AddrManStore.LoadNew` | src/addrman.h:380-397 | Reads back the entries that are not tried, under new ids in order |
| `AddrManStore.LoadTried` | src/addrman.h:400-418 | Reads back the tried entries into their hashed slots; none of a saved stream is lost |
| `AddrManStore.LoadBucket` | src/addrman.h:421-437 | Reads back one bucket with its reference counts |
| `AddrManStore.LoadBuckets` | src/addrman.h:421-437 | Reads back the whole new table |
| `AddrManStore.Prune` | src/addrman.h:439-449 | Deletes entries without references; of a saved stream none |
| `AddrManStore.NothingLost` | src/addrman.h:439-449 | Every loaded entry that is not tried has a reference |
| `AddrManStore.LoadedSame` | src/addrman.h:302-455 | What is loaded has the same key and counters, and for each entry the same address, time, services, source, last success, attempts, table, references and places as what was saved |
| `AddrManStore.SavedHeader` | src/addrman.h:306-314 | Version, key size, key, counters and number of buckets with bit 30 set, in this order |
| `AddrManStore.LoadedConsistent` | src/addrman.h:352-455 | The loaded state satisfies the cross-table invariant |
| `AddrManStore.Load` | src/addrman.h:352-455 | A stream that a consistent manager wrote is accepted and gives the renumbered, consistent state |
| `AddrManStore.SaveAndLoad` | src/addrman.h:302-455 | Saving one manager and loading into another gives the same manager, field by field, up to the numbers of the entries |
| `Miner.SelectTransactions` | src/miner.cpp:381-509 | The block has no duplicates, every in-mempool ancestor earlier, only final transactions without an untimely witness, weight below the configured and the global limit and sigop cost within its limit, with the coinbase reserve; if not cut short, whatever is left out had no room, and it is cut short only with a block nearly full or a package that pays too little |
| `Miner.BlockAssembler.AddPackageTxs` | src/miner.cpp:381-509 | All in the block is final and allowed, the bookkeeping of modified and failed entries is right, and everything not included has no room unless there was a reason to stop |
| `Miner.BlockAssembler.TooLittle` | src/miner.cpp:450-453 | A stored total below the fee threshold means that some package left pays too little |
| `Miner.FloorStep` | src/miner.cpp:318-343 | The fees stored for an entry never fall below those cached less the fees of its included ancestors |
| `Miner.BlockAssembler.AddToBlock` | src/miner.cpp:299-316 | Appends the transaction and keeps the totals equal to the sums over the block |
| `Miner.BlockAssembler.SortForBlock` | src/miner.cpp:360-369 | A permutation of the package in ascending order of ancestor counts |
| `Miner.BlockAssembler.UpdatePackagesForAdded` | src/miner.cpp:318-343 | Afterwards every modified entry states what remains of its package: exactly, or for entries that failed before at least as much |
| `Miner.BlockAssembler.AddPackage` | src/miner.cpp:494-502 | Adds what remains of a package, ancestors first |
| `Miner.BlockAssembler.Include` | src/miner.cpp:474-507 | Including a package that passed both tests keeps the limits, the finality of the block and the tracking of modified entries |
| `Miner.BlockAssembler.Choose` | src/miner.cpp:402-435 | The next candidate is from the modified set or is the next entry of the mempool |
| `Miner.BlockAssembler.NoRoomMeans` | src/miner.cpp:274-297 | What failing the package test says about the finished block |
| `Miner.Clamped` | src/miner.cpp:80-85 | A requested weight between 4000 and the maximum less 4000 is granted, any other becomes the nearer end |
| `Miner.CachedAtLeast` | src/miner.cpp:392-509 | Mempool totals never understate what remains of a package, and are exact when no ancestor is included |
| `Miner.UpdatedTracked` | src/miner.cpp:318-343 | One update for an included ancestor keeps an entry exact, or for one that failed before an upper bound |
| `Miner.HalfTrackedDone` | src/miner.cpp:318-343 | After all descendants of an added transaction, every entry is exact again, or for those that failed before an upper bound |
| `Miner.PackageClosed` | src/miner.cpp:261-272 | The ancestors of a package member are in the package |
| `Miner.SortedReady` | src/miner.cpp:360-369 | Sorting by ancestor count puts every ancestor that is not yet in the block earlier |
| `Miner.FitsLimits` | src/miner.cpp:274-282 | The totals that passed the test cover the weight and sigop cost really added |
| `Miner.InOrderAppend` | src/miner.cpp:299-316 | Appending a transaction whose ancestors are in the block keeps the order |
| `CheckQueue.RunSafe` | src/checkqueue.h:70-162 | In every state of every run: nTodo counts the checks queued or held, no check is run twice, the master sleeps only while there is work, and while it waits some thread can step |
| `CheckQueue.RunAnswers` | src/checkqueue.h:70-162 | Whenever Wait returns, it tells whether all checks added since the last return are good, and a true answer means all were run |
| `CheckQueue.StepOk` | src/checkqueue.h:70-128 | Every step of every thread keeps the invariant and answers correctly |
| `CheckQueue.EnterOk` | src/checkqueue.h:79-90 | The bookkeeping at the start of the critical section keeps the invariant |
| `CheckQueue.RunInv` | src/checkqueue.h:70-162 | The invariant holds in every state of every run |
| `CheckQueue.NoDeadlock` | src/checkqueue.h:70-128 | While the master is in Wait some thread can take a step of its own: no wake-up is lost |
| `CheckQueue.Progress` | src/checkqueue.h:70-128 | Every step that a thread takes of its own accord decreases a well-founded measure |
| `CheckQueue.WaitReturns` | src/checkqueue.h:70-128 | From every state of the invariant with the master in Wait, whichever threads go on, Wait returns after finitely many steps |
| `CheckQueue.WaitEnds` | src/checkqueue.h:70-162 | The same from every state of every run, with the truth about all checks added |
| `CheckQueue.StaysInWait` | src/checkqueue.h:70-128 | Until Wait returns, its thread stays in it and the checks added are not forgotten |
| `CheckQueue.Verdict` | src/checkqueue.h:92-101 | When nothing is left to do the stored verdict is that of all checks added |
| `CheckQueue.NotRunTwice` | src/checkqueue.h:123-125 | The check run next has not been run in this round |
| `CheckQueue.BatchFits` | src/checkqueue.h:111 | A batch has at least one check and at most the whole queue |
| `CheckQueue.BatchExact` | src/checkqueue.h:111 | It is the largest within the batch size that leaves as much for every other thread and one more |
| `CheckQueue.PoppedAll` | src/checkqueue.h:112-118 | A batch taken from the back and what is left are the queue |
| `MerkleBlock.RoundTrip` | src/merkleblock.cpp:62-165 | Extracting from the partial tree of any block, with any padding of the last byte, gives the block's merkle root and exactly the matched transactions, each once, in ascending order with its position |
| `MerkleBlock.WireRoundTrip` | src/merkleblock.h:89-106 | The same through packing and unpacking the flag bits |
| `MerkleBlock.Soundness` | src/merkleblock.cpp:80-165 | Whatever the bits and hashes: if the extracted root is the true one, every reported transaction is really at its index, in ascending order |
| `MerkleBlock.MoreHashesRefused` | src/merkleblock.cpp:158-163 | An accepted object with any further hashes is refused |
| `MerkleBlock.MoreBitsRefused` | src/merkleblock.cpp:158-163 | An accepted object with further bits is refused exactly if they reach into another byte |
| `MerkleBlock.SizesRefused` | src/merkleblock.cpp:136-147 | No transactions, too many, more hashes than transactions and fewer bits than hashes are refused |
| `MerkleBlock.TwinsRefused` | src/merkleblock.cpp:101-113 | A node whose children have the same hash makes the object bad |
| `MerkleBlock.ExtractMore` | src/merkleblock.cpp:80-116 | A traversal does not depend on what follows what it used |
| `MerkleBlock.RootExact` | src/consensus/merkle.cpp:134-138 | The root is the merkle root computed level by level, the last node of an odd level paired with itself |
| `MerkleBlock.LevelHash` | src/merkleblock.cpp:42-60 | Each node is the one of that level-by-level computation |
| `MerkleBlock.StoredHashes` | src/merkleblock.cpp:62-78 | No more hashes are stored than transactions, and no more than one plus the height for each match |
| `MerkleBlock.ExtractBuild` | src/merkleblock.cpp:62-116 | Extracting where a subtree was stored recovers its hash, matches and the places after it |
| `MerkleBlock.ExtractSound` | src/merkleblock.cpp:80-116 | A traversal without bad data that arrives at the true hash of a node reports only genuine matches |
| `MerkleBlock.BuildSize` | src/merkleblock.cpp:62-78 | A subtree stores at least one hash, and no more than its leaves, its matches times its height plus one, or its bits |
| `MerkleBlock.CalcHashInjective` | src/merkleblock.cpp:42-60 | Nodes of one height with distinct leaves have distinct hashes, so the duplicate test never rejects an honest tree |
| `MerkleBlock.WidthLeaves` | src/merkleblock.h:67-69 | A node exists at a height exactly if its first leaf exists |
| `MerkleBlock.Height` | src/merkleblock.cpp:123-126 | At the computed height one node is left |
| `MerkleBlock.PartialMerkleTree.CalcHeight` | src/merkleblock.cpp:123-126 | The loop finds that height |
| `MerkleBlock.PartialMerkleTree.constructor` | src/merkleblock.cpp:118-130 | Stores the partial tree of the whole block |
| `MerkleBlock.PartialMerkleTree.TraverseAndBuild` | src/merkleblock.cpp:62-78 | Appends the bits and hashes of the subtree |
| `MerkleBlock.PartialMerkleTree.TraverseAndExtract` | src/merkleblock.cpp:80-116 | Appends the matches, advances both counters and sets fBad as specified |
| `MerkleBlock.PartialMerkleTree.ExtractAll` | src/merkleblock.cpp:134-165 | Returns root and matches or the zero hash as specified, and a tree that was bad stays so |
| `MerkleBlock.PackBits` | src/merkleblock.h:101-103 | Each flag bit is at its place, the rest are zero |
| `MerkleBlock.UnpackBits` | src/merkleblock.h:96-98 | Gives eight bits for each byte |
| `MerkleBlock.UnpackedBits` | src/merkleblock.h:89-106 | Unpacking what was packed gives the bits followed by zeros |
| `CuckooCache.Cache.Run` | src/cuckoocache.h:392-477 | Every run of insertions and look-ups keeps placement, uniqueness and the epoch bound |
| `CuckooCache.Cache.constructor` | src/cuckoocache.h:340-353 | A new cache satisfies the invariant and is empty |
| `CuckooCache.Cache.Insert` | src/cuckoocache.h:392-440 | Keeps the invariant; an element that is there is kept, and any other goes in by a chain of swaps: its last element takes its first open slot and nothing is lost, or the chain has full length and exactly its last element is; with depth one the new element stays |
| `CuckooCache.InsertionLaw` | src/cuckoocache.h:392-440 | The same for every state and depth |
| `CuckooCache.DisplacedChain` | src/cuckoocache.h:406-439 | The displacements are a chain in which each element without an open slot goes to the slot of its own that comes next and the next element is what was there, each with its epoch flag |
| `CuckooCache.OneSwap` | src/cuckoocache.h:406-439 | With one swap the new element stays |
| `CuckooCache.NextLocExact` | src/cuckoocache.h:430 | The slot after the last one, going round, and the second one at the start |
| `CuckooCache.ComputeHashesExact` | src/cuckoocache.h:243-253 | Each slot is its hash scaled to the size of the table and rounded down |
| `CuckooCache.EpochSizeExact` | src/cuckoocache.h:348-349 | An epoch is 45 percent of the table rounded down, where that is counted within 32 bits |
| `CuckooCache.Cache.InsertChecked` | src/cuckoocache.h:397-439 | The insertion after the epoch check computes the state that InsertionLaw is about |
| `CuckooCache.Cache.Displace` | src/cuckoocache.h:406-439 | The loop computes the specified chain of displacements |
| `CuckooCache.Cache.Find` | src/cuckoocache.h:400-405 | The first slot of the element that already holds it |
| `CuckooCache.Cache.FindOpen` | src/cuckoocache.h:408-415 | The first slot that may be overwritten |
| `CuckooCache.Cache.EpochCheck` | src/cuckoocache.h:289-321 | Ages or defers exactly as specified |
| `CuckooCache.Cache.CountRecent` | src/cuckoocache.h:297-300 | Counts the live entries of the current epoch |
| `CuckooCache.Cache.Age` | src/cuckoocache.h:305-311 | Marks exactly the entries of the old epoch for collection and starts a new one |
| `CuckooCache.Cache.Contains` | src/cuckoocache.h:467-477 | Found exactly if in the table; erasing gives up at most that element and leaves it readable |
| `CuckooCache.FlagBytesFit` | src/cuckoocache.h:79-83 | The bytes allocated for the flags, counted in 32 bits, are enough exactly up to sizes of 2^32 - 8 |
| `CuckooCache.ComputeHashes` | src/cuckoocache.h:243-253 | Eight slots, all within the table |
| `CuckooCache.EpochCheckedInv` | src/cuckoocache.h:289-321 | After the check there is room for one more entry in the current epoch |
| `CuckooCache.EpochCheckedLive` | src/cuckoocache.h:289-321 | Exactly the old epoch is given up, and only when the current one is full |
| `CuckooCache.RecentBound` | src/cuckoocache.h:289-321 | The live entries of the current epoch never exceed the epoch size by more than a sixteenth |
| `CuckooCache.KeptOk` | src/cuckoocache.h:400-405 | Inserting an element that is there keeps everything |
| `CuckooCache.StoredOk` | src/cuckoocache.h:408-415 | Taking a free slot loses nothing |
| `CuckooCache.SwappedOk` | src/cuckoocache.h:430-438 | One displacement moves exactly one element from the table into the hand |
| `CuckooCache.DroppedOk` | src/cuckoocache.h:406-440 | When the depth runs out, only the element in hand is lost |
| `CuckooCache.DisplacedOk` | src/cuckoocache.h:406-439 | A chain of displacements of any depth loses at most one element |
| `CuckooCache.WithElementOk` | src/cuckoocache.h:392-440 | An insertion loses at most one element, and none if the element is there or one of its slots is free |
| `CuckooCache.ErasedOk` | src/cuckoocache.h:467-477 | Marking a slot keeps the invariant and gives up only its element |
| `CuckooCache.NextLoc` | src/cuckoocache.h:416-430 | The next slot tried is one of the eight, and with distinct slots never the one just left |
| `CuckooCache.BitPackedFlags.constructor` | src/cuckoocache.h:79-83 | All flags are set |
| `CuckooCache.BitPackedFlags.BitSet` | src/cuckoocache.h:92-95 | Sets one flag of the packed bytes and no other |
| `CuckooCache.BitPackedFlags.BitUnset` | src/cuckoocache.h:103-106 | Clears one flag and no other |
| `CuckooCache.BitPackedFlags.BitIsSet` | src/cuckoocache.h:113-116 | Reads one flag |
| `RollingBloom.RollingBloomFilter.constructor` | src/bloom.cpp:218-243 | Two generations hold at least the requested number of elements; the filter is empty |
| `RollingBloom.RollingBloomFilter.Reset` | src/bloom.cpp:306-314 | Forgets everything |
| `RollingBloom.RollingBloomFilter.Wipe` | src/bloom.cpp:258-266 | The masked words wipe exactly the places of the generation that is reused |
| `RollingBloom.RollingBloomFilter.Mark` | src/bloom.cpp:271-276 | The two words store the generation number at one place and leave all others |
| `RollingBloom.RollingBloomFilter.MarkAll` | src/bloom.cpp:270-277 | Stores it at all places of a key |
| `RollingBloom.RollingBloomFilter.NewGeneration` | src/bloom.cpp:252-267 | Keeps the relation between the words and the log of insertions |
| `RollingBloom.RollingBloomFilter.Insert` | src/bloom.cpp:250-278 | The log of insertions grows by the key |
| `RollingBloom.RollingBloomFilter.InsertAll` | src/bloom.cpp:250-278 | The same for any number of keys |
| `RollingBloom.RollingBloomFilter.Contains` | src/bloom.cpp:286-298 | True exactly if each place was hit within the current and the two full generations before; every key of the last two generations' worth of insertions is reported |
| `RollingBloom.PlaceExact` | src/bloom.cpp:271-276 | The low six bits of a hash are the bit and the others choose the word |
| `RollingBloom.SeedsDiffer` | src/bloom.cpp:246-248 | Different hash functions have different seeds |
| `RollingBloom.NextGeneration` | src/bloom.cpp:252-267 | Stepping to the next generation wipes exactly the places that hold its number |
| `RollingBloom.ExpectedHit` | src/bloom.cpp:286-298 | A place holds a number exactly if an insertion of the window hit it |
| `RollingBloom.Appended` | src/bloom.cpp:270-277 | A new insertion takes over the places it hits |
| `ArithUint256.BaseUint.Add` | src/arith_uint256.h:142-152 | Addition modulo 2^width, also in place with itself |
| `ArithUint256.BaseUint.Complement` | src/arith_uint256.h:76-82 | 2^width - 1 - x |
| `ArithUint256.BaseUint.Negate` | src/arith_uint256.h:84-91 | -x modulo 2^width |
| `ArithUint256.BaseUint.Subtract` | src/arith_uint256.h:154-158 | Subtraction modulo 2^width |
| `ArithUint256.BaseUint.Increment` | src/arith_uint256.h:180-187 | x + 1 modulo 2^width |
| `ArithUint256.BaseUint.Decrement` | src/arith_uint256.h:197-204 | x - 1 modulo 2^width |
| `ArithUint256.BaseUint.AddProduct` | src/arith_uint256.cpp:70-84 | The inner loop adds one digit times the operand, shifted |
| `ArithUint256.BaseUint.Multiply` | src/arith_uint256.cpp:70-84 | Multiplication modulo 2^width; in place with itself the result is zero |
| `ArithUint256.BaseUint.Multiply32` | src/arith_uint256.cpp:58-68 | Multiplication by a 32-bit number modulo 2^width |
| `ArithUint256.BaseUint.ShiftLeft` | src/arith_uint256.cpp:24-39 | x * 2^n modulo 2^width for every n |
| `ArithUint256.BaseUint.ShiftRight` | src/arith_uint256.cpp:41-56 | The floor of x / 2^n for every n |
| `ArithUint256.BaseUint.CompareTo` | src/arith_uint256.cpp:112-122 | The order of the numbers |
| `ArithUint256.BaseUint.EqualTo` | src/arith_uint256.cpp:124-136 | Equality with a 64-bit number |
| `ArithUint256.BaseUint.GetLow64` | src/arith_uint256.h:252-256 | x modulo 2^64 |
| `ArithUint256.BaseUint.Bits` | src/arith_uint256.cpp:174-187 | The position of the highest one plus one |
| `ArithUint256.BaseUint.TakeBit` | src/arith_uint256.cpp:100-107 | One turn of the long division decides one bit of the quotient |
| `ArithUint256.BaseUint.Divide` | src/arith_uint256.cpp:86-110 | The exact floor of the quotient; zero divisors are refused after the number is cleared |
| `ArithUint256.ValLess` | src/arith_uint256.cpp:112-122 | The first differing limb from the top decides |
| `ArithUint256.SetQuotientBit` | src/arith_uint256.cpp:103 | Setting a bit of the quotient adds its power of two |
| `CompactTarget.SetCompact` | src/arith_uint256.cpp:207-225 | The number, and exactly when it is negative or overflows |
| `CompactTarget.OverflowExact` | src/arith_uint256.cpp:221-223 | The test of size and mantissa holds exactly if the number does not fit 256 bits |
| `CompactTarget.GetCompact` | src/arith_uint256.cpp:227-248 | The compact form of the number |
| `CompactTarget.LeadingBytes` | src/arith_uint256.cpp:229-236 | The three leading bytes, by shifting either way |
| `CompactTarget.ExpandCompacted` | src/arith_uint256.cpp:207-248 | Expanding a compact form gives the number with its low bytes zeroed |
| `CompactTarget.LostBytesLeast` | src/arith_uint256.cpp:227-248 | No more bytes are lost than the 23 bits of the mantissa demand |
| `CompactTarget.RoundTrip` | src/arith_uint256.cpp:207-248 | For every 256-bit number and either sign: no overflow, the number truncated, and the sign unless zero |
| `CompactTarget.Idempotent` | src/arith_uint256.cpp:207-248 | Going through the compact form twice is the same as once |
| `CompactTarget.GetBlockProof` | src/chain.cpp:121-134 | The work is 2^256 divided by the target plus one, computed without the 257th bit, and zero for invalid targets |
| `CompactTarget.WorkSplit` | src/chain.cpp:129-133 | Why the rewritten quotient is the same, and fits |
| `CompactTarget.WorkAntitone` | src/chain.cpp:121-134 | A higher target never takes more work, and valid targets take at least one unit |
| `CompactTarget.TargetBelow` | src/chain.cpp:121-134 | A target is never the largest number, so the divisor does not wrap to zero |
| `Chain.BlockIndex.constructor` | src/chain.cpp:115-119 | A new block has its skip pointer at the ancestor of the skip height |
| `Chain.BlockIndex.GetAncestor` | src/chain.cpp:84-108 | The walk with skip pointers reaches the block the plain walk reaches, and nothing outside the heights |
| `Chain.InvertedLowestOne` | src/chain.cpp:71 | Clearing the lowest one bit subtracts it |
| `Chain.GetSkipHeight` | src/chain.cpp:74-82 | The skip height is below the height |
| `Chain.SkipHeight` | src/chain.cpp:74-82 | At even heights the lowest one bit is taken away, at odd ones the two lowest of the height below |
| `Chain.AncestorTwice` | src/chain.cpp:84-108 | An ancestor of an ancestor is an ancestor |
| `Chain.ForkPersists` | src/chain.cpp:155-170 | Blocks that differ at a height differ at all heights above |
| `Chain.LastCommonAncestor` | src/chain.cpp:155-170 | The highest common block, which exists if the genesis block is the same |
| `Chain.ActiveChain.SetTip` | src/chain.cpp:12-22 | The chain becomes exactly the ancestors of the tip, although the loop stops early |
| `Chain.ActiveChain.FindFork` | src/chain.cpp:52-61 | The highest block of the chain that the given block is or descends from |
| `Chain.ActiveChain.Next` | src/chain.h:499-504 | The successor in the chain, if there is one |
| `Chain.ActiveChain.GetLocator` | src/chain.cpp:24-50 | The blocks at the doubling distances down to the genesis block, at most 12 plus the logarithm of the height |
| `Chain.LocatorStep` | src/chain.cpp:24-50 | The distances grow by one, and double after ten entries |
| `Chain.LocatorLength` | src/chain.cpp:24-50 | The bound on the number of entries |
| `Base58.EncodeBase58` | src/base58.cpp:72-110 | The digits of the number, with a one for each leading zero byte |
| `Base58.DecodeBase58` | src/base58.cpp:22-70 | White space around is skipped, anything else outside the alphabet is refused, and the rest is decoded |
| `Base58.EncodeDecode` | src/base58.cpp:22-110 | Decoding an encoded byte string gives it back |
| `Base58.DecodeEncode` | src/base58.cpp:22-110 | Every text in the alphabet decodes, and encodes to itself |
| `Base58.EncodeFits` | src/base58.cpp:81-83 | The buffer for the digits is large enough for every input |
| `Base58.DecodeFits` | src/base58.cpp:34-36 | The buffer for the bytes is large enough for every input |
| `Base58.MulAdd` | src/base58.cpp:86-95 | Multiplies and adds in place; the carry never runs off the front, so the assert holds |
| `Base58.SkipZeros` | src/base58.cpp:99-102 | The first digit that is not zero |
| `Base58.Find` | src/base58.cpp:39-42 | The value of a character of the alphabet |
| `Base58.AlphabetExact` | src/base58.cpp:20 | The alphabet is the digits and letters without four of them, in the order of their codes |
| `Base58.SpaceExact` | src/base58.cpp:25 | Which characters are white space |
| `Base58.EncodeBase58Check` | src/base58.cpp:122-129 | The encoding of the bytes followed by their checksum |
| `Base58.DecodeBase58Check` | src/base58.cpp:131-146 | Accepts exactly the texts of bytes followed by their checksum |
| `Base58.CheckRoundTrip` | src/base58.cpp:122-146 | Every byte string survives the way through the text |
| `BlockEncodings.EncodeIndexes` | src/blockencodings.h:65-68 | The differences of the indexes |
| `BlockEncodings.DecodeIndexes` | src/blockencodings.h:44-63 | The sums of the differences, or a failure beyond 16 bits |
| `BlockEncodings.IndexesRoundTrip` | src/blockencodings.h:40-70 | Every strictly increasing list survives |
| `BlockEncodings.DecodedIncreasing` | src/blockencodings.h:44-63 | Differences are accepted and give an increasing list exactly if their sum and their number together are at most 65536 |
| `BlockEncodings.SumsIncreasing` | src/blockencodings.h:57-63 | In terms of the result: it is increasing exactly if 65535 is not followed by another index |
| `BlockEncodings.OffsetWraps` | src/blockencodings.h:57-63 | Differences that are accepted and give a list that is not increasing |
| `BlockEncodings.OpenFacts` | src/blockencodings.cpp:83-86 | The open places in ascending order, all of them |
| `BlockEncodings.OpenCount` | src/blockencodings.cpp:59-86 | There is one open place for each short id |
| `BlockEncodings.OpenBefore` | src/blockencodings.cpp:83-86 | Before the open place of a short id there are as many open places as short ids before it, and all places since the last one are taken |
| `BlockEncodings.PlacesFit` | src/blockencodings.cpp:81-86 | The 16-bit places of the short ids keep their values exactly in blocks of at most 65536 transactions |
| `BlockEncodings.MappingEndsExact` | src/blockencodings.cpp:81-86 | The search for places by a 16-bit offset ends for every short id, within the block, exactly if not all 65536 places are prefilled while there is a short id |
| `BlockEncodings.SearchEnds` | src/blockencodings.cpp:83-86 | Otherwise the offset of each short id is reached in the stated number of steps without wrapping |
| `BlockEncodings.NeverEnds` | src/blockencodings.cpp:83-86 | With all 16-bit places prefilled every place looked at is taken, after any number of steps |
| `BlockEncodings.SearchNeedNotEnd` | src/blockencodings.cpp:49-86 | A message that is accepted and for which the search does not end |
| `BlockEncodings.PartiallyDownloadedBlock.PlacePrefilled` | src/blockencodings.cpp:59-75 | Accepts exactly the messages whose prefilled transactions are in place, and lays them |
| `BlockEncodings.PartiallyDownloadedBlock.SkipTaken` | src/blockencodings.cpp:84-85 | The 16-bit offset moves to the next open place, in the number of steps of the specification |
| `BlockEncodings.PartiallyDownloadedBlock.MapShortIds` | src/blockencodings.cpp:81-103 | Each short id gets the 16-bit number of its open place; a refusal means duplicates or an uneven table |
| `BlockEncodings.PartiallyDownloadedBlock.SearchPool` | src/blockencodings.cpp:105-132 | The state of each place after the pool, with the early exit |
| `BlockEncodings.PartiallyDownloadedBlock.SearchExtra` | src/blockencodings.cpp:135-164 | The state of each place after the extra transactions |
| `BlockEncodings.SeenPool` | src/blockencodings.cpp:112-126 | One entry of the pool: found, or found twice and the place emptied |
| `BlockEncodings.SeenExtra` | src/blockencodings.cpp:138-158 | One extra entry: found, the same transaction again, or a clash |
| `BlockEncodings.AllFilled` | src/blockencodings.cpp:127-131 | When as many places are filled as there are short ids, the place of each is, even if places coincide |
| `BlockEncodings.FoundInPlace` | src/blockencodings.cpp:105-164 | Up to 65536 transactions the 16-bit places are those of the short ids, so what is found is under the right one |
| `BlockEncodings.Misplaced` | src/blockencodings.cpp:81-132 | Above, for every message without duplicate short ids and every block of distinct transactions: with the last one alone in the pool it is put where another belongs |
| `BlockEncodings.DoubleEmpty` | src/blockencodings.cpp:117-125 | Two entries of the pool for one place leave it empty when the search cannot stop early |
| `BlockEncodings.SearchLooked` | src/blockencodings.cpp:105-164 | What is in a place agrees with everything seen for it, and all was seen unless every short id was found |
| `BlockEncodings.SearchDone` | src/blockencodings.cpp:109-164 | Stopping early when all places are filled gives an admissible result |
| `BlockEncodings.PartiallyDownloadedBlock.InitData` | src/blockencodings.cpp:49-170 | Invalid exactly for unacceptable messages; otherwise every 16-bit place holds what is listed for it, and up to 65536 transactions every open place what is listed under its short id, with the prefilled ones untouched |
| `BlockEncodings.PartiallyDownloadedBlock.FillBlock` | src/blockencodings.cpp:178-220 | The missing transactions go to the open places in order; too many or too few are refused |
| `BlockEncodings.AnnounceDescribes` | src/blockencodings.cpp:19-29 | The announcement of a block describes it |
| `BlockEncodings.AvailableRight` | src/blockencodings.cpp:49-170 | Without clashes of short ids, everything available is in its place |
| `BlockEncodings.MergedMissing` | src/blockencodings.cpp:178-220 | Filling in what is missing gives the block |
| `BlockEncodings.Reconstruct` | src/blockencodings.cpp:49-220 | A receiver that accepts the message and gets the missing transactions fills in exactly the block, and the result is that of checking it; any other number of transactions is refused |
| `NetMessage.Node.ReceiveMsgBytes` | src/net.cpp:730-780 | Receives a part of the stream as one byte at a time would, and says exactly when a message was completed |
| `NetMessage.Node.ReceiveStream` | src/net.cpp:730-780 | A stream in any parts gives the messages of the whole stream, up to the first failure |
| `NetMessage.Node.Turn` | src/net.cpp:737-777 | One turn of the loop consumes at least one byte |
| `NetMessage.Node.Open` | src/net.cpp:739-744 | There is a message to receive that is not complete |
| `NetMessage.Node.Absorb` | src/net.cpp:746-759 | One message takes bytes or fails as specified |
| `NetMessage.Node.AbsorbHeader` | src/net.cpp:746-759 | Header bytes: fails exactly on a full header that cannot be read or declares too much |
| `NetMessage.Node.AbsorbData` | src/net.cpp:746-759 | Data bytes, never more than declared |
| `NetMessage.NetMessage.constructor` | src/net.h:584-590 | An empty message |
| `NetMessage.NetMessage.IsComplete` | src/net.h:592-597 | A complete message has exactly the declared number of bytes in its buffer |
| `NetMessage.NetMessage.ReadHeader` | src/net.cpp:809-838 | Appends to the header and switches to data when it is full and admissible |
| `NetMessage.NetMessage.ReadData` | src/net.cpp:840-855 | Appends to the data whatever room was allocated ahead |
| `NetMessage.MessagesRecovered` | src/net.cpp:730-780 | The bytes of any complete messages are received as exactly these messages |
| `NetMessage.MessagesCut` | src/net.cpp:730-780 | The same in whatever parts they arrive |
| `NetMessage.CompleteExact` | src/net.h:592-597 | A complete message: 24 bytes of a readable header and the declared number of bytes, at most four million |
| `NetMessage.RunSplit` | src/net.cpp:730-780 | Receiving in two parts is receiving at once |
| `NetMessage.CutAnywhere` | src/net.cpp:730-780 | Any cutting gives the same messages, the same part of the last one and the same first failure |
| `NetMessage.RunConserves` | src/net.cpp:730-780 | No byte is lost, repeated or moved, and only the last message may be incomplete |
| `NetMessage.TakeHeader` | src/net.cpp:809-838 | A run of header bytes is taken at once |
| `NetMessage.TakeData` | src/net.cpp:840-855 | A run of data bytes is taken at once |
| `BoolEE.ResolveAnyText` | src/LibBoolEE.cpp:70-146 | A correct formula printed with white space anywhere evaluates to its truth value if all its names have values, and otherwise fails for want of one |
| `BoolEE.ResolveExact` | src/LibBoolEE.cpp:70-146 | The same for the printed formula, also where the value would be clear without the missing name |
| `BoolEE.Unbalanced` | src/LibBoolEE.cpp:59-66 | A text with unequal numbers of parentheses is refused, and so is an empty one |
| `BoolEE.UnknownRefused` | src/LibBoolEE.cpp:39-52 | A character outside the syntax after the start of an operand is refused |
| `BoolEE.StripExact` | src/LibBoolEE.cpp:158-166 | Which characters are white space, and that all others are kept in order |
| `BoolEE.NameExact` | src/LibBoolEE.cpp:154-156 | Which characters belong to names |
| `BoolEE.ResolvePrinted` | src/LibBoolEE.cpp:70-146 | A printed formula all of whose names have values evaluates to its truth value |
| `BoolEE.ParsedPrinted` | src/LibBoolEE.cpp:19-68 | Cutting a printed formula at an operator gives the printed operands |
| `BoolEE.OperandsTruth` | src/LibBoolEE.cpp:130-145 | Combining the operands gives the truth value |
| `BoolEE.SingleParse` | src/LibBoolEE.cpp:19-68 | The loop computes the cutting, with its errors |
| `BoolEE.RemoveWhitespaces` | src/LibBoolEE.cpp:158-166 | Removes exactly the white space |
| `BoolEE.ResolveText` | src/LibBoolEE.cpp:70-72 | The recursion over all texts, with all errors |
| `BoolEE.ResolveStripped` | src/LibBoolEE.cpp:74-146 | The same after white space is removed |
| `BoolEE.PartsShorter` | src/LibBoolEE.cpp:19-68 | Parts of a text that is cut are shorter, for every text, so the recursion ends |
| `BoolEE.CutShorter` | src/LibBoolEE.cpp:84-92 | The same for the choice between the two operators |
| `BoolEE.ParityPair` | src/LibBoolEE.cpp:109-111 | A text in parentheses that passed the parity test has both, so taking them off stays within the text |
| `Compressor.CompressAmount` | src/compressor.cpp:143-160 | The code modulo 2^64 |
| `Compressor.DecompressAmount` | src/compressor.cpp:162-186 | The amount modulo 2^64 |
| `Compressor.CompressDecompress` | src/compressor.cpp:143-186 | Every amount is recovered from its code |
| `Compressor.DecompressCompress` | src/compressor.cpp:143-186 | Every number is the code of an amount |
| `Compressor.CodeExact` | src/compressor.cpp:143-160 | The code of an amount in terms of its trailing zeros, its last digit before them and the rest |
| `Compressor.CodeBound` | src/compressor.cpp:143-160 | The code is at most nine times the amount |
| `Compressor.NoWrap` | src/compressor.cpp:143-186 | Amounts up to a ninth of 2^64 are recovered on words |
| `Compressor.Wraps` | src/amount.h:27 | A valid amount that is not recovered on words |
| `Compressor.WrapExact` | src/compressor.cpp:143-186 | On words, an amount is recovered exactly if its code fits one: no wrapped code is read as its amount by accident |
| `Compressor.ReadBackExact` | src/compressor.cpp:143-186 | Every 64-bit amount: recovered on words exactly if it ends in zero or 90 times its tens plus ten times its last digit less 9 is below 2^64 |
| `Compressor.RoundTrip` | src/compressor.cpp:143-186 | The two methods together, with that exact condition |

## Left out

- Sockets, the RPC interface, databases, logging, threads' start and stop, the wallet and the GUI.
- Assets, restricted assets and messaging: the branches of the coin caches and the miner that depend on an asset cache are those of a node without one.
- Hash functions, signature checks and random numbers: parameters; what needs a hash without collisions says so in its `requires`.
- Floating point: `GetChance` and `Select_` of the address manager, the sizes of bloom filters, the depth limit of the cuckoo cache (a parameter), `getdouble`.
- Probabilities: false positives of the filters, the size of hash buckets.
- The best-block hash that goes with a flush, and batches written in several parts.
- Concurrent readers of the cuckoo cache, and the order of memory accesses of its flags.
- Fees: the order of the memory pool by fee rate and the fee threshold are parameters; the fees collected and the coinbase are not modelled.
- `CBloomFilter`, `AttemptToEvictConnection`, `GetBlockProofEquivalentTime`, `FindEarliestAtLeast`, hexadecimal conversions: would add only easier members.
- Miner.BlockAssembler.Choose: which of the two candidates pays more is left open, so the results hold for every order of choice.
- Setting the skip pointer after a block is created: it is built with the block.
- Byte and time statistics of connections, and the count of extra transactions.
- AddrManStore.Load: only streams written by Save are specified; of others only that reading stays within the tables.
- AddrManCheck.Run: times are positive, as clocks are; with a success at time zero the manager's own check would object.
- BlockEncodings.PartiallyDownloadedBlock.InitData: not for accepted messages with all 16-bit places prefilled and a short id, where the code does not return (MappingEndsExact says these are the only ones).
- BlockEncodings.PartiallyDownloadedBlock.MapShortIds: the same.
- BlockEncodings.Reconstruct: for blocks of at most 65536 transactions, because larger ones are put together wrongly (Misplaced); and for short ids without clashes, because with a clash the merkle root check of the caller decides.
- Compressor.NoWrap: states a simple bound only; ReadBackExact states the exact condition.
- CuckooCache.Cache.constructor: sizes up to 2^32 - 8, because beyond them the code allocates fewer flags than it uses (FlagBytesFit).
- CuckooCache.BitPackedFlags.constructor: the same.
- RollingBloom.RollingBloomFilter.constructor: at least one element, because a filter for none has no words and every use of it divides by their number.
- MerkleBlock.RoundTrip: the transactions of a block are distinct, as the duplicate test of the extraction demands.
- NetMessage.Node.ReceiveMsgBytes: after a failure nothing more is received, as the caller disconnects.
