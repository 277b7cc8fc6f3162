# A verified model of the node's core data structures

This project models the parts of the node (a C++ peer of the Bitcoin and Dash family) whose correctness rests on
invariants that span many calls, and proves those invariants for every input and every run.

- **Coin caches** (`Coins`, `CoinsHeap`). A stack of write-back caches over the coin database, with DIRTY and FRESH
  flags. Every run of adds, spends, look-ups, flushes and uncaches over a stack of any height shows at each level
  exactly the flat map that the same adds and spends give, and the "FRESH flag misapplied" exception is unreachable.
- **Check queue** (`CheckQueue`). The master and worker threads as a state machine whose steps are the critical
  sections. For every interleaving, `Wait` returns the right verdict, counters are exact, no wake-up is lost, and while
  the master waits the threads can take at most three productive steps per check before `Wait` returns.
- **Address manager** (`AddrMan`, `AddrManOps`, `AddrManHeap`, `AddrManCheck`, `AddrManStore`, `AddrManDisk`). Two hash
  tables, two maps, a random order and two counters that agree in every reachable state; when exactly the manager's own
  consistency check passes; what saving and loading gives back, and when exactly the result is consistent again.
- **Block assembly** (`Mempool`, `BlockAssembler`). Package selection over any mempool DAG: it ends, keeps topological
  order and limits, and the block is maximal: nothing that was left out could still join with its ancestors.
- **Partial merkle trees** (`MerkleBlock`, `PartialMerkleTree`). Soundness of extraction for arbitrary data, and the
  round trip of building, packing and extracting.
- **Rolling bloom filter** (`RollingBloom`) and **cuckoo cache** (`CuckooCache`). What two-bit generations and packed
  flags remember after any history.
- **256-bit arithmetic and block work** (`Integers`, `Limbs`, `BaseUint`, `NthRoot`, `Compact`, `BlockProof`). Word
  arrays refine integers modulo the width; the compact form, the n-th root and the work of a block follow from that.
- **Block tree and active chain** (`BlockChain`), **database transactions** (`DbTransaction`), **Base58** (`Base58`),
  **compact blocks** (`CompactBlocks`). `Bits` and `Collections` hold what several of these share.

State that the source changes in place is a class whose methods are proved equal to functions on values; the theorems
are about those functions. Hash functions are arbitrary functions (injective where the merkle theorems need it), random
numbers and clocks are parameters, and machine words are explicit wherever wrap-around could matter.

## Where code and comments disagree

The model follows the code.

- `src/cuckoocache.h:416-430`: the comment says the first displacement goes to the first location; with an invalid last
  location the index computes to the second.
- `src/coins.h:252-257`: `SpendCoin` is described as having no effect on a missing coin; it returns true for an entry that is
  cached as already spent (`src/coins.cpp:101-115`). `Coins.SpendCoinMeaning` states the exact condition.
- `src/merkleblock.h:47`: the bound on flag bits fails for five transactions with the last one matched
  (`PartialMerkleTree.FlagBitsExceed`); `PartialMerkleTree.FlagBitsBound` is the exact condition. The bound on hashes
  (`src/merkleblock.h:36-40`) always holds and is `PartialMerkleTree.HashBound`.

These properties fail in a corner. Each is stated with the case that breaks it and the exact condition.

- `src/coins.cpp:79-86`: adding a coin with `possible_overwrite` false over a coin that only the base holds breaks the
  meaning of FRESH, and spending it brings the old coin back: `Coins.AddCoinMisuse` is the case, and
  `Coins.AddCoinMeaning` proves the invariant is kept if and only if the caller's promise holds.
- `src/merkleblock.cpp:165-196`: extraction reports failure by the null hash, so a block whose merkle root is itself null
  is not protected: `PartialMerkleTree.NullRootUnsound` gives misleading data for every such block, and
  `PartialMerkleTree.SoundExactly` proves extraction sound if and only if the root is not null or the block is too big
  to be extracted at all.
- `src/addrman.cpp:402-476`: the address manager's consistency check looks addresses up with their port, although where
  ports are not told apart they are stored without. `AddrManCheck.PortsFail` is a run that fails the check,
  `AddrManCheck.ReachableCheck` the exact condition in every run; a success reported with time zero fails it as well
  (`AddrManCheck.GoodCheck`).
- `src/addrman.h:386-424`: loading stores addresses under their full key, so that where ports are not told apart an entry
  with a port is not found any more: `AddrManStore.PortLost` is the case, and `AddrManStore.SavedAndLoaded` proves that
  what was loaded is consistent if and only if ports are told apart or no entry has one. The consistency check at the end
  of the load does not notice: `AddrManStore.LoadedCheck` is the exact condition under which it passes.
- `src/chain.cpp:161-165`: scaling the work by 2^7 is exact if and only if the mean target is at least 2^7, and gives no
  work at all if and only if the mean target plus one divides 2^7 (`BlockProof.WorkExact`). `BlockProof.NoWork` is such a
  block, with the usable target one for every algorithm.
- `src/arith_uint256.cpp:69-83`: multiplying an object by itself clears the operand first, so that the product is zero;
  `BaseUint.Uint.MultiplyAssign` states the result in both cases.
- `src/miner.cpp:265-272`: a package whose totals wrap around passes the test. `BlockAssembler.WrappedPair` is a parent
  and child whose total wraps to nothing and that bring a block over its limit;
  `BlockAssembler.Assembler.FitsUnlessWrapped` says exactly when a package that passes by its real totals fits.
- `src/blockencodings.cpp:83-87`: slots of short ids are kept in 16 bits. Every short id keeps its own slot if and only if
  there are at most 65536 slots (`CompactBlocks.OwnSlotsExactly`).

## Model

| member | source | states |
|---|---|---|
| Coins.RunRefines | src/coins.cpp:43-218 | in every run over a stack of caches each level shows the flat map the same adds and spends give, the flag invariant holds and no operation throws |
| Coins.StepRefines | src/coins.cpp:43-218 | one operation on a stack is the same operation on the stack of flat maps, and does not throw |
| Coins.FlushMeaning | src/coins.cpp:148-209 | flushing never throws, leaves the cache's view as it was and makes the base's view equal to it, and touches nothing below the base |
| Coins.MergeEntryMeaning | src/coins.cpp:148-199 | for each outpoint, merging a child's entry shows what the child showed, is never misapplied and keeps FRESH truthful |
| Coins.AddCoinMeaning | src/coins.cpp:69-88 | adding changes the view at that outpoint only, and keeps the invariant exactly when overwriting was allowed or the coin was cached or unknown below |
| Coins.AddCoinMisuse | src/coins.cpp:79-86 | the case in which a broken promise by the caller breaks the flag invariant without an exception, and spending the new coin makes the old one visible again |
| Coins.SpendCoinMeaning | src/coins.cpp:101-115 | spending removes that outpoint from the view and nothing else; success exactly when it was cached or visible; what is moved out |
| Coins.GetCoinKeepsViews | src/coins.cpp:43-67 | looking a coin up through any number of caches returns the view's coin and changes no view |
| Coins.UncacheMeaning | src/coins.cpp:211-218 | uncaching changes no view |
| CoinsHeap.CoinsViewDB.BatchWrite | src/txdb.cpp:114-138 | the database stores dirty unspent coins and erases dirty spent ones |
| CoinsHeap.CoinsViewCache.FetchCoin | src/coins.cpp:43-58 | the loop-free fetch through the stack performs the function on values and keeps usage exact at every level |
| CoinsHeap.CoinsViewCache.GetCoin | src/coins.cpp:60-67 | returns the view's coin and changes no view |
| CoinsHeap.CoinsViewCache.AddCoin | src/coins.cpp:69-88 | throws exactly when told not to overwrite an unspent cached coin; new state; the usage counter is exact, and off by that coin after a throw |
| CoinsHeap.CoinsViewCache.SpendCoin | src/coins.cpp:101-115 | the view loses exactly that outpoint; what was moved out; usage stays exact |
| CoinsHeap.CoinsViewCache.HaveCoinInCache | src/coins.cpp:133-136 | a hit means the view has the coin; a miss means the view is decided by a spent entry or by the base |
| CoinsHeap.CoinsViewCache.WriteEntry | src/coins.cpp:150-196 | one child entry: throws exactly when misapplied, otherwise stores or erases, usage exact |
| CoinsHeap.CoinsViewCache.BatchWrite | src/coins.cpp:148-202 | throws exactly when some entry is misapplied, otherwise the merge of all entries in any order |
| CoinsHeap.CoinsViewCache.Flush | src/coins.cpp:204-209 | never throws; cache and base show the old view afterwards; usage is zero and exact below |
| CoinsHeap.CoinsViewCache.Uncache | src/coins.cpp:211-218 | drops only clean entries and changes no view |
| CheckQueue.EveryRun | src/checkqueue.h:69-161 | in every run: the verdict of Wait, that a sleeping master has a working worker and an empty queue, and that Wait can always be brought to an end without spurious wake-ups |
| CheckQueue.WaitVerdict | src/checkqueue.h:91-100 | Wait returns true exactly when every check of the round ran and passed, false exactly when some check ran and failed; nothing is left for the next round |
| CheckQueue.StepKeepsInv | src/checkqueue.h:69-161 | no step goes out of bounds; todo counts queued and taken checks, idle and total count threads, no check is in two places |
| CheckQueue.RunKeepsInv | src/checkqueue.h:69-161 | the same in every state of every run |
| CheckQueue.BatchBound | src/checkqueue.h:105-117 | a batch is at least one check and never more than the queue |
| CheckQueue.NoLostWakeup | src/checkqueue.h:80-104 | while the master sleeps some worker holds an unfinished batch, and the clean-up that empties the work wakes the master |
| CheckQueue.WaitCanFinish | src/checkqueue.h:76-126 | from every state with a waiting master some finite schedule without spurious wake-ups lets Wait return |
| CheckQueue.EverySchedule | src/checkqueue.h:69-126 | in every schedule, while the master is inside Wait, the threads take at most three productive steps for each check that was to do |
| CheckQueue.StepWork | src/checkqueue.h:69-126 | while the master waits no step of any thread adds to the work that is left, and executing, accounting and taking lower it |
| CheckQueue.Progress | src/checkqueue.h:69-126 | while the master waits, a productive step or the return from Wait is possible without a spurious wake-up |
| MerkleBlock.ExtractSound | src/merkleblock.cpp:111-147 | if the hash of an extracted subtree is the true one, every extracted pair is a real transaction at its real position |
| MerkleBlock.ExtractBuilt | src/merkleblock.cpp:93-147 | extracting what building wrote consumes exactly that and returns the subtree's hash and matches |
| MerkleBlock.HashCount | src/merkleblock.cpp:93-109 | a subtree stores no more hashes than its height allows for its matches |
| MerkleBlock.MatchedMeaning | src/merkleblock.cpp:93-97 | the matched positions of a range are exactly those marked in it, each once, in increasing order |
| MerkleBlock.SameFirst | src/merkleblock.cpp:136-140 | equal subtree hashes at one height mean equal first transactions, so the duplicate test never fires on distinct ones |
| PartialMerkleTree.ExtractionSound | src/merkleblock.cpp:165-196 | for arbitrary bits and hashes, success with the true root and count yields only genuine pairs |
| PartialMerkleTree.SoundExactly | src/merkleblock.cpp:165-196 | extraction is sound for a block if and only if its root is not null or it exceeds the size limit |
| PartialMerkleTree.NullRootUnsound | src/merkleblock.cpp:165-196 | for every block with a null root within the limit, data that extracts a transaction it does not have |
| PartialMerkleTree.RoundTrip | src/merkleblock.cpp:149-196 | extraction of a built tree returns the merkle root and exactly the matched transactions and positions in order |
| PartialMerkleTree.PackedRoundTrip | src/merkleblock.h:88-105 | the same after the bits went through bytes |
| PartialMerkleTree.HashBound | src/merkleblock.h:36-40 | at most as many hashes as transactions, and at most one plus matches times height |
| MerkleBlock.BitCount | src/merkleblock.cpp:93-109 | a subtree stores exactly twice its hashes less one flag bits, plus one for every node with one child above a match |
| PartialMerkleTree.FlagBitsBound | src/merkleblock.h:47 | at most 2 * N - 1 flag bits exactly when no node with one child lies above a match |
| PartialMerkleTree.FlagBitsExceed | src/merkleblock.h:47 | five transactions with the last one matched store two hashes and five flag bits |
| PartialMerkleTree.WidthMeaning | src/merkleblock.h:66-68 | a position lies within a level's width exactly when its first leaf is a transaction |
| PartialMerkleTree.ShapeCovers | src/merkleblock.cpp:73-91 | the tree given by heights and positions covers consecutive leaves up to the end of the block |
| PartialMerkleTree.CalcHashAtMeaning | src/merkleblock.cpp:73-91 | the hash by height and position is the hash of that tree |
| PartialMerkleTree.PackBits | src/merkleblock.h:100-102 | every bit sits in its byte, padding bits are zero |
| PartialMerkleTree.UnpackBits | src/merkleblock.h:93-97 | the bits of the bytes, least significant first |
| PartialMerkleTree.PartialTree.Build | src/merkleblock.cpp:149-161 | the constructor builds the parts of the whole tree |
| PartialMerkleTree.PartialTree.ComputeHeight | src/merkleblock.cpp:154-157 | the height loop computes the height of the tree |
| PartialMerkleTree.PartialTree.ParentOfMatch | src/merkleblock.cpp:94-97 | the loop over leaves finds whether any is matched, without leaving the block |
| PartialMerkleTree.PartialTree.TraverseAndBuild | src/merkleblock.cpp:93-109 | appends the bits and hashes of the subtree |
| PartialMerkleTree.PartialTree.TraverseAndExtract | src/merkleblock.cpp:111-147 | reads the subtree as the function does, marking bad data |
| PartialMerkleTree.PartialTree.ExtractMatches | src/merkleblock.cpp:165-196 | all acceptance tests; the result is the extraction, appended to the index list it was given |
| AddrManOps.Run | src/addrman.cpp:86-536 | every state reachable from Clear by any operations satisfies the invariant of all tables, maps and counters |
| AddrManCheck.ReachableCheck | src/addrman.cpp:402-476 | in every run with a key and proper times the check passes exactly when every entry is found under its own port; always if ports are told apart or none was announced |
| AddrManCheck.InvCheck | src/addrman.cpp:402-476 | a consistent state passes exactly when the key is not null, recorded times are in order and every entry is found under its own port |
| AddrManCheck.GoodCheck | src/addrman.cpp:205-257 | reporting a success for a known address keeps the check passing exactly when the time is positive |
| AddrManCheck.AttemptCheck | src/addrman.cpp:332-352 | recording an attempt for a known address keeps the check passing exactly when the time is not negative |
| AddrManCheck.PortsFail | src/addrman.cpp:426 | two announced addresses with ports, where ports are not told apart, give a consistent state that fails the check |
| AddrManCheck.StrayUnseen | src/addrman.cpp:426 | keys that the check itself inserts never change what is found |
| AddrManCheck.Check_ | src/addrman.cpp:402-476 | returns zero exactly when every test passes, otherwise the code of a test that failed; changes nothing but stray keys |
| AddrManCheck.CheckEntry | src/addrman.cpp:413-433 | the eight tests of one entry, with a missing key read as zero |
| AddrManCheck.CheckEntries | src/addrman.cpp:410-434 | the loop over entries, and the sets it collects |
| AddrManCheck.CheckTried | src/addrman.cpp:441-453 | the loops over tried slots, each tried entry in exactly one |
| AddrManCheck.CheckNew | src/addrman.cpp:455-467 | the loops over new slots, each new entry in exactly as many as its reference count |
| AddrManCheck.RunSane | src/addrman.cpp:205-536 | in every run with proper times no recorded time is negative and every tried entry has succeeded |
| AddrManOps.ApplyKeeps | src/addrman.cpp:86-536 | every operation keeps the invariant |
| AddrManOps.MakeTriedMeaning | src/addrman.cpp:157-203 | the entry sits in its tried slot, an evicted entry is back in the new table with one reference, at most one entry is lost |
| AddrManOps.GoodMeaning | src/addrman.cpp:205-257 | an exactly known address ends in the tried table at its slot; otherwise nothing but the time changes |
| AddrManOps.InSomeBucket | src/addrman.cpp:234-249 | a new entry is found in some bucket, so the "something bad happened" exit is dead |
| AddrManOps.AddMeaning | src/addrman.cpp:259-330 | reports new exactly for routable unknown addresses, never touches the tried table, loses at most one entry and never the known one |
| AddrManOps.FindMeaning | src/addrman.cpp:68-84 | finds the entry with the normalised address, or there is none |
| AddrManOps.IntroduceFree | src/addrman.cpp:288-329 | an unknown address whose slot is free gets the next number, that slot and its key, and nothing else changes |
| AddrManOps.MakeRoomKeeps | src/addrman.cpp:171-198 | the evicted tried entry takes its home slot in the new table, and only what stood there with one reference is lost |
| AddrManOps.ShuffleKeeps | src/addrman.cpp:479-498 | partial shuffles of the random order keep everything consistent |
| AddrMan.DeleteKeeps | src/addrman.cpp:123-140 | deleting removes exactly that entry and keeps the maps and the order inverse |
| AddrMan.ClearNewKeeps | src/addrman.cpp:142-155 | clearing a slot drops one reference, and the entry exactly when it was the last |
| AddrMan.SwapRandomOk | src/addrman.cpp:103-121 | swapping two places keeps order and positions inverse and changes nothing else |
| AddrManHeap.Manager.constructor | src/addrman.h:485-489 | a new manager is empty and consistent |
| AddrManHeap.Manager.Clear | src/addrman.h:462-484 | clears both tables slot by slot |
| AddrManHeap.Manager.Find | src/addrman.cpp:68-84 | performs the look-up |
| AddrManHeap.Manager.Create | src/addrman.cpp:86-101 | performs the creation in place |
| AddrManHeap.Manager.SwapRandom | src/addrman.cpp:103-121 | performs the swap in place |
| AddrManHeap.Manager.Delete | src/addrman.cpp:123-140 | performs the deletion in place; every caller meets the assertions that the entry is untried and unreferenced |
| AddrManHeap.Manager.ClearNew | src/addrman.cpp:142-155 | performs the clearing in place, deletion included |
| AddrManHeap.Manager.MakeTried | src/addrman.cpp:157-203 | the loop over buckets and the move perform the function; the assertions hold |
| AddrManHeap.Manager.SearchNew | src/addrman.cpp:234-249 | the search from a random bucket always finds one that holds the entry |
| AddrManHeap.Manager.Good_ | src/addrman.cpp:205-257 | performs the function and keeps the invariant |
| AddrManHeap.Manager.Add_ | src/addrman.cpp:259-330 | performs the function and keeps the invariant |
| AddrManHeap.Manager.Attempt_ | src/addrman.cpp:332-352 | performs the function and keeps the invariant |
| AddrManHeap.Manager.Connected_ | src/addrman.cpp:500-518 | performs the function and keeps the invariant |
| AddrManHeap.Manager.SetServices_ | src/addrman.cpp:520-536 | performs the function and keeps the invariant |
| AddrManHeap.Manager.GetAddr_ | src/addrman.cpp:479-498 | lists the good addresses of a random prefix, within 23 percent and 2500, changing only the order |
| AddrManStore.SavedAndLoaded | src/addrman.h:306-460 | loading what was saved from a consistent state succeeds and gives the same entries, references, addresses and slots under new numbers; it is consistent exactly when ports are told apart or no entry has one; which entries are still found; when the check at the end passes |
| AddrManStore.RoundTrip | src/addrman.h:306-460 | the loaded state entry by entry and slot by slot; nothing is lost in any loop |
| AddrManStore.LoadedInv | src/addrman.h:356-460 | what was loaded satisfies the invariant exactly when ports are told apart or no entry has one |
| AddrManStore.FoundAfterLoading | src/addrman.h:386-424 | an entry is found after loading exactly when its key carries no port that looking up drops |
| AddrManStore.LoadedCheck | src/addrman.h:459 | the check after loading passes exactly when the key is not null and times of success are in order, whatever the ports |
| AddrManStore.PortLost | src/addrman.h:386-424 | one announced address with a port, where ports are not told apart, is not found after saving and loading, although the check passes |
| AddrManStore.StoredSizes | src/addrman.h:377-383 | saved counts always pass the limits tested when loading |
| AddrManStore.ListsFacts | src/addrman.h:320-339 | the lists written have exactly the counted lengths, so the assertions on the counters hold |
| AddrManDisk.WriteEntries | src/addrman.h:320-339 | the loops over entries write them in id order and number them; the counter is never passed |
| AddrManDisk.WriteBucket | src/addrman.h:340-353 | the loop writes the numbers of a bucket's entries in place order |
| AddrManDisk.Save | src/addrman.h:306-354 | the object's Serialize is the function on its state |
| AddrManDisk.ReadNew | src/addrman.h:386-403 | the loop over new entries, with and without usable positions |
| AddrManDisk.ReadTried | src/addrman.h:406-424 | the loop over tried entries, counting those whose slot is taken |
| AddrManDisk.ReadBucket | src/addrman.h:427-442 | the loop over saved positions of a bucket |
| AddrManDisk.PruneAll | src/addrman.h:445-454 | drops exactly the entries without a place |
| AddrManDisk.Load | src/addrman.h:356-460 | the object's Unserialize is the function, errors and negative counts included |
| Mempool.UpdateKeepsTotals | src/miner.cpp:308-333 | cached package totals never fall below the real ones when transactions are added, and are exact for transactions that have not failed |
| Mempool.PackageCovered | src/miner.cpp:427-438 | a package about to be tested is covered by its total: at least the real one, exactly it unless the transaction failed before |
| Mempool.PackageCloses | src/miner.cpp:463-491 | a block closed under ancestors stays so after a package |
| Mempool.AppendSorted | src/miner.cpp:350-359 | a package sorted by ancestor count can be appended with every ancestor before its descendants |
| Mempool.CountSmaller | src/miner.cpp:350-359 | an ancestor has a smaller ancestor count |
| BlockAssembler.Assembler.AddPackageTxs | src/miner.cpp:371-498 | selection ends; each transaction once and after its ancestors, only allowed ones, size and sigops exact; if words are wide enough for the limits with any one package, a block that took anything in is strictly below the limits and, unless selection stops early, no transaction left out could still join: its package is not allowed or would reach a limit |
| BlockAssembler.Assembler.RefusedStays | src/miner.cpp:336-343 | whatever joins the block later, a package that was refused stays refused |
| BlockAssembler.Assembler.FailsAgain | src/miner.cpp:336-343 | a refused package that is evaluated again with totals that are too high fails again |
| BlockAssembler.Assembler.TryPackage | src/miner.cpp:427-497 | one package: added exactly when its totals pass and it is allowed, otherwise refused by its real totals at the present block; a refused one is never added later; entries accounted for; for any widths, when a limit is kept |
| BlockAssembler.Assembler.AddPackage | src/miner.cpp:480-497 | adds exactly the package and keeps totals covered |
| BlockAssembler.Assembler.UpdatePackagesForAdded | src/miner.cpp:308-333 | descendants' totals lose exactly what was added |
| BlockAssembler.Assembler.SortForBlock | src/miner.cpp:350-359 | a permutation of the package in ancestor-count order |
| BlockAssembler.Assembler.AddToBlock | src/miner.cpp:289-306 | the block, its size and sigops after one transaction |
| BlockAssembler.Assembler.OnlyUnconfirmed | src/miner.cpp:252-263 | removes exactly what is in the block |
| BlockAssembler.Assembler.TestPackage | src/miner.cpp:265-272 | the two limits with the source's word widths |
| BlockAssembler.Assembler.TestPackageTransactions | src/miner.cpp:277-287 | every transaction of the package is allowed |
| BlockAssembler.Assembler.FitsExactly | src/miner.cpp:265-272 | where words are wide enough for this package, one that passes keeps the block strictly below both limits |
| BlockAssembler.Assembler.LimitsDecide | src/miner.cpp:265-272 | a block within its limits asks of the words no more than the limits with any one package |
| BlockAssembler.Assembler.FitsUnlessWrapped | src/miner.cpp:265-272 | for any pool, a package that passes with its real totals fits exactly when the sums do not wrap around |
| BlockAssembler.WrappedPair | src/miner.cpp:265-272 | a well-formed pool and a consistent block within its limits that takes an allowed package, by totals that wrap around, and is over its limit |
| RollingBloom.Filter.Contains | src/bloom.cpp:378-390 | true exactly when every cell of the key was touched within the last generations; always true for the last two full generations and the current one |
| RollingBloom.Filter.Insert | src/bloom.cpp:341-370 | the filter records the history with the key added |
| RollingBloom.Filter.WipeGeneration | src/bloom.cpp:349-357 | the mask loop wipes every word pair |
| RollingBloom.Filter.SetAll | src/bloom.cpp:361-369 | the hash loop sets every cell of the key |
| RollingBloom.Filter.Reset | src/bloom.cpp:398-406 | an empty history |
| RollingBloom.Filter.constructor | src/bloom.cpp:301-326 | an empty filter for the given number of elements |
| RollingBloom.SetCellValue | src/bloom.cpp:367-368 | the word operations write one two-bit cell and no other |
| RollingBloom.WipeValue | src/bloom.cpp:349-357 | the mask clears exactly the cells of the reused generation |
| RollingBloom.WipeRecords | src/bloom.cpp:343-358 | after a wipe each cell still records the generation of its latest unwiped touch |
| RollingBloom.InsertRecords | src/bloom.cpp:359-369 | an insertion makes each of its cells record the present generation |
| RollingBloom.InsertedIsRecent | src/bloom.cpp:341-390 | keys of the last generations count as recent whatever came between |
| CuckooCache.Cache.Insert | src/cuckoocache.h:392-440 | at most one element leaves the table, every element stays on one of its own slots, an element on one of its slots changes nothing, a free own slot means the element is in |
| CuckooCache.Cache.Displace | src/cuckoocache.h:406-439 | the displacement loop exchanges elements without losing any but the last, and keeps the live counts |
| CuckooCache.Cache.EpochCheck | src/cuckoocache.h:289-321 | leaves room for one more recent entry within the bound and never revives a collected slot |
| CuckooCache.Cache.LoadBound | src/cuckoocache.h:289-321 | live entries of both epochs never exceed twice the bound |
| CuckooCache.Cache.Contains | src/cuckoocache.h:467-477 | finds exactly the stored elements, the default element where one of its slots is unused; erasing marks that slot and no other |
| CuckooCache.Cache.Age | src/cuckoocache.h:306-310 | recent entries become old and old ones collectable |
| CuckooCache.Cache.CountRecent | src/cuckoocache.h:297-300 | counts the live entries of the recent epoch |
| CuckooCache.Cache.constructor | src/cuckoocache.h:340-353 | an empty cache of the given size with all slots free |
| CuckooCache.BitPackedFlags.BitSet | src/cuckoocache.h:92-95 | sets one flag and no other |
| CuckooCache.BitPackedFlags.BitUnset | src/cuckoocache.h:103-106 | clears one flag and no other |
| Limbs.RowValue | src/arith_uint256.cpp:57-83 | word sums with carries add up to the integer sum, with the carry out at the top |
| Limbs.SumFits | src/arith_uint256.cpp:74-79 | a word sum never leaves 64 bits |
| Limbs.AddRowValue | src/arith_uint256.cpp:70-83 | a row of a product adds the shifted multiple up to multiples of the modulus |
| Limbs.ShiftedLeftValue | src/arith_uint256.cpp:23-38 | shifting words and bits left is multiplication by a power of two, reduced |
| Limbs.ShiftedRightValue | src/arith_uint256.cpp:40-55 | shifting words and bits right is division by a power of two |
| BaseUint.Uint.constructor | src/arith_uint256.h:57-65 | the value of a 64-bit number |
| BaseUint.Uint.AddAssign | src/arith_uint256.h:143-153 | addition modulo the width, also onto itself |
| BaseUint.Uint.Negate | src/arith_uint256.h:85-92 | the additive inverse |
| BaseUint.Uint.SubtractAssign | src/arith_uint256.h:155-159 | subtraction modulo the width |
| BaseUint.Uint.Increment | src/arith_uint256.h:181-188 | one more, modulo the width |
| BaseUint.Uint.MultiplySmall | src/arith_uint256.cpp:57-67 | multiplication by a 32-bit number modulo the width |
| BaseUint.Uint.MultiplyAssign | src/arith_uint256.cpp:69-83 | multiplication modulo the width; an object times itself is zero |
| BaseUint.Uint.ShiftLeftAssign | src/arith_uint256.cpp:23-38 | multiplication by a power of two modulo the width, for any shift |
| BaseUint.Uint.ShiftRightAssign | src/arith_uint256.cpp:40-55 | division by a power of two, for any shift |
| BaseUint.Uint.DivideAssign | src/arith_uint256.cpp:85-109 | the exact quotient; division by zero is reported after the quotient was cleared |
| BaseUint.Uint.DivideBit | src/arith_uint256.cpp:99-106 | one bit of the division keeps quotient, remainder and divisor in balance |
| BaseUint.Uint.CompareTo | src/arith_uint256.cpp:111-121 | the sign of the difference |
| BaseUint.Uint.EqualTo | src/arith_uint256.cpp:123-135 | equality with a 64-bit number |
| BaseUint.Uint.BitLength | src/arith_uint256.cpp:190-203 | the position of the highest bit plus one |
| BaseUint.Uint.GetLow64 | src/arith_uint256.h:264-268 | the value modulo 2^64 |
| NthRoot.ApproxNthRoot | src/arith_uint256.cpp:205-229 | r * 2^s with (r*2^s)^n <= x < ((r+1)*2^s)^n, exact for s = 0, with full leading precision otherwise |
| NthRoot.RootOf | src/arith_uint256.cpp:215-225 | the bit search finds the floor of the n-th root of the head |
| NthRoot.Power64 | src/arith_uint256.cpp:220-222 | the n-th power without leaving 64 bits |
| NthRoot.HeadFits | src/arith_uint256.cpp:209-213 | the shifted head fits into whole n-th parts of 64 bits and reaches into the top one if bits were dropped |
| Compact.CompactRoundTrip | src/arith_uint256.cpp:251-292 | every 256-bit number comes back from its compact form within one part in 2^15 and never larger, without overflow, and encoding again gives the same form |
| Compact.OverflowExact | src/arith_uint256.cpp:264-267 | overflow is flagged exactly when mantissa * 256^(size-3) is at least 2^256 |
| Compact.SetCompact | src/arith_uint256.cpp:251-269 | value and both flags of a compact number |
| Compact.GetCompact | src/arith_uint256.cpp:271-292 | the compact form of the value, its three fields in disjoint bits |
| BlockProof.GetBlockProof | src/chain.cpp:121-166 | zero for an unusable target; otherwise the product A of the n roots has A^n at most the product of the targets and the result is floor(2^256/(A+1)) * 2^7 in 256 bits |
| BlockProof.WorkOf | src/chain.cpp:161 | ~A/(A+1)+1 is floor(2^256/(A+1)), with no division by zero |
| BlockProof.WorkExact | src/chain.cpp:161-165 | scaling by 2^7 is exact if and only if the mean target is at least 2^7, and leaves nothing if and only if the mean target plus one divides 2^7 |
| BlockProof.ZeroWork | src/chain.cpp:146-165 | the target one for every algorithm is usable, its roots multiply to a mean target of one, and the work is zero |
| BlockProof.NoWork | src/chain.cpp:121-166 | the work of such a block, computed, is zero |
| BlockProof.RootsFit | src/chain.cpp:146-159 | every partial product of roots stays within the largest target |
| BlockProof.TargetBelow | src/chain.cpp:152-154 | no decoded target is the largest 256-bit number |
| BlockChain.BlockIndex.GetAncestor | src/chain.cpp:84-108 | skip pointers lead to the same ancestor as parent links; null outside the range |
| BlockChain.BlockIndex.BuildSkip | src/chain.cpp:115-119 | the skip pointer is the ancestor at the skip height |
| BlockChain.GetSkipHeight | src/chain.cpp:74-82 | the skip height is strictly lower |
| BlockChain.LowestOneCleared | src/chain.cpp:70-71 | clearing the lowest one turns an odd multiple of a power of two into the even one below |
| BlockChain.Chain.SetTip | src/chain.cpp:12-22 | the whole path from genesis to the tip, although the loop stops at the first entry that is right |
| BlockChain.Chain.FindFork | src/chain.cpp:52-61 | the highest block of the chain among the ancestors |
| BlockChain.LastCommonAncestor | src/chain.cpp:187-202 | the highest common ancestor, or null if there is none |
| DbTransaction.StoreIterator.Enumerate | src/dbwrapper.h:400-548 | from the first key on, every key of the view once, in increasing order, with its value |
| DbTransaction.StoreIterator.EnumerateFrom | src/dbwrapper.h:400-548 | from a sought key on, every key of the view not below it once, in increasing order, with its value |
| DbTransaction.StoreIterator.EnumerateRest | src/dbwrapper.h:445-548 | from any position, everything that lies ahead, in order |
| DbTransaction.StoreIterator.SeekToFirst | src/dbwrapper.h:426-431 | all keys of the view lie ahead |
| DbTransaction.StoreIterator.Seek | src/dbwrapper.h:438-443 | exactly the keys not below the sought one lie ahead |
| DbTransaction.StoreIterator.Next | src/dbwrapper.h:449-462 | passes over the current key and no other |
| DbTransaction.StoreIterator.GetKey | src/dbwrapper.h:491-500 | the current key is the least of those ahead |
| DbTransaction.StoreIterator.GetValue | src/dbwrapper.h:514-523 | the view's value under the current key |
| DbTransaction.StoreIterator.HasCurrent | src/dbwrapper.h:445-447 | valid exactly while keys lie ahead |
| DbTransaction.StoreIterator.SkipDeletedAndOverwritten | src/dbwrapper.h:526-534 | leaves the parent on a key that shows through and loses none |
| DbTransaction.StoreIterator.DecideCur | src/dbwrapper.h:536-548 | chooses the smaller key and changes nothing else |
| DbTransaction.Store.Write | src/dbwrapper.h:614-627 | the view gains the pair, the parent is untouched, memory usage stays the exact sum |
| DbTransaction.Store.Erase | src/dbwrapper.h:675-684 | the view loses the key, the parent is untouched, memory usage stays the exact sum |
| DbTransaction.Store.Read | src/dbwrapper.h:635-651 | the view's value through any number of transactions |
| DbTransaction.Store.Exists | src/dbwrapper.h:658-668 | whether the view has the key |
| DbTransaction.Store.Commit | src/dbwrapper.h:692-700 | the parent now shows the view, which does not change; nothing further down changes |
| DbTransaction.Store.Clear | src/dbwrapper.h:686-690 | the view is the parent's again |
| DbTransaction.Store.GetMemoryUsage | src/dbwrapper.h:706-717 | the reported usage is the exact sum and never negative |
| DbTransaction.LessTotal | src/dbwrapper.h:560-569 | the byte order of keys is total |
| Base58.DecodeEncode | src/base58.cpp:21-109 | decoding an encoded byte string gives it back |
| Base58.EncodeDecode | src/base58.cpp:21-109 | encoding what was decoded gives back the word between the spaces, the whole text if it has none |
| Base58.EncodeBase58 | src/base58.cpp:71-109 | a one per leading zero byte and the digits of the rest |
| Base58.DecodeBase58 | src/base58.cpp:21-69 | decodes exactly the well-formed texts |
| Base58.MultiplyAdd | src/base58.cpp:43-51 | the carry loop multiplies and adds in place and ends without a carry |
| Base58.ReadDigit | src/base58.cpp:37-54 | reading one more digit never leaves a carry, whatever text follows |
| Base58.DecodeSizeSuffices | src/base58.cpp:34 | the estimated byte buffer holds every text of that length |
| Base58.EncodeSizeSuffices | src/base58.cpp:81 | the estimated digit buffer holds every byte string of that length |
| CompactBlocks.MakeMessage | src/blockencodings.cpp:20-30 | the first transaction in full, the others by short id in order |
| CompactBlocks.PartiallyDownloadedBlock.InitData | src/blockencodings.cpp:50-170 | when each status is returned; on success, within 65536 slots, each short id's outcome stands in its own slot and prefilled ones are untouched |
| CompactBlocks.PartiallyDownloadedBlock.Prefill | src/blockencodings.cpp:58-76 | accepts exactly the well-placed transactions and puts each into its slot |
| CompactBlocks.PartiallyDownloadedBlock.MapShortIds | src/blockencodings.cpp:82-104 | the k-th short id gets the k-th open slot as a 16-bit position, in bounds; the map is full exactly when ids differ |
| CompactBlocks.PartiallyDownloadedBlock.OfferPool | src/blockencodings.cpp:106-134 | each slot holds the only match so far, none after two; stops early only when every id has exactly one |
| CompactBlocks.PartiallyDownloadedBlock.OfferExtra | src/blockencodings.cpp:136-165 | a second match counts against a slot only if it is a different transaction; stops early only when nothing is open |
| CompactBlocks.PartiallyDownloadedBlock.FillBlock | src/blockencodings.cpp:178-221 | rebuilds exactly when the number of missing transactions is right; taken slots stay, open ones are filled in order |
| CompactBlocks.FilledExactly | src/blockencodings.cpp:178-199 | with the sender's answers for the open slots the block comes back exactly when everything kept is the block's own |
| CompactBlocks.KeptOwn | src/blockencodings.cpp:50-170 | without short id collisions a peer keeps only the block's own transactions, each in its slot |
| CompactBlocks.OwnSlotsExactly | src/blockencodings.cpp:82-87 | every short id keeps its own slot exactly when there are no more slots than 16-bit positions |
| CompactBlocks.SendAndRebuild | src/blockencodings.cpp:20-221 | announcing, placing, answering and filling in: when each status is returned; placed exactly when short ids differ and spread out; the block comes back exactly when everything kept is its own, so whenever short ids do not collide; the status is that of checking what came out |
| CompactBlocks.PartiallyDownloadedBlock.Answer | src/net_processing.cpp:2968-2971 | asks for exactly the open slots, in order |
| CompactBlocks.OneSlotEach | src/blockencodings.cpp:58-87 | after prefilling there is exactly one open slot per short id |
| Bits.FastMod | src/bloom.cpp:337-339 | a hash scaled to a range stays inside it |

## Left out

- Start-up, command line, RPC, wallet, networking, signatures, LevelDB itself: I/O and wrappers.
- Best-block hashes carried through coin caches; the batches of the coin database are written as one.
- CheckQueue: one master at a time (the control mutex) and no shutdown flag; a check is an id with a result.
- Floating point: `Select_`, `GetChance`, bloom sizing and the cuckoo depth limit; sizes and limits are parameters.
- BlockAssembler.Assembler.AddPackageTxs: scores and fee rates are left open, so the claims hold for any order; fee totals are not modelled. The limits and maximality are claimed where the words hold the limits together with any one package.
- BlockAssembler.Assembler.FitsExactly: for a package whose totals fit the words together with the limits; FitsUnlessWrapped is the condition for any package.
- CuckooCache.Cache.Contains: concurrent erasure is not modelled.
- AddrManHeap.Manager.Add_: times are unbounded integers, and the id counter does not wrap around.
- CompactBlocks.PartiallyDownloadedBlock.InitData: the contents of the slots are not claimed beyond 65536 of them, where short ids no longer keep their own slot; announcements that prefill every one of 65536 positions and have short ids left are excluded, because the 16-bit search for an open slot does not end. Crowded hash buckets are an arbitrary input.
- CompactBlocks.PartiallyDownloadedBlock.MapShortIds: asks for an open slot among the 16-bit positions, likewise.
- CompactBlocks.PartiallyDownloadedBlock.FillBlock: checking the block is an arbitrary function; the count of extra transactions is kept for logging and is not claimed to be exact.
- DbTransaction.Store.Read: values are bytes, so reading with another type than was written does not arise.
- Base58.DecodeBase58: a zero character is an ordinary invalid one.
- BlockProof.GetBlockProof: the compact targets of the algorithms are inputs; computing the next target is not part of this model.
- Block locators, earliest block by time, hexadecimal text of big integers and conversions to double: they carry no invariant of their own.
- PartialMerkleTree.PartialTree.ExtractMatches: hashing is an injective combination of two hashes.
