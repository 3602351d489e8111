# A verified model of zcashd's core data structures

This project models, in Dafny, the parts of zcashd whose correctness rests on invariants rather than on
reading one function: the script-check queue, the coins cache stack, the address manager, partial Merkle
trees, the mempool eviction tree, 256-bit arithmetic with compact targets and retargeting, Bech32 and Base58,
the history tree's peaks, the block index with its skip list, receive framing, block assembly, and the stored
form of coins. `dafny verify dfyconfig.toml` checks the whole project.

Each component follows the source's own form. Code that only computes is written as functions; objects whose
methods change fields are classes whose methods are proved against those functions; loops stay loops. What the
source promises is then proved of the functions, over every input and every run.

| file | component | main results |
|---|---|---|
| `CheckQueue.dfy` | `CCheckQueue` as a state machine of one master and any number of workers | in every run Wait answers exactly whether all checks passed, no wake-up is lost, Wait is bounded |
| `Coins.dfy`, `CoinsCache.dfy` | `CCoins`, a stack of `CCoinsViewCache` over the database | every run refines plain maps; flushing changes nothing that is seen |
| `Anchors.dfy`, `BestHash.dfy` | anchors and best hashes in the same stack | every run of anchors refines plain sets of roots, every run of best hashes with safe flushes a plain list; exactly when a flush is safe |
| `AddrMan.dfy`, `AddrManager.dfy` | `CAddrMan`, first on values, then in place on its tables | from empty, every run keeps all that `Check_` tests; what every operation does to tables and statistics; the exact size of a sample |
| `PartialMerkle.dfy` | `CPartialMerkleTree` | soundness against arbitrary proofs, with any claimed number of transactions that makes a tree as high; round trip through bytes; exactly when the documented sizes hold |
| `MempoolLimit.dfy` | `WeightedTxTree` | sums exact after every run; selection exactly by weight while the totals fit an int, as they do in every run with the default limit |
| `Arith.dfy`, `BaseUint.dfy` | `base_uint` of any width | every operator is arithmetic modulo 2^(32*WIDTH); division is the floor quotient |
| `Compact.dfy`, `Pow.dfy` | `SetCompact`, `GetCompact`, retargeting, block work | exact overflow flag, rounding below one part in 2^15, no wrap anywhere in retargeting; the required target is the one that inequalities on the chain determine |
| `Gf32.dfy`, `Bch.dfy`, `Bech32.dfy` | the checksum as a remainder over GF(32), its roots in GF(1024), and the codec | both round trips exactly characterised; any three errors in the data, one in the prefix, and any burst of six symbols always detected |
| `Base58.dfy` | `EncodeBase58`, `DecodeBase58` | both round trips; the buffer estimates suffice for every length |
| `HistoryTree.dfy` | `PreloadHistoryTree` | exactly the peaks, their links, and the right slope |
| `SkipList.dfy`, `BlockChain.dfy` | `CBlockIndex`, `CChain` | the skip list, `SetTip`, `FindFork` and `GetLocator` against the plain walk; how many steps the walk takes on every index that grows block by block |
| `Framing.dfy` | `CNetMessage`, `ReceiveMsgBytes` | independent of chunks; nothing lost; what a sender makes is received exactly |
| `Ledger.dfy`, `Scheduler.dfy`, `Miner.dfy` | `UpdateCoins`, the orphan scheduler, `CreateNewBlock` | every considered transaction is in the block exactly if no cause keeps it out; termination, parents first, none starved, limits, turnstile, conservation of value |
| `Compressor.dfy`, `CoinsCodec.dfy` | variable-length integers, amounts, scripts, `CCoins` serialisation | round trips, with the exact condition under which coins survive, which all coins that any cache or the database holds meet |
| `Common.dfy` | shared types | |

## Assumptions

Things outside the model are parameters, so every result holds for all of them: bucket hashes, the clock and random
numbers of the address manager; the pair hash of Merkle trees (injective where a result says so); the random number of
mempool eviction; block times and median times; the heap's order, script validity, policy tests and signature
operation counts of block assembly; public-key decompression (a key on the curve comes back from its first coordinate
and the parity of its second). Integers are unbounded; where the source's width matters it is written out.

- Check queue: one master, no thread interruption, and fewer than 2^32 checks outstanding.
- Coins cache: a cache's parent is not changed while the cache is in use, and one modification ends before the next begins.
- Retargeting: parameters as `Pow.WellFormed` says, which `Pow.NetworkIsWellFormed` and `Pow.RegtestIsWellFormed` show of the three networks.
- History tree: at most 2^31 - 2 stored nodes.
- Block assembly: the pool is closed under unconfirmed parents, its transactions are unconfirmed, and none of them spends an output twice (`Miner.PoolOk`).

## Where the code differs from what one would expect

- `WeightedTxTree::findByEvictionWeight` keeps weights in `int` locals, and the random number of `maybeDropRandom` is an `int`. `MempoolLimit.SearchIsExactIff` and `MempoolLimit.ChoosesByWeightIff` say exactly when the search still ends at the weighted choice; past the last node it never returns (`MempoolLimit.HangingTree`). In every run of the mempool with the default limit, and transactions of up to 349 megabytes, the totals fit (`MempoolLimit.DefaultIsSafe`); with a limit of 429500000 there is a run of small transactions after which they do not (`MempoolLimit.LargeLimitFails`).
- `Add_` answers true for a new address even when the new entry is dropped again at once. `AddrMan.AddKeepsIff` says exactly when it is kept, `AddrMan.SecondIsDropped` shows one that is not.
- A cache that was never asked for its best block makes the cache below forget that hash when it is flushed (`BestHash.FlushIff`, `BestHash.ForgottenHash`).
- A root of the empty tree that was popped is known again once the cache is flushed into the database (`Anchors.FlushIff`, `Anchors.EmptyComesBack`).
- Undoing the spend of a transaction's last output at height zero does not bring its header back (`Coins.UndoUndoesSpendIff`).
- The bits of a partial Merkle tree may exceed the documented 2*N - 1 (`PartialMerkle.BitsBound`, `PartialMerkle.FiveBits`), and its encoding the documented 10 + ceil(32.25*N) bytes (`PartialMerkle.SizeIff`, `PartialMerkle.SizeExceeded`).
- `base_uint::operator*=` clears its own limbs before it reads the factor, so a number multiplied by itself in place becomes zero; `BaseUint.Uint.Multiply` says so.
- A retarget comes out as zero, a target no hash can meet, exactly after windows whose average is below the averaging timespan, or where the limited timespan is zero, which no network allows (`Pow.RequiredZeroIff`, `Pow.LowTargetsExample`). Some chain with the required targets reaches it (`Pow.ZeroIsReached`).
- The stored form of coins loses a script of more than 10000 bytes (`CoinsCodec.RoundTripIff`, `CoinsCodec.LongScriptIsLost`). No coins that the program makes have one, because such outputs are cleared at once (`CoinsCodec.HeldComesBack`).

## Model

| member | source | states |
|---|---|---|
| `CheckQueue.Queue.Add` | src/checkqueue.h:146-158 | the queue and the counter grow by exactly these checks |
| `CheckQueue.Queue.Pop` | src/checkqueue.h:111-117 | a batch taken off the back of the queue, in reverse order, and the rest left |
| `CheckQueue.Queue.Enter` | src/checkqueue.h:78-119 | one pass through the critical section equals arriving and deciding in the specification, and says when the master is notified |
| `CheckQueue.BatchFits` | src/checkqueue.h:105-110 | a batch is never empty and never larger than the queue |
| `CheckQueue.BatchShare` | src/checkqueue.h:105-110 | a batch is as large as the configured size and an equal share among all threads and the idle ones once more allow, but at least one |
| `CheckQueue.NextKeepsInv` | src/checkqueue.h:69-127 | every step of every thread keeps the invariant on counters, phases and batches |
| `CheckQueue.RunInv` | src/checkqueue.h:69-158 | the invariant and the ledger of added, taken and verified checks hold after every run |
| `CheckQueue.WaitIsCorrect` | src/checkqueue.h:69-143 | Wait returns true exactly if every check added since the previous Wait passes, and by then the checks taken in batches are exactly those added, each as often |
| `CheckQueue.TodoIsExact` | src/checkqueue.h:80-158 | nTodo is the number of queued checks plus the checks in held batches, in every reachable state |
| `CheckQueue.NoLostWakeup` | src/checkqueue.h:84-103 | a master asleep without a pending notification implies a worker that holds a non-empty batch |
| `CheckQueue.LastBatchWakes` | src/checkqueue.h:80-88 | in every run a worker wakes the master exactly when it brings back the last outstanding batch of an empty queue |
| `CheckQueue.IdleBetweenWaits` | src/checkqueue.h:164-168 | with nothing added since the last Wait, IsIdle holds, as CCheckQueueControl asserts |
| `CheckQueue.IdleMeans` | src/checkqueue.h:164-168 | whenever IsIdle holds, nothing is queued and no thread holds a batch |
| `CheckQueue.HeldWereTaken` | src/checkqueue.h:69-127 | what workers hold is part of what was taken in this round |
| `CheckQueue.SomeoneCanMove` | src/checkqueue.h:69-127 | no deadlock: inside Wait there is always a step of the protocol to make that is neither an Add nor a spurious wake-up |
| `CheckQueue.MovesMakeProgress` | src/checkqueue.h:69-127 | every step but Add and return keeps or lowers a distance to the return of Wait, and keeps it only if it is a spurious wake-up |
| `CheckQueue.DistanceBounded` | src/checkqueue.h:69-127 | the distance is never negative |
| `CheckQueue.WaitIsBounded` | src/checkqueue.h:69-143 | between an Add and the return of Wait only boundedly many steps are not spurious wake-ups |
| `Coins.CleanedIsClean` | src/coins.h:115-120 | Cleanup leaves no spent output at the end, keeps every unspent one, and changes clean coins not at all |
| `Coins.CleanPrunedIsEmpty` | src/coins.h:228-235 | for clean coins, pruned means no outputs |
| `Coins.Cleanup` | src/coins.h:115-120 | the popping loop computes exactly the trimmed coins |
| `Coins.FromTxSpendable` | src/coins.h:91-97 | FromTx keeps exactly the outputs that can be spent, at their positions, in clean coins with the given header; those that can not be spent begin with OP_RETURN or are longer than 10000 bytes |
| `Coins.SpendSpendable` | src/coins.cpp:37-44 | Spend takes away exactly the one output, if it is there, and leaves clean coins without unspendable outputs |
| `Coins.RestoreSpendable` | src/main.cpp:2284-2286 | putting an output back makes exactly that output available, at any position |
| `Coins.RestoreUndoesSpend` | src/main.cpp:2265-2289 | putting the spent output back gives the coins as they were, trailing outputs included |
| `Coins.UndoUndoesSpendIff` | src/main.cpp:2007-2019 | with the undo entry that UpdateCoins makes, ApplyTxInUndo gives the coins as they were, header included, if and only if an output is left, the height is not zero or the header holds nothing else either; the outputs always come back |
| `Coins.ClearUnspendable` | src/coins.h:122-128 | the loop nulls exactly the unspendable outputs and cleans up |
| `CoinsCache.FetchIsRead` | src/coins.cpp:115-131 | FetchCoins returns what the stack shows, and fills caches without changing what any level shows |
| `CoinsCache.FetchNullifierIsRead` | src/coins.cpp:180-203 | GetNullifier returns what the stack shows and changes nothing that is seen |
| `CoinsCache.HaveCoinsIsVisible` | src/coins.cpp:684-691 | HaveCoins is true exactly if unpruned coins are visible |
| `CoinsCache.ModifyCorrect` | src/coins.cpp:645-664 | ModifyCoins may be used on any transaction; afterwards exactly that transaction's coins are changed, to what was left in the entry |
| `CoinsCache.ModifyNewCorrect` | src/coins.cpp:666-673 | ModifyNewCoins is right if and only if the view below has no unpruned coins for the transaction |
| `CoinsCache.CloseCorrect` | src/coins.cpp:1001-1013 | the end of a modification cleans up, and erasing a fresh pruned entry changes nothing that is seen |
| `CoinsCache.SetNullifierCorrect` | src/coins.cpp:621-634 | setting a nullifier changes that nullifier only |
| `CoinsCache.FreshAssertionHolds` | src/coins.cpp:818-829 | the assertion on FRESH in BatchWrite never fails |
| `CoinsCache.FlushCorrect` | src/coins.cpp:805-882 | Flush gives the view below exactly what the flushed cache showed, and leaves an empty cache that shows the same |
| `CoinsCache.StepRefines` | src/coins.cpp:115-882 | one step of the stack is one step of plain maps, and keeps the flags' invariant |
| `CoinsCache.ReadsAgree` | src/coins.cpp:115-203 | what a read at the top returns is what the plain map of the top holds |
| `CoinsCache.RunRefines` | src/coins.cpp:115-1013 | every run of reads at any depth, modifications, flushes and new caches shows, at every level, what plain maps hold, if ModifyNewCoins is used only where its documentation allows |
| `CoinsCache.DbAgrees` | src/txdb.cpp:97-103 | a database shows the plain map of its unpruned coins |
| `CoinsCache.RunFromDb` | src/coins.cpp:115-1013 | so every run from any database shows what plain maps hold |
| `CoinsCache.RunHeld` | src/coins.cpp:115-1013 | what holds of the coins that modifications leave holds, in every run and at every level, of all coins that are held |
| `CoinsCache.CoinsDb.BatchWrite` | src/txdb.cpp:221-262 | the database after a batch: dirty entries written, pruned ones erased, the rest untouched |
| `CoinsCache.CoinsViewCache.OverDb` | src/coins.cpp:98 | an empty cache over a database |
| `CoinsCache.CoinsViewCache.OverCache` | src/coins.cpp:98 | an empty cache over another cache |
| `CoinsCache.CoinsViewCache.FetchCoins` | src/coins.cpp:115-131 | the recursive fetch in the whole stack of objects equals Fetch on values |
| `CoinsCache.CoinsViewCache.GetNullifier` | src/coins.cpp:180-203 | the recursive lookup in the whole stack of objects equals FetchNullifier on values |
| `CoinsCache.CoinsViewCache.ModifyCoins` | src/coins.cpp:645-664 | opening an entry for modification, with the flags of the source |
| `CoinsCache.CoinsViewCache.ModifyNewCoins` | src/coins.cpp:666-673 | opening a cleared entry that is assumed not to exist below |
| `CoinsCache.CoinsViewCache.EndModify` | src/coins.cpp:1001-1013 | the modifier's destructor |
| `CoinsCache.CoinsViewCache.BatchWriteCoins` | src/coins.cpp:815-848 | merging a child's entries, one by one |
| `CoinsCache.CoinsViewCache.BatchWriteNullifiers` | src/coins.cpp:721-741 | merging a child's nullifiers, one by one |
| `CoinsCache.CoinsViewCache.BatchWrite` | src/coins.cpp:805-862 | both merges, as specified |
| `CoinsCache.CoinsViewCache.FlushAll` | src/coins.cpp:864-882 | Flush into a cache or the database below |
| `Anchors.GetCorrect` | src/coins.cpp:134-178 | reading an anchor gives what the view shows, changes what no level shows and keeps the invariant |
| `Anchors.PushCorrect` | src/coins.cpp:231-262 | pushing an anchor makes it known and changes nothing else |
| `Anchors.PopCorrect` | src/coins.cpp:566-596 | popping any known anchor, the empty one included, takes it away and changes nothing else |
| `Anchors.FlushCorrect` | src/coins.cpp:743-774 | Flush leaves an empty cache, changes nothing further below, and gives the view below the anchors that the flushed cache showed, but for a popped empty root |
| `Anchors.FlushIff` | src/txdb.cpp:57-79 | Flush changes nothing that is seen if and only if it does not take the empty root from the database |
| `Anchors.EmptyComesBack` | src/txdb.cpp:57-79 | a popped empty root is known again after the flush |
| `Anchors.StepRefines` | src/coins.cpp:134-774 | one step of the stack is one step of plain sets of roots, and keeps the invariant |
| `Anchors.RunRefines` | src/coins.cpp:134-774 | every run of reads, pushes, pops, flushes and new caches shows, at every level, the roots that plain sets hold |
| `Anchors.DbAgrees` | src/txdb.cpp:57-79 | a database shows its own roots and the empty one |
| `Anchors.LookIsTree` | src/txdb.cpp:57-79 | a view answers with the tree of the root or not at all, and a database always for the empty tree |
| `BestHash.GetIsLook` | src/coins.cpp:693-715 | asking for the best block or best anchor gives what the view shows and changes what no level shows |
| `BestHash.FlushIff` | src/coins.cpp:858-860 | Flush hands the best hash on if and only if the cache has been asked or told, is over the database, or the cache below has none of its own or the one that the view below it shows |
| `BestHash.AskedIsSafe` | src/coins.cpp:693-715 | asking first makes the flush right |
| `BestHash.SetIsSafe` | src/coins.cpp:717-719 | so does setting the hash |
| `BestHash.ForgottenHash` | src/coins.cpp:858-860 | a cache that was neither asked nor told makes the cache below forget its hash |
| `BestHash.StepRefines` | src/coins.cpp:693-882 | one step of the stack, with a safe flush, is one step of a plain list of hashes |
| `BestHash.RunRefines` | src/coins.cpp:693-882 | every run whose flushes are safe answers, at every level, what a plain list of hashes holds |
| `AddrMan.SizeIsSum` | src/addrman.cpp:402-403 | the size test of Check_ follows from the rest of the invariant |
| `AddrMan.CreateKeeps` | src/addrman.cpp:87-97 | creating an entry keeps all indexes |
| `AddrMan.SwapKeeps` | src/addrman.cpp:99-117 | swapping two positions keeps all indexes and reorders only |
| `AddrMan.DeleteKeeps` | src/addrman.cpp:119-131 | deleting an unreferenced entry keeps all indexes and removes only it |
| `AddrMan.ClearNewKeeps` | src/addrman.cpp:133-146 | clearing a slot drops one reference, and the entry with its last one |
| `AddrMan.ClearNewExact` | src/addrman.cpp:133-146 | exactly that slot is freed, and its holder is forgotten exactly if that was its last reference |
| `AddrMan.UnlinkedEverywhere` | src/addrman.cpp:150-160 | after the loop over buckets an entry has no reference left, as the source asserts |
| `AddrMan.UnlinkedTable` | src/addrman.cpp:151-160 | the loop takes the entry out of the new table and changes no other slot |
| `AddrMan.EvictKeeps` | src/addrman.cpp:166-188 | the displaced tried entry returns to the new table with exactly one reference |
| `AddrMan.EvictExact` | src/addrman.cpp:168-187 | the displaced entry takes the slot that its own source selects, and only what had its last reference there is forgotten |
| `AddrMan.MakeTriedKeeps` | src/addrman.cpp:148-194 | the entry becomes tried; no tried entry is lost and only the one in its slot stops being tried |
| `AddrMan.MakeTriedExact` | src/addrman.cpp:148-195 | what both tables hold afterwards, slot by slot, which entry is forgotten, and that all statistics stay |
| `AddrMan.GoodCorrect` | src/addrman.cpp:196-243 | Good_ makes a known service tried, and keeps everything else in the manager but at most one displaced entry |
| `AddrMan.GoodExact` | src/addrman.cpp:197-243 | success, try and attempts of the very service are recorded, nobody else's statistics change, and both tables are those of MakeTriedExact |
| `AddrMan.UntriedHasBucket` | src/addrman.cpp:223-238 | the bail-out for an entry in no bucket is unreachable |
| `AddrMan.InsertKeeps` | src/addrman.cpp:289-309 | entering a bucket settles the entry's references and loses at most one entry, and no tried one |
| `AddrMan.InsertExact` | src/addrman.cpp:287-309 | the entry takes the slot if it may, is forgotten if it may not and has no reference, and only a last reference in that slot costs another entry its place |
| `AddrMan.AddCorrect` | src/addrman.cpp:245-311 | Add_ answers true exactly for a routable address it did not know, and never touches the tried table |
| `AddrMan.AddKeepsIff` | src/addrman.cpp:283-310 | a new address is known after Add_ if and only if its slot is free or its holder is terrible or has another reference; Add_ answers true either way |
| `AddrMan.AddNewExact` | src/addrman.cpp:282-309 | a new entry that stays has the announced time less the penalty; which entry is forgotten for it |
| `AddrMan.AddKnownExact` | src/addrman.cpp:252-309 | a known entry is refreshed and gets one more reference exactly if there is news of it, it is untried, has fewer than eight, the draw is zero, and the slot is free or held by a terrible entry |
| `AddrMan.RefreshedForward` | src/addrman.cpp:254-262 | the time of a known entry moves only beyond an hour or a day and the penalty, the announced services are added, and nothing else changes |
| `AddrMan.GoodStanding` | src/addrman.cpp:32-50 | an entry is in good standing exactly if it was tried within a minute, or was seen within 30 days and has not failed too often |
| `AddrMan.SlotsOf` | src/addrman.h:134-141 | the buckets and positions, with the sizes of the tables written out |
| `AddrMan.SecondIsDropped` | src/addrman.cpp:283-310 | of two new addresses with one slot the second is dropped at once although Add_ answers true, in a state that a run from empty reaches |
| `AddrMan.DroppedExample` | src/addrman.cpp:283-310 | two such addresses |
| `AddrMan.AttemptKeeps` | src/addrman.cpp:313-330 | Attempt_ keeps the invariant |
| `AddrMan.AttemptCounts` | src/addrman.cpp:313-330 | one attempt more and the time of the try, for the very service and nothing else |
| `AddrMan.ConnectedKeeps` | src/addrman.cpp:495-513 | Connected_ keeps the invariant |
| `AddrMan.ConnectedUpdates` | src/addrman.cpp:495-513 | the time of the very service moves if it is more than twenty minutes old, and nothing else |
| `AddrMan.SampleCorrect` | src/addrman.cpp:474-493 | distinct known addresses in good standing, at most 23 percent of all entries and at most 2500; all of them, or 2500, or as many as the 23 percent allow |
| `AddrMan.SampleCounts` | src/addrman.cpp:474-493 | the sample takes every entry in good standing unless it is full before |
| `AddrMan.StepKeeps` | src/addrman.cpp:87-513 | every operation keeps the invariant of Check_ |
| `AddrMan.EmptyInv` | src/addrman.h:440-458 | the cleared manager satisfies the invariant |
| `AddrMan.RunKeeps` | src/addrman.cpp:87-513 | from an empty manager every sequence of operations, for any hashes, times and random choices, runs to its end and keeps the invariant |
| `AddrManager.Manager.constructor` | src/addrman.h:440-458 | the tables start with every slot free |
| `AddrManager.Manager.FindId` | src/addrman.cpp:74-85 | finds the id and only the id under which an address is known |
| `AddrManager.Manager.CreateEntry` | src/addrman.cpp:87-97 | Create in place equals Create on values |
| `AddrManager.Manager.Swap` | src/addrman.cpp:99-117 | SwapRandom in place |
| `AddrManager.Manager.DeleteEntry` | src/addrman.cpp:119-131 | Delete in place |
| `AddrManager.Manager.ClearSlot` | src/addrman.cpp:133-146 | ClearNew in place |
| `AddrManager.Manager.LeaveNew` | src/addrman.cpp:150-161 | the loop over buckets of MakeTried in place |
| `AddrManager.Manager.EvictFrom` | src/addrman.cpp:166-188 | making room in a tried slot, in place |
| `AddrManager.Manager.MoveToTried` | src/addrman.cpp:148-194 | MakeTried in place |
| `AddrManager.Manager.SearchBuckets` | src/addrman.cpp:223-232 | the search from a random bucket finds a bucket for every untried entry |
| `AddrManager.SearchSucceeds` | src/addrman.cpp:223-232 | wherever the search starts, it comes past a bucket that holds the entry |
| `AddrManager.Manager.MarkGood` | src/addrman.cpp:196-243 | Good_ in place |
| `AddrManager.Manager.RefreshEntry` | src/addrman.cpp:254-281 | updating a known entry and deciding whether to try one more bucket |
| `AddrManager.Manager.InsertEntry` | src/addrman.cpp:289-309 | entering a bucket in place |
| `AddrManager.Manager.AddAddress` | src/addrman.cpp:245-311 | Add_ in place, and that a new address is known afterwards exactly if its slot makes room |
| `AddrManager.Manager.MarkAttempt` | src/addrman.cpp:313-330 | Attempt_ in place |
| `AddrManager.Manager.MarkConnected` | src/addrman.cpp:495-513 | Connected_ in place |
| `AddrManager.Manager.ShuffleOnce` | src/addrman.cpp:481-492 | one pass of the shuffle |
| `AddrManager.Manager.GetAddr` | src/addrman.cpp:474-493 | GetAddr_ in place, with the bounds of 23 percent and 2500 and the completeness of SampleCorrect |
| `PartialMerkle.WidthIff` | src/merkleblock.h:66-68 | the width formula says which nodes exist |
| `PartialMerkle.CalcHeight` | src/merkleblock.cpp:139-142 | the height loop finds the first height with one node |
| `PartialMerkle.HeightIsLeast` | src/merkleblock.cpp:139-142 | the height is the least h with at most 2^h transactions |
| `PartialMerkle.BuildSizes` | src/merkleblock.cpp:80-96 | no more hashes than leaves, and a bit for each hash |
| `PartialMerkle.BuildHashes` | src/merkleblock.cpp:80-96 | at most 1 + matched*height hashes |
| `PartialMerkle.BuildBits` | src/merkleblock.h:47 | 2*N - 1 bits for N hashes, and exactly one more for each visited node with one child |
| `PartialMerkle.FewSingles` | src/merkleblock.h:47 | such nodes are on the right edge only, at most one at each height |
| `PartialMerkle.SinglesIff` | src/merkleblock.h:47 | such a node is visited exactly if some match is at or after the first leaf of the highest of them, which depends on the number of transactions alone |
| `PartialMerkle.BitsBound` | src/merkleblock.h:47 | at most 2*N - 1 bits and the height, and within 2*N - 1 if and only if nothing is matched from that leaf on |
| `PartialMerkle.FiveBits` | src/merkleblock.h:47 | five transactions with the last matched take five bits for two hashes |
| `PartialMerkle.SizeIff` | src/merkleblock.h:31-48 | the encoding has at most 10 + 32*N + (2*N + 6 + height)/8 bytes; it is within the documented 10 + ceil(32.25*N) if and only if there are less than 253 flag bytes or the extra bits fit into the last of them, and so whenever nothing is matched from that leaf on |
| `PartialMerkle.SizeExceeded` | src/merkleblock.h:31-35 | 2^k + 1 transactions that all match, from 1025 on, are beyond the documented size |
| `PartialMerkle.SubtreeSound` | src/merkleblock.cpp:98-132 | a subtree extracted with its true hash yields transactions of that subtree, in order |
| `PartialMerkle.Soundness` | src/merkleblock.cpp:150-181 | for any bits and hashes, the true root comes only with transactions at strictly increasing positions of the block |
| `PartialMerkle.EqualHashEqualLeaf` | src/merkleblock.cpp:63-78 | equal hashes at one height have equal first leaves |
| `PartialMerkle.SiblingsDiffer` | src/merkleblock.cpp:118-125 | in a block without duplicates the two children of a node never have the same hash, so the check against duplicates never fires |
| `PartialMerkle.SameChildren` | src/merkleblock.cpp:118-125 | in a block without duplicates different children hash to a node's hash exactly if it has two |
| `PartialMerkle.ClaimedSubtreeSound` | src/merkleblock.cpp:98-132 | for any claimed number of transactions, a subtree extracted with its true hash yields transactions of that subtree, in order, thanks to the check against identical branches |
| `PartialMerkle.ClaimedSoundness` | src/merkleblock.cpp:98-181 | for any bits, hashes and claimed number of transactions that makes a tree as high, the true root of a block without duplicates comes only with transactions at strictly increasing positions of the block |
| `PartialMerkle.NothingToSpare` | src/merkleblock.cpp:150-181 | only 1 to 33333 transactions, no more hashes than transactions or bits, and an accepted proof is rejected once a hash or eight bits are appended |
| `PartialMerkle.ExtractBuilt` | src/merkleblock.cpp:80-132 | extracting at a cursor undoes building |
| `PartialMerkle.RoundTrip` | src/merkleblock.cpp:80-181 | building, padding to whole bytes and extracting gives the root and exactly the matched ids in order, within the stated bounds on hashes |
| `PartialMerkle.PackBits` | src/merkleblock.h:100-102 | the bytes unpack to the bits followed by fewer than eight zeros |
| `PartialMerkle.MaskIsShift` | src/merkleblock.h:95-102 | bit k of a byte is 1 shifted by k |
| `PartialMerkle.UnpackBits` | src/merkleblock.h:95-97 | bytes into bits |
| `PartialMerkle.PartialMerkleTree.FromBlock` | src/merkleblock.cpp:134-146 | the constructor builds the proof of the specification |
| `PartialMerkle.PartialMerkleTree.FromBytes` | src/merkleblock.h:88-98 | a proof read from the network |
| `PartialMerkle.PartialMerkleTree.IsParentOfMatch` | src/merkleblock.cpp:81-84 | whether a node is above a match |
| `PartialMerkle.PartialMerkleTree.TraverseAndBuild` | src/merkleblock.cpp:80-96 | appends exactly the bits and hashes of the subtree |
| `PartialMerkle.PartialMerkleTree.TraverseAndExtract` | src/merkleblock.cpp:98-132 | advances the counters and collects matches exactly as the function of ClaimedSubtreeSound does |
| `PartialMerkle.PartialMerkleTree.Matches` | src/merkleblock.cpp:150-181 | ExtractMatches, of which ClaimedSoundness and NothingToSpare speak, with all its rejections, that of a tree that is bad already included |
| `MempoolLimit.From` | src/mempool_limit.cpp:148-157 | the cost is the memory used but at least 4000, and the eviction weight exceeds it by 16000 exactly for fees below 10000 |
| `MempoolLimit.BackPropagateAt` | src/mempool_limit.cpp:50-56 | exactly the strict ancestors change, by the delta |
| `MempoolLimit.WeightIsSubtree` | src/mempool_limit.cpp:45-48 | getWeightAt is the weight of the whole subtree |
| `MempoolLimit.AddKeeps` | src/mempool_limit.cpp:80-91 | add keeps sums and index exact |
| `MempoolLimit.RemoveKeeps` | src/mempool_limit.cpp:93-119 | remove keeps sums and index exact, although the last node fills the hole |
| `MempoolLimit.AddContents` | src/mempool_limit.cpp:80-91 | add changes the contents by the new transaction only, and nothing if it is known |
| `MempoolLimit.RemoveContents` | src/mempool_limit.cpp:93-119 | remove takes out exactly one transaction |
| `MempoolLimit.TotalIsSum` | src/mempool_limit.cpp:74-77 | the total weight is the sum over everything held |
| `MempoolLimit.FindBounds` | src/mempool_limit.cpp:58-72 | at a node with weight, left subtree and node come before the right subtree and within the whole |
| `MempoolLimit.FindAbove` | src/mempool_limit.cpp:58-72 | the weighted choice lies in the subtree it is made in |
| `MempoolLimit.FindInterval` | src/mempool_limit.cpp:58-72 | a node is the weighted choice exactly for an interval as long as its own eviction weight |
| `MempoolLimit.SelectionIsWeighted` | src/mempool_limit.cpp:121-134 | every transaction is the weighted choice for exactly evictionWeight many numbers below the total |
| `MempoolLimit.IntFindIsSearch` | src/mempool_limit.cpp:58-72 | for every tree and number, where the search with int locals ends, or that it never ends |
| `MempoolLimit.SearchIsExactIff` | src/mempool_limit.cpp:58-72 | the search ends at the weighted choice for every number below the total if and only if every node's left subtree and the node together fit an int |
| `MempoolLimit.ChoosesByWeightIff` | src/mempool_limit.cpp:121-134 | with the random number an int as well, every number leads to its weighted choice if and only if the total is at most 2^31 and the root's left subtree and the root fit an int |
| `MempoolLimit.HangingTree` | src/mempool_limit.cpp:58-72 | with one transaction of eviction weight 2^31 no search ever ends |
| `MempoolLimit.DropRandomCorrect` | src/mempool_limit.cpp:121-134 | what maybeDropRandom is meant to do: nothing within the limit; over it one held transaction, by weight, goes |
| `MempoolLimit.DropIntCorrect` | src/mempool_limit.cpp:121-134 | with int locals, whatever the tree: nothing within the limit; over it exactly one held transaction is dropped or the search does not return |
| `MempoolLimit.DropIntIsDropRandom` | src/mempool_limit.cpp:121-134 | where the totals fit, maybeDropRandom returns and does what it is meant to do |
| `MempoolLimit.AddTotal` | src/mempool_limit.cpp:80-91 | adding adds exactly the new weight to the total |
| `MempoolLimit.RemoveTotal` | src/mempool_limit.cpp:93-119 | removing takes exactly the removed weight off the total |
| `MempoolLimit.ConfiguredIsSafe` | src/main.cpp:1580-1592 | in every run of the mempool every choice is by weight, if five times the cost limit and one transaction fit an int |
| `MempoolLimit.DefaultIsSafe` | src/mempool_limit.h:16-21 | as they do with the default limit and transactions of up to 349 megabytes |
| `MempoolLimit.ManySmall` | src/mempool_limit.cpp:148-157 | a run that fills the tree with any number of small transactions below the usual fee, within the limit |
| `MempoolLimit.LargeLimitFails` | src/mempool_limit.cpp:121-134 | with a limit of 429500000 such a run ends where the choice is not by weight |
| `MempoolLimit.RunKeeps` | src/mempool_limit.cpp:45-134 | after any sequence of operations on an empty tree, wrong choices included, sums and index are exact |
| `MempoolLimit.LimitedOnlyOver` | src/txmempool.cpp:840-849 | before each eviction the cost exceeds the limit and the transaction is held; at the end it does not, or the search does not return |
| `MempoolLimit.LimitedShrinks` | src/txmempool.cpp:840-849 | where the totals fit, what is left was there before, what is evicted was there and is gone, and the end is within the limit |
| `MempoolLimit.WeightedTxTree.constructor` | src/mempool_limit.h:114-116 | the empty tree |
| `MempoolLimit.WeightedTxTree.Propagate` | src/mempool_limit.cpp:50-56 | the loop to the root |
| `MempoolLimit.WeightedTxTree.AddTx` | src/mempool_limit.cpp:80-91 | add in place |
| `MempoolLimit.WeightedTxTree.MoveLast` | src/mempool_limit.cpp:109-114 | the last entry fills the hole |
| `MempoolLimit.WeightedTxTree.RemoveTx` | src/mempool_limit.cpp:93-119 | remove in place |
| `MempoolLimit.WeightedTxTree.FindByEvictionWeight` | src/mempool_limit.cpp:58-72 | the recursion ends where IntFind says, and returns nothing exactly where the source does not return |
| `MempoolLimit.WeightedTxTree.MaybeDropRandom` | src/mempool_limit.cpp:121-134 | maybeDropRandom for any tree and random number, and the weighted choice wherever the totals fit |
| `MempoolLimit.WeightedTxTree.RemoveTogether` | src/txmempool.cpp:840-849 | the descendants of an evicted transaction are removed one by one |
| `MempoolLimit.WeightedTxTree.DropTogether` | src/txmempool.cpp:840-849 | one pass of the loop, for any tree |
| `MempoolLimit.WeightedTxTree.EnsureSizeLimit` | src/txmempool.cpp:840-849 | the loop computes exactly Limited, of which LimitedOnlyOver and LimitedShrinks speak, and ends within the limit wherever the totals fit |
| `BaseUint.Uint.Add` | src/arith_uint256.h:135-145 | addition modulo 2^(32*WIDTH); the 64-bit accumulator does not overflow |
| `BaseUint.Uint.Complement` | src/arith_uint256.h:69-75 | the complement is the modulus less one less the value |
| `BaseUint.Uint.Negate` | src/arith_uint256.h:77-84 | negation modulo 2^(32*WIDTH) |
| `BaseUint.Uint.Subtract` | src/arith_uint256.h:147-151 | subtraction modulo 2^(32*WIDTH) |
| `BaseUint.Uint.Increment` | src/arith_uint256.h:173-180 | increment modulo 2^(32*WIDTH) |
| `BaseUint.Uint.Decrement` | src/arith_uint256.h:190-197 | decrement modulo 2^(32*WIDTH) |
| `BaseUint.Uint.MultiplySmall` | src/arith_uint256.cpp:56-65 | product with a 32-bit factor modulo 2^(32*WIDTH) |
| `BaseUint.Uint.MultiplyRow` | src/arith_uint256.cpp:72-78 | one row of the product; the 64-bit accumulator does not overflow |
| `BaseUint.Uint.Multiply` | src/arith_uint256.cpp:68-81 | product modulo 2^(32*WIDTH), and zero when the factor is the number itself |
| `BaseUint.Uint.LeftLimb` | src/arith_uint256.cpp:29-34 | one limb of the left shift |
| `BaseUint.Uint.ShiftLeft` | src/arith_uint256.cpp:22-36 | left shift by any number of bits |
| `BaseUint.Uint.RightLimb` | src/arith_uint256.cpp:46-51 | one limb of the right shift |
| `BaseUint.Uint.ShiftRight` | src/arith_uint256.cpp:39-53 | right shift by any number of bits |
| `BaseUint.Uint.Divide` | src/arith_uint256.cpp:84-107 | the floor quotient for every nonzero divisor; an error for zero |
| `BaseUint.Uint.DivideAligned` | src/arith_uint256.cpp:96-105 | the shift-and-subtract loop |
| `BaseUint.Uint.SetBit` | src/arith_uint256.cpp:100 | setting one bit of the quotient |
| `BaseUint.Uint.CompareTo` | src/arith_uint256.cpp:110-119 | the sign of the difference |
| `BaseUint.Uint.Bits` | src/arith_uint256.cpp:172-185 | the bit length |
| `BaseUint.LimbBits` | src/arith_uint256.cpp:176-181 | the bit length of a limb |
| `Compact.OverflowIsExact` | src/arith_uint256.cpp:218-221 | the overflow flag holds exactly if the number written is at least 2^256 |
| `Compact.EncodedIsCanonical` | src/arith_uint256.cpp:225-246 | the encoder produces the smallest size whose mantissa leaves the sign bit clear |
| `Compact.MantissaRange` | src/arith_uint256.cpp:235-242 | a mantissa has at most 23 bits, and at least 16 beyond three bytes |
| `Compact.RoundTrip` | src/arith_uint256.cpp:205-246 | encoding and decoding raises no overflow, gives the sign asked for, and rounds down by less than one part in 2^15 |
| `Compact.Idempotent` | src/arith_uint256.cpp:205-246 | the rounded number has the same encoding |
| `Compact.ZeroEncoded` | src/arith_uint256.cpp:225-246 | zero, and only zero, is encoded as zero |
| `Compact.ZeroWritten` | src/arith_uint256.cpp:216-221 | a word that writes zero raises no flag |
| `Compact.DecodedBelowMax` | src/arith_uint256.cpp:205-223 | no decoded target is the largest 256-bit number |
| `Compact.SetCompact` | src/arith_uint256.cpp:205-223 | SetCompact on limbs decodes as specified, flags included |
| `Compact.GetCompact` | src/arith_uint256.cpp:225-246 | GetCompact on limbs encodes as specified |
| `Compact.Pack` | src/arith_uint256.cpp:235-245 | the fields put together; both assertions hold |
| `Pow.WindowFits` | src/chainparams.cpp:98-100 | the assertion beside the parameters makes a window of targets fit 256 bits |
| `Pow.NetworkIsWellFormed` | src/chainparams.cpp:98-104 | the parameters of the main network, and of the test network, satisfy what retargeting needs |
| `Pow.RegtestIsWellFormed` | src/chainparams.cpp:464-470 | so do those of the regression-test network, whose limit is exactly (2^256-1)/17 |
| `Pow.SpansFit` | src/consensus/params.cpp:65-84 | the derived timespans are ordered, positive and fit the 32-bit factor |
| `Pow.TimespanIsDamped` | src/pow.cpp:71-81 | the timespan of every retarget differs from the expected one by a quarter of what the actual one does, rounded toward the expected one, unless it meets a limit |
| `Pow.TargetsIsTotal` | src/pow.cpp:41-49 | the walk back sums the targets of the last blocks of the chain |
| `Pow.RequiredIs` | src/pow.cpp:19-94 | the required target satisfies the rules stated by inequalities on the chain: special rule, window average, timespans, damping, scaling and limit |
| `Pow.RequiredUnique` | src/pow.cpp:19-94 | and the rules leave no choice, so nothing else does |
| `Pow.ProductFits` | src/pow.cpp:86-87 | the retarget product stays below 2^256 |
| `Pow.AverageBound` | src/pow.cpp:42-55 | the sum of a window of targets fits 256 bits and its average is at most the limit |
| `Pow.EncodedOk` | src/pow.cpp:89-93 | an encoded target at most the limit decodes, without a flag, to at most the limit |
| `Pow.RunTargetsOk` | src/pow.cpp:19-94 | along every chain with the required targets, for any block times, every target decodes to at most the limit |
| `Pow.ZeroTargetIff` | src/pow.cpp:85-91 | the retarget is zero exactly if the average is below the averaging timespan or the limited timespan is zero |
| `Pow.RequiredZeroIff` | src/pow.cpp:19-94 | the target required after a chain is zero if and only if there is a retarget, and the window's average is below the averaging timespan or the limited timespan is zero |
| `Pow.ZeroIffLowAverage` | src/pow.cpp:19-94 | where the least timespan is positive, a low average is the only cause |
| `Pow.NetworkSpansPositive` | src/chainparams.cpp:98-104 | so it is on all three networks |
| `Pow.LowTargetsGiveZero` | src/pow.cpp:41-93 | after targets that are all below the averaging timespan the next one is zero, and its encoding writes zero |
| `Pow.LowTargetsExample` | src/pow.cpp:41-93 | a chain of eighteen such blocks |
| `Pow.NextAtMost` | src/pow.cpp:63-94 | while blocks come at the least timespan, each required target is at most 84 percent of the largest in the window |
| `Pow.ZeroIsReached` | src/pow.cpp:19-94 | on the main and test networks some chain, every block of which has its required target, is followed by the target zero |
| `Pow.StepIsLimited` | src/pow.cpp:76-91 | one step raises the average by at most the allowed percentage, and lowers it by no more than allowed up to the rounding of the quotient, unless it meets the limit |
| `Pow.CalculateNextWorkRequired` | src/pow.cpp:63-94 | the 256-bit computation equals the same formula over unbounded numbers, with a timespan damped as IsDamped says |
| `Pow.Scaled` | src/pow.cpp:85-87 | quotient and product without wrap |
| `Pow.GetNextWorkRequired` | src/pow.cpp:19-61 | the encoded target satisfies the rules of RequiredIs, which leave no choice, special rule and short chains included, and decodes to at most the limit |
| `Pow.WindowTotal` | src/pow.cpp:42-49 | the walk back over the window sums exactly its targets |
| `Pow.CheckProofOfWork` | src/pow.cpp:134-151 | accepted exactly if the number written is positive, at most the limit and at least the hash |
| `Pow.GetBlockProof` | src/pow.cpp:153-166 | the work is 2^256/(target+1) rounded down for every valid target, else zero |
| `Gf32.AddMulLinear` | src/bech32.cpp:50-56 | multiplication in GF(32) by a constant, with addition, is linear |
| `Gf32.NextLinear` | src/bech32.cpp:66-78 | multiplying a remainder by x and adding a value is linear |
| `Gf32.NextInjective` | src/bech32.cpp:44-48 | the generator does not vanish at zero, so no remainder but zero becomes zero |
| `Gf32.RemInjective` | src/bech32.cpp:60-78 | appending the same values keeps different remainders apart |
| `Gf32.BurstDetected` | src/bech32.cpp:44-48 | strings that agree outside a window of six symbols have the same remainder only if equal |
| `Bch.NoShortPeriod` | src/bech32.cpp:44-49 | multiplication by y in GF(1024) has no shorter period than 1023 on any nonzero element |
| `Bch.ThreeTerms` | src/bech32.cpp:44-49 | three error terms at different positions that vanish at three consecutive powers are all zero |
| `Bch.Root` | src/bech32.cpp:44-49 | where the generator vanishes for the leading coefficient 1, it vanishes for every leading coefficient |
| `Bch.Root24` | src/bech32.cpp:44-49 | the generator vanishes at y^24 |
| `Bch.Root25` | src/bech32.cpp:44-49 | the generator vanishes at y^25 |
| `Bch.Root26` | src/bech32.cpp:44-49 | the generator vanishes at y^26 |
| `Bch.EvRem` | src/bech32.cpp:59-78 | taking the remainder does not change the value at a root |
| `Bch.ThreeErrors` | src/bech32.cpp:44-49 | strings that differ in at most three places within 1023 symbols have the same remainder only if equal |
| `Bech32.Constants` | src/bech32.cpp:86-91 | the five constants are the generator's remainder times 1, a, a^2, a^3 and a^4 |
| `Bech32.RepStep` | src/bech32.cpp:66-91 | one pass of PolyMod multiplies the remainder by x and adds the value |
| `Bech32.PolyMod` | src/bech32.cpp:37-94 | the loop computes the register that FoldRep ties to the remainder |
| `Bech32.StepInPlace` | src/bech32.cpp:81-91 | the loop body on the register |
| `Bech32.ExpandHRP` | src/bech32.cpp:103-115 | high bits, a zero, low bits |
| `Bech32.VerifiedIff` | src/bech32.cpp:118-125 | VerifyChecksum holds exactly if the remainder is one |
| `Bech32.VerifyChecksum` | src/bech32.cpp:118-125 | the method decides Verified, which VerifiedIff and ChecksumIff characterise |
| `Bech32.CreateChecksum` | src/bech32.cpp:128-139 | the method computes the one checksum that ChecksumIff shows to be accepted |
| `Bech32.ChecksumIff` | src/bech32.cpp:118-139 | for every prefix and values exactly one checksum is accepted, the one created |
| `Bech32.BurstRejected` | src/bech32.cpp:118-125 | two accepted value strings with one prefix that differ only in a window of six are equal |
| `Bech32.CharThenValue` | src/bech32.cpp:13-25 | every value has its own lower-case character, which is not the separator |
| `Bech32.LowCharset` | src/bech32.cpp:13 | the characters of the values 0 to 15 are those written there |
| `Bech32.HighCharset` | src/bech32.cpp:13 | so are those of the values 16 to 31 |
| `Bech32.ValueThenChar` | src/bech32.cpp:13-25 | every character with a value is that value's character up to case |
| `Bech32.DecodeEncode` | src/bech32.cpp:147-192 | Decode inverts Encode exactly for non-empty printable prefixes without capitals, five-bit values and at most 1023 characters |
| `Bech32.EncodeDecode` | src/bech32.cpp:147-192 | Encode of what a string decodes to is its lower-case form |
| `Bech32.DecodedIff` | src/bech32.cpp:162-192 | a string decodes to a prefix and values if and only if it is not of mixed case, its lower-case form is their encoding, and the format takes them: a printable prefix without capitals, five-bit values, at most 1023 characters |
| `Bech32.LowerCaseIs` | src/bech32.cpp:97-100 | capitals become their small letters and all else stays |
| `Bech32.DecodedLower` | src/bech32.cpp:162-192 | but for mixed case, capitals do not matter |
| `Bech32.SubstitutionRejected` | src/bech32.cpp:162-192 | replacing data characters of an accepted string by other data characters within a window of six never gives another accepted string |
| `Bech32.ThreeErrorsRejected` | src/bech32.cpp:44-49 | nor does replacing up to three data characters by other data characters, wherever they are |
| `Bech32.ThreeSymbolsRejected` | src/bech32.cpp:44-49 | two accepted pairs of prefix and values whose expansions differ in at most three symbols within 1023 are equal |
| `Bech32.PrefixErrorRejected` | src/bech32.cpp:103-115 | one wrong character in the human-readable part, which is two symbols, never gives another accepted string |
| `Bech32.PrefixAndDataRejected` | src/bech32.cpp:103-125 | nor do one wrong character there and one in the data, within 1023 symbols |
| `Bech32.Encode` | src/bech32.cpp:147-159 | the method computes Encoded, the empty string for a value out of range included |
| `Bech32.CheckCharacters` | src/bech32.cpp:163-170 | printable and not of mixed case |
| `Bech32.ReadValues` | src/bech32.cpp:175-183 | the values of the data part, or failure |
| `Bech32.Decode` | src/bech32.cpp:162-192 | the method computes Decoded, with every rejection of the source |
| `Base58.BufferSuffices` | src/base58.cpp:28-71 | a linear estimate of the digits suffices for every length if it does for one block |
| `Base58.BytesToDigits` | src/base58.cpp:71 | 256^50 <= 58^69, behind the factor 138/100 |
| `Base58.DigitsToBytes` | src/base58.cpp:28 | 58^1000 <= 256^733, behind the factor 733/1000 |
| `Base58.ConvertBack` | src/base58.cpp:16-95 | changing the base and back, with leading zeroes, is the identity |
| `Base58.MulAdd` | src/base58.cpp:36-42 | the inner loop multiplies and adds in place, and its carry is zero whenever the number fits |
| `Base58.DecodeEncode` | src/base58.cpp:16-95 | Decode inverts Encode on every byte string |
| `Base58.DecodedIff` | src/base58.cpp:16-56 | a string is accepted as some bytes if and only if it is their encoding with any white space around it |
| `Base58.AlphabetIs` | src/base58.cpp:14 | the digits are the characters of the alphabet in its order |
| `Base58.SpacesAre` | src/base58.cpp:19-20 | white space is that of isspace |
| `Base58.EncodeDecode` | src/base58.cpp:16-95 | Encode inverts Decode on every accepted string, up to spaces around it |
| `Base58.BodyOfPlain` | src/base58.cpp:18-20 | a string without spaces is its own body |
| `Base58.ToBase58` | src/base58.cpp:70-83 | the buffer holds the number after every byte; the carry assertion never fails |
| `Base58.SkipZeroes` | src/base58.cpp:84-87 | what follows the leading zeroes are the digits of the number |
| `Base58.EncodeBase58` | src/base58.cpp:62-95 | the method computes Encoded: the base is changed and leading zeroes are kept |
| `Base58.ToBase256` | src/base58.cpp:27-44 | the buffer holds the number after every character; the carry assertion never fails |
| `Base58.DecodeBase58` | src/base58.cpp:16-60 | the method computes Decoded, with every rejection of the source |
| `HistoryTree.Halves` | src/coins.cpp:302-316 | the positions computed for the children are the roots of the two halves |
| `HistoryTree.FitsIff` | src/coins.cpp:387-406 | a perfect tree of some altitude fits at the next free position exactly if it is the next peak |
| `HistoryTree.PeaksUnique` | src/coins.cpp:349-406 | a length has at most one list of peaks |
| `HistoryTree.PeaksExist` | src/coins.cpp:349-406 | every number of leaves has a list of peaks |
| `HistoryTree.TotalFromLeaves` | src/coins.cpp:349-406 | the stored nodes are twice the leaves less the peaks |
| `HistoryTree.Tiled` | src/coins.cpp:349-406 | every position is under exactly one peak |
| `HistoryTree.FloorLog2` | src/coins.cpp:318-324 | the logarithm |
| `HistoryTree.Altitude` | src/coins.cpp:326-330 | the altitude of the first peak |
| `HistoryTree.DraftNode` | src/coins.cpp:302-316 | the entry linked to the roots of its own halves |
| `HistoryTree.CollectPeaks` | src/coins.cpp:343-408 | exactly the peaks, left to right, and the last of them |
| `HistoryTree.CollectSlope` | src/coins.cpp:413-443 | both children of every node on the right slope |
| `HistoryTree.PreloadHistoryTree` | src/coins.cpp:332-446 | all of it, the empty tree and the single leaf included, reading only stored positions |
| `SkipList.SkipHeight` | src/chain.cpp:65-73 | a height below that of the block |
| `SkipList.InvertBelow` | src/chain.cpp:62 | clearing the lowest bit of what is 2^m below a multiple of 2^k, for m below k, goes on to 2^(m+1) below it |
| `SkipList.NextOfOdd` | src/chain.cpp:82-93 | from an odd height the skip is followed exactly if it does not lead too far |
| `SkipList.Near` | src/chain.cpp:75-99 | from a multiple of 2^k to anything within 2^k below it GetAncestor takes at most Bound(k) steps |
| `SkipList.StepsBound` | src/chain.cpp:75-99 | from any height below 2^k to any lower one it takes less than Bound(k-1), the one bits of the height and a correction Late together |
| `SkipList.StepsAreFew` | src/chain.cpp:67-72 | which is at most a quarter of k*k + 9*k |
| `SkipList.StepsFor18Bits` | src/chain.cpp:67-72 | at most 121 steps between any two of 2^18 blocks |
| `BlockChain.CBlockIndex.constructor` | src/chain.h:316-330 | a block on top of another one |
| `BlockChain.CBlockIndex.GetAncestor` | src/chain.cpp:75-99 | equals the plain walk over predecessors, terminates, its assertion holds, and where all skips are built it takes exactly the steps that StepsAreFew bounds |
| `BlockChain.CBlockIndex.BuildSkip` | src/chain.cpp:106-110 | sets a true ancestor and keeps the index sound |
| `BlockChain.ExtendTree` | src/chain.cpp:106-110 | a new block leaves the index sound |
| `BlockChain.AddToBlockIndex` | src/main.cpp:3617-3643 | a new block on top of a known one, with its skip built, keeps the index sound and all skips built |
| `BlockChain.CChain.ContainsIff` | src/chain.h:577-579 | a block is in the chain exactly if it is an ancestor of the tip |
| `BlockChain.CChain.SetTip` | src/chain.cpp:13-23 | the chain becomes exactly the path to the new tip, although the walk stops at the first common block |
| `BlockChain.CommonPath` | src/chain.cpp:19-22 | below a common block the old path is the new one |
| `BlockChain.CChain.FindFork` | src/chain.cpp:53-59 | the highest block of the chain among the ancestors of a block |
| `BlockChain.NextLocator` | src/chain.cpp:34-47 | each step leads to the next locator height |
| `BlockChain.CChain.StepBack` | src/chain.cpp:39-45 | through the chain or through the skips, the same ancestor |
| `BlockChain.CChain.GetLocator` | src/chain.cpp:25-51 | true ancestors at h-i for i up to 10 and h-9-2^(i-10) after, cut off at zero, ending at genesis |
| `Framing.ChunksDoNotMatter` | src/net.cpp:577-613 | feeding two chunks is feeding them joined |
| `Framing.NothingLost` | src/net.cpp:577-660 | unless rejected, every byte is in exactly one complete message or in the one under way, in order |
| `Framing.MessagesRecovered` | src/net.cpp:577-660 | a stream of well-formed messages is cut into exactly those messages |
| `Framing.SizeOfWritten` | src/protocol.h:47 | a length written least significant byte first is read as that length |
| `Framing.FieldOfSize` | src/protocol.h:47 | and every length field is that of the number it is read as |
| `Framing.MadeIsWellFormed` | src/net.cpp:2202-2216 | the header that a sender makes gives the length of its payload, and the message is well formed exactly if that is within 2 MiB |
| `Framing.SentIsReceived` | src/net.cpp:577-660 | whatever messages a sender makes, of up to 2 MiB each, are received as exactly those messages |
| `Framing.LongIsRejected` | src/net.cpp:595-601 | a longer one is rejected as soon as its header is complete |
| `Framing.RejectionHasCause` | src/net.cpp:595-601 | a rejection comes from a header, right after complete messages, whose length field, least significant byte first, is over 2 MiB |
| `Framing.ParseHeader` | src/net.cpp:615-644 | the header, in one piece or in parts |
| `Framing.ParseBody` | src/net.cpp:646-660 | the payload, in one piece or in parts |
| `Framing.CNetMessage.constructor` | src/net.h:220-226 | an empty message |
| `Framing.CNetMessage.readHeader` | src/net.cpp:615-644 | copies what the header still needs, and switches state or rejects |
| `Framing.CNetMessage.readData` | src/net.cpp:646-660 | appends to the payload, with at most 256 KiB of room ahead and never more than the message |
| `Framing.CNode.OpenMessage` | src/net.cpp:581-584 | a message to receive into, without a change of what has been received |
| `Framing.CNode.Absorb` | src/net.cpp:579-604 | one pass takes in at least one byte, as specified |
| `Framing.CNode.ReceiveMsgBytes` | src/net.cpp:577-613 | the whole chunk, as the byte-by-byte parser, and false exactly on rejection |
| `Compressor.VarIntRoundTrip` | src/serialize.h:359-388 | every number is read back and nothing beyond it |
| `Compressor.VarIntUnique` | src/serialize.h:319-341 | every number has exactly one encoding |
| `Compressor.WriteVarInt` | src/serialize.h:359-374 | the loop writes the encoding of VarIntRoundTrip, within its fixed buffer |
| `Compressor.ReadVarIntAt` | src/serialize.h:376-388 | the loop reads what VarIntRoundTrip and VarIntUnique speak of, cut to the width of its unsigned type, and fails at the end of input |
| `Compressor.AmountRoundTrip` | src/compressor.cpp:142-185 | compression of amounts is one-to-one and onto |
| `Compressor.AmountFits64` | src/compressor.cpp:142-185 | in 64 bits both round trips hold wherever the intermediate result fits, and so for every amount of money |
| `Compressor.CompressAmount` | src/compressor.cpp:142-159 | the loop computes the compressed amount of AmountRoundTrip modulo 2^64; the digit assertion holds |
| `Compressor.DecompressAmount` | src/compressor.cpp:161-185 | the loop computes the decompressed amount of AmountRoundTrip modulo 2^64 |
| `Compressor.SpecialRoundTrip` | src/compressor.cpp:12-129 | decompressing a special script gives it back |
| `Compressor.ScriptRoundTrip` | src/compressor.h:58-89 | a script is read back as itself, or as OP_RETURN if it is too long and has no special form |
| `Compressor.StorableIff` | src/compressor.h:81-88 | a script survives exactly if it is within the allowed size, special forms being short |
| `Compressor.StoredForms` | src/compressor.cpp:48-77 | the four special scripts are stored as the byte that says which and their hash or coordinate |
| `Compressor.OtherForm` | src/compressor.h:58-69 | a script of another length is stored after its length plus six |
| `CoinsCodec.MaskRoundTrip` | src/coins.h:170-208 | the mask reader stops after exactly the bytes written, because the last of them is not zero |
| `CoinsCodec.MaskBit` | src/coins.h:170-176 | bit i of mask byte b, least significant first, stands for output 2 + 8*b + i |
| `CoinsCodec.MaskNeeded` | src/coins.h:163 | the assertion of Serialize holds for coins that are not pruned |
| `CoinsCodec.CodeSays` | src/coins.h:164-197 | the fields of the code are read back |
| `CoinsCodec.OutsRoundTrip` | src/coins.h:177-214 | the outputs are read back at their positions |
| `CoinsCodec.PaddingTrimmed` | src/coins.h:210-217 | Cleanup takes off exactly the padding |
| `CoinsCodec.WrittenCleaned` | src/coins.h:157-184 | spent outputs at the end leave no trace |
| `CoinsCodec.RoundTrip` | src/coins.h:157-218 | Unserialize after Serialize gives the cleaned coins, with scripts that are too long replaced |
| `CoinsCodec.FirstExample` | src/coins.h:41-53 | the first documented example, byte for byte, with any key hash |
| `CoinsCodec.SecondExample` | src/coins.h:56-73 | the second one, with its mask and two outputs |
| `CoinsCodec.RoundTripIff` | src/coins.h:157-218 | coins come back unchanged if and only if they are clean and every unspent script may be stored |
| `CoinsCodec.LongScriptIsLost` | src/compressor.h:81-84 | an output with a longer script comes back as one that can not be spent |
| `CoinsCodec.SaneComesBack` | src/coins.h:157-218 | coins without unspendable outputs come back exactly |
| `CoinsCodec.ApplySane` | src/coins.h:91-128 | every change that the program makes to coins, undoing a spend included, leaves such coins |
| `CoinsCodec.ApplyAllSane` | src/coins.h:91-128 | so does every sequence of them |
| `CoinsCodec.RunSane` | src/coins.cpp:645-1013 | in every run of the caches whose modifications are made of such changes, all levels hold such coins only |
| `CoinsCodec.HeldComesBack` | src/txdb.cpp:233-244 | in every such run from a database of such coins, all unpruned coins that any level holds come back from their stored form exactly |
| `CoinsCodec.CalcMaskSize` | src/coins.cpp:19-35 | the bytes up to the last one used and the number of those not zero |
| `CoinsCodec.BuildMaskByte` | src/coins.h:171-175 | one byte of the mask |
| `CoinsCodec.Serialize` | src/coins.h:157-184 | the loops write the bytes that RoundTrip speaks of; the assertion holds |
| `CoinsCodec.ReadMaskBytes` | src/coins.h:198-208 | the loop reads the mask of MaskRoundTrip, and fails at the end of input |
| `CoinsCodec.ReadAll` | src/coins.h:209-214 | the loop reads the outputs of OutsRoundTrip |
| `CoinsCodec.Unserialize` | src/coins.h:186-218 | the loops read what RoundTrip speaks of |
| `Ledger.ParentsFirst` | src/main.cpp:1999-2027 | in a valid sequence a transaction comes after every one whose outputs it spends and that was not there before |
| `Ledger.JoinSplitMoves` | src/primitives/transaction.cpp:262-315 | a join split takes vpub_old into the pool and gives vpub_new back, and the fee changes by the difference |
| `Ledger.BalanceMoves` | src/primitives/transaction.cpp:262-315 | a value balance comes out of the Sapling pool and goes to the fee |
| `Ledger.PlainFee` | src/primitives/transaction.cpp:262-315 | without shielded parts the fee is the difference of inputs and outputs |
| `Ledger.ValueConserved` | src/main.cpp:1999-2027 | unspent outputs, shielded pools, fee and burned value add up to what there was |
| `Scheduler.PopKeeps` | src/miner.cpp:372-378 | taking a transaction off the queue keeps the scheduler's invariant |
| `Scheduler.AnnounceKeeps` | src/miner.cpp:471-482 | announcing a selection to one waiting transaction keeps it, and queues it at most once |
| `Scheduler.AnnounceDone` | src/miner.cpp:468-483 | after all have heard, the selection is complete |
| `Scheduler.EnterKeeps` | src/miner.cpp:273-336 | entering a transaction with its missing parents keeps it |
| `Scheduler.NoneStarved` | src/miner.cpp:370-484 | with the queue empty, exactly the transactions whose unconfirmed parents were all selected have been considered |
| `Miner.AddSound` | src/miner.cpp:408-460 | adding a transaction keeps a valid sequence with its fees |
| `Miner.AddWithin` | src/miner.cpp:380-415 | adding a transaction keeps the limit on size and, with the count it is given, the limit on signature operations |
| `Miner.AddCounted` | src/miner.cpp:404-415 | adding a transaction keeps the recorded counts those of the transactions, each against the coins that its predecessors in the block leave |
| `Miner.AddScripts` | src/miner.cpp:417-423 | adding a transaction whose scripts pass keeps that the scripts of every selected one pass against the coins that its predecessors in the block leave |
| `Miner.AddTurnstile` | src/miner.cpp:425-449 | adding a transaction keeps both pools from going negative after each selected one |
| `Miner.DecidedIff` | src/miner.cpp:370-484 | in the block that a considered order leads to, a transaction is included exactly if it passed all checks against the block, counters, pools and order flag that the ones before it led to, and then comes right after that block |
| `Miner.AssembledKept` | src/miner.cpp:370-484 | every considered order leads to a block with all inputs there, limits, turnstile, counts and scripts kept |
| `Miner.AcceptableIff` | src/miner.cpp:380-449 | the checks are exactly the absence of the causes that LeftOut names, in terms of the transactions before |
| `Miner.ByFeeIff` | src/miner.cpp:398-406 | the queue is in fee order exactly if the priority size is zero or some transaction considered before fitted but was past the priority size or of no high priority |
| `Miner.AllExplained` | src/miner.cpp:370-484 | a considered transaction is in the block, right after those considered and selected before it, exactly if none of these causes is there: size, signature operations, low fee past the minimum size in fee order, a missing input, failing scripts, a pool going negative |
| `Miner.BlockConserves` | src/miner.cpp:370-484 | over the whole block no value appears or disappears |
| `Miner.ParentsSelectedFirst` | src/miner.cpp:277-306 | a selected transaction comes after all its unconfirmed parents |
| `Miner.TemplateBuilder.constructor` | src/miner.cpp:218-368 | an empty block with the pools' balances |
| `Miner.TemplateBuilder.EnterTx` | src/miner.cpp:273-336 | one pool transaction queued or waiting |
| `Miner.TemplateBuilder.EnterPool` | src/miner.cpp:261-337 | every eligible pool transaction queued or waiting |
| `Miner.TemplateBuilder.UpdateCoins` | src/main.cpp:1999-2027 | spends exactly the inputs and adds exactly the spendable outputs; its assertion holds |
| `Miner.TemplateBuilder.PoolsAfter` | src/miner.cpp:428-436 | the pools after a transaction |
| `Miner.TemplateBuilder.Consider` | src/miner.cpp:380-449 | taken exactly if all checks pass, which AcceptableIff spells out, and when sorting by fee begins |
| `Miner.TemplateBuilder.IncludeTx` | src/miner.cpp:451-483 | the accepted transaction with its fee, size, own count of signature operations and pools is added, limits and passing scripts kept, and those that wait for it hear of it |
| `Miner.TemplateBuilder.AnnounceAll` | src/miner.cpp:468-483 | all that wait for a selected transaction hear of it |
| `Miner.TemplateBuilder.SelectNext` | src/miner.cpp:370-484 | one pass, for any choice of the next transaction, considers one that was not considered before; block and order flag become exactly what considering it gives, with limits, turnstile, counts and passing scripts kept |
| `Miner.TemplateBuilder.SelectAll` | src/miner.cpp:370-484 | the loop terminates |
| `Miner.TemplateBuilder.CreateNewBlock` | src/miner.cpp:241-505 | the whole selection ends with none starved, limits, turnstile, scripts and order kept; every considered transaction is in the block, at its place, exactly if none of the causes of AllExplained is there; vTxFees[0] is the negated sum of the other fees, and value is conserved |

## Left out

- Coins cache: the history cache, whose type is not part of this model, and memory accounting.
- CoinsCache.FlushCorrect: speaks of coins and nullifiers; Anchors.RunRefines and BestHash.RunRefines speak of the rest that Flush writes but the history cache.
- CoinsCache.CoinsDb.BatchWrite: writes coins and nullifiers; Anchors.Write and BestHash.Flush give the anchors and best hashes on values.
- CoinsCache.CoinsViewCache.BatchWrite: merges coins and nullifiers; anchors and best hashes are modelled on values, not in place.
- CoinsCache.CoinsViewCache.FlushAll: flushes coins and nullifiers; anchors and best hashes are modelled on values, not in place.
- CoinsCache.StepRefines: models one modification at a time, because the source forbids a second modifier while one is alive.
- Address manager: Select_, GetChance, serialisation, the conditions of Check_ on times (-1, -6 and -8), which depend on what callers pass in, and the one on the random key (-16).
- Check queue: thread interruption and the control object's destructor.
- CheckQueue.WaitIsBounded: counts steps of this model, not time, and does not claim that a scheduler lets a thread run.
- MempoolLimit.IntFindIsSearch: node indexes are unbounded; the source's wrap at 2^64 leads back into no tree of fewer than 2^30 transactions.
- RecentlyEvictedList and the rest of the mempool.
- base_uint: bitwise operators, hexadecimal conversion and conversion to double.
- Pow: Equihash and GetBlockProofEquivalentTime; median times are given with the blocks.
- Bech32: that four errors within 89 characters are detected, which rests on a search over all of them; and replacements by the separator, which move the boundary of the human-readable part.
- Base58: the checksum layer and the address types above it.
- Partial Merkle trees: the bloom filter that chooses the matches.
- History tree: hashing of nodes and the append and delete operations, which live in a Rust library.
- BlockChain.CChain.GetLocator: does not model the wrap of the int step, which doubles with each entry, for chains of 2^30 blocks and more.
- Block index: chain work, validity status and how blocks arrive.
- Framing: checksums and the handling of complete messages.
- Block assembly: the coinbase transaction, priorities and fee rates as numbers, the heap's internals, and the branch for a pool transaction whose input is neither confirmed nor in the pool.
- CoinsCodec.Unserialize: reads numbers of any size; it differs from the source only on stored numbers that exceed their type, which Serialize does not write.
- Wallet, RPC, networking beyond framing, consensus rules, storage engine, proving system.
