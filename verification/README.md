# Verified models of the node's core data structures

A Dafny project that models the parts of this Bitcoin Core derivative whose correctness rests on
subtle invariants, and proves what they promise. `dafny verify dfyconfig.toml` checks everything.

| file | models |
|---|---|
| `Coins.dfy` | the unspent-output cache, in stacks of any depth over a database |
| `AddrBook.dfy`, `AddrMan.dfy`, `AddrCheck.dfy` | the address manager: its tables as values with the invariant, its operations on the mutable tables, and its consistency check over whole runs |
| `AddrShelf.dfy`, `AddrFile.dfy`, `AddrStore.dfy` | the address manager's file: writing, reading any file, dropping what has no place, and the round trip |
| `CheckQueue.dfy` | the script-check queue as a state machine over the steps of its threads |
| `PartialMerkleTree.dfy`, `MerkleRoot.dfy` | proofs that transactions are in a block, and the Merkle root with its test for mutated lists |
| `CuckooCache.dfy`, `RollingBloom.dfy` | the signature cache and the rolling filter |
| `ArithUint.dfy`, `ArithBits.dfy`, `Compact.dfy` | 256-bit arithmetic on 32-bit limbs, compact targets, block work |
| `SkipHeights.dfy`, `Chain.dfy` | the skip list of the block tree with its step bound, the tree, and the active chain |
| `CompactBlock.dfy` | reconstruction of blocks from short transaction ids |
| `Bech32.dfy`, `Bech32Errors.dfy`, `Base58.dfy` | the two address encodings, and what the checksum of the first detects |
| `Basics.dfy`, `Arithmetic.dfy`, `Positional.dfy`, `Limbs.dfy` | shared types, and facts about products, quotients, powers and digits |

Objects that the code updates in place are classes with the same fields, and its loops are loops;
each method is proved against a function or predicate on values, and the laws are lemmas about
those. Hash functions, clocks, random numbers and the iteration order of hash maps are parameters
or arbitrary choices. Integers are unbounded except where the width matters and is written out:
limbs and carries of the 256-bit arithmetic, the 32-bit scaling in the two hash tables, and the
16-bit indexes of compact blocks.

Where the code does something other than its own documentation says, the model follows the code:

- The partial Merkle tree's header promises at most 2N-1 flag bits for N hashes. Three transactions
  with the last one matched need four bits for two hashes; `FlagBitBound` gives the exact condition.
  The size it promises is exceeded by one byte for 1025 transactions that are all matched;
  `SizeBound` gives the exact condition.
- The comment in the cuckoo cache says that the first kick goes to the first of the eight places.
  An index one past the end, plus one, modulo eight, is the second; `Walk` states the order.
- The coin store is the in-memory map of the unit tests, which keeps its best block when a batch
  carries a null hash; the database asserts that there is one.
- `SpendCoin` reports success for an outpoint whose entry is cached as spent.
- `Flush` hands a null best block on to the parent, so the best block of a cache above another
  cache can change; `Flush` states exactly when it does not.
- `Add_` reports a new address even where the new entry is deleted again at once.
- `ExtractMatches` clears the list of matches but not the list of indexes.
- `FillBlock` moves transactions out of their slots before it notices that too few were sent.
- The flags of a cuckoo cache of 2^32 - 7 places or more are empty, since their size wraps.
- Reading the file of peers refuses neither a file that names an address twice nor impossible
  statistics; dropping one of two entries with an address erases it for both. `Unserialize` says for
  every file what is left, and exactly when that is consistent.
- `Check_` looks addresses up with a subscript that creates missing entries, so it can repair the
  address map for identifier 0 while checking it.

## Model

| member | source | states |
|---|---|---|
| Coins.FetchKeepsView | src/coins.cpp:40-55 | caching what the parent returned, as fresh when it is spent, keeps the entry legal and leaves the visible coins as they were |
| Coins.UncacheKeepsView | src/coins.cpp:230-237 | dropping an entry without flags leaves the visible coins as they were |
| Coins.AddIsUpdate | src/coins.cpp:66-98 | under its caller's promise the overwrite exception cannot be thrown, the entry written is in one of the five legal states, and the visible map gains exactly this coin |
| Coins.SpendIsRemoval | src/coins.cpp:120-134 | erasing a fresh entry or marking it spent removes exactly this outpoint from the visible map and keeps the entry legal |
| Coins.MergeIsPush | src/coins.cpp:167-221 | merging a dirty child entry cannot hit the fresh-over-unspent exception, leaves a legal entry, and pushes the child's value into the visible map, in all branches |
| Coins.PushKeepsChildView | src/coins.cpp:167-221 | while a child hands its entries over one by one, what is still to come over what has arrived always shows the child's own view |
| Coins.SkipKeepsChildView | src/coins.cpp:167-221 | entries that are not dirty may be skipped: the view through the rest does not change |
| Coins.StoreWriteIsPush | src/txdb.cpp:108-117 | writing or erasing one entry in the database pushes its value into the database's unspent coins |
| Coins.CoinsStore.GetCoin | src/test/coins_tests.cpp:41-53 | an unspent coin is returned exactly when it is among the unspent coins of the database |
| Coins.CoinsStore.WriteEntry | src/test/coins_tests.cpp:60-67 | one entry pushed into the unspent coins |
| Coins.CoinsStore.BatchWrite | src/test/coins_tests.cpp:57-73 | a whole batch, in any order: the unspent coins become the child's view; the best block is kept when the batch carries a null hash |
| Coins.CoinsViewCache.constructor | src/coins.cpp:34 | a new cache shows what its parent shows |
| Coins.CoinsViewCache.FetchCoin | src/coins.cpp:40-55 | views and best block of every layer are unchanged; the entry is present afterwards unless the outpoint is not visible, and a new one is clean, and fresh exactly if its coin is spent |
| Coins.CoinsViewCache.GetCoin | src/coins.cpp:57-64 | found exactly when visible, with the visible coin |
| Coins.CoinsViewCache.HaveCoin | src/coins.cpp:147-150 | true exactly when visible |
| Coins.CoinsViewCache.AccessCoin | src/coins.cpp:138-145 | the visible coin, or a spent one |
| Coins.CoinsViewCache.AddCoin | src/coins.cpp:66-98 | the visible map is updated at one outpoint, or not at all for an unspendable output; the flags of the entry exactly; lower layers are unchanged |
| Coins.CoinsViewCache.SpendCoin | src/coins.cpp:120-134 | the visible map loses exactly this outpoint and the coin removed is handed out; whether the entry is erased or marked, exactly; lower layers show what they showed |
| Coins.CoinsViewCache.Uncache | src/coins.cpp:230-237 | no view changes |
| Coins.CoinsViewCache.GetBestBlock | src/coins.cpp:157-161 | the best block of the nearest layer that has one, which is remembered here |
| Coins.CoinsViewCache.SetBestBlock | src/coins.cpp:163-165 | the best block is set, no view changes |
| Coins.CoinsViewCache.MergeEntry | src/coins.cpp:170-217 | one child entry pushed into the visible map, the entry left exactly, the invariant kept, the parent untouched |
| Coins.CoinsViewCache.BatchWrite | src/coins.cpp:167-221 | whatever order the child's entries come in, the visible map becomes the child's view, and every entry is the old one merged with the child's where that is dirty, and else as it was |
| Coins.CoinsViewCache.Flush | src/coins.cpp:223-228 | the view is the same before and after and is now also the parent's; the cache is empty; the best block survives exactly when it was set here or the layers below agree on it |
| Coins.WithOutputsAt | src/coins.cpp:108-118 | at every outpoint: the transaction's spendable outputs are new, each with its own output, the height, the time and the flags of the transaction; everything else is as before |
| Coins.AddCoins | src/coins.cpp:108-118 | the visible map gains the spendable outputs of the transaction, each recorded with its output, height, time and flags, and nothing else |
| Coins.UnspendableIff | src/script/script.h:543-546 | a script is unspendable exactly if it starts with the opcode 0x6a or has more than 10000 bytes |
| Coins.LowerStepsAreHidden | src/coins.h:210-260 | in a stack of any depth, a layer that keeps its own view keeps the view of every layer above it |
| Coins.LayerStep | src/test/coins_tests.cpp:188-222 | uncaching or flushing any layer of a stack leaves the top view unchanged; the layer is empty after a flush, and an entry without flags is gone |
| Coins.Step | src/test/coins_tests.cpp:118-264 | each of add, spend, uncache, flush, pushing and popping a layer does to the top view what it does to one plain map |
| Coins.Simulate | src/test/coins_tests.cpp:118-264 | for every legal run of operations on a stack of any depth the top view is the map that replaying the run on one plain map gives, and the stack is as deep as the run makes it |
| CheckQueue.BatchSize | src/checkqueue.h:112-112 | a batch has at least one check, no more than are queued, and no more than the batch limit unless that is zero |
| CheckQueue.BatchIsShare | src/checkqueue.h:112-112 | the batch is the largest that every counted thread could take as well, within the limit |
| CheckQueue.InitialInv | src/checkqueue.h:142-157 | the invariant holds when the threads start |
| CheckQueue.ArriveKeeps | src/checkqueue.h:77-88 | clean-up on taking the lock keeps the account: counted threads, conserved checks, sound verdicts, no lost wakeup |
| CheckQueue.ReturnKeeps | src/checkqueue.h:91-98 | the master's return keeps the invariant and starts a new round |
| CheckQueue.SleepKeeps | src/checkqueue.h:99-101 | going to sleep keeps the invariant; in particular a sleeper is owed a notification |
| CheckQueue.TakeKeeps | src/checkqueue.h:112-121 | taking a batch from the back of the queue keeps the invariant |
| CheckQueue.BatchIsLatest | src/checkqueue.h:112-121 | a batch is what was queued last, latest first, and the rest of the queue is untouched |
| CheckQueue.RunKeeps | src/checkqueue.h:124-127 | running a batch, stopping at the first failure, keeps the invariant and runs no check twice |
| CheckQueue.AddKeeps | src/checkqueue.h:166-178 | adding checks with its one or all notifications keeps the invariant |
| CheckQueue.SpuriousKeeps | src/checkqueue.h:100-100 | a wakeup nobody sent keeps the invariant |
| CheckQueue.StepKeepsInv | src/checkqueue.h:68-178 | every step of every thread keeps: nTodo is the queued checks plus those in unfinished batches, nIdle and nTotal count waiting and participating threads, no check is lost or run twice, verdicts are sound, no wakeup is lost |
| CheckQueue.EveryRunKeepsInv | src/checkqueue.h:68-178 | so does every interleaving of any length |
| CheckQueue.WaitReturnsConjunction | src/checkqueue.h:90-98 | when Wait returns, nothing is queued or in flight, the result is the conjunction of all checks of the round, and if it is true each of them has run exactly once |
| CheckQueue.RoundVerdict | src/checkqueue.h:68-178 | over a whole round: Wait returns the conjunction of exactly the checks added since the last return |
| CheckQueue.BlockedMasterIsOwed | src/checkqueue.h:82-84 | a blocked master without notification means work is left and some worker holds it |
| CheckQueue.NoDeadlock | src/checkqueue.h:90-128 | while the master waits some thread can take a step |
| CheckQueue.StepMakesProgress | src/checkqueue.h:68-129 | every step other than adding and spurious wakeups uses up remaining work |
| CheckQueue.WaitIsBounded | src/checkqueue.h:68-129 | so Wait returns within a number of steps fixed by the state and the spurious wakeups |
| PartialMerkleTree.WidthIsShift | src/merkleblock.h:70-72 | the number of nodes at a height, by repeated halving, is the rounded-up shift of the source |
| PartialMerkleTree.LeavesAreShifts | src/merkleblock.cpp:80-81 | the leaves below a node are those between the two shifts |
| PartialMerkleTree.AnyMatchIsExists | src/merkleblock.cpp:79-81 | a node is flagged exactly when some leaf below it matches |
| PartialMerkleTree.ExtractSound | src/merkleblock.cpp:95-131 | for arbitrary bits and hashes: if the traversal gives the node's true hash, every extracted pair is the list's entry at that index, or two different inputs with the same hash are produced |
| PartialMerkleTree.ExtractAscending | src/merkleblock.cpp:95-131 | indices come out in increasing order, within the leaves below the node |
| PartialMerkleTree.ExtractOfBuild | src/merkleblock.cpp:77-131 | the traversal of what was built, at any offset in the two lists, gives the node's hash, the masked leaves in order, and uses up exactly what was built; it is bad exactly when twin hashes meet |
| PartialMerkleTree.HashPinsFirstLeaf | src/merkleblock.cpp:57-75 | with an injective pair hash, equal node hashes at one height mean equal first leaves |
| PartialMerkleTree.NoTwins | src/merkleblock.cpp:118-124 | with distinct txids and an injective pair hash no two siblings are equal |
| PartialMerkleTree.BuildSizes | src/merkleblock.cpp:77-93 | at least one hash and at most one per leaf; flag bits are twice the hashes less one, plus one per flagged node with a single child |
| PartialMerkleTree.BuildHashBound | src/merkleblock.cpp:77-93 | at most one hash plus one per matched leaf and level |
| PartialMerkleTree.OnlyChildrenAtEdge | src/merkleblock.cpp:90-91 | only flagged nodes on the right edge have a single child, at most one per level |
| PartialMerkleTree.FlagBitBound | src/merkleblock.h:40-51 | the documented bound of 2N-1 flag bits holds exactly when no flagged node on the right edge has an odd number of leaves beside it; the excess is at most the height |
| PartialMerkleTree.FlagBitBoundFails | src/merkleblock.h:40-51 | three transactions of which the last is matched: two hashes but four bits |
| PartialMerkleTree.BuildHashCount | src/merkleblock.h:40-45 | the number of hashes, told from the mask |
| PartialMerkleTree.SizeBound | src/merkleblock.h:35-51 | the promised size holds exactly under a condition on the numbers of hashes and of single children: always up to 252 hashes, never above 65535 |
| PartialMerkleTree.SizeBoundFails | src/merkleblock.h:35-51 | 1025 transactions, all matched: one byte more than promised |
| PartialMerkleTree.PrefixIsShortest | src/serialize.h:242-248 | a length is written in one byte below 253, and else in a mark and the least of 2, 4 and 8 bytes that holds it |
| PartialMerkleTree.BitsToBytes | src/merkleblock.cpp:12-19 | eight flags a byte, lowest bit first, padded with zeros |
| PartialMerkleTree.BytesToBits | src/merkleblock.cpp:21-28 | every bit of every byte, in order |
| PartialMerkleTree.PartialTree.CalcTreeWidth | src/merkleblock.h:70-72 | the width of the tree at a height |
| PartialMerkleTree.PartialTree.TreeHeight | src/merkleblock.cpp:138-141 | the least height with a single node |
| PartialMerkleTree.PartialTree.TraverseAndBuild | src/merkleblock.cpp:77-93 | appends exactly the bits and hashes of the subtree |
| PartialMerkleTree.PartialTree.ParentOfMatch | src/merkleblock.cpp:79-81 | the loop over the leaves finds whether any matches |
| PartialMerkleTree.PartialTree.TraverseAndExtract | src/merkleblock.cpp:95-131 | reads exactly what the specification of the traversal reads, with the same verdict, hash and matches |
| PartialMerkleTree.PartialTree.constructor | src/merkleblock.cpp:147-147 | the empty tree is bad |
| PartialMerkleTree.PartialTree.Create | src/merkleblock.cpp:133-145 | holds what is built for the whole tree |
| PartialMerkleTree.PartialTree.Serialize | src/merkleblock.h:88-96 | flags packed into bytes |
| PartialMerkleTree.PartialTree.Unserialize | src/merkleblock.h:88-96 | flags unpacked, with padding, and the tree not bad |
| PartialMerkleTree.PartialTree.ExtractMatches | src/merkleblock.cpp:149-180 | the root where all checks pass and the null hash in every other case; the matches of the traversal, and their indexes appended to the list given |
| PartialMerkleTree.ProofSound | src/merkleblock.cpp:95-180 | an accepted proof with the true root names only transactions that are in the list, at their indices and in order, or a hash collision is shown |
| PartialMerkleTree.ProofComplete | src/merkleblock.cpp:57-180 | for every list within the size limit and every mask, the padded proof gives the true root and exactly the masked transactions; it is accepted exactly when no twins meet |
| PartialMerkleTree.DistinctProofAccepted | src/merkleblock.cpp:57-180 | in particular for distinct txids under an injective pair hash |
| PartialMerkleTree.RoundTrip | src/merkleblock.cpp:57-180 | build, pack, unpack and extract, as code: the true root and the masked transactions, or the null hash where twins meet |
| MerkleRoot.ComputeMerkleRoot | src/consensus/merkle.cpp:45-62 | level by level: the root, and whether some level has a repeated pair |
| MerkleRoot.FindRepeat | src/consensus/merkle.cpp:48-52 | whether some pair of a level, as it is before padding, has equal halves |
| MerkleRoot.HashPairs | src/consensus/merkle.cpp:56-57 | the hashes of the pairs of a level of even size, in order |
| MerkleRoot.LevelIsHash | src/merkleblock.cpp:57-75 | the levels in place hold the hashes that the partial tree computes recursively |
| MerkleRoot.RootIsMerkleRoot | src/merkleblock.cpp:57-75 | so both compute the same root |
| MerkleRoot.UnmutatedNoTwins | src/merkleblock.cpp:118-124 | a list that is not flagged as mutated has no twins in any proof |
| MerkleRoot.UnmutatedAccepted | src/merkleblock.cpp:57-180 | so every proof made for such a list is accepted |
| MerkleRoot.SameLevelBelow | src/consensus/merkle.cpp:13-41 | two levels without a repeated pair that have the same next level are equal, or a hash collision is shown |
| MerkleRoot.SameRootSameList | src/consensus/merkle.cpp:8-42 | two lists whose trees have the same height and the same root, neither flagged as mutated, are the same list, or a hash collision is shown |
| MerkleRoot.HeightAbove | src/consensus/merkle.cpp:47-58 | the next level is that of a tree one lower |
| MerkleRoot.RepeatedTail | src/consensus/merkle.cpp:19-39 | repeating the last hash of an odd list leaves the root as it was and is flagged |
| CuckooCache.FlagUpdated | src/cuckoocache.h:90-114 | setting or clearing one packed flag leaves every other flag alone |
| CuckooCache.ComputeHashes | src/cuckoocache.h:242-252 | eight places, each inside the table |
| CuckooCache.PlacesOnto | src/cuckoocache.h:242-252 | each of the hashes can name every place of the table |
| CuckooCache.PlacesMonotone | src/cuckoocache.h:242-252 | a greater hash never names a smaller place |
| CuckooCache.EpochSize | src/cuckoocache.h:348-348 | 45 of a hundred places, at least one, as long as the product fits 32 bits; what it wraps to above that |
| CuckooCache.KeptIff | src/cuckoocache.h:392-440 | a kept copy is counted exactly if some place holds one that is not discardable |
| CuckooCache.BehindMoves | src/cuckoocache.h:416-430 | an element does not go where the one before has just gone unless its places coincide |
| CuckooCache.FreeIsTaken | src/cuckoocache.h:406-415 | an element with a discardable place gets the first of them, without a kick, and nothing else is touched |
| CuckooCache.Cache.constructor | src/cuckoocache.h:326-329 | nothing is set up yet |
| CuckooCache.LiveUpdate | src/cuckoocache.h:288-320 | how one changed place changes the number of kept entries of the current epoch |
| CuckooCache.KeptUpdate | src/cuckoocache.h:392-440 | how one changed place changes the number of kept copies of an element |
| CuckooCache.Cache.Setup | src/cuckoocache.h:339-352 | an empty cache of at least two places, all discardable, with its epoch size and counter; valid exactly up to the sizes for which the 32-bit size of the flags does not wrap |
| CuckooCache.Cache.EpochCheck | src/cuckoocache.h:288-320 | after it there is room in the allowance for one more entry; flags change only when the count is due and the epoch full, and then exactly as aging says; the counter in every case |
| CuckooCache.Cache.Age | src/cuckoocache.h:304-310 | the current epoch becomes the old one, and the old one becomes discardable |
| CuckooCache.Cache.FindFree | src/cuckoocache.h:408-414 | the first discardable place |
| CuckooCache.Cache.FindElement | src/cuckoocache.h:400-405 | the first place that holds the element |
| CuckooCache.Cache.IndexOf | src/cuckoocache.h:430-430 | where a place is among the eight, or past them |
| CuckooCache.Cache.Put | src/cuckoocache.h:411-413 | one place written and kept; both accounts change by exactly that |
| CuckooCache.Cache.Kick | src/cuckoocache.h:430-435 | one swap: the element in hand and the table keep the same kept elements and the same epoch count |
| CuckooCache.Cache.NextKick | src/cuckoocache.h:430-430 | the place behind the first occurrence of the last one, going round; the second place where that does not occur |
| CuckooCache.Cache.Round | src/cuckoocache.h:416-438 | one round of the walk: the element in hand goes to its next place and the one there comes into hand; the copy being inserted is in hand or in a place of its own |
| CuckooCache.Cache.Settle | src/cuckoocache.h:408-415 | the last round: the element in hand takes its first discardable place |
| CuckooCache.Cache.Walk | src/cuckoocache.h:406-439 | every kick is forced and goes to the place the order of the hashes says; the element in hand then takes its first discardable place, or the walk overflows after depth_limit kicks; without overflow the new element is in a place of its own, kept and of the current epoch; one element is given up and all others are only moved, as multisets and as kept elements |
| CuckooCache.Cache.Place | src/cuckoocache.h:396-439 | an element already in one of its places is refreshed and nothing moves; otherwise as the walk |
| CuckooCache.Cache.Insert | src/cuckoocache.h:392-440 | over any history: the element is in the table afterwards, kept and of the current epoch, unless the walk overflows, and it does not where a place is discardable; which element is discarded; live entries of the epoch stay within epoch_size + max(1, epoch_size/16); contents are conserved up to that one element; every element sits in one of its own places |
| CuckooCache.Cache.Contains | src/cuckoocache.h:469-479 | true exactly when the element is in the table; erasing marks one place that holds it and changes nothing else |
| RollingBloom.BitOfWithBit | src/bloom.cpp:239-240 | writing one bit of a word changes that bit only |
| RollingBloom.WipedBits | src/bloom.cpp:221-229 | the mask of the generation being recycled clears both bits of exactly its cells |
| RollingBloom.FastModInRange | src/bloom.cpp:209-211 | the multiply-and-shift reduction stays below the size |
| RollingBloom.CellsOnto | src/bloom.cpp:237-240 | every cell of the table is named by some hash |
| RollingBloom.CellsMonotone | src/bloom.cpp:209-211 | a greater hash never names a smaller word |
| RollingBloom.RollCovers | src/bloom.cpp:215-230 | advancing the generation ages every other generation's cells by one and forgets only the oldest |
| RollingBloom.MarkCovers | src/bloom.cpp:233-241 | overwriting cells with the current generation never uncovers a key |
| RollingBloom.RollBacked | src/bloom.cpp:215-230 | advancing the generation: every cell that is still set was set by an insertion of the last three generations |
| RollingBloom.MarkBacked | src/bloom.cpp:233-241 | so it is after the cells of a new key are set |
| RollingBloom.Filter.constructor | src/bloom.cpp:173-198 | an empty history, two generations hold at least nElements keys, and the table at least the bits asked for |
| RollingBloom.Filter.Reset | src/bloom.cpp:270-276 | an empty history: the first generation with nothing in it, and, by the invariant, no cell set |
| RollingBloom.Filter.Wipe | src/bloom.cpp:221-229 | exactly the cells of one generation are emptied, in all words |
| RollingBloom.Filter.SetCell | src/bloom.cpp:239-240 | one two-bit cell takes the generation, all others keep theirs |
| RollingBloom.Filter.Roll | src/bloom.cpp:215-231 | there is room in the generation, every key of the last two full generations is still covered, and no cell is set without an insertion behind it |
| RollingBloom.Filter.Mark | src/bloom.cpp:233-241 | all cells of the key are of the current generation |
| RollingBloom.Filter.Insert | src/bloom.cpp:213-242 | the invariant: every key among the last 2 * nEntriesPerGeneration + nEntriesThisGeneration inserts is covered, and every cell that is set is one of such a key |
| RollingBloom.Filter.Contains | src/bloom.cpp:250-262 | true exactly when every cell of the key is one of a key among the last 2 * nEntriesPerGeneration + nEntriesThisGeneration inserts; nothing is found in an empty filter |
| RollingBloom.Filter.ContainsRecent | src/bloom.cpp:250-262 | no false negatives: every one of those last inserts is found |
| AddrBook.TouchKeeps | src/addrman.cpp:389-411 | new statistics for an entry keep the whole invariant |
| AddrBook.SwapKeeps | src/addrman.cpp:141-161 | so does swapping two positions of vRandom |
| AddrBook.CreateKeeps | src/addrman.cpp:127-139 | a created entry is the only one without a place |
| AddrBook.DeleteKeeps | src/addrman.cpp:163-177 | deleting an entry without references keeps the invariant |
| AddrBook.RemoveRefKeeps | src/addrman.cpp:179-194 | removing one reference keeps all counts exact |
| AddrBook.AddRefKeeps | src/addrman.cpp:376-379 | adding a reference in an entry's own free slot keeps all counts exact |
| AddrBook.EvictKeeps | src/addrman.cpp:217-226 | taking an entry out of its tried slot leaves it the only one without a place |
| AddrBook.EnterKeeps | src/addrman.cpp:239-243 | entering a free tried slot of its own gives an entry its place |
| AddrBook.ClearKeeps | src/addrman.cpp:179-194 | emptying a new slot, deleting the entry with its last reference, keeps the invariant |
| AddrBook.ClearEffect | src/addrman.cpp:179-194 | exactly one slot is emptied; at most its entry is gone |
| AddrBook.WithdrawKeeps | src/addrman.cpp:200-210 | an entry taken out of all its new buckets has no reference left |
| AddrBook.DemoteKeeps | src/addrman.cpp:217-238 | the evicted entry ends in its home slot of the new table, with the invariant |
| AddrBook.DemoteEffect | src/addrman.cpp:217-238 | one slot of each table changes |
| AddrBook.MakeRoomEffect | src/addrman.cpp:196-238 | the tried slot is free and no other tried slot has changed |
| AddrBook.MakeTriedKeeps | src/addrman.cpp:196-244 | moving an entry to the tried table keeps the whole invariant |
| AddrBook.MakeTriedEffect | src/addrman.cpp:196-244 | the entry is in its tried slot and nowhere else, its predecessor in its home slot, and nothing else has changed |
| AddrBook.MakeTriedServices | src/addrman.cpp:196-244 | no entry changes its address on the way |
| AddrBook.CollisionsKept | src/addrman.cpp:294-311 | an entry that waits for a tried slot goes on waiting for an occupied one |
| AddrBook.ReferKeeps | src/addrman.cpp:365-385 | one more reference, or none, or the fresh entry deleted: the invariant holds in each case |
| AddrBook.ReferEffect | src/addrman.cpp:365-385 | exactly when the slot is free, terrible or shared is it taken; which record is displaced, and every other record is as it was |
| AddrBook.Capacity | src/addrman.cpp:463-539 | no manager knows more than 16384 tried and 65536 new addresses, and no address is in more than eight buckets |
| AddrMan.Manager.constructor | src/addrman.h:464-492 | an empty manager is consistent |
| AddrMan.Manager.Find | src/addrman.cpp:112-125 | an address is found exactly when it is known |
| AddrMan.Manager.Create | src/addrman.cpp:127-139 | the maps and vRandom gain one entry |
| AddrMan.Manager.SwapRandom | src/addrman.cpp:141-161 | two positions swapped in both directions |
| AddrMan.Manager.Delete | src/addrman.cpp:163-177 | the entry is gone from all three indexes |
| AddrMan.Manager.ClearNew | src/addrman.cpp:179-194 | one slot emptied as specified |
| AddrMan.Manager.Withdraw | src/addrman.cpp:200-210 | all references removed, whatever bucket they are in |
| AddrMan.Manager.Evict | src/addrman.cpp:217-226 | the occupant is out of its tried slot |
| AddrMan.Manager.Demote | src/addrman.cpp:217-238 | the occupant is back in the new table |
| AddrMan.Manager.MakeTried | src/addrman.cpp:196-244 | the tables are those of the specification; none of the four asserts can fail |
| AddrMan.SomeBucket | src/addrman.cpp:277-292 | every new entry is in some bucket, so the search that Good_ gives up on cannot fail |
| AddrMan.Manager.FindBucket | src/addrman.cpp:277-287 | finds such a bucket from any random start |
| AddrMan.Manager.Good | src/addrman.cpp:246-312 | keeps the invariant; the entry is moved, or put on the list of collisions, or only greeted, as specified |
| AddrMan.Manager.Attempt | src/addrman.cpp:389-411 | only the statistics of the named entry change |
| AddrMan.Manager.Connected | src/addrman.cpp:576-596 | only the time of the named entry changes |
| AddrMan.Manager.SetServices | src/addrman.cpp:598-616 | only the services of the named entry change |
| AddrMan.TerribleIff | src/addrman.cpp:45-63 | an entry is not terrible exactly if it was tried in the last minute, or was heard of in the last thirty days and not from more than ten minutes ahead, and has fewer than three attempts, or a success with fewer than ten attempts or within the last seven days |
| AddrMan.AttemptsCount | src/addrman.cpp:45-63 | further attempts never make a terrible entry a better one |
| AddrMan.RenewedIs | src/addrman.cpp:325-338 | what renewing keeps and what it changes: the time only forward, less the penalty and not below zero, and services only added |
| AddrMan.IntroducedReported | src/addrman.cpp:45-63 | a first record is terrible exactly if its penalized time is not positive, more than thirty days back, or more than ten minutes ahead |
| AddrMan.QuotaIs | src/addrman.cpp:542-555 | the quota is the largest number within the percentage of the known addresses and within the limit, unless that is zero |
| AddrMan.PickedCount | src/addrman.cpp:556-573 | no more are returned than are eligible, and all of these where the whole list is gone through |
| AddrMan.Manager.Refer | src/addrman.cpp:365-385 | the slot for the source is taken or left, as specified |
| AddrMan.Manager.Refresh | src/addrman.cpp:325-357 | time and services are merged; whether to go on is decided exactly by times, table, references and the random number |
| AddrMan.Manager.Enlist | src/addrman.cpp:358-363 | an unknown address gets an entry, with the announced services and source and the time less the penalty, not below zero |
| AddrMan.Manager.Settle | src/addrman.cpp:365-385 | the entry is placed, or deleted where it has no reference; no other record changes but for the entry displaced |
| AddrMan.Manager.Add | src/addrman.cpp:314-387 | keeps the invariant and the tried table; says exactly when the address is new, whether it was kept, in which slot and with what record; a known address is renewed in time and services alone, and gains a reference in its slot for the source exactly when it spreads and the slot is free; every other record is kept but for the entry displaced |
| AddrMan.Manager.AddUnknown | src/addrman.cpp:358-386 | where an unknown address goes and the record it gets |
| AddrMan.Manager.AddKnown | src/addrman.cpp:330-386 | the new table, the renewed address and the exact reference count of a known entry, for every time and random number |
| AddrMan.Manager.Draw | src/addrman.cpp:352-357 | the loop of doublings: one random number in 2^n gets through |
| AddrMan.SelfAnnouncement | src/addrman.cpp:325-357 | a source announcing itself gains references exactly by small steps forward in time; a larger step is stored first and then counts as old |
| AddrMan.Manager.GetAddr | src/addrman.cpp:542-574 | only vRandom is permuted; distinct eligible addresses are returned with what is recorded of them; their number is the quota, or that of all eligible entries where these are fewer |
| AddrMan.PickedAll | src/addrman.cpp:556-573 | no eligible entry among those looked at is left out |
| AddrMan.PickedFrom | src/addrman.cpp:556-573 | only eligible entries are returned |
| AddrMan.PickedOnce | src/addrman.cpp:556-573 | and none twice |
| AddrMan.Manager.Shuffle | src/addrman.cpp:560-562 | a step of the shuffle does not disturb what is already chosen |
| AddrMan.Manager.Resolve | src/addrman.cpp:618-677 | one waiting entry: erased from the list exactly when its case is settled; the tables change exactly when it replaces, and then as `Good_` changes them |
| AddrMan.Manager.Replace | src/addrman.cpp:653-667 | the tables change exactly as `Good_` without a test changes them |
| AddrMan.ReplacedMarks | src/addrman.cpp:653-667 | a replacing entry is in the tried table afterwards |
| AddrMan.Manager.ResolveCollisions | src/addrman.cpp:618-677 | every entry gets one turn, in ascending order; an entry stops waiting exactly if it was settled in the tables at its turn, and the end tables are reached by the chain of single steps |
| AddrMan.Manager.SelectTriedCollision | src/addrman.cpp:679-706 | nothing for an empty list; otherwise the entry in the way of the waiting one chosen, or, where that one is gone, nothing, and it is taken off the list |
| AddrCheck.CheckEntry | src/addrman.cpp:474-496 | passes exactly the entries that are sound; looking up an unknown address makes an entry for it in the address map |
| AddrCheck.CheckEntries | src/addrman.cpp:473-497 | all entries, in any order; the sets collected are the tried entries and the new ones with their counts |
| AddrCheck.CheckTried | src/addrman.cpp:504-516 | passes exactly when every filled tried slot holds a tried entry of its own; what remains are the tried entries without a slot |
| AddrCheck.CheckNew | src/addrman.cpp:518-529 | passes when every filled new slot holds a new entry at its own position and no count runs out; what remains of the counts is exact |
| AddrCheck.RandomFull | src/addrman.cpp:470-502 | as many positions as entries and no two alike: vRandom is a permutation |
| AddrCheck.Passed | src/addrman.cpp:463-539 | what passes satisfies the invariant |
| AddrCheck.Check | src/addrman.cpp:463-539 | returns 0 for every consistent state with a key, and what it returns 0 for is consistent but for identifiers ahead of the counter and addresses without entries, which it does not look at |
| AddrCheck.Apply | src/addrman.h:508-630 | each public operation keeps the invariant and does to the tables, the waiting list and the time of the last success what its specification says |
| AddrCheck.Run | src/addrman.cpp:463-539 | from an empty manager, along every run of such steps, the consistency check returns 0 after every one of them |
| AddrShelf.InvIsShelved | src/addrman.cpp:463-539 | the invariant is the placement half and the halves about addresses and statistics |
| AddrShelf.DeleteShelved | src/addrman.cpp:163-177 | deleting keeps every entry where it belongs, whatever the addresses |
| AddrShelf.ClearShelved | src/addrman.cpp:179-194 | so does clearing a slot |
| AddrShelf.EvictShelved | src/addrman.cpp:101-102 | and taking an entry out of its tried slot |
| AddrShelf.LastNamedStep | src/addrman.h:352-373 | an address leads to the last entry read with it |
| AddrShelf.ShedMore | src/addrman.h:444-457 | dropping in two steps is dropping: slots and addresses go with the entries, nothing else changes |
| AddrShelf.DeleteSheds | src/addrman.cpp:163-177 | deleting drops one entry and forgets its address |
| AddrShelf.ClearSheds | src/addrman.cpp:179-194 | clearing the slot of an entry not kept touches none that is |
| AddrShelf.ShedAll | src/addrman.h:444-457 | when only what is to be kept is left, the tables are the old ones restricted to it |
| AddrShelf.RemainsConsistent | src/addrman.h:444-457 | what remains after dropping is consistent if and only if no entry kept shares its address with any other, dropped or not, and the statistics of those kept are possible |
| AddrFile.ListKeeps | src/addrman.h:352-359 | a record read is an entry without a place |
| AddrFile.RestoredRecorded | src/addrman.h:64-68 | an entry read back is what was written, in no table and with no try noted |
| AddrFile.NewListedKeeps | src/addrman.h:352-359 | the new entries of any file are numbered, listed and named by the last of their address |
| AddrFile.TriedListedKeeps | src/addrman.h:361-380 | so are the tried entries, each in its slot, but for those whose slot is taken |
| AddrFile.RefReadKeeps | src/addrman.h:417-442 | a reference read goes to the bucket named, home, or nowhere, and counts are exact |
| AddrFile.LoadedKeeps | src/addrman.h:299-442 | for every file, with or without re-bucketing: every entry read is where it belongs, but for new ones without a slot |
| AddrFile.Rebucketed | src/addrman.h:410-442 | a file written with another asmap or another number of buckets: every reference goes to the slot its entry gets for its own source |
| AddrFile.SlotsTaken | src/addrman.h:363-379 | a tried entry is lost exactly if an earlier one has the same slot |
| AddrFile.EntryOf | src/addrman.h:351-380 | every identifier is that of an entry of the file |
| AddrFile.HarmlessIff | src/addrman.h:299-457 | whether what reading leaves is consistent can be told from the file: every entry that lasts is alone with its address among those not lost, and its statistics are possible |
| AddrFile.TwiceNamed | src/addrman.h:352-358 | a file naming an address twice in one slot: the second entry is dropped and the address of the first with it, so the file is not sound |
| AddrFile.TwiceNamedEnd | src/addrman.h:352-454 | what reading that file leaves: the first entry is there and its address is not in the address map |
| AddrFile.UnreferredSound | src/addrman.h:444-454 | a file that names an address twice but refers to none of its entries is sound |
| AddrFile.SelectDistinct | src/addrman.h:255-274 | each entry of a table is written once |
| AddrFile.TableSlotsAll | src/addrman.h:275-288 | every filled slot is written, once |
| AddrFile.RefsRefer | src/addrman.h:387-397 | the references read are those written |
| AddrFile.TriedListedSame | src/addrman.h:361-380 | reading it back, every tried entry finds its slot free |
| AddrFile.RefsReadSame | src/addrman.h:417-442 | and every reference returns to its slot |
| AddrFile.NothingLost | src/addrman.h:444-457 | so no entry is dropped |
| AddrFile.RenamedHarmless | src/addrman.h:233-462 | what is read back has the addresses and statistics of distinct consistent entries |
| AddrFile.RoundTrip | src/addrman.h:233-462 | reading back what was written with the same key and asmap: consistent tables, every slot holding the entry it held under its new identifier, nothing lost |
| AddrStore.WriteNew | src/addrman.h:255-266 | new entries in the order of the visit, numbered; the assert on nNew cannot fail |
| AddrStore.WriteTried | src/addrman.h:267-274 | tried entries likewise; the assert on nTried cannot fail |
| AddrStore.WriteBucket | src/addrman.h:275-288 | the numbers of the entries in a bucket |
| AddrStore.Serialize | src/addrman.h:233-296 | writes the file of the specification |
| AddrStore.ReadNew | src/addrman.h:351-359 | entries of the new table |
| AddrStore.ReadTriedEntry | src/addrman.h:363-378 | one entry of the tried table, or its loss |
| AddrStore.ReadTried | src/addrman.h:361-380 | all of them, with the counter corrected |
| AddrStore.CollectRefs | src/addrman.h:382-397 | references with an index in range, in order |
| AddrStore.ReadRef | src/addrman.h:417-442 | one reference |
| AddrStore.ReadRefs | src/addrman.h:417-442 | all references |
| AddrStore.Prune | src/addrman.h:444-454 | exactly the new entries without references are deleted; every other keeps its record and its slots, and the addresses of those deleted are forgotten |
| AddrStore.RemoveInvalidNew | src/addrman.cpp:82-89 | no valid entry is touched and no new slot leads to an invalid one |
| AddrStore.RemoveTried | src/addrman.cpp:91-109 | an invalid tried entry is gone from the table and all indexes |
| AddrStore.RemoveInvalid | src/addrman.cpp:80-110 | exactly the entries with valid addresses are left, each with its record and its slots |
| AddrStore.Unserialize | src/addrman.h:299-462 | for every file: refused exactly when the counts exceed the tables; otherwise exactly the entries with a slot and a valid address are left, in their slots, and the manager is consistent if and only if the file is sound |
| AddrStore.WrittenFits | src/addrman.h:337-349 | what a consistent manager writes is never refused |
| AddrStore.SaveAndLoad | src/addrman.h:233-462 | as code: writing one manager and reading another gives the same tables up to identifiers |
| Positional.DigitsUnique | src/base58.cpp:99-113 | a number has only one way to be written without leading zeros |
| Positional.CarryOut | src/base58.cpp:104-108 | one place of multiply-and-add: digit and carry lose nothing |
| ArithUint.AddTo | src/arith_uint256.h:132-142 | addition modulo 2 to the width, also of a number to itself |
| ArithUint.MulBy32 | src/arith_uint256.cpp:54-64 | multiplication by a word modulo 2 to the width; the accumulator stays below 2^64 |
| ArithUint.Increment | src/arith_uint256.h:170-177 | adding one modulo 2 to the width |
| ArithUint.Complement | src/arith_uint256.h:66-72 | the bitwise complement is the distance from the largest number |
| ArithUint.Negate | src/arith_uint256.h:74-81 | the additive inverse |
| ArithUint.SubFrom | src/arith_uint256.h:144-148 | subtraction modulo 2 to the width |
| ArithUint.Fits64 | src/arith_uint256.cpp:72-76 | a product of words with a word and a carry added fits the 64-bit accumulator |
| ArithUint.AddRow | src/arith_uint256.cpp:70-77 | one row of the schoolbook product |
| ArithUint.MulStep | src/arith_uint256.cpp:69-77 | after j rows the accumulator is the product by the first j limbs |
| ArithUint.MulBy | src/arith_uint256.cpp:66-80 | multiplication modulo 2 to the width |
| ArithBits.CompareTo | src/arith_uint256.cpp:108-118 | the order of the numbers |
| ArithBits.Bits | src/arith_uint256.cpp:170-183 | the bit length |
| ArithBits.BitLengthUnique | src/arith_uint256.cpp:170-183 | which is unique |
| ArithBits.OrDisjoint | src/arith_uint256.cpp:28-33 | on numbers that share no bit, or is addition |
| ArithBits.ShlStep | src/arith_uint256.cpp:28-33 | one round of the left shift adds one limb's share and drops only what passes the top |
| ArithBits.ShiftLeft | src/arith_uint256.cpp:20-35 | multiplication by a power of two modulo 2 to the width, for every shift |
| ArithBits.ShrStep | src/arith_uint256.cpp:45-50 | one round of the right shift |
| ArithBits.ShiftRight | src/arith_uint256.cpp:37-52 | division by a power of two, rounded down, for every shift |
| ArithBits.SetBit | src/arith_uint256.cpp:99-99 | the quotient gains a bit that was clear |
| ArithBits.DividingStep | src/arith_uint256.cpp:96-103 | one round of long division: what is left stays below the divisor to come |
| ArithBits.DivBy | src/arith_uint256.cpp:82-106 | the quotient rounded down, or an error and zero where the divisor is zero |
| Compact.ByteLenBounds | src/arith_uint256.cpp:225-225 | the byte length brackets the number |
| Compact.SizeClass | src/arith_uint256.cpp:223-244 | the exponent tells the size of the number to within a byte, and the sign bit is clear |
| Compact.FieldsOf | src/arith_uint256.cpp:203-207 | the exponent, the sign bit and the mantissa make up the 32 bits, and nothing else |
| Compact.SignedFields | src/arith_uint256.cpp:235-243 | an exponent, the sign bit and a mantissa put together are read back |
| Compact.ExpandIs | src/arith_uint256.cpp:203-215 | the value is the mantissa times 256^(size-3), rounded down |
| Compact.NegativeForm | src/arith_uint256.cpp:235-243 | the encoding with the sign bit has the same value and mantissa, and the mantissa is zero exactly for zero |
| Compact.ExpandShrink | src/arith_uint256.cpp:203-244 | for every number: decoding its encoding is the multiple of the unit below it, so it never exceeds it and misses it by less than 256^(size-3); the negative flag cannot be set |
| Compact.SmallExact | src/arith_uint256.cpp:203-244 | below 0x800000 nothing is lost |
| Compact.ShrinkMonotone | src/arith_uint256.cpp:203-244 | rounding through the encoding keeps the order of numbers |
| Compact.OverflowTest | src/arith_uint256.cpp:216-219 | the three tests of the overflow flag hold exactly when the number does not fit 256 bits |
| Compact.SetCompact | src/arith_uint256.cpp:203-221 | the value modulo 2^256, and both flags exactly |
| Compact.GetCompact | src/arith_uint256.cpp:223-244 | the encoding of the value, with the sign bit where asked for; the two asserts hold |
| Compact.SignRoundTrip | src/arith_uint256.cpp:203-244 | as code: encoding a number as negative and decoding it gives the rounded number, with the negative flag exactly if it is not zero |
| Compact.EqualTo | src/arith_uint256.cpp:120-132 | comparison with a 64-bit number |
| Compact.TargetNotFull | src/chain.cpp:129-142 | a decoded target is never all ones, so adding one does not wrap |
| Compact.GetBlockProof | src/chain.cpp:129-142 | floor(2^256 / (target + 1)) for every accepted nBits, and 0 for the others |
| SkipHeights.InvertIs | src/chain.cpp:70-71 | the bit trick clears the lowest one bit |
| SkipHeights.SkipLower | src/chain.cpp:74-82 | the skip height is below the height |
| SkipHeights.ClearOne | src/chain.cpp:70-82 | a skip from an even height takes away one bit on the way to where the heights part |
| SkipHeights.EvenPasses | src/chain.cpp:96-99 | a skip pointer is passed over only where the block before skips two or three bits further |
| SkipHeights.StepBelow | src/chain.cpp:104-106 | the step back at the parting bit leads to a lower level |
| SkipHeights.StepsBound | src/chain.cpp:84-109 | the walk takes no more steps than the square of the parting level, one, and two for each bit above it |
| SkipHeights.SkipListShort | src/chain.cpp:74-109 | from any height to any ancestor: at most the square of the number of bits |
| Chain.AncestorLine | src/chain.cpp:84-109 | an ancestor's history is the beginning of the block's own |
| Chain.BlockIndex.constructor | src/chain.cpp:84-109 | a block after a valid one is valid |
| Chain.WalkIsLine | src/chain.cpp:84-109 | the linear walk gives the block at the height in the history |
| Chain.BlockIndex.GetAncestor | src/chain.cpp:84-109 | the block the linear walk along pprev gives, for every height, and null outside the range; no assert fails; with all skip pointers built the steps are at most the square of the number of bits of the height |
| Chain.BlockIndex.BuildSkip | src/chain.cpp:116-120 | the skip pointer leads to the ancestor at the skip height, and no block's pointer goes wrong |
| Chain.Meet | src/chain.cpp:163-178 | lines that share a block share everything below it |
| Chain.CommonAt | src/chain.cpp:163-178 | where lines agree at a height and differ above, the highest common block is there |
| Chain.LastCommonAncestor | src/chain.cpp:163-178 | the highest block on both lines, or null where they share none |
| Chain.ActiveChain.SetTip | src/chain.cpp:11-21 | the chain is exactly the line of the new tip, also when the loop stops early |
| Chain.ActiveChain.FindFork | src/chain.cpp:51-60 | the highest block of the chain on the line of the given one |
| Chain.ActiveChain.StepBack | src/chain.cpp:37-43 | the chain's index and the skip list give the same ancestor |
| Chain.ActiveChain.GetLocator | src/chain.cpp:23-49 | the hashes at the heights of the specification, on the line of the start |
| Chain.LocatorDescends | src/chain.cpp:23-49 | those heights start at the block, decrease, and end with the genesis block |
| Chain.LocatorShort | src/chain.cpp:23-49 | there are at most eleven of them and one per bit of the height |
| Chain.LocatorGaps | src/chain.cpp:23-49 | entry k + 1 is Gap(k) below entry k, or the genesis block where that is closer |
| Chain.GapIs | src/chain.cpp:44-45 | the gap is one up to the eleventh entry and then doubles |
| Bech32.StepLinear | src/bech32.cpp:85-96 | one step of the checksum is linear over exclusive or |
| Bech32.PolyLinear | src/bech32.cpp:42-99 | so is the checksum of lists of any length |
| Bech32.StepAlive | src/bech32.cpp:85-96 | a step never turns a nonzero remainder into zero |
| Bech32.PackDigits | src/bech32.cpp:140-145 | the six symbols cut from a remainder pack back into it |
| Bech32.DigitsOfPack | src/bech32.cpp:140-145 | and six symbols are determined by their remainder |
| Bech32.Completes | src/bech32.cpp:136-147 | exactly one choice of six symbols completes a message to a given remainder |
| Bech32.BurstDetected | src/bech32.cpp:42-99 | two lists of any length that differ only within at most six consecutive symbols have different checksums |
| Bech32.ChecksumIff | src/bech32.cpp:123-147 | six symbols at the end verify exactly when they are the checksum |
| Bech32.EncodesUnique | src/bech32.cpp:168-198 | a string encodes at most one message, under one encoding |
| Bech32.TypoDetected | src/bech32.cpp:168-198 | changing at most six consecutive characters of the data part is never accepted under the same encoding |
| Bech32.PolyMod | src/bech32.cpp:42-99 | the loop computes the remainder |
| Bech32.ExpandHrp | src/bech32.cpp:108-120 | the expansion of the prefix |
| Bech32.ExpandedParts | src/bech32.cpp:108-120 | the expansion holds the high bits of every character, a zero, and the low bits of every character |
| Bech32.ExpandInjective | src/bech32.cpp:108-120 | different prefixes have different expansions |
| Bech32.CharactersAre | src/bech32.cpp:102-105 | printable characters, letters of both cases, and the change to lower case |
| Bech32.FirstHalf | src/bech32.cpp:20-20 | the first sixteen characters of the alphabet |
| Bech32.SecondHalf | src/bech32.cpp:20-20 | the other sixteen |
| Bech32.ShortestClassic | src/test/bech32_tests.cpp:13-33 | the address without data for prefix a is a12uel5l |
| Bech32.ShortestModified | src/test/bech32_tests.cpp:35-53 | and a1lqfn3a in the modified encoding |
| Bech32.VerifyChecksum | src/bech32.cpp:123-133 | which encoding the remainder stands for, if any |
| Bech32.CreateChecksum | src/bech32.cpp:136-147 | the six symbols of the specification |
| Bech32.Encode | src/bech32.cpp:152-165 | the text of the message |
| Bech32.CheckCharacters | src/bech32.cpp:169-176 | exactly the strings that are printable and of one case |
| Bech32.FindLast | src/bech32.cpp:177-177 | the last separator |
| Bech32.Decode | src/bech32.cpp:168-198 | accepts exactly the strings of at most 90 characters that are, up to case, the text of a message with a prefix, and returns that message |
| Bech32.TextEncodes | src/bech32.cpp:152-165 | the text of any message with a lower-case printable prefix within 90 characters is such a string |
| Bech32.RoundTrip | src/bech32.cpp:152-198 | decoding what was encoded returns encoding, prefix and data |
| Bech32Errors.MapLinear | src/bech32.cpp:56-62 | a map given by the images of the bits is linear |
| Bech32Errors.MapAfter | src/bech32.cpp:56-62 | maps are composed by mapping the images |
| Bech32Errors.FullCircle | src/bech32.cpp:51-53 | the field element has order dividing 1023, and none of 33, 93 and 341 |
| Bech32Errors.NoShortcut | src/bech32.cpp:51-53 | its order is 1023: fewer multiplications move every element but zero |
| Bech32Errors.Roots | src/bech32.cpp:49-53 | three consecutive powers of it are roots of the generator with the constants of the code |
| Bech32Errors.EvalStep | src/bech32.cpp:69-96 | at a root, a step of the loop is a step of evaluating the message |
| Bech32Errors.HornerPoly | src/bech32.cpp:69-97 | at a root, the remainder is the message, for every length |
| Bech32Errors.Vandermonde | src/bech32.cpp:51-53 | three symbols that cancel at the three roots are zero |
| Bech32Errors.ThreeErrorsDetected | src/bech32.cpp:51-53 | two messages of any length that differ in up to three symbols within a window of 1023 have different checksums |
| Bech32Errors.ThreeTyposDetected | src/bech32.cpp:51-53 | up to three wrong characters after the separator never decode under the same encoding |
| Bech32Errors.PrefixTypoDetected | src/bech32.cpp:51-53 | one wrong character of the prefix together with up to one after the separator never decodes under the same encoding |
| Bech32Errors.PrefixBurstDetected | src/bech32.cpp:42-99 | a change within consecutive characters of the prefix never decodes under the same encoding where the length of the prefix, one, and the length of the change are at most six; so no change of a prefix of up to two characters does |
| Base58.EncodeRoom | src/base58.cpp:97-97 | 256^n <= 58^(n*138/100+1) for every n |
| Base58.DecodeRoom | src/base58.cpp:52-52 | 58^n <= 256^(n*733/1000+1) for every n |
| Base58.MulAdd | src/base58.cpp:101-111 | the number in the buffer is multiplied and added to; with room for it no carry is left, so the assert holds |
| Base58.WrittenUnique | src/base58.cpp:114-117 | a big-endian number without leading zeros is the one written |
| Base58.AlphabetIs | src/base58.cpp:17-38 | the digits stand in the order of their characters, which are all letters and digits but 0, O, I and l; the six spaces |
| Base58.Encode | src/base58.cpp:87-125 | ones for leading zero bytes, then the number in base 58; the buffer suffices for all lengths |
| Base58.ReadWord | src/base58.cpp:54-71 | reads up to a space, giving up exactly at a bad character or past the limit |
| Base58.Decode | src/base58.cpp:38-85 | returns the bytes of exactly the strings that read as ones and a word between spaces within the limit; the buffer suffices for all lengths |
| Base58.DecodesUnique | src/base58.cpp:38-85 | a string has at most one reading |
| Base58.DecodeOfEncode | src/base58.cpp:38-125 | decoding the encoding of any byte string within the limit returns it |
| Base58.EncodeOfDecode | src/base58.cpp:38-125 | an accepted string without spaces is the encoding of what it decodes to |
| CompactBlock.PositionsIncrease | src/blockencodings.cpp:61-76 | prefilled positions strictly increase |
| CompactBlock.PositionsDecode | src/blockencodings.h:69-76 | places sent as distances from the last one are read back as those places |
| CompactBlock.WellPlacedIff | src/blockencodings.cpp:61-76 | the prefilled transactions have their places exactly if all are real and the last is inside the block and within 16 bits |
| CompactBlock.PlacedAt | src/blockencodings.cpp:61-76 | each prefilled transaction is in range, at its position, and never overwritten |
| CompactBlock.PlacedFree | src/blockencodings.cpp:59-76 | as many slots stay free as there are short ids |
| CompactBlock.SlotsDistinct | src/blockencodings.cpp:83-88 | no two short ids share a slot |
| CompactBlock.FreeSorted | src/blockencodings.cpp:83-88 | slots are given out in order |
| CompactBlock.SizedStep | src/blockencodings.cpp:83-105 | the table has as many entries as short ids exactly when none repeats |
| CompactBlock.MatchSet | src/blockencodings.cpp:110-165 | setting the slot of one short id as its fate demands keeps the account of matches |
| CompactBlock.FateExplained | src/blockencodings.cpp:110-165 | the fate of a slot without the walk: empty if nothing answers, emptied if and only if two answers clash, and else the first answer |
| CompactBlock.MatchFull | src/blockencodings.cpp:131-132 | the count reaches the number of short ids exactly if every slot holds a transaction |
| CompactBlock.PartialBlock.PlacePrefilled | src/blockencodings.cpp:61-76 | succeeds exactly when every prefilled transaction has a place that leaves no unfillable gap |
| CompactBlock.PartialBlock.NextSlot | src/blockencodings.cpp:86-87 | the scan finds the next free slot and never leaves the block |
| CompactBlock.PartialBlock.IndexShortIds | src/blockencodings.cpp:83-105 | each short id is mapped to its own slot; fails exactly when an id repeats or a bucket is crowded |
| CompactBlock.PartialBlock.Match | src/blockencodings.cpp:107-165 | goes through the list to its end or to the first point where all are found; every slot is then exactly as its fate up to there says, and mempool_count is the number filled |
| CompactBlock.PartialBlock.InitData | src/blockencodings.cpp:50-170 | the status exactly, and on success how far each list is gone through and what every slot holds |
| CompactBlock.PartialBlock.MissingIndexes | src/blockencodings.cpp:172-176 | the places not available, in order |
| CompactBlock.PartialBlock.FillBlock | src/blockencodings.cpp:178-221 | refused exactly when the number of transactions sent is not the number missing; otherwise the slots with the missing ones put in in order; with too few, the ones before the first that is missing have been moved out |
| CompactBlock.FoundIff | src/blockencodings.cpp:107-165 | a short id over which no two transactions at hand clash is filled if and only if one of them answers to it, early exit or not |
| CompactBlock.ClashEmpties | src/blockencodings.cpp:116-165 | two that clash before the exit leave the slot empty |
| CompactBlock.NothingMissing | src/blockencodings.cpp:107-176 | with an answer at hand to every short id and no clash nothing is missing |
| CompactBlock.PoolComplete | src/blockencodings.cpp:107-176 | with every transaction of the block among those at hand, listed under the hash the short ids are made of, and no two answering to one id, every short id has its answer |
| CompactBlock.FilledIs | src/blockencodings.cpp:185-193 | where slots agree with a block and the missing ones are sent in order, the result is the block |
| CompactBlock.Shorten | src/blockencodings.cpp:19-30 | the compact form of a block |
| CompactBlock.ShortenedSlots | src/blockencodings.cpp:19-30 | its short id i stands for transaction i + 1 |
| CompactBlock.MatchedOwn | src/blockencodings.cpp:50-170 | without foreign matches every slot filled holds the block's own transaction |
| CompactBlock.Reconstruct | src/blockencodings.cpp:19-221 | sending a block in compact form and asking for what is missing rebuilds exactly that block; what is asked for is, in order, what no transaction at hand stands for; with everything at hand that is nothing |

## Left out

- AddrStore.Unserialize: older file formats are not modelled.
- AddrCheck.Check: which of the nineteen error codes is returned for an inconsistent state, as long as it is not zero.
- AddrMan.Manager.Good: clock times of zero or below are excluded, since a tried entry without a time of success is what the consistency check reports; the same holds for the members that pass a clock time on to it.
- AddrMan.Manager.Resolve: as for `Good`.
- AddrMan.Manager.Replace: as for `Good`.
- AddrMan.Manager.ResolveCollisions: as for `Good`.
- AddrMan.Manager.Attempt: negative clock times are excluded, for the same reason.
- Coins.CoinsViewCache.FetchCoin: over the store, whether an outpoint neither cached nor visible gets an entry is left open, as for `SpendCoin`.
- Coins.CoinsViewCache.SpendCoin: over a cache the returned flag is exact; over the store, for an outpoint neither cached nor visible, it is left open, since the store of the unit tests may or may not report a spent coin it holds.
- CompactBlock.PartialBlock.InitData: messages with more than 65535 transactions, which deserialization refuses, are excluded; `extra_count` is not modelled.
- RollingBloom.Filter.constructor: the sizes, computed in floating point, are parameters; a filter for zero elements is excluded.
- CuckooCache.Cache.Setup: the depth limit, a floating-point logarithm, is a parameter.
- The choice of an address to connect to (`Select_`, `GetChance`): floating-point chances.
- Detection of four wrong symbols within 89 by the base-32 checksum, which rests on a search over all error patterns.
- The figure of 110 steps for walks over 2^18 blocks, which the code gives as an observation; the bound proved is 324.
- Stop requests and shutdown of the check queue, and the controller object around it.
- The database itself, its crash recovery marks, cursors and byte encodings; memory accounting of caches.
- The bloom filter of peers (`CBloomFilter`) and false-positive rates.
- SHA256, SipHash and MurmurHash: keyed and pair hashes are arbitrary functions, injective where a lemma says so.
- Base58 with checksum and the address formats built on both encodings.
- Proof-of-stake fields of blocks, difficulty adjustment, and `GetBlockProofEquivalentTime`.
- Networking, wallet, RPC, script interpretation and consensus validation.
