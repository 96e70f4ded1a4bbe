# Radiant Core node: verified models of its stateful indexes, queues and encodings

This project models the parts of the node that keep state under many kinds of change, or that
compute with numbers wider than a machine word, and proves what the rest of the node relies on.
`dafny verify dfyconfig.toml` checks all of it.

| files | component |
|---|---|
| AddrManSpec, AddrManSteps, AddrManOps, AddrManRuns, AddrManSample, AddrManDump, AddrManRoundTrip, AddrManLosses, AddrManEffects, AddrMan, AddrManDisk, AddrManCheck | the address manager: two bucket tables, an address index, a random order, reference counts and pending collisions; its operations and what each does to the tables, its sampling, its self-check, saving and loading |
| CheckQueue | the script-check queue as a step relation over a master and its workers |
| Coins | stacks of coin caches with DIRTY and FRESH flags over a database |
| Words, Cuckoo | the cuckoo cache with bit-packed flags and epochs |
| Bloom | the rolling bloom filter with generation tags in word pairs |
| Chain | the block index tree with skip pointers, and the active chain |
| Bits, Arith, ArithUint, Compact | limb arithmetic, compact targets and block proof |
| BitStream, Gcs | bit streams, Golomb-coded sets (BIP 158) and their matching |
| CompactBlocks | reconstruction of compact blocks (BIP 152) |
| Base58, Amount | base 58 and amount compression |
| Common | definitions that several components share |

Objects that the program changes in place are classes here, with the same fields and the same loops;
each method is proved against a function of the old state or against the property it exists for, and
the properties over whole runs are proved about those functions or kept as class invariants.
Exceptions are result values. Hash functions are parameters: functions of the right type about which
nothing is assumed. Clocks, random draws and the outcome of block validation are parameters too.
Products, quotients and remainders have names in `Bits` (`Mul`, `Div`, `Mod`), so that proofs about
limbs and digits use their laws and nothing else.

Some results differ from what the program's own text says, or have an exact boundary:

- Amounts: of the amounts up to the largest one the node accepts (2100000000000000000, src/amount.h:34),
  compressing and decompressing gives back exactly those that are at most 2049638230412172402 or a
  multiple of ten (`Amount.RoundTrip`); the first that is lost comes back as 10000
  (`Amount.LimitIsTight`).
- Compact blocks: the comment at src/blockencodings.cpp:75 says that a prefilled index cannot overflow.
  The sum is taken in 32 bits, so index 2^32 - 1 adds nothing: the transaction then takes the place of
  the one before it (`CompactBlocksSpec.SharedPosition`). `CompactBlocksSpec.PositionsAreApart` and
  `CompactBlocksSpec.FreeIsExact` give the exact condition, which every list read off the wire meets
  (`CompactBlocksSpec.FreshIsExact`).
- Golomb-coded sets: a filter of more than 0x02000000 elements can be built but not read back, since
  the reader bounds the size; `GcsSpec.BuiltOpens` gives the exact condition.
- Cuckoo cache: the comment at src/cuckoocache.h:464-465 says that the first displaced slot is the
  first of the eight; the code takes the second. The model follows the code (`Cuckoo.Cache.NextLoc`).
- Coin caches: the throw of `AddCoin` leaves the memory count without the old coin
  (src/coins.cpp:114-121). Without permission to overwrite, a coin that lies below and has not been
  loaded is not noticed, and the new entry is FRESH with a coin below. `Coins.Cache.AddCoin` states
  both, and that the flags are right in all other cases.

## Model

| member | source | states |
|---|---|---|
| AddrManRuns.Run | src/addrman.cpp:298-740 | every sequence of additions, promotions, attempts, connections, service updates, samplings, collision resolutions and collision selections from the empty manager, with positive times, reaches a state in which the whole self-check invariant holds |
| AddrManRuns.ApplyConsistent | src/addrman.cpp:298-740 | each single operation keeps that invariant |
| AddrManRuns.InitConsistent | src/addrman.h:563-585 | the empty manager has it |
| AddrManRuns.GoodConsistent | src/addrman.cpp:220-296 | marking an address as good keeps it, whether the address is promoted, unknown, already tried or put on the pending list |
| AddrManRuns.AddConsistent | src/addrman.cpp:298-380 | adding an address keeps it, including the deletion of a fresh entry that found no bucket |
| AddrManRuns.AttemptConsistent | src/addrman.cpp:382-405 | recording an attempt keeps it |
| AddrManRuns.ConnectedConsistent | src/addrman.cpp:594-615 | recording a connection keeps it |
| AddrManRuns.SetServicesConsistent | src/addrman.cpp:617-635 | updating services keeps it |
| AddrManRuns.ResolveConsistent | src/addrman.cpp:642-709 | resolving one pending collision keeps it |
| AddrManRuns.ResolveTakesOne | src/addrman.cpp:642-709 | resolving a collision takes at most that one id off the pending set, so iterating while erasing is safe |
| AddrManRuns.SelectConsistent | src/addrman.cpp:713-740 | selecting a pending collision keeps the invariant and all ids, addresses and occupied tried slots, and answers only with tried entries |
| AddrManRuns.PendingFacesEntry | src/addrman.cpp:276-289 | the tried slot of a pending entry is occupied by a tried entry, so no lookup of id -1 happens |
| AddrManRuns.ApplyGrows | src/addrman.cpp:112-118 | no operation reuses an id, changes the address of a surviving entry or empties an occupied tried slot |
| AddrManRuns.RunsGrow | src/addrman.cpp:112-380 | the same between every prefix of a run and the whole run |
| AddrManRuns.NewEntryHasSlot | src/addrman.cpp:248-269 | an entry that is not tried holds a slot of the new table, so the search for its bucket succeeds |
| AddrManEffects.TerribleIs | src/addrman.cpp:51-79 | when an entry is worth nothing, in seconds and numbers of attempts |
| AddrManEffects.GoodEffect | src/addrman.cpp:220-296 | on the tables: the entry is marked as reached now; a new one moves to its tried slot exactly when that is free or need not be tested first, and its holder moves to the new slot of its own source; otherwise it waits, if fewer than ten do; nothing else changes |
| AddrManEffects.ResolveEffect | src/addrman.cpp:642-709 | a pending entry takes its slot exactly when the holder was not reached for four hours and either was tried in them, more than a minute ago, or was not and the entry has waited for more than forty minutes; otherwise the tables stay, and it stops waiting exactly when the holder was reached within four hours |
| AddrManEffects.ResolveOther | src/addrman.cpp:642-657 | a pending id without a valid entry is only taken off; an entry that already has its slot stays there |
| AddrManEffects.LoopEffect | src/addrman.cpp:637-711 | the whole loop: a pending entry that shares its slot with no other pending one takes it exactly when it wins against the holder from before the loop and is not dropped in between; it still waits only if it did not win and the holder was not reached within four hours |
| AddrManEffects.LoopDropsStale | src/addrman.cpp:637-711 | the loop takes off every pending id whose entry has gone |
| AddrManEffects.PlaceEffect | src/addrman.cpp:359-378 | an entry takes a slot exactly when that is free, the entry there is worth nothing, or that one has another place and this one none; an entry without a place is dropped |
| AddrManEffects.AddKnownEffect | src/addrman.cpp:298-380 | a known address: what happens to its time and services, and that it gets a further place exactly when the announcement is newer, it is new with fewer than eight places, one draw in 2^places succeeds and the slot can be taken |
| AddrManEffects.AddUnknownEffect | src/addrman.cpp:298-380 | an unknown address uses up an id and is kept exactly when its slot can be taken, then with the announced services, the time less the penalty and no history; an address that is not routable changes nothing |
| AddrManEffects.AttemptEffect | src/addrman.cpp:382-405 | the time of the attempt is noted, and counts as a failure once per time that some address was good; nothing else changes |
| AddrManEffects.ConnectedEffect | src/addrman.cpp:594-615 | the time moves exactly when it is more than twenty minutes old |
| AddrManEffects.SetServicesEffect | src/addrman.cpp:617-635 | the services of exactly that entry are replaced |
| AddrManEffects.SelectEffect | src/addrman.cpp:713-740 | the selected id is the one with as many smaller pending ids as the draw says; the answer is the entry in its tried slot |
| AddrManEffects.NthIdRank | src/addrman.cpp:718-722 | the id at a position of the ordered set has that many smaller ones |
| AddrManEffects.SampleCapIs | src/addrman.cpp:568-576 | a sample may be as large as the percentage and the number allow, and no larger |
| AddrManEffects.SwapEffect | src/addrman.cpp:125-143 | exactly two places of the random order are exchanged |
| AddrManEffects.DrawReaches | src/addrman.cpp:583-584 | every position that is left can be drawn |
| AddrManOps.MakeTriedCore | src/addrman.cpp:172-218 | promotion removes the entry from every new bucket, moves an evicted occupant back to the new table, and keeps every count exact |
| AddrManOps.EvictCore | src/addrman.cpp:191-212 | eviction puts the old occupant into its own new slot, displacing what was there |
| AddrManSteps.ClearNewCore | src/addrman.cpp:158-170 | clearing a slot of the new table empties exactly that slot, drops its entry when that was its last reference, and keeps tables, indexes and counts right |
| AddrManSteps.DeleteCore | src/addrman.cpp:145-156 | deleting an unreferenced entry keeps address map, info map and random order mutually inverse |
| AddrManSteps.SwapRandomIndex | src/addrman.cpp:125-143 | exchanging two places of the random order keeps the positions stored in the entries right |
| AddrManSample.SampleIsSound | src/addrman.cpp:568-592 | a sample has no address twice and no terrible one, is within its cap, and when it is smaller than the cap it has every fit entry |
| AddrManSample.RandomSize | src/addrman.cpp:472-474 | the random order has as many ids as the two counters together |
| AddrMan.AddrMan.constructor | src/addrman.h:563-585 | the new object stands for the empty manager |
| AddrMan.AddrMan.Clear | src/addrman.h:563-585 | everything but the pending collisions is as in the empty manager |
| AddrMan.AddrMan.SwapRandom | src/addrman.cpp:125-143 | the object afterwards stands for the state with two places of the random order exchanged |
| AddrMan.AddrMan.Delete | src/addrman.cpp:145-156 | refines deletion |
| AddrMan.AddrMan.ClearNew | src/addrman.cpp:158-170 | refines clearing a slot of the new table |
| AddrMan.AddrMan.LeaveNewBuckets | src/addrman.cpp:173-183 | looking at one position per bucket removes the entry from the whole new table |
| AddrMan.AddrMan.EvictFrom | src/addrman.cpp:191-212 | refines eviction |
| AddrMan.AddrMan.MakeTried | src/addrman.cpp:172-218 | refines promotion |
| AddrMan.AddrMan.FindBucket | src/addrman.cpp:253-263 | finds a bucket of the entry exactly when it has one |
| AddrMan.AddrMan.Good | src/addrman.cpp:220-296 | refines marking as good |
| AddrMan.AddrMan.Place | src/addrman.cpp:359-378 | refines the last part of an addition: the slot is taken, or the entry is dropped when it is in no bucket |
| AddrMan.AddrMan.Create | src/addrman.cpp:112-123 | a fresh id, not used before, enters all three indexes |
| AddrMan.AddrMan.Refresh | src/addrman.cpp:314-325 | changes one entry only: its time when the announcement is newer by the interval and the penalty, and its services |
| AddrMan.AddrMan.Add | src/addrman.cpp:298-380 | refines addition, with the result that the source returns |
| AddrMan.AddrMan.Attempt | src/addrman.cpp:382-405 | refines recording an attempt |
| AddrMan.AddrMan.Connected | src/addrman.cpp:594-615 | refines recording a connection |
| AddrMan.AddrMan.SetServices | src/addrman.cpp:617-635 | refines updating services |
| AddrMan.AddrMan.GetAddr | src/addrman.cpp:568-592 | returns the sample and leaves the state with the random order it was drawn from |
| AddrMan.AddrMan.ResolveCollisions | src/addrman.cpp:637-711 | refines resolving all pending collisions in increasing order of id |
| AddrMan.AddrMan.SelectTriedCollision | src/addrman.cpp:713-740 | refines the selection: the drawn id, counted in increasing order, is taken off when stale, otherwise the answer is the entry that occupies its tried slot |
| AddrMan.Advance | src/addrman.cpp:718-722 | finds the k-th smallest id of an ordered set |
| AddrMan.SlotNeverFreed | src/addrman.cpp:698-702 | the branch for a tried slot that has become free is never taken |
| AddrManDump.LoadedIsConsistent | src/addrman.h:411-561 | loading any sane dump gives a consistent manager, whatever the asmap and the stored bucket count |
| AddrManRoundTrip.IntactLosesNothing | src/addrman.h:411-561 | from a dump whose entries have slots of their own every entry comes back and nothing is pruned |
| AddrManRoundTrip.SavedIsSane | src/addrman.h:351-409 | what saving writes has no address twice and the announced numbers of records |
| AddrManRoundTrip.SavedIsIntact | src/addrman.h:351-409 | in what saving writes every entry has a slot of its own |
| AddrManRoundTrip.RoundTrip | src/addrman.h:351-561 | saving a consistent manager and loading it with the same asmap gives the same addresses, each with the same services, time, source, last success and attempts, tried entries in their slots and new entries in a slot they had |
| AddrManLosses.FirstTriedComesBack | src/addrman.h:475-492 | whatever the asmap: of the tried records that claim one slot the first comes back, in that slot |
| AddrManLosses.NewComesBack | src/addrman.h:464-552 | whatever the asmap: a new record comes back, unless the slot of its source is taken |
| AddrManLosses.ChangedBucketing | src/addrman.h:513-539 | with an older format, another number of buckets or another asmap, all new entries are in the slots of their sources |
| AddrManDump.FlipBit30Is | src/addrman.h:365 | the stored bucket count differs in bit 30 and in no other one |
| AddrManDisk.Serialize | src/addrman.h:351-409 | writes the dump of the state |
| AddrManDisk.Unserialize | src/addrman.h:411-561 | reads a dump into the state that loading means; dumps with impossible counts are refused |
| AddrManDisk.SavedIsAccepted | src/addrman.h:442-461 | the size checks of loading accept what saving writes |
| AddrManDisk.Pigeonhole | src/addrman.h:442-461 | entries with slots of their own are at most as many as the slots |
| AddrManCheck.Check | src/addrman.cpp:468-565 | the self-check returns 0 exactly when the checked part of the invariant holds and the key is not null |
| AddrManCheck.CheckEntry | src/addrman.cpp:479-509 | no fault is found exactly when the entry has what is asked of it |
| AddrManCheck.CheckEntries | src/addrman.cpp:476-510 | the walk over the entries finds a fault exactly when there is one |
| AddrManCheck.CheckTried | src/addrman.cpp:519-535 | the walk over the tried table accepts exactly when each tried entry is in its own slot and nothing else is there |
| AddrManCheck.CheckNew | src/addrman.cpp:537-552 | the walk over the new table accepts exactly when positions and reference counts are right |
| AddrManCheck.ConsistentIsChecked | src/addrman.cpp:468-565 | the invariant implies a clean verdict |
| AddrManCheck.CheckedIsConsistent | src/addrman.cpp:468-565 | a clean verdict, with what the checker does not look at, implies the invariant |
| CheckQueue.TakeBatch | src/checkqueue.h:117-124 | the batch is the back of the queue, reversed by the swaps, and the queue keeps the rest |
| CheckQueue.Execute | src/checkqueue.h:129-133 | checks run in order until the first failure, and the result is their conjunction |
| CheckQueue.StepInv | src/checkqueue.h:65-136 | every step of every thread keeps the invariant, in which the number of checks to do equals the queue plus all batches in hand |
| CheckQueue.BehaviourInv | src/checkqueue.h:65-181 | the invariant holds in every state of every interleaving |
| CheckQueue.WaitIsExact | src/checkqueue.h:65-136 | in every interleaving the master returns true exactly when every check submitted since its last return yields true; then each of them was executed; nothing is queued or in a batch then |
| CheckQueue.NoLostWakeup | src/checkqueue.h:76-127 | when the master sleeps without a notification, the queue is empty, work is left, and a worker holds a batch |
| CheckQueue.LastStepNotifies | src/checkqueue.h:76-87 | the step that finishes the last check is a worker's and notifies the waiting master |
| CheckQueue.BatchesAreFair | src/checkqueue.h:108-126 | a batch has between one check and the whole queue, batch and queue together are the old queue, and the batch is the most that is within the limit and leaves as much for each other thread |
| CheckQueue.FailureStopsWork | src/checkqueue.h:125-133 | once a failure is known, a batch starts failed, stays failed and none of its checks runs |
| CheckQueue.EffortDecreases | src/checkqueue.h:65-136 | every step but a wake-up without a notification lowers a measure that is never negative |
| CheckQueue.EffortNeverRises | src/checkqueue.h:65-136 | while the master waits no step at all raises that measure |
| CheckQueue.WaitIsBounded | src/checkqueue.h:65-136 | in every stretch of every interleaving in which the master stays in its wait, the steps other than wake-ups for nothing number at most the measure at the start |
| CheckQueue.NeverStuck | src/checkqueue.h:65-136 | while the master waits such a step is possible, so it cannot hang |
| Coins.Cache.FetchCoin | src/coins.cpp:69-91 | in a stack of any depth the entry found shows the coin of the layered view, an entry is found exactly when there is a coin or a cached entry, and the views of all layers down to the database stay the same |
| Coins.Cache.GetCoin | src/coins.cpp:93-100 | returns the coin of the layered view exactly when there is one |
| Coins.Cache.AccessCoin | src/coins.cpp:165-171 | returns that coin, or the empty coin |
| Coins.Cache.HaveCoin | src/coins.cpp:173-176 | true exactly when the view has an unspent coin |
| Coins.Cache.AddCoin | src/coins.cpp:102-128 | the view gains exactly that coin and the memory count stays exact; the new entry is given with its flags; the throw happens exactly when the cache has a coin that may not be overwritten; the flags keep their meaning exactly unless a coin below that was not loaded is overwritten without permission |
| Coins.Cache.Put | src/coins.cpp:124-127 | the entry shows the coin and the count is exact again; the flags are right exactly when a fresh entry has nothing below |
| Coins.Cache.SpendCoin | src/coins.cpp:145-161 | the view loses exactly that coin; the call succeeds exactly when there was a coin or a cached entry, and hands over the coin or an empty one; flags, memory count and the views of all layers below stay right |
| Coins.Cache.Take | src/coins.cpp:150-160 | the part behind the look-up: a fresh entry goes, another becomes a spent one, and the view loses the coin either way |
| Coins.Cache.Uncache | src/coins.cpp:266-272 | the view does not change; exactly an entry that is neither dirty nor fresh goes |
| Coins.Cache.WriteEntry | src/coins.cpp:199-253 | one flushed entry changes the view as the entry says; the throw for a misapplied flag is not reached |
| Coins.Cache.BatchWrite | src/coins.cpp:194-257 | a whole map of entries, in any order, turns the view into that of the child |
| Coins.Cache.Flush | src/coins.cpp:259-264 | the layer below shows what this one showed, its own flags and memory count are right, and this one is empty with the same view |
| Coins.Database.BatchWrite | src/txdb.cpp:104-114 | the database holds what the flushed cache showed |
| CoinsSpec.MergeIsRight | src/coins.cpp:199-253 | an entry whose flags mean what they say merges without the throw, shows through, and leaves the flags of the layer right |
| CoinsSpec.MergeLeavesNoTrace | src/coins.cpp:199-253 | a spent coin that was fresh in either layer leaves no entry, an unspent one stays fresh, and no other entry changes |
| CoinsSpec.UsageIs | src/memusage.h:30-41 | a script of more than 28 bytes takes the least multiple of sixteen with sixteen bytes to spare |
| CoinsSpec.UnspendableIs | src/script/script.h:874-877 | unspendable are exactly the scripts that begin with OP_FALSE OP_RETURN |
| CoinsSpec.OverlayStep | src/coins.cpp:194-257 | entries one by one add up to the whole view of the child |
| CoinsSpec.FetchShowsSame | src/coins.cpp:79-88 | caching what lies below changes nothing visible and has right flags |
| Cuckoo.BitPackedFlags.constructor | src/cuckoocache.h:59-66 | all flags are set |
| Cuckoo.BitPackedFlags.BitSet | src/cuckoocache.h:90-92 | sets one flag and no other |
| Cuckoo.BitPackedFlags.BitUnset | src/cuckoocache.h:101-103 | clears one flag and no other |
| Cuckoo.BitPackedFlags.BitIsSet | src/cuckoocache.h:111-113 | reads that flag |
| Cuckoo.Cache.constructor | src/cuckoocache.h:361-388 | nothing is live, the epoch is 45 per cent of the size in 32 bits, and the invariant holds |
| Cuckoo.Cache.EpochCheck | src/cuckoocache.h:319-354 | while the counter runs nothing changes; then an epoch with enough live elements ends, flag by flag, and otherwise the counter is the least number that is positive, at least a sixteenth of an epoch and enough to fill the epoch |
| Cuckoo.Cache.CountUnused | src/cuckoocache.h:326-330 | counts exactly the live elements of the latest epoch |
| Cuckoo.Cache.Age | src/cuckoocache.h:336-342 | the older epoch becomes erasable, the latest becomes the older |
| Cuckoo.Cache.Insert | src/cuckoocache.h:432-488 | a key found in one of its eight slots, taken in the order of the hashes, is renewed there; otherwise the first of them that may be overwritten gets the element and nothing is dropped; with none, a chain of displacements conserves all elements but at most one |
| CuckooSpec.LocsAre | src/cuckoocache.h:262-287 | slot j of a key is its hash j, as a fraction of 2^32, taken of the size |
| Cuckoo.FreeIsFirst | src/cuckoocache.h:449-459 | with a free slot the first free one is taken and nothing is dropped |
| Cuckoo.NextSlotIs | src/cuckoocache.h:475-478 | the slot after the last one in the order of the hashes, cyclically, and that of the second hash at first |
| Cuckoo.Cache.Chain | src/cuckoocache.h:449-487 | the loop is the chain of displacements: the first free slot, else the next slot and on with its element, and what is in hand at the depth limit is dropped |
| Cuckoo.DisplacedConserves | src/cuckoocache.h:449-487 | any such chain conserves elements up to the one dropped, adds at most one recent element, and keeps every key at home and unique |
| Cuckoo.Cache.NextLoc | src/cuckoocache.h:475-478 | the next slot in cyclic order, the second one when the last slot is none of the eight |
| Cuckoo.Cache.Find | src/cuckoocache.h:544-555 | a live key is found; a real key is found exactly when it is stored, at its only slot; erasing marks just that slot |
| CuckooSpec.AgedLeavesRoom | src/cuckoocache.h:319-354 | whatever the epoch check decides, there is room for one more recent element under the limit |
| CuckooSpec.AgedKeepsRecent | src/cuckoocache.h:335-343 | what stays live through an ageing is exactly as many elements as were recent |
| CuckooSpec.RecentCounts | src/cuckoocache.h:326-330 | the count is that of the live slots of the latest epoch |
| CuckooSpec.PutLive | src/cuckoocache.h:449-487 | changing one slot changes the multiset of live elements by exactly that slot |
| CuckooSpec.PutRecent | src/cuckoocache.h:449-487 | and the count of recent ones likewise |
| CuckooSpec.NotFoundIsAbsent | src/cuckoocache.h:439-448 | a key that is in none of its eight slots is in no slot |
| Cuckoo.LiveIsFound | src/cuckoocache.h:544-555 | the search finds every live key |
| Words.HighWord | src/bloom.cpp:263-265 | the multiply-shift reduction is the exact quotient and in range |
| Bloom.RollingBloomFilter.constructor | src/bloom.cpp:216-250 | the words for so many positions, all unset, with the given hash functions |
| Bloom.RollingBloomFilter.Reset | src/bloom.cpp:315-320 | the filter remembers nothing, under a new tweak |
| Bloom.RollingBloomFilter.Wipe | src/bloom.cpp:274-282 | exactly the positions that carry the generation become unset |
| Bloom.RollingBloomFilter.Mark | src/bloom.cpp:287-297 | exactly one position gets the current generation |
| Bloom.RollingBloomFilter.MarkAll | src/bloom.cpp:286-298 | exactly the positions of the key get the current generation |
| Bloom.RollingBloomFilter.Insert | src/bloom.cpp:267-299 | one more key is remembered: all its positions carry the generation, the other positions keep theirs or are wiped with the reused generation, and the counters advance |
| Bloom.RollingBloomFilter.Contains | src/bloom.cpp:301-313 | true exactly when all positions of the key are set; always true for the last 2 * entriesPerGeneration + entriesThisGeneration keys, so for the last N |
| BloomSpec.KeyTagIs | src/bloom.cpp:253-265 | the positions of a key, from its hashes: the fraction of 2^32 selects the pair of words, the low six bits the bit |
| BloomSpec.SeedsDiffer | src/bloom.cpp:253-257 | the hash functions of a filter have different seeds |
| BloomSpec.WipePair | src/bloom.cpp:274-281 | the word-pair mask clears exactly the positions with the generation and keeps the others |
| BloomSpec.SetPair | src/bloom.cpp:294-297 | the two masked writes change one position |
| BloomSpec.Rotate | src/bloom.cpp:268-283 | after the wipe the two younger generations are still remembered |
| BloomSpec.FirstOfGeneration | src/bloom.cpp:267-299 | the first key of a generation moves all generations by one |
| BloomSpec.NextOfGeneration | src/bloom.cpp:267-299 | a further key of a generation keeps what is remembered |
| Chain.InvertLowestOneTakesIt | src/chain.cpp:80-82 | clearing the lowest bit subtracts the largest power of two that divides the number |
| Chain.GetSkipHeight | src/chain.cpp:85-95 | the skip height is below the height |
| Chain.SkipHeightIs | src/chain.cpp:80-95 | an even height loses its lowest one bit, an odd one the two lowest above its last bit |
| Chain.BlockIndex.constructor | src/validation.cpp:3533-3546 | a block under its parent continues the parent's line |
| Chain.BlockIndex.GetAncestor | src/chain.cpp:97-121 | equals following parents, for every height, and null outside the range |
| Chain.BlockIndex.BuildSkip | src/chain.cpp:128-132 | the skip pointer is the ancestor at the skip height |
| Chain.BlockTree.AddToBlockIndex | src/validation.cpp:3523-3546 | in every tree built block by block all skip pointers are right |
| Chain.WalkIsLine | src/chain.cpp:97-121 | following parents runs down the line of the block |
| Chain.LastCommonAncestor | src/chain.cpp:172-194 | the result is the last common block, null for blocks of two trees; the two skip targets have equal heights |
| Chain.AreOnTheSameFork | src/chain.cpp:196-203 | true exactly when one block is an ancestor of the other |
| Chain.LastCommonIsOne | src/chain.cpp:172-194 | the last common block is determined |
| Chain.AncestorIsWalk | src/chain.cpp:97-121 | being on the line is being reached by following parents |
| Chain.ActiveChain.SetTip | src/chain.cpp:12-23 | despite the early exit the chain is the whole line of the new tip |
| Chain.ActiveChain.FindFork | src/chain.cpp:56-67 | the result is the last common block of tip and argument |
| Chain.ActiveChain.GetLocator | src/chain.cpp:25-54 | the locator has exactly the ancestors at the planned heights |
| Chain.HeightsFacts | src/chain.cpp:25-54 | the planned heights fall strictly and end at the genesis block |
| Chain.HeightsAre | src/chain.cpp:25-54 | the heights in closed form: one back per entry for the first eleven, then two, four, eight and so on, ending at the genesis block |
| Chain.KnownBelow | src/chain.cpp:18-22 | where the old chain has a block of the new line it has everything below it |
| ArithUint.BaseUint.constructor | src/arith_uint256.h:58-68 | the limbs stand for the 64-bit number |
| ArithUint.BaseUint.Complement | src/arith_uint256.h:72-78 | 2^bits - 1 minus the number |
| ArithUint.BaseUint.Negative | src/arith_uint256.h:80-87 | minus the number modulo 2^bits |
| ArithUint.BaseUint.Increment | src/arith_uint256.h:169-176 | plus one modulo 2^bits |
| ArithUint.BaseUint.AddAssign | src/arith_uint256.h:136-144 | the sum modulo 2^bits, also when both operands are the same object |
| ArithUint.BaseUint.SubAssign | src/arith_uint256.h:146-149 | the difference modulo 2^bits |
| ArithUint.BaseUint.MulAssign32 | src/arith_uint256.cpp:62-71 | the product with a word modulo 2^bits |
| ArithUint.BaseUint.MulAssign | src/arith_uint256.cpp:73-86 | the product modulo 2^bits; no 64-bit intermediate wraps |
| ArithUint.BaseUint.ShiftLeft | src/arith_uint256.cpp:24-41 | times a power of two modulo 2^bits, for every shift |
| ArithUint.BaseUint.LeftRounds | src/arith_uint256.cpp:32-39 | after the loop every limb is that of the shifted number, low part and what came over from the limb before |
| ArithUint.BaseUint.ShiftRight | src/arith_uint256.cpp:43-60 | the quotient by a power of two, for every shift |
| ArithUint.BaseUint.CompareTo | src/arith_uint256.cpp:122-133 | the order of the numbers |
| ArithUint.BaseUint.EqualTo | src/arith_uint256.cpp:135-148 | equality with a 64-bit number |
| ArithUint.BaseUint.BitLength | src/arith_uint256.cpp:177-189 | the position of the highest bit plus one |
| ArithUint.BaseUint.GetLow64 | src/arith_uint256.h:279-283 | the number modulo 2^64 |
| ArithUint.BaseUint.DivAssign | src/arith_uint256.cpp:88-120 | the exact quotient for every divisor but zero; zero and a throw for zero |
| Limbs.LeftIsProduct | src/arith_uint256.cpp:32-39 | limbs put together from two shifted halves are the product modulo 2^bits |
| Limbs.RightIsQuotient | src/arith_uint256.cpp:51-58 | limbs put together from two shifted halves are the quotient |
| Compact.SetCompact | src/arith_uint256.cpp:209-229 | value and flags of a compact number |
| Compact.GetCompact | src/arith_uint256.cpp:231-252 | the compact form; both assertions hold |
| Compact.OverflowIsExact | src/arith_uint256.cpp:223-227 | overflow is reported exactly when the number needs more than 256 bits, and otherwise nothing is lost |
| Compact.NegativeIsExact | src/arith_uint256.cpp:209-229 | a number is negative exactly when the sign bit is set and it is not zero |
| Compact.RoundTrip | src/arith_uint256.cpp:209-252 | encoding and decoding a positive number raises no flag, is not above it, is exact below 2^23, loses less than one part in 2^15 and re-encodes to the same form |
| Compact.SignRoundTrip | src/arith_uint256.cpp:209-252 | the sign comes back for every number but zero |
| Compact.GetBlockProof | src/chain.cpp:134-147 | the work is the exact quotient of 2^256 by the target plus one, 0 for flagged or zero targets |
| Compact.TargetFits | src/chain.cpp:139-146 | target plus one does not wrap |
| Compact.ProofIdentity | src/chain.cpp:142-146 | the quotient that avoids 2^256 is the one meant, and adding one does not wrap |
| Compact.WorkFalls | src/chain.cpp:134-147 | a larger target never means more work |
| BitStream.BitStreamWriter.Write | src/streams.h:545-560 | appends exactly the low bits, the most significant first; refuses impossible counts |
| BitStream.BitStreamWriter.Flush | src/streams.h:566-574 | pads with zeros to the next byte |
| BitStream.BitStreamReader.Read | src/streams.h:501-520 | returns the number of the next bits and consumes exactly them; fails exactly when there are too few or the count is impossible |
| Gcs.GolombRiceEncode | src/blockfilter.cpp:23-38 | appends the code of the number |
| Gcs.GolombRiceDecode | src/blockfilter.cpp:40-52 | reads one code, or fails when the stream ends |
| GcsSpec.DecodeCode | src/blockfilter.cpp:23-52 | a code followed by anything decodes to its number and what follows |
| GcsSpec.CodeShape | src/blockfilter.cpp:23-38 | a code is the quotient by 2^p in ones, a zero, and the remainder in p bits |
| GcsSpec.DecodeCodes | src/blockfilter.cpp:131-158 | the codes of the differences of a sorted sequence decode to the sequence |
| GcsSpec.CompactSizeRoundTrip | src/serialize.h:400-444 | a written size reads back exactly up to the limit, above it reading fails |
| GcsSpec.ReadInvertsWrite | src/serialize.h:419-454 | only the shortest form of a size within the limit is read |
| GcsSpec.LittleEndianAt | src/serialize.h:82-85 | byte i is digit i in base 256 |
| GcsSpec.MapIntoRange | src/blockfilter.cpp:60-64 | the result is in range |
| GcsSpec.MapIntoRangeSplit | src/blockfilter.cpp:65-85 | multiplication in 32-bit halves equals the high half of the exact product, without wrapping |
| GcsSpec.HashToRangeIs | src/blockfilter.cpp:87-92 | the value of an element is its 64-bit hash, as a fraction of 2^64, taken of the range |
| Gcs.BuildHashedSet | src/blockfilter.cpp:94-103 | the hashes of the elements, sorted, each as often as it occurs |
| Gcs.BuildFilter | src/blockfilter.cpp:131-158 | the bytes carry the size and the codes of the sorted hashes; fails exactly for 2^32 elements or more |
| Gcs.OpenFilter | src/blockfilter.cpp:108-129 | accepts exactly the bytes that decode to the announced number of values with no excess data |
| GcsSpec.BuiltOpens | src/blockfilter.cpp:108-158 | a built filter is accepted and gives back exactly its values when its size is within the limit; otherwise it cannot be read |
| Gcs.MatchInternal | src/blockfilter.cpp:160-190 | true exactly when some query is hit, for every filter that can be opened |
| Gcs.Match | src/blockfilter.cpp:192-195 | true exactly when the element is hit |
| Gcs.MatchAny | src/blockfilter.cpp:197-200 | true exactly when some element matches by itself |
| GcsSpec.HitIsMembership | src/blockfilter.cpp:160-190 | for sorted values being hit is being one of them |
| Gcs.BuiltMatches | src/blockfilter.cpp:131-195 | every element of a built filter matches |
| Gcs.BuildAndMatch | src/blockfilter.cpp:131-195 | a filter built and asked: within the size limit it matches exactly when one of its elements has the value of the one asked about, and above it cannot be read |
| Gcs.BuildAndMatchAny | src/blockfilter.cpp:131-200 | the same for several elements |
| Gcs.BuiltHits | src/blockfilter.cpp:94-103 | an element is hit exactly when its value is that of one of the elements |
| CompactBlocks.PartiallyDownloadedBlock.InitData | src/blockencodings.cpp:52-206 | invalid exactly for a missing header, no or too many transactions or a bad prefilled list; failed exactly for repeated short ids or crowded buckets; otherwise every position has its prefilled transaction, or exactly what the transactions looked at leave for its short id, with the search ending early only when every short id has its transaction; the count of found ones is exact; indexes are any 32-bit words |
| CompactBlocks.PartiallyDownloadedBlock.FindTransactions | src/blockencodings.cpp:94-205 | the same for the part behind the prefilled transactions |
| CompactBlocks.PartiallyDownloadedBlock.PlacePrefilled | src/blockencodings.cpp:68-90 | accepts exactly the lists whose positions, added up in 32 bits, are possible, and every position then holds the last transaction put there |
| CompactBlocks.PartiallyDownloadedBlock.MapShortIds | src/blockencodings.cpp:98-122 | the scan stays in bounds and maps the short ids in order to the free positions |
| CompactBlocks.PartiallyDownloadedBlock.TakePool | src/blockencodings.cpp:132-162 | after looking through the pool every position has exactly the transaction that alone has its short id, and nothing when two have it; the search ends early only when every short id has its transaction |
| CompactBlocks.PartiallyDownloadedBlock.TakeExtra | src/blockencodings.cpp:164-197 | the same with the extra transactions, of which a repetition of the same transaction does no harm and another one leaves the position empty |
| CompactBlocks.PartiallyDownloadedBlock.FillBlock | src/blockencodings.cpp:214-271 | invalid exactly when the number of missing transactions is wrong; otherwise the block is put together from what is there and the missing ones in order, and the answer follows the block check: ok, failed for possible corruption, or its own failure; with too few, what had been moved into the block is gone |
| CompactBlocks.Relay | src/blockencodings.cpp:22-271 | a block sent in compact form, looked up in any pool and completed on request comes out as the same list of transactions, without short-id collisions |
| CompactBlocks.PositionFilled | src/blockencodings.cpp:158-160 | when as many free positions have been filled as there are short ids, every short id has its transaction |
| CompactBlocks.LookUp | src/blockencodings.cpp:139-154 | looking at one more transaction: the first with a short id is kept, a second of the pool or another extra one empties the position, a repetition changes nothing |
| CompactBlocks.AllFound | src/blockencodings.cpp:158-160 | when the count says that all positions are filled, every short id has its transaction |
| CompactBlocks.SoleIsUsed | src/blockencodings.cpp:132-197 | a transaction that alone has a short id is used, also when the search ends early |
| CompactBlocksSpec.InOrderCovers | src/blockencodings.cpp:100-106 | positions in order are increasing and leave no free one out |
| CompactBlocksSpec.SharedIsMissing | src/blockencodings.cpp:144-193 | when some short id is that of no transaction, every position has exactly what all transactions leave for it: nothing when two of the pool, or two different ones, have its short id |
| CompactBlocksSpec.ReadyExactly | src/blockencodings.cpp:132-197 | so after every positive answer |
| CompactBlocksSpec.ShortIdIs | src/blockencodings.cpp:46-50 | the short id is the low 48 bits of the hash |
| CompactBlocksSpec.PlaceableIsInside | src/blockencodings.cpp:76-89 | an index passes the checks exactly when the position leaves no gap that nothing before it fills; it is then a position of the vector |
| CompactBlocksSpec.FreshIsExact | src/blockencodings.cpp:75-89 | the prefilled transactions take as many positions as they are exactly when no index but the first is 2^32 - 1, and always when the list came off the wire |
| CompactBlocksSpec.PositionsAreApart | src/blockencodings.cpp:75-89 | no two prefilled transactions share a position exactly when no index but the first is 2^32 - 1, and one with that index is put where the one before it is |
| CompactBlocksSpec.FreeIsExact | src/blockencodings.cpp:98-106 | there are as many free positions as short ids exactly under that condition, and never fewer |
| CompactBlocksSpec.SharedPosition | src/blockencodings.cpp:75-89 | with that index two transactions pass the checks for one position, and one position has neither a transaction nor a short id |
| CompactBlocksSpec.ShortenedIsAccepted | src/blockencodings.cpp:22-33 | the compact form of a block passes the checks |
| CompactBlocksSpec.RoundTrip | src/blockencodings.cpp:22-232 | without short-id collisions, the compact form and the missing transactions in order give back exactly the original list |
| Powers.Encodes | src/base58.cpp:104-107 | 256^n < 58^(n * 138 / 100 + 1): the base-58 buffer is large enough |
| Powers.Decodes | src/base58.cpp:52-55 | 58^n < 256^(n * 733 / 1000 + 1): the byte buffer is large enough |
| Base58.Accumulate | src/base58.cpp:111-121 | the number in the buffer is multiplied and added to in place, no carry is left, and the length is that of the number |
| Base58.EncodeBase58 | src/base58.cpp:96-137 | ones for leading zeros, then the digits of the number |
| Base58.Convert | src/base58.cpp:106-123 | the buffer is large enough for every input and holds the number of the bytes behind the zeroes |
| Base58.DecodeBase58 | src/base58.cpp:39-94 | the decoded bytes, or failure, for every string and limit |
| Base58.DecodeToken | src/base58.cpp:52-77 | the bytes of the number that the characters spell, failing exactly for a bad character or too many bytes |
| Base58Spec.DecodeEncoded | src/base58.cpp:39-137 | decoding an encoded byte string gives it back exactly when it is within the limit |
| Base58Spec.EncodeDecoded | src/base58.cpp:39-137 | encoding what any string decodes to gives back its only word, and around the word the string has only spaces |
| Base58Spec.EncodeDecodedWord | src/base58.cpp:39-137 | a string without spaces that decodes is encoded again as itself |
| Base58Spec.MinimalIsOne | src/base58.cpp:39-137 | a number has one form without leading zeros |
| Base58Spec.SymbolInverts | src/base58.cpp:20-37 | the table inverts the alphabet |
| Base58Spec.AlphabetIs | src/base58.cpp:19-37 | the symbols rise with their digits and are all digits and letters but 0, O, I and l |
| Amount.CompressAmount | src/compressor.cpp:153-171 | the code modulo 2^64; the assertion on the digit holds |
| Amount.DecompressAmount | src/compressor.cpp:173-197 | the amount modulo 2^64, as a signed number |
| Amount.ValueOfCode | src/compressor.cpp:140-197 | decoding inverts encoding on all numbers |
| Amount.CodeOfValue | src/compressor.cpp:140-197 | encoding inverts decoding on all numbers |
| Amount.RoundTrip | src/compressor.cpp:153-197 | of the amounts up to the largest one, compressing and decompressing in 64 bits gives back exactly those that are at most 2049638230412172402 or a multiple of ten |
| Amount.CodeRoundTrip | src/compressor.cpp:153-197 | every code whose amount fits a signed word comes back |
| Amount.LimitIsTight | src/compressor.cpp:153-197 | the amount after the limit comes back as 10000 |
| Amount.TensFit | src/compressor.cpp:153-171 | a multiple of ten up to the largest amount has a code of 64 bits |
| Amount.WrappedCode | src/compressor.cpp:153-197 | every other amount above the limit has a wrapped code, which stands for ten thousand times its distance from the limit, or one less |
| Amount.NeverBack | src/compressor.cpp:173-197 | that is never the amount itself modulo 2^64 |

## Left out

- Select_ and GetChance of the address manager: random retries that end with probability one, and floating point.
- AddrManRuns.Run: times are positive and the attempt counter is unbounded; the clock is read through a parameter.
- AddrMan.AddrMan.Clear: the collision properties are about managers that are not cleared after use, since clearing keeps the pending set.
- AddrManDump.LoadedIsConsistent: dumps with repeated addresses or negative times are outside it.
- AddrManDisk.Serialize: the key and the format bytes are not modelled.
- AddrManDisk.Unserialize: dumps with repeated addresses or negative times and managers with pending collisions are outside it.
- AddrManCheck.Check: of the failure codes only that they are not zero is stated.
- CheckQueue.WaitIsExact: no stop request; checks are pure; one master, as the control mutex ensures.
- Coins.Cache.BatchWrite: best-block hashes are not modelled.
- Coins.Cache.Flush: best-block hashes are not modelled, nor database failures.
- Coins.Database.BatchWrite: partial batches and head-block markers are not modelled.
- Cuckoo.Cache.constructor: the depth limit, a floating-point logarithm, is a parameter of at least one; setting up a used cache again is not modelled.
- Bloom.RollingBloomFilter.constructor: sizes computed in floating point are parameters; the filter is for at least one element.
- Chain.ActiveChain.GetLocator: blocks instead of their hashes, and the step is not bounded to 32 bits.
- Chain: FindEarliestAtLeast, block status flags and GetBlockProofEquivalentTime would add easy members.
- ArithUint: getdouble, hexadecimal text, the bitwise operators and decrement are not modelled.
- Gcs.BuildFilter: the Golomb parameter is below 64, as shifts by more are undefined; std::sort is a sorting function.
- Gcs: which scripts of a block go into a filter, and filter headers.
- CompactBlocks.PartiallyDownloadedBlock.InitData: the bucket-size test of the hash table is a parameter, a list has fewer than 2^32 transactions, and the count of extra transactions, which can wrap and only reaches the log, is not described.
- CompactBlocks.PartiallyDownloadedBlock.FillBlock: the outcome of CheckBlock is a parameter.
- CompactBlocks: the differential encoding of requests for missing transactions.
- Base58: the checksummed forms.
- Amount: script compression.
- The mempool, consensus validation, scripts, wallets, the network layer, the miners and the user interface.
