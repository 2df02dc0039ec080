# A model of the node's data structures and protocols

This project models the algorithmic cores of the node and states what they are for. Each core is written in the
form its source has: objects that update their fields are classes, algorithms on buffers work on arrays, pure
recursions are functions. Beside each stands a simple meaning, and lemmas that hold for all inputs, all runs or
all reachable states connect the two.

- **Address manager** (`addrtables`, `addrbook`, `addrsteps`, `addrjudging`, `addrman`, `addrruns`, `addrstore`). Five
  mutually indexed tables refine a book of addresses without ids, counts or indexes. Every run, at any times, keeps
  the tables consistent; `Check_` passes exactly as long as successes and attempts have sensible times; only terrible
  peers and those crowded out of their last place are forgotten; saving and loading loses nothing.
- **Block assembler** (`mempool`, `packages`, `miner`). Transactions are chosen first by priority, then by packages
  whose cached totals are patched as ancestors join the block. The block is always ordered, closed under
  ancestors and within its limits, and both loops end. The first phase is greedy and goes on exactly as long as it
  may; the second takes the best package in every round, and after it nothing that was left out can be added,
  unless a low fee stopped it.
- **Check queue** (`checkqueue`, `checkqueueruns`). A master and any number of workers around a mutex and two
  condition variables, in every interleaving and with spurious wake-ups.
- **Coins cache** (`coins`, `coinsruns`, `coinsview`). Write-back caches with DIRTY and FRESH flags, stacked to any
  height, agree with one flat map per level through every run of operations at any level.
- **Cuckoo cache** (`bytebits`, `cuckoo`, `cuckooruns`, `cuckoocache`). Displacement over eight locations, lazy
  deletion, and epochs: how long an inserted element lasts, over every run.
- **Partial Merkle trees** (`merkle`, `merkleblock`, `merklesize`; BIP 37, section "Partial Merkle branch format").
  Round trip through bits and bytes for every list of transactions, authentication, and the exact size.
- **Cash addresses** (`gf32`, `polymod`, `polydivision`, `cashaddr`, `knownaddresses`). The checksum is the remainder
  of a division over the field of 32 elements, and bursts of eight are noticed. Decoding is exact, and so is the set
  of strings for which the source cuts off more than there is.
- **Rolling Bloom filter** (`rollingbloom`), **block index and chain** (`chain`), **256-bit arithmetic, compact
  targets and block work** (`limbs`, `arith`, `blockproof`, `compacttargets`), **base58** (`digits`, `base58`),
  **compact blocks** (`compactblocks`; BIP 152). `numbers` and `options` hold what several of them share.

Hash functions are parameters: uninterpreted, and injective only where a statement says so. Random choices are
arbitrary. Clocks, configuration values, scores and calls into code that is not modelled are parameters.

Where a comment in the source and the code disagree, the model follows the code:

- The comment on displacement in the cuckoo cache says the first element to move is at the first location; the
  code takes the second (`CuckooCache.Cache.NextLocation`).
- The comment on partial Merkle trees bounds the bits by 2N - 1; nodes with a single child exceed that.
  `Merkle.BitCount` and `Merkle.SinglesExact` give the exact number, `Merkle.FourBits` an input. The guarantee about
  the size that rests on it fails too (`MerkleSize.LargerThanGuaranteed`).
- `ExtractMatches` clears the list of matches but not the list of indices it is given.
- The first charge of an entry of the modified set takes the modified fee, later ones the plain fee
  (`Packages.ChainDrifts`).
- `TestPackage` compares with the default block size, not the configured one.
- `Add_` of the address manager returns true for an unknown address even when its entry is dropped again.
- The address with all 32 characters in src/test/cashaddr_tests.cpp:49 carries the checksum of another prefix and does
  not pass (`KnownAddresses.EveryCharacter`).
- The rolling Bloom filter remembers more than two generations: the current one comes on top.

## Model

| member | source | states |
|---|---|---|
| `AddrTables.SwapKeeps` | src/addrman.cpp:100-118 | swapping two positions of the shuffled vector keeps the tables consistent |
| `AddrTables.CreateKeeps` | src/addrman.cpp:88-98 | a created entry is indexed by id, address and position, and is in neither table yet |
| `AddrTables.DeleteKeeps` | src/addrman.cpp:120-132 | an entry without a place can be deleted: the last of the shuffled vector takes its position, all indexes stay inverse to each other |
| `AddrTables.ClearNewKeeps` | src/addrman.cpp:134-147 | clearing a new slot keeps counts exact and deletes an entry whose last reference it was |
| `AddrTables.PutSlotKeeps` | src/addrman.cpp:305-308 | handing a free new slot to an entry keeps reference counts equal to the slots held and at most 8 |
| `AddrTables.UnplaceKeeps` | src/addrman.cpp:151-159 | leaving every new bucket takes a reference count to zero |
| `AddrTables.UnsetTriedKeeps` | src/addrman.cpp:168-177 | the occupant of a tried slot loses its place and nothing else changes |
| `AddrTables.ReadmitKeeps` | src/addrman.cpp:179-188 | an evicted entry takes its own new slot, with one reference |
| `AddrTables.SetTriedKeeps` | src/addrman.cpp:190-194 | an entry without a place takes its own free tried slot |
| `AddrTables.MakeTriedKeeps` | src/addrman.cpp:149-195 | moving an entry to the tried table, evicting whoever is there, keeps everything consistent |
| `AddrTables.GoodKeeps` | src/addrman.cpp:197-247 | a successful connection keeps everything consistent, at any time |
| `AddrTables.PlaceKeeps` | src/addrman.cpp:293-313 | the end of an announcement keeps everything consistent, whether the entry gets the slot, keeps its others, or is dropped |
| `AddrTables.AddKeeps` | src/addrman.cpp:249-315 | an announcement keeps everything consistent, for every random draw |
| `AddrBook.ViewMakeTried` | src/addrman.cpp:149-195 | on the level of addresses, becoming tried means: all new slots released, own tried slot taken, its former owner back in its own new slot |
| `AddrBook.ViewGood` | src/addrman.cpp:197-247 | what a successful connection does to the book of addresses |
| `AddrBook.ViewPlace` | src/addrman.cpp:293-313 | which address holds the slot after it was offered |
| `AddrBook.ViewAdd` | src/addrman.cpp:249-315 | what an announcement does to the book of addresses |
| `AddrBook.ConsistentBook` | src/addrman.cpp:387-461 | every known address is in exactly one of the tables, in slots that its own hashes select |
| `AddrMan.AddrMan.constructor` | src/addrman.h:453-477 | a new manager knows nobody and is consistent |
| `AddrMan.AddrMan.SwapRandom` | src/addrman.cpp:100-118 | the method does exactly the swap of the tables |
| `AddrMan.AddrMan.CreateEntry` | src/addrman.cpp:88-98 | the method does exactly the creation |
| `AddrMan.AddrMan.DeleteEntry` | src/addrman.cpp:120-132 | the method does exactly the deletion; its asserts hold |
| `AddrMan.AddrMan.ClearNewSlot` | src/addrman.cpp:134-147 | the method clears exactly one slot; its assert holds |
| `AddrMan.AddrMan.LeaveNew` | src/addrman.cpp:151-163 | the loop over all buckets finds every slot of the entry |
| `AddrMan.AddrMan.EvictTried` | src/addrman.cpp:165-189 | the occupant of an occupied tried slot moves back to the new table; its asserts hold |
| `AddrMan.AddrMan.MakeTriedEntry` | src/addrman.cpp:149-195 | the method does exactly the move to the tried table |
| `AddrMan.AddrMan.Find` | src/addrman.cpp:75-86 | finds the entry with this address, if any |
| `AddrMan.AddrMan.FindBucket` | src/addrman.cpp:226-241 | the search for a bucket, from any start, finds one whenever the entry is in the new table |
| `AddrMan.AddrMan.Good` | src/addrman.cpp:197-247 | refines the operation on the book; the exit for an entry in no bucket cannot be reached |
| `AddrMan.AddrMan.PlaceEntry` | src/addrman.cpp:293-313 | does exactly the offer of a slot |
| `AddrMan.AddrMan.Add` | src/addrman.cpp:249-315 | refines the operation on the book for an arbitrary draw; true exactly when the address was unknown, even if it is dropped again |
| `AddrMan.AddrMan.Attempt` | src/addrman.cpp:317-337 | is the step of the runs; stamps the try and counts the failure once per success elsewhere; other peers unchanged |
| `AddrMan.AddrMan.Connected` | src/addrman.cpp:485-503 | is the step of the runs; refreshes the time after twenty minutes, for the exact service only |
| `AddrMan.AddrMan.SetServices` | src/addrman.cpp:505-521 | is the step of the runs; sets the services of the exact service only |
| `AddrMan.AddrMan.GetAddr` | src/addrman.cpp:464-483 | distinct known peers that are not terrible (AddrJudging says which are), at most 23% of all and at most 2500, chosen by a shuffle that is a run of shuffle steps; when everybody fits, everybody who is not terrible is returned |
| `AddrMan.AddrMan.Decline` | src/addrman.cpp:268-285 | when an announcement of a known peer takes no further place; the draw is one of 2 to the number of places |
| `AddrJudging.TriedIsKept` | src/addrman.cpp:35-36 | a peer tried within the last minute is never terrible |
| `AddrJudging.AnsweredIsKept` | src/addrman.cpp:38-48 | a peer that answered within a week and has a stamp from 30 days ago to ten minutes ahead is not terrible |
| `AddrJudging.BadStamp` | src/addrman.cpp:35-42 | a peer with any other stamp is terrible exactly if it was not tried within the last minute |
| `AddrJudging.FailuresDecide` | src/addrman.cpp:44-50 | otherwise a peer that never answered is terrible exactly from three failures on, one that did not for a week from ten |
| `AddrJudging.MoreFailures` | src/addrman.cpp:44-50 | more failures never make a terrible peer acceptable |
| `AddrJudging.AttemptProtects` | src/addrman.cpp:317-337 | after an attempt a peer is not terrible for a minute |
| `AddrJudging.GoodProtects` | src/addrman.cpp:197-247 | after an answer it is in the tried table without failures, and not terrible for a minute, nor for a week with a good stamp |
| `AddrJudging.CountedOnce` | src/addrman.cpp:331-336 | over every run of attempts while nobody answers, failures count once |
| `AddrJudging.AllCounted` | src/addrman.cpp:331-336 | with an answer elsewhere before each, every failure counts |
| `AddrJudging.ThirdFailure` | src/addrman.cpp:44-45 | so a new peer that never answers is terrible exactly from its third failure on |
| `AddrJudging.FailureCounts` | src/addrman.cpp:317-337 | in the tables: a failure that counts raises the number by one, and the next does not count |
| `AddrJudging.AnswerElsewhere` | src/addrman.cpp:197-247 | an answer elsewhere makes the failures of a peer that survives it count again |
| `AddrJudging.RefreshLags` | src/addrman.cpp:258-263 | an announcement brings the stamp up to it, but for an hour (a day, if it is older than a day) and the penalty; it never sets a stamp back |
| `AddrJudging.SeenLags` | src/addrman.cpp:498-502 | a connection brings the stamp up to twenty minutes and never sets it back |
| `AddrJudging.AddForgets` | src/addrman.cpp:293-313 | an announcement makes the book forget nobody but a terrible peer in its last place |
| `AddrJudging.AddPlaces` | src/addrman.cpp:268-313 | a free place is taken exactly if the address is new, or untried with fewer than eight places, a draw of 0 and news |
| `AddrJudging.GoodForgets` | src/addrman.cpp:149-195 | an answer makes the book forget nobody who answered before, nobody with two places, and nobody unless a tried slot was taken |
| `AddrJudging.GoodRehouses` | src/addrman.cpp:165-189 | whoever loses a tried slot is back in its own new slot |
| `AddrJudging.ViewHoused` | src/addrman.cpp:387-461 | in consistent tables every address has a place, and in one table only |
| `AddrSteps.StepKeeps` | src/addrman.cpp:88-521 | every public operation, at any time, keeps the tables consistent |
| `AddrSteps.GoodDated` | src/addrman.cpp:197-247 | after a success the times that Check_ looks at are in order exactly when its time is positive or the service is not known |
| `AddrSteps.AddDated` | src/addrman.cpp:249-315 | an announcement leaves those times in order |
| `AddrSteps.StepTimed` | src/addrman.cpp:88-521 | a step keeps the times in order exactly when it is fair: a success of a known service has a positive time, an attempt one that is not negative |
| `AddrRuns.RunConsistent` | src/addrman.cpp:88-521 | in every run from a new manager, at any times, every state is consistent and every address well placed |
| `AddrRuns.ConsistentPasses` | src/addrman.cpp:387-461 | a consistent manager passes Check_ exactly when its times are in order |
| `AddrRuns.StepPasses` | src/addrman.cpp:387-461 | after a step from a state that passes Check_, the next one passes exactly when the step was fair |
| `AddrRuns.RunPasses` | src/addrman.cpp:387-461 | all states of a run up to any point pass Check_ exactly when all its steps up to there are fair |
| `AddrRuns.PassingConsistent` | src/addrman.cpp:387-461 | conversely, tables that pass are consistent, up to what Check_ cannot see |
| `AddrRuns.Check` | src/addrman.cpp:387-461 | Check_ returns 0 exactly for tables that pass its tests, under a key that is not null; reading an address that is missing inserts it, as operator[] does |
| `AddrStore.WriteSection` | src/addrman.h:306-325 | one section of entries is written in the order of the ids, numbered from zero |
| `AddrStore.Serialize` | src/addrman.h:293-341 | what is written: the counts, the new and the tried peers, and for each new bucket the numbers of its entries |
| `AddrStore.RenamedKeeps` | src/addrman.h:343-446 | numbering the entries anew keeps everything consistent |
| `AddrStore.RenamedView` | src/addrman.h:343-446 | and leaves the book of addresses as it was, with the memory-only fields reset |
| `AddrStore.RenamedTimed` | src/addrman.h:343-446 | times that pass Check_ come back as times that pass |
| `AddrStore.CountsFit` | src/addrman.h:362-369 | a consistent manager never exceeds the counts that loading refuses |
| `AddrStore.Unserialize` | src/addrman.h:343-446 | reading what was written rebuilds all tables exactly, up to the numbering |
| `AddrStore.SaveAndLoad` | src/addrman.h:293-446 | saving and loading loses nothing: same addresses, same split, same slots, same reference counts; the copy is consistent, and its times are in order if they were |
| `Mempool.AncestorsTransitive` | src/txmempool.h:563-573 | ancestors of ancestors are ancestors |
| `Mempool.FewerAncestors` | src/miner.cpp:349-358 | a parent has fewer ancestors than its child |
| `Mempool.PathsLeadToAncestors` | src/txmempool.h:563-573 | whoever is reached along parents is an ancestor |
| `Mempool.AncestorsHavePaths` | src/txmempool.h:563-573 | and every ancestor is reached along parents |
| `Packages.UpdateDescendants` | src/miner.cpp:311-328 | one added transaction is charged to each of its descendants that is not added too: the modified fee to a new entry, the plain fee to an old one |
| `Packages.UpdatePackagesForAdded` | src/miner.cpp:308-330 | every descendant of the added set is charged the size, sigops and fees of exactly the ancestors that were added, in the order of their hashes |
| `Packages.FeesExact` | src/miner.cpp:308-330 | the cached fees lose the modified fees of what was charged exactly when prioritising added nothing in all to what was charged, not counting the charge with the least hash of an entry that is new |
| `Packages.FeesExactInAnyOrder` | src/miner.cpp:308-330 | they would be right for a new entry in any order of several charges exactly when none of these is prioritised |
| `Packages.FeesOffUpdate` | src/miner.cpp:308-330 | over the whole selection they exceed the modified fees of what remains by what prioritising added to the ancestors in the block, all but one |
| `Packages.FeesPlain` | src/miner.cpp:308-330 | so they are right where no ancestor in the block is prioritised |
| `Packages.ChainDrifts` | src/miner.cpp:308-330 | a chain of three with fees of 4, the second prioritised to 11: with two in the block the fees of the third are 4, and the cached ones 11 |
| `Packages.TracksUpdate` | src/miner.cpp:308-330 | after a package joined the block the cached totals are exact again, or not below the truth for entries that failed once, and it is known by how much the fees are off; cached are only transactions outside the block with something in it |
| `Packages.TracksFailed` | src/miner.cpp:437-463 | dropping a failed entry keeps the cached totals good |
| `Packages.StaysOut` | src/miner.cpp:308-330 | the modified set never holds a transaction that is in the block or has nothing in it |
| `Packages.FullFamily` | src/miner.cpp:423-430 | the pool totals of a transaction with nothing in the block are exact, and never too small otherwise |
| `Miner.OrderedClosed` | src/miner.cpp:193-202 | a block in which parents come first contains all ancestors of everything in it |
| `Miner.BlockAssembler.constructor` | src/miner.cpp:88-111 | an empty block with the configured size, clamped |
| `Miner.BlockAssembler.IsStillDependent` | src/miner.cpp:193-202 | true exactly when some parent is not in the block |
| `Miner.BlockAssembler.OnlyUnconfirmed` | src/miner.cpp:204-215 | leaves exactly what is not in the block |
| `Miner.BlockAssembler.TestPackage` | src/miner.cpp:217-225 | the package totals stay below the default size and the sigop limit |
| `Miner.BlockAssembler.TestPackageTransactions` | src/miner.cpp:230-242 | all are final, and together they stay below the configured size |
| `Miner.BlockAssembler.TestForBlock` | src/miner.cpp:244-281 | whether one transaction fits; when the block counts as finished; when a miss counts as one of the last few |
| `Miner.BlockAssembler.AddToBlock` | src/miner.cpp:283-306 | appends one transaction and keeps order, counters, fees and limits |
| `Miner.BlockAssembler.TryCandidate` | src/miner.cpp:516-553 | a popped candidate is added exactly when it is not too young, its parents are in the block, it is final and it fits; the phase stops exactly with one that is added and reaches the priority size or may not go free; what is dropped cannot be added to any larger block |
| `Miner.Woken` | src/miner.cpp:542-552 | children that wait for a parent are back in the queue when it is in the block, and only then ready |
| `Miner.BlockAssembler.AddPriorityTxs` | src/miner.cpp:480-555 | the priority phase ends, keeps the block valid and never meets a transaction already in it; whatever was ready when another was chosen, and was chosen later, has no higher priority; nothing with a priority size of 0; only final transactions that are not too young; after every chosen transaction but the last the block is below the priority size and that transaction may go free; if the last one does not end the phase and the block is not finished, everything left out is too young, not final, misses a parent or breaks a limit |
| `Miner.SiftedAdd` | src/miner.cpp:530-540 | with one more transaction the phase goes on, or has stopped with it; whatever could not be added still cannot |
| `Miner.PhaseEnds` | src/miner.cpp:508-555 | an empty queue leaves only transactions that cannot be added or miss a parent |
| `Miner.ClampedNearest` | src/miner.cpp:88-95 | no allowed block size is nearer to the configured one |
| `Miner.SortForBlock` | src/miner.cpp:349-358 | the package, each once, by number of ancestors |
| `Miner.ParentFirst` | src/miner.cpp:349-358 | so a parent comes before its child |
| `Miner.BlockAssembler.AddPackage` | src/miner.cpp:465-473 | adding a sorted package keeps the block valid |
| `Miner.BlockAssembler.TryPackage` | src/miner.cpp:437-473 | a package is added exactly when its cached totals fit, all its transactions are final and their true size fits |
| `Miner.BlockAssembler.EvaluatePackage` | src/miner.cpp:419-476 | one round: stop on a low fee, add the package and charge descendants, or drop the failed entry |
| `Miner.PackageNotBelow` | src/miner.cpp:423-430 | whichever totals are used, they are not below what the package will cost |
| `Miner.PackageExact` | src/miner.cpp:423-430 | they are exact for a transaction that has not failed yet |
| `Miner.BlockAssembler.RefusedMeans` | src/miner.cpp:437-463 | a package refused with exact totals cannot be added: a transaction is not final or a limit is broken |
| `Miner.BlockAssembler.FitsMeans` | src/miner.cpp:437-463 | a package that fits, even by totals that are too high, can be added |
| `Miner.BlockAssembler.Fitting` | src/miner.cpp:335-347 | so a package that fits has not failed before, and its totals are exact |
| `Miner.TooMuchStays` | src/miner.cpp:335-347 | and never will, however the block grows: what failed once is guaranteed to fail again, as the comment there says |
| `Miner.FeeRateOrders` | src/miner.h:73-83 | the comparison by fee rate and hash, without rounding, is a strict order |
| `Miner.BestModified` | src/miner.cpp:397-401 | the best of the modified set, if the comparison is a strict order |
| `Miner.BlockAssembler.Choose` | src/miner.cpp:393-421 | the next transaction is one of the modified set or the next of the order, and never in the block; with a strict order it is better than all the others |
| `Miner.LeadingAll` | src/miner.cpp:393-435 | and better than everything that is still to come, if the pool is in that order |
| `Miner.BlockAssembler.Round` | src/miner.cpp:393-477 | each round decides one transaction and brings the end nearer; a round that takes a package takes all that is missing of one family, all of it final, by exact totals that pay enough, and nothing that could be taken is better |
| `Miner.BlockAssembler.AddPackageTxs` | src/miner.cpp:370-478 | the selection loop ends, keeps the block valid and only appends, in rounds that each take the best package there is and never one that pays too little; unless a low fee stops it, no package that is left out can be added any more; if one does, nothing that could be added is better than the package with that fee |
| `Miner.RoundsFinal` | src/miner.cpp:230-242 | only final transactions join in rounds |
| `Miner.CreateNewBlock` | src/miner.cpp:113-165 | every transaction once, final and after all its parents, ancestors included, size and sigops below the limits, fees added up; the first part is a whole priority phase, greedy by priority, and a finished block is within 1000 bytes or 2 sigops of a limit; the rest comes in rounds that each take the best package that pays enough; nothing left out can be added, or nothing left out is better than a package that pays too little |
| `CheckQueue.CCheckQueue.constructor` | src/checkqueue.h:131-131 | an empty queue with no threads |
| `CheckQueue.CCheckQueue.Arrive` | src/checkqueue.h:78-120 | one passage through the critical section, with what the thread leaves with and whether the master is notified |
| `CheckQueue.CCheckQueue.TakeBatch` | src/checkqueue.h:105-117 | the last checks of the queue, as many as the formula says and at least one |
| `CheckQueue.BatchShare` | src/checkqueue.h:105-111 | the largest number within the limit of which every thread could take as many, and at least one |
| `CheckQueue.CCheckQueue.Execute` | src/checkqueue.h:121-125 | the result is the earlier status and all checks of the batch |
| `CheckQueue.CCheckQueue.Add` | src/checkqueue.h:146-158 | all checks are appended and counted |
| `CheckQueue.CCheckQueue.IsIdle` | src/checkqueue.h:164-168 | idle exactly when nobody works, nothing is left and nothing failed |
| `CheckQueueRuns.AddKeeps` | src/checkqueue.h:146-158 | adding keeps the invariant of the queue and its threads |
| `CheckQueueRuns.PassKeeps` | src/checkqueue.h:76-126 | every passage of any thread keeps it, woken for a reason or not |
| `CheckQueueRuns.RunKeeps` | src/checkqueue.h:69-158 | so it holds in every interleaving of any number of workers |
| `CheckQueueRuns.WaitCorrect` | src/checkqueue.h:91-100 | Wait returns true exactly when every check added since the previous Wait holds, and only when none is queued or in a hand |
| `CheckQueueRuns.CountersExact` | src/checkqueue.h:78-120 | nTodo is what is queued and in hands, nTotal - nIdle the number of threads with a batch, and the batch divisor is positive |
| `CheckQueueRuns.NeverForgotten` | src/checkqueue.h:82-102 | a master asleep without a notification always has somebody working for it |
| `CheckQueueRuns.IdleUntilAdd` | src/checkqueue.h:164-191 | from each return of Wait until the next Add the queue is idle |
| `CheckQueueRuns.NoDeadlock` | src/checkqueue.h:91-104 | while the master waits, some thread will move |
| `CheckQueueRuns.RankFalls` | src/checkqueue.h:76-126 | every move brings the end of Wait nearer; a wake-up for no reason puts it no further off |
| `CheckQueueRuns.WaitEnds` | src/checkqueue.h:139-143 | however the threads are scheduled, Wait is over after a bounded number of moves |
| `Coins.CleanedSame` | src/coins.h:126-131 | cleaning drops spent outputs at the end and no unspent one |
| `Coins.Cleanup` | src/coins.h:126-131 | the loop does exactly that |
| `Coins.Spend` | src/coins.cpp:35-42 | exactly the one output is spent, if it was there |
| `Coins.IsPruned` | src/coins.h:284-289 | true exactly when nothing is unspent |
| `Coins.ReadKeeps` | src/coins.cpp:72-97 | reading changes nothing that can be seen, though it fills every cache on the way |
| `Coins.ReadCached` | src/coins.cpp:72-89 | what was read is in the cache, unmodified, and fresh exactly if the view below has nothing left |
| `Coins.UncacheKeeps` | src/coins.cpp:220-227 | forgetting an unmodified entry changes nothing that can be seen |
| `Coins.UncacheUndoes` | src/coins.cpp:220-227 | uncaching undoes a read, and forgets nothing that was modified |
| `Coins.OpenKeeps` | src/coins.cpp:99-118 | opening an entry for modification changes nothing that can be seen |
| `Coins.OpenFresh` | src/coins.cpp:99-118 | an entry opened over uncached coins is fresh exactly if the view below has none left |
| `Coins.NoTrace` | src/coins.cpp:290-302 | coins created and spent above a view without them leave no entry behind |
| `Coins.OpenNewKeeps` | src/coins.cpp:124-133 | opening an entry for new coins hides exactly that transaction, if nothing of it is unspent below or it is a coinbase |
| `Coins.OpenNewExact` | src/coins.h:470-478 | that demand is exactly what keeps the FRESH flag truthful |
| `Coins.CloseKeeps` | src/coins.cpp:290-302 | what the client left is what the view shows from then on, and nothing else changes |
| `Coins.WrittenLeft` | src/coins.cpp:168-211 | after a batch write the view below shows what the cache showed |
| `Coins.WrittenSound` | src/coins.cpp:168-211 | and its flags still mean what they say |
| `Coins.FlushNoTrace` | src/coins.cpp:168-211 | nor in the cache below, when they are flushed to where they were created |
| `Coins.FlushKeeps` | src/coins.cpp:213-218 | Flush leaves the visible unspent outputs unchanged and makes the view below show exactly the same |
| `Coins.HaveExact` | src/coins.cpp:144-151 | HaveCoins is never false for unspent outputs, and exact on tidy coins |
| `CoinsRuns.TopMeans` | src/coins.cpp:72-97 | how far up a change in one cache shows: to the first cache above that holds the transaction |
| `CoinsRuns.ChangeViews` | src/coins.cpp:99-133 | it shows in the views up to there and in no other |
| `CoinsRuns.ChangeExact` | src/coins.h:324-327 | and the flags stay sound exactly when those of the entry that hides it are true of it |
| `CoinsRuns.ModifyAtViews` | src/coins.cpp:99-133 | so for a modification at any level |
| `CoinsRuns.StaleAbove` | src/coins.cpp:99-118 | an output spent in the lower of two caches while the upper holds a clean copy: the upper one still shows it, until it forgets the copy |
| `CoinsRuns.StepAgrees` | src/coins.cpp:72-302 | each operation, at any level, does to the caches what it means on flat maps |
| `CoinsRuns.RunAgrees` | src/coins.cpp:72-302 | through every run on any stack the flags mean what they say and every level shows exactly its flat map |
| `CoinsRuns.RunHave` | src/coins.cpp:144-151 | through every run from tidy coins HaveCoins is true exactly for transactions with an unspent output |
| `CoinsViews.CCoinsViewDB.BatchWrite` | src/txdb.cpp:49-70 | modified entries are written, pruned ones erased |
| `CoinsViews.CCoinsViewCache.GetCoins` | src/coins.cpp:72-97 | finds coins here or below and keeps what was found below |
| `CoinsViews.CCoinsViewCache.HaveCoins` | src/coins.cpp:144-151 | whether outputs are recorded |
| `CoinsViews.CCoinsViewCache.ModifyCoins` | src/coins.cpp:99-118 | opens the entry as specified, with the flags the view below calls for |
| `CoinsViews.CCoinsViewCache.ModifyNewCoins` | src/coins.cpp:124-133 | opens the emptied entry as specified |
| `CoinsViews.CCoinsViewCache.EndModifier` | src/coins.cpp:290-302 | closes the modifier as specified |
| `CoinsViews.CCoinsViewCache.Uncache` | src/coins.cpp:220-227 | drops an entry without flags, and no other |
| `CoinsViews.CCoinsViewCache.BatchWrite` | src/coins.cpp:168-211 | merges a child map, entry by entry |
| `CoinsViews.CCoinsViewCache.Flush` | src/coins.cpp:213-218 | writes to the view below and starts empty |
| `Cuckoo.LocFits` | src/cuckoocache.h:242-252 | a scaled hash is an index of the table |
| `Cuckoo.LocSpread` | src/cuckoocache.h:242-252 | every cell is the location of some 32-bit hash, and larger hashes do not come earlier |
| `Cuckoo.ConsistentMeans` | src/cuckoocache.h:392-479 | live cells are at one of the eight locations of their element, no element is live twice, and a search finds every live element |
| `Cuckoo.PutConsistent` | src/cuckoocache.h:406-439 | overwriting a free cell, or a live one when all are live, keeps searches right |
| `Cuckoo.PutLive` | src/cuckoocache.h:406-439 | what becomes of the live set |
| `Cuckoo.DropLive` | src/cuckoocache.h:265-268 | collecting the cell where a search for e ends removes e from the live set and nothing else |
| `Cuckoo.ReviveLive` | src/cuckoocache.h:398-405 | keeping that cell makes e live and changes nothing else |
| `Cuckoo.LiveCount` | src/cuckoocache.h:288-320 | the live elements are those of the two epochs, counted once each |
| `Cuckoo.FreshCount` | src/cuckoocache.h:296-302 | the scan counts the live elements of the current epoch |
| `Cuckoo.CheckedLive` | src/cuckoocache.h:288-320 | the check changes nothing that is live, unless the counter is 0 and the current epoch is full; then exactly the live elements of other epochs leave, and no element is of the new one |
| `Cuckoo.CheckedBounded` | src/cuckoocache.h:288-320 | the epoch check leaves room for one more current element within the bound |
| `Cuckoo.TotalBounded` | src/cuckoocache.h:288-320 | live elements never exceed twice epoch_size + max(1, epoch_size / 16) |
| `CuckooCache.BitPackedFlags.constructor` | src/cuckoocache.h:60-67 | all bits set, and enough of them exactly up to 2^32 - 8 |
| `CuckooCache.BytesExact` | src/cuckoocache.h:60-67 | the 32-bit sum leaves room for all flags exactly up to 2^32 - 8 of them, and none at all beyond |
| `CuckooCache.NoBytes` | src/cuckoocache.h:60-67 | for 2^32 - 2 flags no byte is allocated |
| `CuckooCache.EpochExact` | src/cuckoocache.h:346-349 | the 32-bit product gives an epoch of 45 in 100 exactly for up to 95443717 cells |
| `CuckooCache.BitPackedFlags.BitSet` | src/cuckoocache.h:90-93 | sets one flag and no other |
| `CuckooCache.BitPackedFlags.BitUnset` | src/cuckoocache.h:101-104 | clears one flag and no other |
| `CuckooCache.BitPackedFlags.BitIsSet` | src/cuckoocache.h:111-114 | reads one flag |
| `CuckooCache.Cache.constructor` | src/cuckoocache.h:326-352 | an empty cache, valid exactly up to size 2^32 - 8; the epoch size comes from a 32-bit product |
| `CuckooCache.Cache.EpochCheck` | src/cuckoocache.h:288-320 | counts down, starts a new epoch, or sets the counter again; exactly at the end of an epoch what is live and not of that epoch leaves |
| `CuckooCache.Cache.NextLocation` | src/cuckoocache.h:416-430 | the location after the last one used; the second one at first |
| `CuckooCache.Cache.Place` | src/cuckoocache.h:406-439 | the displacement loop: nothing but the element left in the hand at the end is lost, and that only after as many displacements as the limit says, none of which found a free cell |
| `CuckooCache.Cache.Insert` | src/cuckoocache.h:392-440 | is the step of the runs: what the epoch check leaves, plus e, minus at most one element, for all live and for those of the current epoch; nothing is lost while e is present, and otherwise only after all displacements |
| `CuckooCache.Cache.Contains` | src/cuckoocache.h:469-479 | finds every live element; with erase it is the step of the runs that takes e out and nothing else, without it nothing changes |
| `CuckooRuns.InsertionFollows` | src/cuckoocache.h:392-440 | the live elements, those of the current epoch and the counter after an insertion; a scan that does not end the epoch waits for the least number of insertions that is positive, a sixteenth of an epoch and enough to fill it |
| `CuckooRuns.LeavesOnlyFor` | src/cuckoocache.h:288-320 | an element leaves exactly by an erasure, by being dropped, or at the end of an epoch that it is not of |
| `CuckooRuns.InsertedLasts` | src/cuckoocache.h:288-320 | over every run: an inserted element stays live through the next epoch_size + 1 insertions, unless it is erased or dropped |
| `Merkle.NodeExists` | src/merkleblock.h:65-68 | a node exists exactly when a transaction is below it |
| `Merkle.NodesDiffer` | src/merkleblock.cpp:63-78 | with distinct transactions and an injective hash, nodes of one level differ |
| `Merkle.BuiltSizes` | src/merkleblock.cpp:80-96 | no more hashes than transactions or bits |
| `Merkle.HashCount` | src/merkleblock.h:36-40 | at most one hash more than matches times height |
| `Merkle.BitCount` | src/merkleblock.h:42-48 | the number of bits is 2N - 1 for N hashes, and one more for each node with a single child |
| `Merkle.SinglesExact` | src/merkleblock.h:42-48 | which are the last nodes of the levels above one of odd width, where a transaction below is matched; one for each such height |
| `Merkle.SinglesBound` | src/merkleblock.h:42-48 | so at most as many as the tree is high, and none exactly when no height has one |
| `Merkle.FourBits` | src/merkleblock.h:42-48 | three transactions with the last matched: two hashes and four bits |
| `MerkleSize.SizeExact` | src/merkleblock.h:31-34 | the guaranteed size is kept exactly when the additional bits fit into the bytes left over |
| `MerkleSize.TreeSize` | src/merkleblock.h:31-49 | the size of every tree, and when it keeps the guarantee |
| `MerkleSize.LargerThanGuaranteed` | src/merkleblock.h:31-34 | 16385 transactions with the first 993 and the last matched: 1003 hashes, 2019 bits, and two bytes too many |
| `Merkle.ExtractBuilt` | src/merkleblock.cpp:80-134 | reading back what was built for a node gives its hash and its matches, consuming exactly that, and is bad exactly if it meets two equal children |
| `Merkle.ExtractTrue` | src/merkleblock.cpp:98-134 | wherever the hash of a node comes out right, its matches are true |
| `Merkle.ReadingExact` | src/merkleblock.cpp:98-183 | for every list of transactions: reading what was built gives exactly the matches, and the root unless two equal children are met on the way |
| `Merkle.TwinsRejected` | src/merkleblock.cpp:122-126 | a tree for a list with two equal transactions side by side, one of them matched, is never read to a root |
| `Merkle.LeftOverRejected` | src/merkleblock.cpp:175-181 | nor is a tree with a hash left over, or a whole byte of bits |
| `Merkle.GoodTree` | src/merkleblock.cpp:154-166 | what is read to a root has 1 to 16666 transactions, and no more hashes than transactions or bits |
| `Merkle.RootIsByLevels` | src/consensus/merkle.cpp:9-37 | the root is what combining neighbours level by level comes to, the last with itself if it has none |
| `Merkle.RoundTrip` | src/merkleblock.cpp:80-183 | for distinct transactions extraction from the sent tree gives the root and exactly the matches with their indices, in order |
| `Merkle.OnlyTrue` | src/merkleblock.cpp:152-183 | any tree for as many transactions that extracts to the root reports only true matches |
| `Merkle.SameRoot` | src/consensus/merkle.cpp:14-31 | the two lists of the comment there, six transactions and the same with the last two again, have the same root |
| `MerkleBlock.CPartialMerkleTree.constructor` | src/merkleblock.cpp:136-148 | builds the bits and hashes of the whole tree |
| `MerkleBlock.CPartialMerkleTree.TreeHeight` | src/merkleblock.cpp:141-144 | the least height with one node |
| `MerkleBlock.CPartialMerkleTree.CalcHash` | src/merkleblock.cpp:63-78 | the hash of a node |
| `MerkleBlock.CPartialMerkleTree.ParentOfMatch` | src/merkleblock.cpp:81-84 | whether any transaction below is matched |
| `MerkleBlock.CPartialMerkleTree.TraverseAndBuild` | src/merkleblock.cpp:80-96 | appends exactly the bits and hashes of a node |
| `MerkleBlock.CPartialMerkleTree.TraverseAndExtract` | src/merkleblock.cpp:98-134 | reads one node of any data, with counters, matches and the bad flag |
| `MerkleBlock.CPartialMerkleTree.ExtractMatches` | src/merkleblock.cpp:152-183 | root or failure hash, matches, and indices added to those passed in |
| `MerkleBlock.CPartialMerkleTree.PackBits` | src/merkleblock.h:99-104 | bits to bytes, least significant first |
| `MerkleBlock.CPartialMerkleTree.Receive` | src/merkleblock.h:92-98 | bytes to bits |
| `MerkleBlock.Unpacked` | src/merkleblock.h:87-105 | unpacking what was packed gives the bits back, padded with zeros to whole bytes |
| `MerkleBlock.SendAndReceive` | src/merkleblock.cpp:63-183 | building, packing, unpacking and extracting any list: exactly the selected transactions, and the root unless there are too many transactions or two equal nodes side by side on the way |
| `PolyMod.ComputePolyMod` | src/cashaddr.cpp:40-145 | the loop computes the remainder of the polynomial (PolyDivision.PolyIsRemainder says what that is) |
| `PolyMod.Append` | src/cashaddr.cpp:99-141 | one turn of the loop is the step of the division |
| `GF32.MulExample` | src/cashaddr.cpp:64-66 | the product worked out in the source: 5 times 26 is 9 |
| `GF32.MulCommutes` | src/cashaddr.cpp:59-66 | multiplication modulo a^5 + a^3 + 1 commutes |
| `GF32.MulAssociates` | src/cashaddr.cpp:59-66 | it associates |
| `GF32.MulSpreads` | src/cashaddr.cpp:59-66 | it spreads over addition |
| `GF32.MulZero` | src/cashaddr.cpp:59-66 | it has no divisors of zero |
| `PolyDivision.FoldIsMultiple` | src/cashaddr.cpp:104-141 | the constants: for every leading coefficient, the eight groups added are that coefficient times 19, 3, 25, 11, 25, 3, 19 and 1 |
| `PolyDivision.StepDigits` | src/cashaddr.cpp:76-141 | a turn of the loop, coefficient by coefficient |
| `PolyDivision.DividesNext` | src/cashaddr.cpp:76-141 | appending a coefficient divides again: the leading coefficient of the remainder goes to the quotient |
| `PolyDivision.PolyIsRemainder` | src/cashaddr.cpp:40-75 | the result is the remainder of the list, with a 1 in front, divided by the generator over GF(32) |
| `PolyDivision.RemainderUnique` | src/cashaddr.cpp:40-75 | and there is only one |
| `PolyDivision.StepScales` | src/cashaddr.cpp:76-141 | a turn of the loop commutes with multiplication by every element of the field |
| `PolyDivision.PolyScales` | src/cashaddr.cpp:40-145 | so does the whole checksum |
| `PolyMod.StepLinear` | src/cashaddr.cpp:76-141 | appending a coefficient is linear |
| `PolyMod.StepInjective` | src/cashaddr.cpp:76-141 | appending zero keeps a remainder other than zero |
| `PolyMod.PolyLinear` | src/cashaddr.cpp:40-145 | the difference of two checksums depends on the difference of the lists only |
| `PolyMod.ShortPoly` | src/cashaddr.cpp:40-145 | up to eight coefficients are kept as they are |
| `PolyMod.WindowDetected` | src/cashaddr.cpp:40-145 | lists that differ only inside a window of eight have different checksums, at any length |
| `CashAddr.CharRoundTrip` | src/cashaddr.cpp:12-24 | the two character tables are inverse |
| `CashAddr.ExpandPrefix` | src/cashaddr.cpp:161-172 | five low bits of each character and a zero |
| `CashAddr.CreateChecksum` | src/cashaddr.cpp:192-207 | the eight groups of the remainder |
| `CashAddr.ChecksumVerifies` | src/cashaddr.cpp:177-207 | a list with its checksum passes |
| `CashAddr.ChecksumUnique` | src/cashaddr.cpp:177-207 | no other eight values do |
| `CashAddr.BurstDetected` | src/cashaddr.cpp:54-56 | changes within eight consecutive values of a valid list are always noticed |
| `CashAddr.Encode` | src/cashaddr.cpp:216-229 | prefix, colon, characters of values and checksum |
| `CashAddr.ScanExact` | src/cashaddr.cpp:236-282 | the scan accepts exactly letters, digits and at most one separator, not in front and with no digit before it; it finds the cases and the separator |
| `CashAddr.Decode` | src/cashaddr.cpp:234-324 | which strings are refused, and what the others mean |
| `CashAddr.UndefinedExact` | src/cashaddr.cpp:302-323 | decoding has no defined result exactly for an accepted string with fewer than eight values that pass the checksum; never with eight or more |
| `CashAddr.UndefinedInput` | src/cashaddr.cpp:302-323 | such a string: c:qvdy2z3 |
| `CashAddr.OneShort` | src/cashaddr.cpp:302-323 | for each prefix and each number of values up to eight at most one list passes |
| `CashAddr.PrefixBinds` | src/cashaddr.cpp:177-188 | what passes under one prefix passes under another exactly if the two prefixes leave the same remainder |
| `KnownAddresses.KnownAddress` | src/test/cashaddr_tests.cpp:49-49 | an address of the tests: prefix:x64nx6hz, with no values |
| `KnownAddresses.EveryCharacter` | src/test/cashaddr_tests.cpp:49-49 | all 32 values in order have the characters and the checksum of the tests under the prefix bitcoincash, and fail under the prefix of the tests |
| `CashAddr.RoundTrip` | src/cashaddr.cpp:216-324 | decoding an encoded address gives prefix and values back, for every lower-case prefix and every list |
| `CashAddr.DecodeEncodes` | src/cashaddr.cpp:216-324 | encoding what a lower-case string decodes to gives that string back |
| `RollingBloom.WrittenCell` | src/bloom.cpp:271-278 | writing a generation changes one position |
| `RollingBloom.WipedCell` | src/bloom.cpp:259-267 | the mask wipes exactly the positions of one generation |
| `RollingBloom.EveryPair` | src/bloom.cpp:274-276 | every pair of words is chosen by some hash |
| `RollingBloom.SamePair` | src/bloom.cpp:274-276 | two numbers below the size choose the same pair exactly when they differ in the last bit at most |
| `RollingBloom.WipeRemembers` | src/bloom.cpp:253-268 | a new generation keeps the two before it |
| `RollingBloom.WriteRemembers` | src/bloom.cpp:271-278 | overwriting positions forgets nothing |
| `RollingBloom.KeyRemembered` | src/bloom.cpp:269-278 | a new key joins those remembered |
| `RollingBloom.RememberedReported` | src/bloom.cpp:287-299 | remembered keys are reported |
| `RollingBloom.WipeExplained` | src/bloom.cpp:253-268 | after a wipe every position that holds something is one of those of the keys of that generation |
| `RollingBloom.WriteExplained` | src/bloom.cpp:271-278 | and so after a write |
| `RollingBloom.CellExact` | src/bloom.cpp:251-279 | a position holds something exactly when it is one of those of the last keys |
| `RollingBloom.CRollingBloomFilter.constructor` | src/bloom.cpp:219-244 | valid exactly for 1 to 2^32 - 2 elements and 1 to 2^32 - 64 bits; two generations hold the promised elements for every number but 2^32 - 1 |
| `RollingBloom.CRollingBloomFilter.Reset` | src/bloom.cpp:307-315 | all data zero and nothing remembered, for any filter |
| `RollingBloom.CRollingBloomFilter.Insert` | src/bloom.cpp:251-279 | keeps the last two generations and the current one remembered, and nothing older |
| `RollingBloom.CRollingBloomFilter.Contains` | src/bloom.cpp:287-299 | true exactly when each position of the key is one of those of the last 2 nEntriesPerGeneration + nEntriesThisGeneration keys; so for each of these keys |
| `Chain.LowestOneInverted` | src/chain.cpp:64-65 | exactly the lowest one becomes a zero |
| `Chain.GetSkipHeight` | src/chain.cpp:67-76 | always below the height |
| `Chain.CBlockIndex.GetAncestor` | src/chain.cpp:78-102 | ends, and equals the plain walk along pprev; its assert holds |
| `Chain.CBlockIndex.BuildSkip` | src/chain.cpp:109-113 | the skip pointer is the ancestor at the skip height, and the tree stays well formed |
| `Chain.CChain.SetTip` | src/chain.cpp:13-23 | the chain becomes exactly the ancestors of the tip |
| `Chain.CChain.FindFork` | src/chain.cpp:53-62 | the highest block of the branch that is in the chain, or none |
| `Arith.Uint256.constructor` | src/arith_uint256.h:51-57 | a 64-bit number |
| `Arith.Uint256.AddAssign` | src/arith_uint256.h:135-145 | addition modulo 2^256 |
| `Arith.Uint256.Increment` | src/arith_uint256.h:173-180 | one more, modulo 2^256 |
| `Arith.Uint256.Complement` | src/arith_uint256.h:69-75 | 2^256 - 1 minus the number |
| `Arith.Uint256.Negate` | src/arith_uint256.h:77-84 | the negative, modulo 2^256 |
| `Arith.Uint256.SubAssign` | src/arith_uint256.h:147-151 | subtraction modulo 2^256, by adding the negative |
| `Arith.Uint256.ShiftLeft` | src/arith_uint256.cpp:22-36 | multiplication by a power of two, modulo 2^256 |
| `Arith.Uint256.ShiftRight` | src/arith_uint256.cpp:39-53 | division by a power of two |
| `Arith.Uint256.CompareTo` | src/arith_uint256.cpp:110-119 | the order of the numbers |
| `Arith.Uint256.Bits` | src/arith_uint256.cpp:172-184 | the length of the number in bits |
| `Arith.Uint256.DivideStep` | src/arith_uint256.cpp:97-104 | one bit of the quotient |
| `Arith.Uint256.DivAssign` | src/arith_uint256.cpp:84-107 | the quotient, or an error for zero |
| `BlockProof.OverflowExact` | src/arith_uint256.cpp:217-220 | the overflow test is exact |
| `BlockProof.SetCompact` | src/arith_uint256.cpp:204-222 | value, sign and overflow of a compact number |
| `CompactTargets.GetCompact` | src/arith_uint256.cpp:224-245 | the compact form of every number; its asserts hold |
| `CompactTargets.CompactRounds` | src/arith_uint256.cpp:204-245 | reading it back gives the number with all but its leading bytes cleared, never zero for another number, never too large |
| `CompactTargets.SignKept` | src/arith_uint256.cpp:204-245 | the sign comes back, unless the number is zero |
| `CompactTargets.TargetKept` | src/arith_uint256.cpp:204-245 | a target that was read is written without loss |
| `CompactTargets.WrittenBack` | src/arith_uint256.cpp:204-245 | a compact number is written back as it was read exactly when it is canonical |
| `CompactTargets.WriteAndRead` | src/arith_uint256.cpp:204-245 | the two methods in sequence |
| `BlockProof.RoomAbove` | src/chain.cpp:130-134 | adding one to a target never wraps around |
| `BlockProof.WithoutOverflow` | src/chain.cpp:130-134 | the quotient can be had without representing 2^256 |
| `BlockProof.GetBlockProof` | src/chain.cpp:122-135 | 2^256 / (T + 1), and zero exactly when the target is zero, negative or at least 2^256 |
| `Base58.CharRoundTrip` | src/base58.cpp:19-20 | the alphabet and its inverse |
| `Base58.AlphabetOrder` | src/base58.cpp:19-20 | the alphabet is in the order of the characters |
| `Base58.AlphabetExact` | src/base58.cpp:19-20 | it has the digits and letters but for 0, O, I and l |
| `Base58.BytesFit` | src/base58.cpp:34-34 | 733/1000 of the characters, and one, is room enough |
| `Base58.CharsFit` | src/base58.cpp:78-78 | 138/100 of the bytes, and one, is room enough |
| `Base58.Absorb256` | src/base58.cpp:41-48 | the buffer times 58 plus a digit; no carry is left |
| `Base58.Absorb58` | src/base58.cpp:82-92 | the buffer times 256 plus a byte; no carry is left |
| `Base58.EncodeBase58` | src/base58.cpp:68-106 | ones for leading zeros, then the number in base 58 |
| `Base58.DecodeBase58` | src/base58.cpp:22-66 | which strings are refused, and what the others mean |
| `Base58.RoundTrip` | src/base58.cpp:22-106 | decoding an encoded byte string gives it back |
| `Base58.EncodesBack` | src/base58.cpp:22-106 | encoding what a string without spaces decodes to gives that string back |
| `Base58.SpacesIgnored` | src/base58.cpp:24-26 | spaces before and after do not count |
| `Base58.SpaceInside` | src/base58.cpp:50-54 | a space between other characters is refused |
| `CompactBlocks.MakeCompact` | src/blockencodings.cpp:20-30 | the first transaction in full, short ids for the others |
| `CompactBlocks.PartiallyDownloadedBlock.PlacePrefilled` | src/blockencodings.cpp:61-77 | prefilled transactions at the positions their offsets say; refused exactly when one is null or out of reach |
| `CompactBlocks.PartiallyDownloadedBlock.IndexShortIds` | src/blockencodings.cpp:83-101 | each short id is entered with the low 16 bits of its open position, for all sizes; every index is in bounds; stopped exactly when some bucket is crowded, and otherwise as many entries as ids exactly when no two ids are equal |
| `CompactBlocks.IndexExact` | src/blockencodings.cpp:83-88 | the index is right exactly for blocks of at most 65536 transactions |
| `CompactBlocks.NoneOpen` | src/blockencodings.cpp:83-87 | with 65536 prefilled transactions the 16-bit offset finds no open position |
| `CompactBlocks.NoneOpenInput` | src/blockencodings.cpp:83-87 | such a block: 65536 prefilled transactions with offset 0, and one short id |
| `CompactBlocks.FoundExact` | src/blockencodings.cpp:107-133 | a short id is found exactly when one transaction of the pool, as far as it was scanned, has it and no other |
| `CompactBlocks.PartiallyDownloadedBlock.ScanPool` | src/blockencodings.cpp:107-133 | up to 65536 transactions, every open position holds what its short id is found to stand for, the counter is exact, and the scan stops early only when all are found |
| `CompactBlocks.PartiallyDownloadedBlock.InitData` | src/blockencodings.cpp:50-138 | refused exactly when malformed; failed exactly when it is not, and two short ids are equal or a bucket is crowded; on success up to 65536 transactions all positions are right and hold all that can be found |
| `CompactBlocks.PartiallyDownloadedBlock.FillBlock` | src/blockencodings.cpp:146-182 | the gaps filled in order; a list of any other length is refused |
| `CompactBlocks.KnownRight` | src/blockencodings.cpp:20-138 | what is known of a block's own compact form is right |
| `CompactBlocks.CompletedRight` | src/blockencodings.cpp:146-162 | with the transactions at the open positions the list is complete |
| `CompactBlocks.Relay` | src/blockencodings.cpp:20-182 | a block is initialised exactly when it is not too long, its short ids differ and no bucket is crowded; up to 65536 transactions it then comes out exactly |

## Left out

- Address selection for outgoing connections (`Select_`, `GetChance`): its end is a matter of probability.
- `Clear()` of an address manager that is not empty.
- AddrStore.Unserialize: only for streams that `Serialize` wrote, loaded into a cleared manager.
- Byte-level encoding of the address manager's stream: a snapshot holds the values in order.
- Whether an address is routable is a parameter of `Add`; the clock is read once per call.
- Block assembler: the coinbase, the header and the final validity test of the block; the rounding of the
  floating-point comparison of packages, which is a parameter, and of priorities.
- Check queue: `CCheckQueueControl`, a thin wrapper; more than 2^32 checks at once; `fQuit`, which nothing sets, is
  a constant of the model that may have either value in the runs.
- Coins: the best-block hash, memory accounting, the byte format of a coins record, a database that refuses a
  write.
- CoinsRuns.RunAgrees: a modification in a lower cache is a step unless a cache above holds the transaction with
  flags that are not true of the change; `CoinsRuns.ChangeExact` shows that such a step breaks the flags, and
  `CoinsRuns.StaleAbove` shows what comes of it. Several caches over one view are not modelled.
- Coins.OpenNewKeeps: asks that nothing of the transaction is unspent below, unless it is a coinbase, because the
  comment at src/coins.h:470-478 asks it of the caller; `Coins.OpenNewExact` shows that it is needed.
- Cuckoo cache: concurrent erasure.
- CuckooCache.Cache.constructor: takes the depth limit, a floating-point logarithm in the source, as any number from
  one on; the size is a 32-bit number as in the source.
- Partial Merkle trees: the surrounding block message and its Bloom filter.
- MerkleBlock.CPartialMerkleTree.constructor: at least one transaction, as in every block; the source reads the
  first id without a test.
- Cash addresses: packing of bytes into five-bit values.
- Rolling Bloom filter: false-positive rates.
- RollingBloom.CRollingBloomFilter.constructor: takes the number of hash functions and of filter bits, which the
  source finds by floating-point logarithms, as parameters.
- Chain: locators; the arithmetic of block times.
- Arithmetic: multiplication, hexadecimal and floating-point conversion.
- Base58: the check-summed address forms.
- Base58.DecodeBase58: no null inside the string, which is a C string in the source.
- CompactBlocks.PartiallyDownloadedBlock.InitData: whether a hash bucket is crowded is a parameter. With 65536
  prefilled transactions in place and a short id left the search for an open position has no end, as
  `CompactBlocks.NoneOpen` shows, and the call is excluded; `CompactBlocks.NoneOpenInput` is such a block. Beyond
  65536 transactions the 16-bit index is wrong, as `CompactBlocks.IndexExact` shows, and nothing is promised of the
  positions.
- CompactBlocks.PartiallyDownloadedBlock.IndexShortIds: excludes the same block.
- CompactBlocks.Relay: beyond 65536 transactions nothing is promised, for the same reason.
- Networking, storage engines, scripts, signatures, proof of stake, RPC and user interfaces.
