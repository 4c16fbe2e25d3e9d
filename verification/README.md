# Verified models of the Litecoin Core data structures under Trade Layer

This project models the data structures and protocols of the node in Dafny and proves what they are for. Each
module follows one component of the repository:

- `Mempool`, `Miner`, `MinerCases`: block template assembly, a greedy package scheduler over a transaction DAG with a
  lazily corrected side table. The block is closed under ancestors, ordered and within its limits, and built by picks
  each of which was the best candidate left. The loop terminates; at its end everything left out has a reason that
  holds for good, or the best candidate pays less than the minimum, or over a thousand packages in a row did not fit.
- `AddrTables`, `AddrMan`, `AddrSound`, `AddrStream`, `AddrFile`: the address manager, five redundant indexes with
  counters and reference counts. Every operation keeps what `Check_` tests; saving and loading rebuilds the same tables
  up to the numbering of the entries. For an arbitrary file, the entries and tables it leaves, and whether they are
  consistent, are given as functions of the file and the hashes.
- `Coins`: a stack of write-back coin caches with DIRTY and FRESH flags refines one plain map over whole runs.
- `CheckQueue`: the master and worker protocol as a state machine. In every interleaving each check runs at most once,
  `Wait` returns the conjunction of its checks and has run all of them if that is true, is never stuck, and ends after
  a bounded number of steps that are not spurious wake-ups.
- `BitFlags`, `Cuckoo`: the cuckoo cache with lazy erasure and epochs: the contents after every insert, conservation
  along the chain of displacements, and load bounds.
- `Merkle`, `MerkleProof`, `MerkleSize`: partial Merkle trees: exactly the flattened pruned trees are accepted; extraction
  is sound for arbitrary input unless a named node is forged, and undoes building and bit packing exactly unless a named
  node has two equal children; the exact condition for the documented size.
- `MerkleRoot`: the constant-space computation of a Merkle root refines the recursive definition, and its mutation flag
  notices every change of the leaves that keeps root and height, unless two located nodes collide.
- `BitOps`, `Limbs`, `Arith`, `Compact`: limb arithmetic of any width equals arithmetic modulo the width, the compact
  target format, and the work of a block.
- `SkipList`, `Chain`: the skip list of the block tree, with a bound on the steps of a walk, the active chain, forks and
  locators.
- `Bloom`: the rolling bloom filter never forgets its most recent keys, and older ones leave no trace in it.
- `Bech32`, `Field`, `Bech32Field`, `Bech32Text`: the checksum as a remainder modulo a generator over a field of 32
  elements that detects up to three errors within 1023 symbols, and encoding and decoding as inverses of each other.
- `CompactBlocks`, `Reconstruction`: differential index coding and the reconstruction of blocks (BIP 152).
- `Positional`, `Base58`: Base58 in both directions, with the fixed buffer sizes.
- `Basics`, `SetSum`, `Power`: shared notions, sums over sets, and powers and division.

Hashes, random numbers, clocks and the graph queries of the memory pool are parameters.
Integers are unbounded unless a width matters, and then it is written out.

## Where code and documentation differ

The models follow the code. These differences are stated as lemmas or contracts.

- `src/miner.h:114` subtracts the base fee where `src/miner.cpp:265` subtracts the modified fee, so tracked modified
  fees are exact exactly for parents without a fee delta (`Miner.ParentInclusionExactIff`). A transaction that was
  turned down and enters the table again is over-counted by its ancestors already in the block
  (`Miner.ReinsertionOvercount`), and can be turned down although it would fit (`MinerCases.OvercountRun`).
- `src/miner.cpp:382` says at the fee stop that everything else has a lower fee rate. What holds is that everything else
  has a lower sort rate; a candidate whose own rate is low can still have a package that pays more than the minimum
  (`MinerCases.FeeStop`, `MinerCases.FeeStopExample`).
- `src/cuckoocache.h:419-420` says that the first displacement uses `locs[0]`; the code uses `locs[1]`
  (`Cuckoo.FirstDisplacement`).
- `src/merkleblock.h:47` promises at most 2N-1 flag bits for N hashes; that holds exactly if no node on the way to a
  match has a single child (`Merkle.BitCount`, `Merkle.BitCountExample`).
- `Add_` of the address manager returns true for every unknown routable address, also when the entry is dropped again
  because its slot does not yield (`AddrMan.AddrMan.Add`).
- `SpendCoin` returns true for a cached entry that is already spent (`Coins.CoinsViewCache.SpendCoin`). When `AddCoin`
  throws, the memory counter has already been reduced (`Coins.CoinsViewCache.AddCoin`). `Flush` with a null block hash
  changes what `GetBestBlock` finds (`Coins.CoinsViewCache.Flush`).
- `*=` of an object with itself gives zero (`Arith.MulAssign`); a division by zero throws after the left operand has
  been cleared (`Arith.DivAssign`).
- A list of indexes read from the wire need not increase: after 65535 the 16-bit offset starts again at 0. It does
  increase exactly if the wire list does not run past 65535 (`CompactBlocks.ReadIncreasing`,
  `CompactBlocks.ReadWraps`).
- `InitData` accepts messages of up to 100000 transactions but keeps positions in 16 bits. With 65536 prefilled
  transactions and a short id its scan for an empty slot does not end; with more than 65536 transactions matches for
  the slots from 65536 on replace what is prefilled 65536 places before. Both are excluded exactly by at most 65536
  transactions (`Reconstruction.PositionsFitIff`, `Reconstruction.HangExample`, `Reconstruction.OverwriteExample`).
- An epoch of the cuckoo cache is 45 percent of its size only up to 95443717 elements, where the 32-bit product wraps
  (`Cuckoo.EpochSize`). The flags of the last seven 32-bit sizes get no memory
  (`BitFlags.BitPackedFlags.constructor`).
- An address file is accepted without a test for negative counts or repeated addresses. It gives a valid manager exactly
  if the counts are not negative and the addresses that matter differ (`AddrFile.Unserialize`,
  `AddrStream.Consistent`); `AddrFile.NegativeExample`, `AddrFile.SharedExample` and `AddrFile.RepeatedExample` are
  files on either side.
- `src/merkleblock.h:34` guarantees 10 + ceil(32.25 N) bytes for N hashes. This holds exactly if the flag bits take fewer
  than 253 bytes or no more than ceil(N / 4); 1012 matched transactions take one byte more (`MerkleSize.SizeIff`,
  `MerkleSize.SizeExample`).
- `src/chain.cpp:77-79` speaks of at most 110 steps within 2^18 blocks, found by simulation. The bound proved here gives
  158 for these heights; it neither confirms nor refutes that number (`SkipList.StepsBound`).
- `extra_count` counts a slot down also when the match given up came from the pool, so it can go below zero and wrap
  (`src/blockencodings.cpp:150-154`, `Reconstruction.ExtraCountExample`).
- `src/addrman.h:125-126` and `src/addrman.h:130-131` speak of a randomly chosen entry of a full bucket. The position
  within a bucket is hashed, so a bucket need not be full: only the occupant of that one slot is at stake, and in the new
  table only if it yields (`AddrMan.AddrMan.ListNew`, `AddrMan.AddrMan.MakeTried`).
- `src/consensus/merkle.cpp:45` speaks of up to 2^32 leaves; the counter of the final sweep wraps exactly above 2^31
  (`MerkleRoot.CounterFitsIff`). The flag notices every change that keeps the root in a tree of the same height, but not
  those between different heights (`MerkleRoot.ChangesNoticed`, `MerkleRoot.HeightExample`).
- `AddCoin` without announcing an overwrite marks the entry FRESH also when an unspent coin lies below
  (`Coins.CoinsViewCache.AddCoin`, `Coins.MisappliedFresh`).

## Model

| member | source | states |
|---|---|---|
| `Mempool.FeeFor` | src/policy/feerate.cpp:23-39 | Positive, zero and negative exactly as rate times size: a positive rate on a positive size is never rounded down to zero. |
| `Mempool.FeeRounded` | src/policy/feerate.cpp:23-39 | The fee of a rate is its share of the size per 1000 bytes rounded down, but one where that is between zero and one; a negative rate gives the negative fee. |
| `Mempool.PaysIff` | src/policy/feerate.cpp:23-39 | Fees reach the fee of a rate exactly if they miss rate times size by less than one satoshi and, for a positive rate, are positive. |
| `Mempool.Pool.VirtualSize` | src/policy/policy.cpp:252-255 | The least size such that four times it covers both the weight and the price of the sigops. |
| `Mempool.Pool.AncestorCountGrows` | src/miner.h:76-86 | In every transaction DAG an ancestor has strictly fewer ancestors than its descendant. |
| `Miner.BestModified` | src/miner.cpp:346-360 | The first entry of the side table by score beats every other entry. |
| `Miner.BetterIff` | src/txmempool.h:273-311 | The order by score is the order of the lower of the own and the package fee rate, compared by cross products, and ties go to the lower hash. |
| `Miner.BlockAssembler.IncludeAndKeep` | src/miner.cpp:405-438 | An acceptable package that fits makes the block grow by exactly its weight and sigops, keeps it valid and within limits, and forgets nobody. |
| `Miner.CoinbaseFee` | src/miner.cpp:166-170 | Replacing the first entry by the negated total makes the fee vector sum to zero and leaves the other entries aligned with the block. |
| `Miner.BodyClosed` | src/miner.cpp:192-203 | A block listed parents-first contains every in-pool ancestor of what it contains. |
| `Miner.ParentInclusionExactIff` | src/miner.h:108-120 | Totals stay exact after a parent inclusion exactly if the parent has equal base and modified fee; the first correction is always exact. |
| `Miner.CorrectionCovers` | src/miner.cpp:257-270 | Correcting a total for one more included ancestor keeps its books: it is the true remaining total, plus the ancestors in the block still counted, plus the fee deltas of those taken out with their base fee; exactly one of the ancestors in the block, if there is any, was taken out exactly, and nothing is over-counted for transactions that never failed. |
| `Miner.Covers` | src/miner.cpp:372-386 | Tracked size and sigops lie between the true remaining ones and the cached ones, and are exact for transactions that never failed. |
| `Miner.ExactFee` | src/miner.cpp:372-386 | If no ancestor has a fee delta, the tracked totals of a transaction that never failed are exact, fee included. |
| `Miner.ReinsertionOvercount` | src/miner.cpp:259-267 | A transaction entering the table again is over-counted by exactly its ancestors that were already in the block. |
| `Miner.UpdateDescendants` | src/miner.cpp:253-271 | Exactly the descendants outside the added set get corrected totals, each counted once. |
| `Miner.UpdatePackagesForAdded` | src/miner.cpp:249-274 | After a package is included every entry of the side table has its books right, the table keeps what it had, and has every descendant of the package; the number returned is that of pairs of a member of the package and a descendant outside it. |
| `Miner.StillRejected` | src/miner.cpp:333-439 | A reason for staying out holds for good: an unacceptable ancestor is never included, sigops never become free, and including ancestors wins back no more weight than their rounding gaps, which the reason counts. |
| `Miner.TooBig` | src/miner.cpp:386-403 | A package that does not fit when it is evaluated for the first time has such a reason. |
| `Miner.NoneForgottenGrows` | src/miner.cpp:333-439 | Including a package leaves every transaction outside candidates and block with a reason to stay out. |
| `Miner.RestBeaten` | src/miner.cpp:344-366 | When the best candidate is chosen, everything else outside the block has a reason to stay out or is not better. |
| `Miner.RestWorse` | src/miner.cpp:344-366 | What is not worse than the next entry of the sorted index is not worse than any later one. |
| `Miner.BlockAssembler.constructor` | src/miner.cpp:69-74 | The weight limit is exactly the requested one clamped between 4000 and the maximum less 4000. |
| `Miner.BlockAssembler.ResetBlock` | src/miner.cpp:94-106 | An empty valid block with the weight and sigops reserved for the coinbase, and a placeholder for it in both vectors. |
| `Miner.BlockAssembler.TestPackageTransactions` | src/miner.cpp:219-228 | True exactly if every transaction of the package is final and allowed to carry its witness. |
| `Miner.BlockAssembler.OnlyUnconfirmed` | src/miner.cpp:192-203 | Leaves exactly the transactions outside the block. |
| `Miner.BlockAssembler.AddToBlock` | src/miner.cpp:230-247 | Appends one transaction whose ancestors are all present and keeps body, vectors, counters and fees in agreement. |
| `Miner.BlockAssembler.AddPackage` | src/miner.cpp:429-433 | Adds a sorted package and removes its members from the side table. |
| `Miner.BlockAssembler.PackageFits` | src/miner.cpp:205-213 | A package that passes the test on covering totals keeps the true block weight and sigops within their limits. |
| `Miner.BlockAssembler.ChooseNext` | src/miner.cpp:344-379 | The choice between the sorted index and the side table: everything else outside the block has a reason to stay out or has exactly tracked totals that are not better, and the totals of the choice have their books right. |
| `Miner.BlockAssembler.TurnDown` | src/miner.cpp:386-420 | A transaction with a reason to stay out leaves the candidates; nobody is forgotten, and the failures counted so far stay different transactions. |
| `Miner.BlockAssembler.IncludePackage` | src/miner.cpp:426-438 | Including a package keeps block and side table valid and the limits respected. |
| `Miner.BlockAssembler.SelectNext` | src/miner.cpp:344-438 | One round evaluates the best candidate, and whether it is included, counted as a failure or ends the selection follows exactly from its totals by the rules for fee, limits, failures and acceptability. What is included is exactly its remaining package; otherwise the block is unchanged and the candidate has a reason to stay out or a stop rule applies. Something is always used up. |
| `Miner.BlockAssembler.AddPackageTxs` | src/miner.cpp:312-440 | On every pool the selection terminates with a valid block within its limits that was built from nothing by good picks, each the best candidate at its time. At the end everything left out has a lasting reason (unacceptable package, sigops, or weight up to the rounding gaps of included ancestors); or the best candidate pays less than the minimum by its tracked totals; or more than 1000 different packages in a row did not fit a block within 4000 of its limit. Both counts returned are those of the picks. |
| `Miner.PicksPay` | src/miner.cpp:381-384 | Every package picked in any run pays the minimum rate up to less than one satoshi, and something if the minimum is positive. |
| `Miner.BlockAssembler.CreateNewBlock` | src/miner.cpp:108-190 | The template is free of duplicates, lists ancestors first, holds only final and allowed transactions, has exact weight and sigops within limits (a weight below the limit if it holds anything), was built by good picks with one of the three endings, and its fee vector sums to zero. |
| `Miner.SortForBlock` | src/miner.cpp:291-300 | The package in strictly ascending order of ancestor count, then hash, each member once. |
| `Miner.PackageOrdered` | src/miner.cpp:291-300 | Ascending ancestor count puts every ancestor before its descendants. |
| `MinerCases.FeeStop` | src/miner.cpp:381-384 | When the best candidate pays less than the minimum, every other one pays less by itself or together with its ancestors. |
| `MinerCases.FeeStopExample` | src/miner.cpp:381-384 | Four transactions on which the selection stops at once although the package of one of them pays more than the minimum. |
| `MinerCases.OvercountRun` | src/miner.cpp:261-267 | The rounds of a selection over three transactions, each evaluating what is best in table and index and pays the minimum: one transaction fails, is over-counted when it comes back, and is turned down although it would fit. |
| `AddrTables.EmptyInv` | src/addrman.h:456-478 | Empty tables satisfy everything Check_ tests. |
| `AddrTables.TriedSpread` | src/addrman.cpp:12-17 | The addresses of one range are spread over at most 8 of the 256 tried buckets. |
| `AddrTables.NewSpread` | src/addrman.cpp:19-25 | Addresses from sources in one range are spread over at most 64 of the 1024 new buckets, wherever they are themselves. |
| `AddrTables.CreatedInv` | src/addrman.cpp:81-91 | Creating an entry for a new address keeps the invariant, with the entry pending. |
| `AddrTables.DeletedInv` | src/addrman.cpp:113-125 | Deleting an unreferenced untried entry keeps the invariant. |
| `AddrTables.UnreferencedInv` | src/addrman.cpp:127-140 | Taking a slot away from its entry keeps the invariant; the count was positive. |
| `AddrTables.ReferencedInv` | src/addrman.cpp:302-306 | Giving an empty slot to an entry with room keeps the invariant. |
| `AddrTables.ToTriedInv` | src/addrman.cpp:183-187 | Moving an unlisted entry to its free tried slot keeps the invariant. |
| `AddrTables.FromTriedInv` | src/addrman.cpp:163-170 | Taking an entry out of the tried table keeps the invariant; tried entries have no references. |
| `AddrTables.UpdateStats` | src/addrman.cpp:315-335 | Changing statistics that no index depends on keeps the invariant. |
| `AddrTables.CountedRefs` | src/addrman.cpp:385-460 | A reference count is the number of slots that hold the entry, at most eight, and positive for every untried entry. |
| `AddrMan.AddrMan.constructor` | src/addrman.h:480-483 | A new manager is empty and valid. |
| `AddrMan.TerribleIff` | src/addrman.cpp:33-52 | An entry is terrible exactly if it was not tried in the last minute and comes from the future by more than ten minutes, has no time or was not seen for 30 days, failed three times without any success, or ten times with none in a week. |
| `AddrMan.AddrMan.Clear` | src/addrman.h:456-478 | Afterwards every index, both tables and all counters are empty. |
| `AddrMan.AddrMan.Create` | src/addrman.cpp:81-91 | The new state is exactly the old one with the entry added under the next id, counted by the caller. |
| `AddrMan.AddrMan.SwapRandom` | src/addrman.cpp:93-111 | Swaps two places of the random order, keeping it inverse to the stored positions, and the whole invariant if it held. |
| `AddrMan.AddrMan.Delete` | src/addrman.cpp:113-125 | Exactly the one entry disappears, the others survive, and the invariant is kept if it held. |
| `AddrMan.AddrMan.ClearNew` | src/addrman.cpp:127-140 | Empties one slot; at most its entry is deleted, never a tried one, and every other count is unchanged. |
| `AddrMan.AddrMan.Reference` | src/addrman.cpp:302-305 | The free slot now holds the entry and its count is one higher; nothing else changes. |
| `AddrMan.AddrMan.Unlist` | src/addrman.cpp:144-154 | The new table without the entry, whose count becomes zero; nothing else changes. |
| `AddrMan.AddrMan.Demote` | src/addrman.cpp:161-170 | Takes exactly the occupant of a tried slot out of the tried table. |
| `AddrMan.AddrMan.MakeRoom` | src/addrman.cpp:160-183 | The tried slot is free afterwards and no other slot of that table changes; its occupant takes exactly the new slot its own address and source select, and at most the untried occupant of that slot is lost. |
| `AddrMan.AddrMan.Relist` | src/addrman.cpp:172-181 | The new table changes exactly in the slot selected by the address and the source of the displaced entry, which now holds it; at most one untried entry is lost, never the displaced one. |
| `AddrMan.AddrMan.Promote` | src/addrman.cpp:183-187 | Puts an entry into its free tried slot, changes no other slot of either table and restores the full invariant. |
| `AddrMan.AddrMan.MakeTried` | src/addrman.cpp:142-188 | Both tables exactly: the entry leaves every new slot for its tried slot, and the one found there goes to the new slot of its own address and source. At most one entry is lost, never a tried one; no other entry becomes tried and no other statistics change. |
| `AddrMan.AddrMan.FindBucket` | src/addrman.cpp:219-234 | From every starting point the search finds a bucket holding the entry, so the "something bad happened" branch is dead. |
| `AddrMan.AddrMan.Good` | src/addrman.cpp:190-240 | A known address ends up tried with fresh statistics, with both tables exactly as after moving it; an unknown one changes nothing, and one already tried changes no table. At most one entry is lost and never a tried one; all others keep their statistics, and none of them becomes tried. |
| `AddrMan.AddrMan.Attempt` | src/addrman.cpp:315-335 | Exactly the statistics of the known address change, and failures are counted at most once per last success. |
| `AddrMan.AddrMan.Connected` | src/addrman.cpp:483-501 | Exactly the time of the known address changes, and only if it is more than twenty minutes old. |
| `AddrMan.AddrMan.SetServices` | src/addrman.cpp:503-519 | Exactly the services of the known address change. |
| `AddrMan.AddrMan.GetAddr` | src/addrman.cpp:462-481 | For every sequence of random numbers: the random order is exactly its partial shuffle, and the addresses are those of the entries in the shuffled part that are not terrible, in order, until 23 percent (at most 2500) are found or the order ends; from different places. |
| `AddrMan.ShuffledSame` | src/addrman.cpp:473-474 | Shuffling any part of the order with any random numbers permutes it. |
| `AddrMan.AddrMan.Visit` | src/addrman.cpp:473-479 | One step of the sample shuffles one place and takes its entry exactly if it is not terrible. |
| `AddrMan.AddrMan.TakeSlot` | src/addrman.cpp:302-306 | Exactly this slot of the new table changes, the entry has one more reference, and at most the untried occupant is lost. |
| `AddrMan.AddrMan.ListNew` | src/addrman.cpp:291-311 | The new table changes at most in the slot selected by address and source, which the entry gets exactly if it is free or yields; the entry is deleted exactly if it then has no reference. |
| `AddrMan.AddrMan.AddNew` | src/addrman.cpp:285-288 | The entry is added under an unused id with the given services, the penalised time, its source and the next random position; all other entries and the table are unchanged. |
| `AddrMan.AddrMan.Renew` | src/addrman.cpp:256-283 | The known entry gets merged services and a penalised newer time; going on happens exactly if it is untried, has room for a reference, is older than the news, and one of 2^N numbers is drawn for N references. |
| `AddrMan.RenewedTime` | src/addrman.cpp:256-264 | The time moves forward, to the penalised one, exactly if the news is later by more than the penalty and an hour, or a day for addresses not seen for a day; services are merged. |
| `AddrMan.Lucky` | src/addrman.cpp:278-283 | The test is passed exactly if zero is drawn among 2^N numbers for N references. |
| `AddrMan.AddrMan.AddKnown` | src/addrman.cpp:256-311 | The known entry is exactly the refreshed one up to its place in the indexes, and the new table changes exactly if it passes the tests for one more reference and its slot yields; at most one other entry is lost, never a tried one, and all others stay the same. |
| `AddrMan.AddrMan.AddUnknown` | src/addrman.cpp:284-311 | The new address is known afterwards exactly if its slot was free or yields, as a new entry with its services, penalised time, source and one reference, and then exactly that slot changes; at most one entry is lost, never a tried one, and all others stay the same. |
| `AddrMan.AddrMan.Add` | src/addrman.cpp:242-313 | True exactly for unknown routable addresses; exactly what becomes of known and unknown ones, services and penalised time included, and of every slot of the new table; at most one entry is lost, never a tried one, and all others stay the same. |
| `AddrMan.AddrMan.Run` | src/addrman.cpp:385-460 | Every sequence of operations keeps everything Check_ tests, including the conditions on times, never changes the key, which must not be null, and leaves the time of the last Good. |
| `AddrMan.RandomDistinct` | src/addrman.cpp:469-480 | Different places of the random order hold different entries, so a sample has no entry twice. |
| `AddrFile.TargetInv` | src/addrman.h:300-348 | The renumbered tables of a file satisfy the invariant. |
| `AddrFile.OrderOk` | src/addrman.h:300-348 | The file lists every entry once, the untried ones first, as many as the counters say. |
| `AddrFile.RenameBijective` | src/addrman.h:300-348 | Renumbering is a bijection between the old and the new ids. |
| `AddrFile.TargetSame` | src/addrman.h:300-348 | The renumbered tables agree with the original ones entry by entry, in every field that is written and whether it is tried, and slot by slot, under a bijection of ids. |
| `AddrFile.WithinLimits` | src/addrman.h:371-377 | The counters of every valid manager pass the limits that loading checks. |
| `AddrFile.Serialize` | src/addrman.h:300-348 | The file written bucket by bucket is the one specified by the tables, with the untried entries numbered in order. |
| `AddrFile.ReadBucketCount` | src/addrman.h:365-369 | The number of buckets as the format of the file gives it: inverted in one bit unless the version is zero. |
| `AddrStream.SignedRange` | src/addrman.h:362-366 | A count read as 32 bits is taken as the signed number that is equal to it modulo 2^32. |
| `AddrFile.FileDescribes` | src/addrman.h:270-296 | What is written describes the renumbered tables: entries in order, and for every bucket exactly its occupants. |
| `AddrFile.LoadNew` | src/addrman.h:379-397 | From any file long enough, exactly its untried entries with a sound random order and an index where the last entry wins; without usable bucket lists, the new table their sources select in file order; from a described file its entries. |
| `AddrFile.LoadTried` | src/addrman.h:399-418 | From any file long enough, exactly the tried entries that no earlier one with the same slot precedes, in order; from a described file none is lost. |
| `AddrFile.LoadBuckets` | src/addrman.h:420-436 | From any file long enough, exactly the new table that its bucket lists give in order: a slot if it is free and the entry has fewer than eight; from a described file all of it is rebuilt. |
| `AddrFile.Prune` | src/addrman.h:438-451 | Exactly the untried entries without a reference are gone, and the index entries of their addresses; everything else stays but for the random order. |
| `AddrFile.Unserialize` | src/addrman.h:350-454 | A file is accepted exactly if its key has the right size, its counts are within limits and it does not end early. The entries it leaves, their reference counts and the new table are exactly those given by the file and the hashes. The manager is valid exactly if the counts are not negative and the file is consistent. A file that describes valid tables rebuilds exactly them. |
| `AddrFile.NegativeExample` | src/addrman.h:362-377 | A file with a negative count is accepted and leaves the manager inconsistent. |
| `AddrFile.SharedExample` | src/addrman.h:379-418 | A file with one address among both the untried and the tried entries is accepted and leaves the manager inconsistent. |
| `AddrFile.RepeatedExample` | src/addrman.h:399-418 | A file with the same tried entry twice gives a valid manager. |
| `AddrFile.LoadDifferent` | src/addrman.h:350-454 | Every readable file without negative counts whose addresses all differ gives a valid manager. |
| `AddrFile.FinishLoad` | src/addrman.h:438-453 | What is left after pruning, and that it is valid exactly if the file is consistent. |
| `AddrStream.UnsharedIff` | src/addrman.h:379-451 | No entry that is left shares its address with another loaded one exactly if the addresses of untried entries with a slot differ from those of all other untried entries, and those of kept tried entries from those of all untried and all other kept tried entries. |
| `AddrStream.DifferentConsistent` | src/addrman.h:379-418 | A file whose addresses all differ is consistent. |
| `AddrStream.TakenNext` | src/addrman.h:401-417 | A tried entry finds its slot free exactly if no earlier one of the file has the same slot, kept or not. |
| `AddrStream.LoadedCounts` | src/addrman.h:420-436 | The reference counts of loaded entries are those of the new table, and exactly the entries without a slot in it are to be pruned. |
| `AddrStream.LeftContents` | src/addrman.h:438-448 | Pruning leaves exactly the tried entries and the untried ones with a slot. |
| `AddrSound.AddrOkIff` | src/addrman.h:438-451 | After pruning the address index is right exactly if no entry that is left shares its address with another loaded one. |
| `AddrSound.SoundNew` | src/addrman.h:379-386 | Loading an untried entry keeps the tables right whatever it holds. |
| `AddrSound.SoundTried` | src/addrman.h:399-417 | Loading a tried entry into a free slot keeps the tables right whatever it holds. |
| `AddrSound.SoundRef` | src/addrman.h:427-434 | Giving a loaded entry a slot keeps tables and counts right. |
| `AddrSound.SoundDeleted` | src/addrman.h:438-448 | Pruning an unreferenced entry keeps tables and counts right. |
| `AddrFile.SaveAndLoad` | src/addrman.h:300-454 | Saving a valid manager and loading it into another succeeds with a valid manager that has the same key and, under a bijection of ids, the same entries in every field that is written, the same tables and the same counts. |
| `Coins.FetchNeutral` | src/coins.cpp:40-55 | Loading an unspent coin changes no view and keeps the flags honest. |
| `Coins.UnspendableIff` | src/script/script.h:659-662 | A script is unspendable exactly if it starts with OP_RETURN or is longer than 10000 bytes. |
| `Coins.MemoryBlock` | src/memusage.h:48-60 | A script of up to 28 bytes takes no memory of its own; a longer one the multiple of 16 that leaves 16 to 31 bytes of overhead. |
| `Coins.MergeWrites` | src/coins.cpp:145-200 | Folding one child entry into the parent writes exactly its coin to the view of the parent, keeps the flags honest and never meets the misapplied FRESH case; the parent entry is then gone exactly if it was spent and never known below, and otherwise DIRTY, and FRESH exactly if never known below. |
| `Coins.WriteThrough` | src/coins.cpp:145-200 | Writing one entry down leaves what the child shows unchanged. |
| `Coins.UsageUpdate` | src/coins.cpp:74-84 | The exact change of total coin memory when an entry is written, which the counter must follow. |
| `Coins.CoinsViewCache.MergeOne` | src/coins.cpp:146-197 | Merging one entry leaves the rest of the child over the changed parent showing what it showed before. |
| `Coins.MisappliedFresh` | src/coins.cpp:73-82 | Marking an entry FRESH is honest exactly if the view below has no unspent coin; otherwise spending it brings the old coin back. |
| `Coins.CoinsDB.BatchWrite` | src/txdb.cpp:85-144 | The database afterwards holds exactly what the flushed cache showed. |
| `Coins.CoinsViewCache.OnDatabase` | src/coins.cpp:34 | A new cache shows what the database holds. |
| `Coins.CoinsViewCache.OnCache` | src/coins.cpp:34 | A new cache shows what the cache below shows. |
| `Coins.CoinsViewCache.FetchCoin` | src/coins.cpp:40-55 | No view changes; afterwards the cache has an entry exactly if one was found. |
| `Coins.CoinsViewCache.GetCoin` | src/coins.cpp:57-64 | Returns exactly the coin of the plain map, without changing any view. |
| `Coins.CoinsViewCache.HaveCoin` | src/coins.cpp:125-128 | True exactly if the plain map has the coin. |
| `Coins.CoinsViewCache.AddCoin` | src/coins.cpp:66-85 | The view gains exactly the coin, or nothing for an unspendable one; the entry is DIRTY, and FRESH exactly if it was, or if no overwrite is announced and it was not DIRTY; throws exactly for an unannounced overwrite of an unspent cached coin; the flags stay honest exactly unless the overwritten coin lies below unannounced, where the entry is then falsely FRESH. |
| `Coins.CoinsViewCache.SpendCoin` | src/coins.cpp:98-112 | The view loses exactly the outpoint and its coin is handed out; a FRESH entry disappears and any other stays as a DIRTY spent one; true exactly if the coin was in the view or an entry was cached. |
| `Coins.CoinsViewCache.Uncache` | src/coins.cpp:210-217 | Dropping an unmodified entry changes no view. |
| `Coins.CoinsViewCache.BatchWrite` | src/coins.cpp:145-201 | The view becomes that of the child, the flags stay honest, and the throw is unreachable. |
| `Coins.CoinsViewCache.Flush` | src/coins.cpp:203-208 | No view changes, the layer below shows what this one showed, and what becomes of the best block. |
| `Coins.CoinsViewCache.FlushLayer` | src/coins.cpp:203-208 | Flushing any layer of the stack empties it and changes no view of the layers above it. |
| `Coins.CoinsViewCache.GetBestBlock` | src/coins.cpp:135-139 | Finds the best block of the first layer that has one, and remembers it. |
| `Coins.CoinsViewCache.Run` | src/coins.cpp:40-217 | For callers that announce overwrites, any sequence of operations on the top layer and flushes anywhere shows and returns what a plain map would, with exact memory counters. |
| `CheckQueue.BatchSize` | src/checkqueue.h:102-107 | At least one check and at most the batch size or the queue is taken. |
| `CheckQueue.BatchIff` | src/checkqueue.h:102-107 | The batch is the largest that is within the limit and that every thread, idle ones counted twice, and one more could take from the queue; but at least one. |
| `CheckQueue.AddWakes` | src/checkqueue.h:153-157 | Adding one check wakes exactly one sleeping worker if there is any; adding more leaves no worker asleep; adding none wakes nobody. |
| `CheckQueue.MasterTold` | src/checkqueue.h:76-81 | A sleeping master is told at the end of a batch exactly if nothing is queued and no other thread has a batch. |
| `CheckQueue.StepInv` | src/checkqueue.h:66-124 | Every step of every thread keeps the invariant: todo counts queued plus in-flight checks, results are truthful, no check can run twice, a sleeping master has something in flight. |
| `CheckQueue.ReturnCorrect` | src/checkqueue.h:88-97 | With an empty queue and nothing in flight the flag is the conjunction of all checks added. |
| `CheckQueue.EnterInv` | src/checkqueue.h:73-101 | Entering the loop keeps the invariant. |
| `CheckQueue.WakeInv` | src/checkqueue.h:88-117 | Waking up, also without reason, keeps the invariant. |
| `CheckQueue.RunCheckInv` | src/checkqueue.h:118-121 | Running or skipping one check keeps the invariant. |
| `CheckQueue.FinishInv` | src/checkqueue.h:75-117 | Reporting a batch, and taking the next or returning, keeps the invariant. |
| `CheckQueue.AddInv` | src/checkqueue.h:146-158 | Adding checks and notifying any permitted set of workers keeps the invariant. |
| `CheckQueue.RunInv` | src/checkqueue.h:66-158 | The invariant holds in every state of every interleaving of the master and any number of workers. |
| `CheckQueue.WaitReturnsConjunction` | src/checkqueue.h:138-143 | In every run every finished Wait returned the conjunction of the checks added since the previous one. |
| `CheckQueue.TrueWaitRanAll` | src/checkqueue.h:115-121 | In every run a Wait that returned true has executed every check of its round. |
| `CheckQueue.RunExecuted` | src/checkqueue.h:66-158 | In every state of every run, while no failure is known each check of the round was executed or still waits. |
| `CheckQueue.ChecksRunAtMostOnce` | src/checkqueue.h:118-122 | In every run no check is executed twice. |
| `CheckQueue.SleepingMasterHasWorker` | src/checkqueue.h:76-101 | A master asleep without a pending notification has a worker in flight. |
| `CheckQueue.WaitNeverStuck` | src/checkqueue.h:66-124 | While the master is inside Wait, some step that is not a spurious wake-up is enabled. |
| `CheckQueue.StepMeasure` | src/checkqueue.h:66-124 | Every step of a thread inside the queue uses up some of the work left, except a spurious wake-up, which adds none. |
| `CheckQueue.InternalRunBounded` | src/checkqueue.h:66-124 | However the threads interleave without new checks, the number of steps that are not spurious is bounded by the work left at the start. |
| `BitFlags.BitPackedFlags.constructor` | src/cuckoocache.h:61-83 | All flags start out set, with memory for them exactly if the 32-bit number of bytes does not wrap around. |
| `BitFlags.BitPlace` | src/cuckoocache.h:92-116 | The flag of an index is the bit of its byte counted from the low end. |
| `BitFlags.BitPackedFlags.BitSet` | src/cuckoocache.h:92-95 | Sets exactly one flag. |
| `BitFlags.BitPackedFlags.BitUnset` | src/cuckoocache.h:103-106 | Clears exactly one flag. |
| `BitFlags.BitPackedFlags.BitIsSet` | src/cuckoocache.h:113-116 | Reads the flag. |
| `Cuckoo.Locs` | src/cuckoocache.h:243-252 | The eight slots of an element lie within the table. |
| `Cuckoo.LocsScaled` | src/cuckoocache.h:200-252 | Each slot is its hash scaled from 32 bits to the size of the table, rounded down. |
| `Cuckoo.Cache.constructor` | src/cuckoocache.h:332-353 | An empty cache of at least two slots; usable exactly if its flags have memory. |
| `Cuckoo.EpochSize` | src/cuckoocache.h:348-349 | 45 percent of the size exactly up to 95443717 elements, and never more. |
| `Cuckoo.Cache.EpochCheck` | src/cuckoocache.h:289-321 | The epochs age exactly if the counter has run out and the newest epoch holds at least an epoch of live slots; otherwise no flag changes. The counter goes down by one, or restarts with an epoch, or with the free part of the epoch but at least a sixteenth of it and one. The newest epoch then has room for one insert. |
| `Cuckoo.Cache.Age` | src/cuckoocache.h:305-311 | The old epoch is collected and the newest becomes the old one. |
| `Cuckoo.Cache.CountNewest` | src/cuckoocache.h:297-300 | The number of live slots of the newest epoch. |
| `Cuckoo.Cache.Refresh` | src/cuckoocache.h:398-405 | An element already stored becomes live again, and nothing else changes. |
| `Cuckoo.Cache.Place` | src/cuckoocache.h:407-415 | Using a collected slot makes the element live, loses nothing and counts it in its epoch. |
| `Cuckoo.Cache.Displace` | src/cuckoocache.h:430-435 | A swap conserves the elements in table and hand, and the sizes of both epochs. |
| `Cuckoo.Cache.PlaceOrDrop` | src/cuckoocache.h:406-439 | The new table is exactly that of a chain of displacements along alternating slots, which ends in the first collected slot found or, at the depth limit, loses exactly what is then in hand; none is lost if a slot of the element was free. |
| `Cuckoo.Cache.Insert` | src/cuckoocache.h:392-440 | The cached elements are exactly those before, or those of the newest epoch if it ages, with the element and less what is lost: at most one, and none if the element was there or a slot was free. The table changes by exactly one chain of displacements, the newest epoch is never collected, and everything else stays cached. |
| `Cuckoo.Cache.Contains` | src/cuckoocache.h:467-477 | Found exactly if stored; without erasing nothing changes, and erasing removes exactly that element from the live ones. |
| `Cuckoo.Cache.InsertEraseContains` | src/cuckoocache.h:442-457 | Looking up with erasure and again without gives the same answer on one thread. |
| `Cuckoo.Cache.ContentsBound` | src/cuckoocache.h:186-194 | The newest epoch never exceeds its size plus a sixteenth (at least one), the whole cache never twice that. |
| `Cuckoo.LoadBound` | src/cuckoocache.h:186-194 | The bound on kept slots from the bounds on both epochs. |
| `Cuckoo.FirstDisplacement` | src/cuckoocache.h:416-430 | The first displaced slot is the second one of the element. |
| `Merkle.WidthHalves` | src/merkleblock.h:66-68 | Each level is half as wide as the one below, rounded up. |
| `Merkle.FirstLeaf` | src/merkleblock.h:66-68 | A node exists exactly if its first leaf does. |
| `Merkle.HeightFrom` | src/merkleblock.cpp:121-124 | The first height at which the tree has at most one node. |
| `Merkle.ExtractOrdered` | src/merkleblock.cpp:78-114 | Reported positions strictly increase and lie below their node, whatever the input. |
| `Merkle.ExtractSound` | src/merkleblock.cpp:78-114 | If extraction arrives at the true hash of a node, all reported transactions are true, or at some node on its way the hashes below are not the true ones but have the same hash. |
| `Merkle.SiblingsDiffer` | src/merkleblock.cpp:102-107 | For distinct transactions, siblings with equal hashes show a collision on the way down to their first transactions. |
| `Merkle.SameHashSameLeaf` | src/merkleblock.cpp:40-58 | Nodes with equal hashes on one level have equal first transactions, or two different pairs with one hash on the way down to these. |
| `Merkle.ExtractBuilt` | src/merkleblock.cpp:60-114 | Extraction undoes building anywhere inside longer vectors, for every hash and every list, and objects exactly if some node above a match has two equal children. |
| `Merkle.TwinsCollide` | src/merkleblock.cpp:102-107 | For distinct transactions, equal children above a match show a collision below that node. |
| `Merkle.MatchesPicked` | src/merkleblock.cpp:60-76 | The matches below a node are the matched leaves in order. |
| `Merkle.HashesPerLeaf` | src/merkleblock.h:36-40 | At most one hash per leaf. |
| `Merkle.HashesPerMatch` | src/merkleblock.h:36-40 | At most one hash per matched transaction and level, plus one. |
| `Merkle.BitCount` | src/merkleblock.h:45-49 | The number of flag bits is exactly 2N-1 plus the number of nodes with a single child on the way to a match. |
| `Merkle.BitCountExample` | src/merkleblock.h:45-49 | Three transactions that need one bit more than documented. |
| `MerkleSize.SizeIff` | src/merkleblock.h:31-49 | The documented size holds exactly if the flag bits take fewer than 253 bytes or no more than ceil(N / 4); two bytes more always suffice. |
| `MerkleSize.SizeExample` | src/merkleblock.h:31-49 | 1012 matched transactions take one byte more than documented. |
| `MerkleSize.SinglesPerLevel` | src/merkleblock.cpp:60-76 | At most one node of each level has a single child. |
| `Merkle.PackBits` | src/merkleblock.h:100-104 | Every bit in its place, least significant first, with the last byte padded with zeros. |
| `Merkle.UnpackBits` | src/merkleblock.h:92-99 | The bits of a byte string. |
| `Merkle.UnpackPacked` | src/merkleblock.h:88-105 | Unpacking gives back the packed bits followed by less than a byte of zeros. |
| `Merkle.AcceptedIsTrue` | src/merkleblock.cpp:132-163 | For arbitrary bits and hashes, acceptance with the true root implies increasing positions, and true transactions unless some node on the way is forged. |
| `MerkleProof.CheckIff` | src/merkleblock.cpp:132-163 | A partial tree is accepted exactly if some pruned tree of that many leaves, without equal siblings, flattens to exactly its hashes and to its bits up to the padding of the last byte. |
| `MerkleProof.ProvesAccepted` | src/merkleblock.cpp:132-163 | Such a pruned tree is accepted with its own root and matches. |
| `MerkleProof.ExtractFlattened` | src/merkleblock.cpp:78-114 | Extraction undoes flattening for every pruned tree anywhere inside longer vectors, and objects exactly to equal siblings. |
| `MerkleProof.FlattenedExtracted` | src/merkleblock.cpp:78-114 | Whatever extraction consumes without objection is some pruned tree, flattened. |
| `MerkleProof.FewHashes` | src/merkleblock.cpp:140-142 | A pruned tree has at most one hash per leaf, so the test on the number of hashes refuses none. |
| `MerkleProof.NothingAppended` | src/merkleblock.cpp:154-160 | If one accepted input extends another, it has the same hashes, no more than padding added to its bits, and the same root and matches. |
| `Merkle.RoundTrip` | src/merkleblock.cpp:116-163 | Build, pack, unpack and extract give the root and exactly the matched transactions in order, and are rejected exactly if some node above a match has two equal children; for distinct transactions such a node shows a collision. The hashes respect the documented bounds. |
| `Merkle.PartialMerkleTree.Read` | src/merkleblock.h:88-99 | A tree from the wire holds the unpacked bits and is not marked bad. |
| `Merkle.PartialMerkleTree.constructor` | src/merkleblock.cpp:116-128 | Exactly the bits and hashes of the whole tree. |
| `Merkle.PartialMerkleTree.TraverseAndBuild` | src/merkleblock.cpp:60-76 | Appends exactly the bits and hashes of the subtree. |
| `Merkle.PartialMerkleTree.TraverseAndExtract` | src/merkleblock.cpp:78-114 | Consumes and reports exactly what extraction of the subtree gives. |
| `Merkle.PartialMerkleTree.ExtractMatches` | src/merkleblock.cpp:132-163 | Rejected trees and trees marked bad give a zero root; an accepted one gives the root and matches of the check, cleared before, and appends to the indexes. |
| `MerkleRoot.AddLeaf` | src/consensus/merkle.cpp:68-90 | For every one of the counter the table holds the hash of the complete subtree that ends there, also after the next leaf; the flag tells exactly whether that leaf joins two complete subtrees of equal hash. |
| `MerkleRoot.Sweep` | src/consensus/merkle.cpp:91-124 | From the table of complete subtrees the sweep computes the root of the whole tree, with the last node of every odd level joined with itself. |
| `MerkleRoot.ComputeMerkleRoot` | src/consensus/merkle.cpp:46-132 | One pass over the leaves computes the recursively defined root, zero for no leaves, and flags exactly the lists with two complete subtrees side by side of equal hash. |
| `MerkleRoot.MutatedIff` | src/consensus/merkle.cpp:81 | Some leaf joins equal subtrees exactly if two complete sibling subtrees are equal. |
| `MerkleRoot.ChangesNoticed` | src/consensus/merkle.cpp:36-42 | Different leaves with the same root in trees of one height are always noticed: the longer list is flagged, or two located nodes of these trees join different pairs to one hash. |
| `MerkleRoot.RepetitionFlagged` | src/consensus/merkle.cpp:14-30 | For every list that is an odd number of complete subtrees, more than one, repeating the last of them gives the same root and is flagged. |
| `MerkleRoot.HeightExample` | src/consensus/merkle.cpp:36-42 | Two leaves and the one leaf that is their hash have the same root, and neither is flagged. |
| `MerkleRoot.CounterFitsIff` | src/consensus/merkle.cpp:45-124 | The 32-bit counter of the sweep never wraps exactly for up to 2^31 leaves. |
| `BitOps.OrDisjoint` | src/arith_uint256.cpp:24-55 | Or of numbers without a common bit is their sum. |
| `Limbs.ValueInjective` | src/arith_uint256.h:226-227 | Equal numbers have equal limbs, so comparing memory compares values. |
| `Arith.Assign64` | src/arith_uint256.h:94-101 | The value becomes the 64-bit number. |
| `Arith.GetLow64` | src/arith_uint256.h:251-255 | The value modulo 2^64. |
| `Arith.AddAssign` | src/arith_uint256.h:141-151 | The sum modulo the width, also for an object added to itself. |
| `Arith.Complement` | src/arith_uint256.h:75-81 | The complement within the width. |
| `Arith.Increment` | src/arith_uint256.h:179-186 | The successor modulo the width. |
| `Arith.Negate` | src/arith_uint256.h:83-90 | The negative modulo the width. |
| `Arith.SubAssign` | src/arith_uint256.h:153-157 | The difference modulo the width. |
| `Arith.MulAssign32` | src/arith_uint256.cpp:57-67 | The product with a 32-bit number modulo the width. |
| `Arith.LimbProduct` | src/arith_uint256.cpp:77-79 | The 64-bit intermediate of a limb product never overflows and its carry fits 32 bits. |
| `Arith.MulAssign` | src/arith_uint256.cpp:69-83 | The product modulo the width for distinct objects, zero for an object with itself. |
| `Arith.AddProduct` | src/arith_uint256.cpp:75-80 | One row of the multiplication adds the shifted product, up to a multiple of the width. |
| `Arith.ShiftLeft` | src/arith_uint256.cpp:23-38 | Multiplication by a power of two modulo the width. |
| `Arith.ShiftRight` | src/arith_uint256.cpp:40-55 | Floor division by a power of two. |
| `Arith.CompareTo` | src/arith_uint256.cpp:111-121 | The order of the values. |
| `Arith.Bits` | src/arith_uint256.cpp:173-186 | The number of bits of the value. |
| `Arith.BitLengthUnique` | src/arith_uint256.h:245-249 | That number is unique. |
| `Arith.DivAssign` | src/arith_uint256.cpp:85-109 | Floor division for every nonzero divisor; throws exactly for zero. |
| `Arith.DivStep` | src/arith_uint256.cpp:99-106 | One round of the long division keeps dividend = remainder + quotient * divisor and halves the bound on the remainder. |
| `Arith.SetBit` | src/arith_uint256.cpp:102 | Setting a bit of the quotient adds its power of two. |
| `Compact.OversizedIff` | src/arith_uint256.cpp:219-222 | The overflow test holds exactly if mantissa times 256 to the exponent minus three does not fit 256 bits. |
| `Compact.SetCompact` | src/arith_uint256.cpp:206-224 | The decoded number modulo 2^256; the overflow flag exactly if that lost something; the sign flag exactly for nonzero negative numbers. |
| `Compact.EncodedFields` | src/arith_uint256.cpp:226-247 | The sign bit of an encoding is never set, its exponent and mantissa are the leading bytes, and a nonzero number has a mantissa of at least 0x8000. |
| `Compact.ByteLengthUnique` | src/arith_uint256.cpp:228 | A number has one length in bytes, so its encoding is one number. |
| `Compact.EncodedDecodes` | src/arith_uint256.cpp:206-247 | Decoding an encoding gives the number truncated to its leading bytes. |
| `Compact.EncodedIdempotent` | src/arith_uint256.cpp:226-247 | Encoding what an encoding decodes to changes nothing. |
| `Compact.GetCompact` | src/arith_uint256.cpp:226-247 | The encoding of the value; the sign bit only for a negative number with nonzero mantissa; both asserts hold. |
| `Compact.Requantize` | src/arith_uint256.cpp:206-247 | Setting an object from its own compact form truncates it with neither flag. |
| `Compact.EqualTo64` | src/arith_uint256.cpp:123-135 | True exactly if the value is the 64-bit number. |
| `Compact.GetBlockProof` | src/chain.cpp:121-134 | The floor of 2^256 by target plus one for every valid nBits, zero for every other. |
| `Compact.ProofIdentity` | src/chain.cpp:129-133 | The computed quotient of the complement plus one is the floor of the width by target plus one. |
| `Compact.NotAllOnes` | src/chain.cpp:129-133 | No compact form decodes to all ones, so target plus one never wraps to zero. |
| `SkipList.InvertsLowestOne` | src/chain.cpp:69-70 | n & (n - 1) is n without its lowest one. |
| `SkipList.SkipsBack` | src/chain.cpp:72-81 | The skip height is always strictly lower. |
| `SkipList.StepsBound` | src/chain.cpp:77-108 | A walk down from a height below 2^b to any height takes at most a quarter of b^2 + 17b + 2 steps. |
| `SkipList.FromMultiple` | src/chain.cpp:89-106 | From a multiple of 2^j to any of the 2^j heights below it the walk takes a number of steps quadratic in j. |
| `SkipList.FromAbove` | src/chain.cpp:89-106 | From any height the walk comes down to the multiple of the largest power between it and the target in two steps for each one of the height, or ends. |
| `SkipList.OddGo` | src/chain.cpp:94-105 | An odd height skips whenever that does not pass the target. |
| `Chain.PathOfPath` | src/chain.cpp:83-108 | The branch of an ancestor is the lower part of the branch. |
| `Chain.BlockIndex.constructor` | src/validation.cpp:2867-2888 | A new block extends its branch and keeps the skip list sound and complete. |
| `Chain.BlockIndex.BuildSkip` | src/chain.cpp:115-119 | The skip pointer goes to the block at the skip height. |
| `Chain.BlockIndex.GetAncestor` | src/chain.cpp:83-108 | Terminates and returns what walking along pprev would, null outside the branch; the assert holds; with all skip pointers set, the number of steps is bounded as stated for heights. |
| `Chain.ActiveChain.ContainsIff` | src/chain.h:468-471 | The constant-time test is membership, and then the whole branch below is contained. |
| `Chain.ActiveChain.SetTip` | src/chain.cpp:11-21 | The incremental update equals a full rebuild. |
| `Chain.ActiveChain.FindFork` | src/chain.cpp:51-60 | The highest block of the branch that the chain contains, null exactly if there is none. |
| `Chain.ActiveChain.GetLocator` | src/chain.cpp:23-49 | The hashes of the branch at the listed heights, whichever way the blocks are found. |
| `Chain.HeightsDescend` | src/chain.cpp:30-46 | The heights strictly descend to the genesis block. |
| `Chain.LocatorHeights` | src/chain.cpp:30-46 | From height h the list has h, h-1, ..., h-9, then h-9-2^k for k = 0, 1, ..., and ends exactly with the first zero. |
| `Chain.LocatorSize` | src/chain.cpp:30-46 | At most 11 plus the binary logarithm of the height, rounded up, entries. |
| `Chain.LastCommonAncestor` | src/chain.cpp:153-170 | The highest block on both branches, null only if they have different genesis blocks. |
| `Bloom.CellWiped` | src/bloom.cpp:256-264 | The wipe masks clear exactly the positions of one generation. |
| `Bloom.CellSet` | src/bloom.cpp:273-274 | Setting a position leaves all others of its words alone. |
| `Bloom.WipedLevels` | src/bloom.cpp:250-265 | Starting a generation leaves every place at exactly the newest of the last two generations that touched it, and empty otherwise. |
| `Bloom.MarkedLevels` | src/bloom.cpp:268-275 | Inserting a key, whatever bits it shares, puts exactly its places at the current generation. |
| `Bloom.RollingBloomFilter.constructor` | src/bloom.cpp:216-241 | Two generations hold at least the requested number of elements, and at most one more; the number of words is even and holds the bits asked for. |
| `Bloom.RollingBloomFilter.Reset` | src/bloom.cpp:304-312 | Afterwards no key is contained. |
| `Bloom.RollingBloomFilter.Insert` | src/bloom.cpp:248-276 | The key joins the history, and every place of the filter holds exactly the newest generation, of the current one and the two before, whose keys touched it: keys are neither lost early nor kept longer. |
| `Bloom.RollingBloomFilter.Contains` | src/bloom.cpp:284-296 | True exactly if every place of the key was touched by some key of the current generation or the two before. |
| `Bloom.RollingBloomFilter.LastKeysContained` | src/bloom.h:105-115 | The last two generations of keys and the current one are all contained. |
| `Bloom.HitIff` | src/bloom.cpp:284-296 | A key is found exactly if all its places were touched since the start of the second generation before the current one. |
| `Bloom.RollingBloomFilter.OldKeysForgotten` | src/bloom.h:105-115 | A key is found only if all its places were touched by the last three generations of keys: older ones leave no trace. |
| `Bloom.SeedsDiffer` | src/bloom.cpp:244-246 | The hash functions of a filter have different seeds, whatever the tweak. |
| `Bloom.SeedStep` | src/bloom.cpp:244-246 | The seeds start from the tweak and go up by a constant modulo 2^32. |
| `Bloom.Run` | src/bloom.h:105-115 | After any sequence of inserts the last nElements keys are contained, and whatever is contained was touched by the last one and a half times as many. |
| `Bech32.StepLinear` | src/bech32.cpp:76-87 | A round of PolyMod is linear over exclusive or. |
| `Bech32.StepNonzero` | src/bech32.cpp:76-87 | A round without input takes nothing but zero to zero. |
| `Bech32.PolyMod` | src/bech32.cpp:33-90 | The loop computes the fold of the linear step, which the lemmas on linearity and on the field are about. |
| `Bech32.RunLinear` | src/bech32.cpp:33-90 | The register is linear in its start and its input. |
| `Bech32.SingleErrorDetected` | src/bech32.cpp:42-45 | Lists of any length differing in one symbol never leave the same register. |
| `Field.MulAssoc` | src/bech32.cpp:47-53 | Multiplication modulo a^5 + a^3 + 1 is associative; with the distributive law and no zero divisors, the five-bit symbols are a field. |
| `Field.ProductAssoc` | src/bech32.cpp:42-45 | So is multiplication in its quadratic extension. |
| `Field.ProductNonzero` | src/bech32.cpp:42-45 | The extension has no zero divisors. |
| `Bech32Field.StepTimesX` | src/bech32.cpp:62-87 | A round of PolyMod multiplies by x and adds the symbol, modulo the generator x^6 + 29x^5 + 22x^4 + 20x^3 + 21x^2 + 29x + 18 over the field of 32 symbols. |
| `Bech32Field.RunValue` | src/bech32.cpp:34-60 | At a root of the generator, the register of any list of symbols has the value of the list as a polynomial. |
| `Bech32Field.Primitive` | src/bech32.cpp:42-45 | The chosen element of the extension has order 1023. |
| `Bech32Field.Root1` | src/bech32.cpp:42-45 | The first of three consecutive powers of that element that are roots of the generator. |
| `Bech32Field.Root2` | src/bech32.cpp:42-45 | The second. |
| `Bech32Field.Root3` | src/bech32.cpp:42-45 | The third. |
| `Bech32Field.ThreeErrorsDetected` | src/bech32.cpp:42-45 | Lists of any length that differ in at most three places within a window of 1023 never leave the same register. |
| `Bech32Field.ErrorsDetected` | src/bech32.cpp:42-45 | Lists of up to 1023 symbols that differ in one to three places, in whatever order, never leave the same register. |
| `Bech32.ChecksumUnique` | src/bech32.cpp:113-135 | Exactly one list of six symbols brings the register to one. |
| `Bech32Text.LetterRoundTrip` | src/bech32.cpp:15-28 | The decoding table inverts the character set. |
| `Bech32Text.ValueRoundTrip` | src/bech32.cpp:15-28 | The character set inverts the decoding table up to case. |
| `Bech32Text.ExpandHRP` | src/bech32.cpp:98-111 | The loop produces the specified prefix of the checksummed list. |
| `Bech32Text.VerifyChecksum` | src/bech32.cpp:113-121 | True exactly if prefix and values bring the register to one. |
| `Bech32Text.CreateChecksum` | src/bech32.cpp:123-135 | The loop produces the six symbols that ChecksumIff shows to be the only valid ones. |
| `Bech32Text.ChecksumIff` | src/bech32.cpp:113-135 | Values followed by six symbols verify exactly if these are the checksum. |
| `Bech32Text.SingleErrorRejected` | src/bech32.cpp:42-45 | Values that differ in exactly one symbol never both verify. |
| `Bech32Text.ErrorsRejected` | src/bech32.cpp:42-45 | Values that differ in one to three of up to 1023 symbols never both verify. |
| `Bech32Text.PrefixErrorRejected` | src/bech32.cpp:98-121 | Prefixes that differ in one character never verify with the same values, although a character enters the checksum twice. |
| `Bech32Text.LowerIff` | src/bech32.cpp:92-96 | The lower-case letters are exactly what upper-case letters are turned into. |
| `Bech32Text.Encode` | src/bech32.cpp:142-156 | The human-readable part, the separator, and values and checksum in letters. |
| `Bech32Text.Decode` | src/bech32.cpp:158-190 | The parts of a well-formed string, the empty pair for every other. |
| `Bech32Text.EncodedParses` | src/bech32.cpp:142-190 | Every encoding within the limits is well formed with its separator where it was put. |
| `Bech32Text.ParsesEncoded` | src/bech32.cpp:142-190 | Every well-formed string is the encoding of its parts up to case. |
| `Bech32Text.EncodeThenDecode` | src/bech32.cpp:142-190 | Decoding an encoding returns the input. |
| `Bech32Text.DecodeThenEncode` | src/bech32.cpp:142-190 | Encoding what was decoded returns the string in lower case; exactly the well-formed strings are accepted. |
| `CompactBlocks.WriteIndexes` | src/blockencodings.h:62-67 | 64-bit differences which, with one and the index before, give each index back modulo 2^64. |
| `CompactBlocks.ReadIndexes` | src/blockencodings.h:43-61 | The running sums, or a failure when 16 bits do not suffice. |
| `CompactBlocks.IndexRoundTrip` | src/blockencodings.h:38-68 | A list survives writing and reading exactly if it is strictly increasing; every other is refused. |
| `CompactBlocks.ReadIncreasing` | src/blockencodings.h:54-61 | For every wire list: it is read as a strictly increasing list exactly if it does not run past 65535, that is if its sum, its length less one and the offset do not exceed it. |
| `CompactBlocks.ReadWraps` | src/blockencodings.h:54-61 | A list that is read although it does not increase. |
| `Reconstruction.Compress` | src/blockencodings.cpp:18-28 | The compact form describes the block. |
| `Reconstruction.PlacedNext` | src/blockencodings.cpp:59-73 | A prefilled transaction that passes the tests goes into an empty slot within the block. |
| `Reconstruction.PartiallyDownloadedBlock.PlacePrefilled` | src/blockencodings.cpp:58-73 | Accepts exactly well-placed prefilled transactions and puts each in its place. |
| `Reconstruction.PartiallyDownloadedBlock.NextEmpty` | src/blockencodings.cpp:83-84 | With at most 65535 prefilled transactions the scan finds an empty slot within the block, without wrapping its 16-bit offset. |
| `Reconstruction.PartiallyDownloadedBlock.MapShortIds` | src/blockencodings.cpp:80-98 | The scan does not end exactly if 65536 transactions are prefilled and there is an id; otherwise every id is stored with the slot of its rank in 16 bits, and it is given up exactly if a bucket is too crowded. |
| `Reconstruction.MapSize` | src/blockencodings.cpp:101-102 | The size comparison detects exactly colliding short ids. |
| `Reconstruction.OnlyMatchFilled` | src/blockencodings.cpp:108-131 | A slot of its own with exactly one match is filled with it, also when the scan stops early. |
| `Reconstruction.PartiallyDownloadedBlock.ScanPool` | src/blockencodings.cpp:104-132 | Which transactions were scanned, and from it every slot exactly: it holds its match, or nothing if two match. The scan stops exactly when every id has a held match. The count is that of slots holding a match, and in an honest message without foreign transactions everything available is right. |
| `Reconstruction.PartiallyDownloadedBlock.ScanExtra` | src/blockencodings.cpp:134-163 | Every slot exactly: one without a match so far takes the first extra match, and a held one is given up exactly if a match with another witness hash follows. The scan stops exactly when every id has a held match. The extra count is the change of the held slots, as an unsigned number; without foreign transactions nothing available is dropped. |
| `Reconstruction.PartiallyDownloadedBlock.TakeExtra` | src/blockencodings.cpp:135-157 | One extra transaction: ignored without an id, taken into a slot without a match, and otherwise emptying a held slot exactly if the witness hashes differ. |
| `Reconstruction.HeldIff` | src/blockencodings.cpp:107-163 | After both scans a slot holds a match exactly if the pool has one match and every extra match has its witness hash, or the pool has none and the extra matches all have the first one's. |
| `Reconstruction.FullIff` | src/blockencodings.cpp:126-130 | The count equals the number of ids exactly if every id has a held match. |
| `Reconstruction.ExtraMatchUsed` | src/blockencodings.cpp:134-157 | An id with a position of its own, no match in the pool and one match among the extra transactions has that match in its slot at the end. |
| `Reconstruction.AmbiguousDropped` | src/blockencodings.cpp:112-123 | A slot with two matches among the scanned pool is empty at the end, whatever the extra transactions are. |
| `Reconstruction.ExtraCountExample` | src/blockencodings.cpp:150-154 | A message on which the extra count goes below zero and wraps. |
| `Reconstruction.PartiallyDownloadedBlock.Prepare` | src/blockencodings.cpp:48-102 | Before any scan: exactly when the message is refused, given up or does not return; otherwise the prefilled transactions in place and every id stored. |
| `Reconstruction.PartiallyDownloadedBlock.FillSlots` | src/blockencodings.cpp:104-163 | Both scans together: every slot and both counts as functions of the pool and the extra transactions. |
| `Reconstruction.PartiallyDownloadedBlock.InitData` | src/blockencodings.cpp:48-168 | For every message: exactly when it does not return and when each status is returned. Every slot is what the scans of the pool and of the extra transactions leave. With up to 65536 transactions both counts are those of matched slots, prefilled ones stay, and without foreign transactions everything available is the transaction of the block and every single match in the pool is used, as is every single match among the extra transactions where the pool has none. With more, slots from 65536 on stay empty, prefilled ones stay from 65536 before the end on, and each one before that is replaced by a single match for the slot 65536 further on. |
| `Reconstruction.PositionsFitIff` | src/blockencodings.cpp:80-85 | The scan ends and every slot is stored as it is exactly if there are at most 65536 transactions. |
| `Reconstruction.EndlessIff` | src/blockencodings.cpp:83-84 | Every slot a 16-bit offset can reach is filled exactly if 65536 transactions are prefilled. |
| `Reconstruction.PrefilledReach` | src/blockencodings.cpp:58-73 | At most 65536 transactions can be prefilled, and then they are the first ones. |
| `Reconstruction.WrappedSlot` | src/blockencodings.cpp:80-85 | The slot 65536 after a prefilled one is stored as that one, and no other id is stored there. |
| `Reconstruction.HangExample` | src/blockencodings.cpp:48-84 | A message that passes every test and on which the scan does not end. |
| `Reconstruction.OverwriteExample` | src/blockencodings.cpp:48-132 | A message whose prefilled first transaction is replaced by the match for its last id. |
| `Reconstruction.PartiallyDownloadedBlock.FillBlock` | src/blockencodings.cpp:176-218 | Empty slots take the missing transactions in order; too few or too many are refused, and what is then left of the object, which too few leave half emptied. |
| `Reconstruction.MergedIsBlock` | src/blockencodings.cpp:182-190 | Filling honest slots with the missing transactions in order gives the block. |
| `Reconstruction.Transmit` | src/blockencodings.cpp:18-218 | A block of up to 65536 transactions, compressed, initialised, requested and filled without foreign transactions in the pools, is rebuilt exactly unless the message is given up. |
| `Positional.ToBaseNum` | src/base58.cpp:62-70 | A digit list without leading zero is the only one of its number. |
| `Base58.EncodeRoom` | src/base58.cpp:83-85 | The buffer for encoding always suffices. |
| `Base58.Alphabet` | src/base58.cpp:20-21 | The alphabet is every alphanumeric character but 0, I, O and l, in ascending order. |
| `Base58.SpaceIff` | src/base58.cpp:26-27 | White space is exactly space, tab, line feed, vertical tab, form feed and carriage return. |
| `Base58.DecodeRoom` | src/base58.cpp:36-38 | The buffer for decoding always suffices. |
| `Base58.MultiplyAdd` | src/base58.cpp:86-100 | The number in the buffer is multiplied and increased; no carry is left, so the assert holds. |
| `Base58.EncodeBase58` | src/base58.cpp:74-112 | A one per leading zero byte, then the number in base 58. |
| `Base58.ReadDigits` | src/base58.cpp:36-56 | Reads exactly texts over the alphabet into the buffer; the assert holds. |
| `Base58.DecodeBase58` | src/base58.cpp:24-72 | Accepts exactly texts over the alphabet surrounded by white space, and returns their bytes. |
| `Base58.DecodeEncoded` | src/base58.cpp:24-112 | Decoding inverts encoding for every byte string. |
| `Base58.EncodeDecoded` | src/base58.cpp:24-112 | Encoding inverts decoding for every text over the alphabet. |
| `Base58.EncodeThenDecode` | src/base58.cpp:24-112 | Every byte string survives encoding and decoding. |
| `Base58.DecodeThenEncode` | src/base58.cpp:24-112 | Every text without white space that decodes is the encoding of the result. |

## Left out

- The internals of SHA-256, SipHash and MurmurHash: hashes are uninterpreted; where collisions matter, the results name the colliding pairs.
- Memory pool internals: the ancestor relation is any finite strict partial order, and the cached ancestor totals are its true totals.
- `TestBlockValidity`, `CheckBlock` and the header fields of a template: only their verdict enters, as a parameter.
- Miner.BestModified: compares exact fee rates, where the code multiplies in double precision; the same holds for the order of the index.
- `Select_` and `GetChance` of the address manager: randomised loops on floating-point chances without a termination measure.
- AddrMan.AddrMan.Renew: the random numbers are a parameter, so how often the test succeeds is not stated.
- AddrFile.Unserialize: the file is a record of fields, not of bytes.
- Coins.CoinsDB.BatchWrite: one step; writing to LevelDB in pieces with a marker in between, and reading back after a crash, is not modelled.
- Locks, memory order and thread start-up: critical sections of the check queue are atomic steps, and the cache flags are sequential as their class requires.
- Cuckoo.Cache.constructor: the depth limit, computed from a logarithm in floating point, is a parameter.
- MerkleRoot.ComputeMerkleRoot: at most 2^31 leaves, beyond which the counter of the code wraps; the branches of single leaves, which the same loop can collect, are not modelled.
- Merkle.WidthHalves: widths are unbounded integers, where the code uses 32 bits; transaction counts within the size limit do not reach them.
- `getdouble`, the hexadecimal conversions, the bitwise operators and the decrement of `base_uint`.
- Bloom.RollingBloomFilter.constructor: the sizes computed from the error rate are parameters; false positive rates are not treated.
- `CBloomFilter`, the bloom filter without generations.
- Bech32Field.ErrorsDetected: detection of four errors within 89 symbols is not stated; unlike three errors it does not follow from the roots of the generator but from an enumeration.
- Reconstruction.PartiallyDownloadedBlock.InitData: the unevenness test on hash buckets is a parameter; a scan that does not end is reported as no result.
- Wire formats below the level of fields, and Base58Check, whose four checksum bytes are a hash.
- Base58.DecodeBase58: works on a C string, so text after a zero byte of a `std::string` is cut off before.
- The Trade Layer code itself, networking, storage wrappers, RPC and start-up.
