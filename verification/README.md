# Metrix node core: verified models

Metrix is a Bitcoin and Qtum derived node. This project models twelve of its self-contained
components in Dafny and proves what each of them is for.

- `Coins.dfy`: the stack of write-back coin caches over the coin database. Every layer shows a
  plain map of unspent coins, whatever the flags and cached entries below it.
- `AddrTables.dfy`, `AddrMan.dfy`: the address manager. Six indexes that must stay inverse of one
  another through every operation, and the consistency check that spells them out.
- `CheckQueue.dfy`: the parallel check queue. One master and any number of workers, every critical
  section and every single check an atomic step, interleaved in any order.
- `Mempool.dfy`, `Miner.dfy`, `Assembler.dfy`: block assembly. Greedy selection of packages with
  cached totals that go stale, contracts that fail in the middle of a package, and early exits.
- `MerkleTree.dfy`, `PartialMerkle.dfy`: partial Merkle trees (the "Partial Merkle branch format"
  section of BIP 37), what they prove, and the way over the wire.
- `Words.dfy`, `Arith256.dfy`, `Compact.dfy`: 256-bit arithmetic on 32-bit words, compact targets
  and the work a target proves.
- `Chain.dfy`: the block tree with its skip pointers, the active chain, forks and locators.
- `Cuckoo.dfy`: the cuckoo cache of verified signatures and scripts.
- `Bloom.dfy`: the rolling Bloom filter.
- `BitStream.dfy`, `CompactSize.dfy`, `GolombSet.dfy`: Golomb-coded sets (the "Golomb-Coded Sets"
  section of BIP 158), down to the bytes of their serialization.
- `Bech32.dfy`, `GF1024.dfy`, `Bech32Distance.dfy`: Bech32 strings (the "Bech32" section of BIP 173),
  and how many errors their checksum detects.
- `Numerals.dfy`, `Base58.dfy`: Base58 strings.
- `Wrappers.dfy`, `Bounds.dfy`, `Sets.dfy`, `Stretches.dfy`, `PackedBits.dfy`: shared vocabulary.

Objects that the program updates in place are classes whose methods are proved against functions of
the old state; what the program promises is then proved of those functions, step by step and over
whole runs. Hash functions, random draws, clocks, the order of unordered containers and the outcome
of contract execution are parameters or left open, so the results hold for all of them.

## Reading notes

Where the program's comments promise more than its code does, the code is modelled and the promise
is settled exactly:

- The size comment of partial Merkle trees promises at most two bits per hash less one, and a total
  size of at most 10 + ceil(32.25 N) bytes. `PartialMerkle.TooManyBits` and `PartialMerkle.TooLarge`
  give blocks for which that fails, and `PartialMerkle.BuiltSizes` and `PartialMerkle.BuiltSize` prove
  when it holds.
- A Golomb-coded set can be built of up to 2^32 - 1 elements, but its size is read back only up to
  `MAX_SIZE`. `GolombSet.Reparsed` and `GolombSet.MatchInternal` say that it can be read, and matched
  against, exactly up to there; `GolombSet.NotReparsed` gives a filter that cannot.
- The cuckoo cache's comment says the first exchange is with the first position; the code takes the
  second one, and so does `Cuckoo.NextLoc`. It also says that the element just
  put in is not moved; `Cuckoo.MovesOn` says exactly when that is so, and `Cuckoo.StaysPut` gives
  positions for which it is moved at once.
- Package fees are not exact: one path of the package update subtracts the modified fee and the
  other the base fee. `Miner.FeesExactly` says when the fees left in an entry are those of the rest of
  the package, and `Miner.FeesDrift` gives a pool for which, in the order of its scores, they are not.
- The address manager's consistency check does not test all that must hold. `AddrTables.PassesExactly`
  says what it leaves untested (`AddrTables.PassesInconsistent` is an example), among it a missing address of entry 0: a lookup that creates the
  entry 0 it then compares with.
- Times that are recorded while the clock shows zero or less are accepted; all index conditions hold
  all the same, but the consistency check may then fail on its tests of times. Whether clocks are
  positive is `Env.positiveClocks`.
- `CCoinsViewCache::AddCoin` takes the old coin's share off its memory counter before it throws;
  `Coins.CoinsViewCache.AddCoin` says so.
- A transaction's size in block assembly is its virtual size, so the weight limit is kept because a
  weight is at most four times a virtual size; that is the hypothesis of
  `Assembler.BlockAssembler.LimitsKept`. The mempool is assumed to keep its ancestor sets and cached
  totals true (`Mempool.Pool.Valid`).
- In a partial Merkle tree the caller's list of indexes is appended to, not cleared, and a tree once
  found bad stays bad.
- `DecodeBase58` works on a C string, so a null character ends its input (`Base58.Terminated`).
- The checksum register of Bech32 only ever holds 30 bits, and its inputs 5; they are modelled with
  just these widths.

## Model

| member | source | states |
|---|---|---|
| `Coins.AbsorbKeepsOverlay` | src/coins.cpp:148-204 | moving one entry of a child's map into its parent leaves what the two show together as it was, and the rest of the child's map truthful |
| `Coins.FetchKeepsOverlay` | src/coins.cpp:42-57 | caching a coin read from below, marked FRESH if it is spent, changes nothing visible and keeps the flags truthful |
| `Coins.DirtyEntryPuts` | src/coins.cpp:68-115 | writing a dirty entry writes exactly that coin into the visible map; a FRESH mark is safe when the layer below shows nothing |
| `Coins.ErasePuts` | src/coins.cpp:101-115 | dropping a FRESH entry hides the outpoint and nothing else |
| `Coins.EraseCleanKeepsOverlay` | src/coins.cpp:213-220 | dropping an unmodified entry changes nothing visible |
| `Coins.AddCoinSafeExactly` | src/coins.cpp:68-87 | the flags stay truthful after adding a coin if and only if overwriting was announced, or the layer below shows nothing there, or the spend is already recorded in this cache |
| `Coins.CoinsViewDB.BatchWrite` | src/txdb.cpp:99-145 | for any map, exactly its dirty entries are written or erased; if its flags are truthful, the database then shows what the writing cache showed over it |
| `Coins.CoinsViewCache.Over` | src/coins.cpp:36 | an empty cache pushed on another shows exactly what that one shows, and changes none of the layers below |
| `Coins.CoinsViewCache.OverDB` | src/coins.cpp:36 | an empty cache over the database shows what the database shows |
| `Coins.CoinsViewCache.FetchCoin` | src/coins.cpp:42-57 | a lookup fills caches on the way down but changes no layer's visible map; a visible coin is found |
| `Coins.CoinsViewCache.GetFromBase` | src/coins.cpp:42-57 | a read from the layer below returns the visible coin, and a spent one only when nothing is visible |
| `Coins.CoinsViewCache.GetCoin` | src/coins.cpp:59-66 | returns exactly the coin this layer shows, or nothing, at any depth |
| `Coins.CoinsViewCache.AddCoin` | src/coins.cpp:68-87 | exactly when it throws; the visible map afterwards; what the throw leaves behind in the memory counter; the invariant is kept whenever the caller's promise holds; unspendable scripts change nothing |
| `Coins.CoinsViewCache.StoreDirty` | src/coins.cpp:68-115 | a dirty entry is written into the visible map and the memory counter stays the sum of the cached scripts |
| `Coins.CoinsViewCache.SpendCoin` | src/coins.cpp:101-115 | the outpoint disappears from the visible map, the coin that was visible is handed out, and a true result without one hands out a spent coin |
| `Coins.CoinsViewCache.Uncache` | src/coins.cpp:213-220 | nothing visible changes in any layer |
| `Coins.CoinsViewCache.WriteEntry` | src/coins.cpp:148-204 | for any entry, exactly when the "FRESH flag misapplied" throw happens, and what this cache holds afterwards; from a truthful child it never does, and the entry's coin becomes visible |
| `Coins.CoinsViewCache.BatchWrite` | src/coins.cpp:148-204 | for any map, a throw exactly when some entry is misapplied, and every entry taken in up to there; a truthful child's map is taken in without a throw, and this cache then shows what the child showed |
| `Coins.MergeNext` | src/coins.cpp:148-204 | taking in one entry touches no other, so that whether an entry is misapplied does not depend on the order |
| `Coins.CoinsViewCache.Flush` | src/coins.cpp:206-211 | the parent then shows exactly what this cache shows, no other layer changes, and the cache is empty |
| `Coins.CoinsViewCache.GetCoinAt` | src/coins.cpp:59-66 | a read through any lower layer returns what that layer shows and changes no layer |
| `Coins.CoinsViewCache.UncacheAt` | src/coins.cpp:213-220 | uncaching in any lower layer changes no layer's visible map |
| `Coins.AddCoins` | src/coins.cpp:89-99 | all spendable outputs of a transaction become visible, in every layer's terms, without a throw; with checking the caller promises nothing |
| `Coins.Perform` | src/coins.cpp:42-220 | one operation on a stack of any depth changes the layers' visible maps as the plain-map specification says, and never throws |
| `Coins.Run` | src/coins.cpp:42-220 | every legal run of reads, adds, spends, uncaches, pushes, flushes and drops from an empty cache ends with every layer showing the plain-map specification |
| `Coins.ScratchLayerTransparent` | src/coins.cpp:206-211 | working in a scratch layer and flushing it gives the same maps as working without it |
| `Coins.UsageWith` | src/coins.cpp:68-115 | the sum of cached script memory after an entry is written |
| `AddrTables.TriedBucket` | src/addrman.cpp:11-16 | the bucket is one of the 256 tried buckets |
| `AddrTables.NewBucket` | src/addrman.cpp:18-24 | the bucket is one of the 1024 new buckets |
| `AddrTables.BucketPosition` | src/addrman.cpp:26-30 | the position is one of the 64 of a bucket |
| `AddrTables.NothingIsConsistent` | src/addrman.h:456-482 | the cleared tables satisfy every index condition |
| `AddrTables.CreateKeeps` | src/addrman.cpp:80-90 | a new entry keeps all indexes inverse of one another, while it is in no bucket yet |
| `AddrTables.SwapKeeps` | src/addrman.cpp:92-110 | swapping two places of the random order keeps all indexes inverse of one another and changes only positions |
| `AddrTables.DeleteKeeps` | src/addrman.cpp:112-124 | deleting an entry that is in no table keeps all indexes inverse of one another and the counters exact, and changes no other entry but for positions |
| `AddrTables.UnreferenceKeeps` | src/addrman.cpp:126-139 | taking one reference away keeps each reference count equal to the number of buckets, and says when an entry is left in none |
| `AddrTables.ClearKeeps` | src/addrman.cpp:126-139 | emptying a new slot, with the deletion it may cause, keeps all conditions and every other entry |
| `AddrTables.ReferenceKeeps` | src/addrman.cpp:255-326 | a reference in a free slot at the entry's own position keeps all conditions |
| `AddrTables.SearchStep` | src/addrman.cpp:141-187 | looking only at the entry's own position in each bucket misses none of its slots |
| `AddrTables.SearchEnds` | src/addrman.cpp:141-187 | after all buckets the entry is in none and its reference count has reached zero |
| `AddrTables.UnlistKeeps` | src/addrman.cpp:141-187 | taking an entry out of all its new buckets keeps all conditions, with the entry in no table |
| `AddrTables.EvictKeeps` | src/addrman.cpp:141-187 | taking the occupant out of a tried slot keeps all conditions, with the occupant in no table |
| `AddrTables.InsertKeeps` | src/addrman.cpp:126-187 | putting an entry into a new slot at its own position, whatever is there, keeps all conditions, and the asserts on the way hold |
| `AddrTables.MakeRoomKeeps` | src/addrman.cpp:141-187 | moving the occupant of a tried slot back to the new table keeps all conditions and empties only that slot |
| `AddrTables.MakeTriedKeeps` | src/addrman.cpp:141-187 | the whole move into the tried table keeps all conditions |
| `AddrTables.MakeTriedFills` | src/addrman.cpp:141-187 | the tried table gains the entry in its own slot and loses nothing else than the slot's occupant |
| `AddrTables.MakeTriedEntry` | src/addrman.cpp:141-187 | the moved entry keeps its address, source and statistics |
| `AddrTables.MoveSettles` | src/addrman.cpp:141-187 | all conditions hold after a move, no tried slot is vacated, and remembered collisions still wait for occupied slots |
| `AddrTables.CollisionOccupied` | src/addrman.cpp:534-618 | every remembered collision whose entry still exists waits for an occupied tried slot |
| `AddrTables.PickedIsSelection` | src/addrman.cpp:475-494 | what is handed out is a selection, without repetition and in order, of exactly the entries seen that are not terrible |
| `AddrTables.EntriesPass` | src/addrman.cpp:398-472 | the conditions imply that every per-entry test of the consistency check passes, but for the tests of recorded times if clocks were not positive |
| `AddrTables.CountersPass` | src/addrman.cpp:398-472 | the conditions imply that the counter tests of the consistency check pass |
| `AddrTables.CountEnds` | src/addrman.cpp:398-472 | after the last bucket the counts are the numbers of slots left if and only if none is left over |
| `AddrTables.CountStep` | src/addrman.cpp:398-472 | counting a slot off keeps the counts exact if they were, and only then |
| `AddrTables.OrderIsInverse` | src/addrman.cpp:398-472 | as many places as entries, and each entry at its own, make the random order and the stored places inverse of one another |
| `AddrTables.PassesExactly` | src/addrman.cpp:398-472 | with positive clocks, the index conditions hold if and only if all tests of the consistency check pass and three things hold that it does not look at: addresses of no entry, ids out of range, and a missing address of entry 0 |
| `AddrTables.PassesInconsistent` | src/addrman.cpp:398-472 | a state without entries but with an address in its index passes all tests and is not consistent |
| `AddrMan.AddrMan.constructor` | src/addrman.h:456-482 | a fresh manager satisfies every condition |
| `AddrMan.AddrMan.FindExact` | src/addrman.cpp:67-78 | the entry found is that of the address and the only one, and none is found exactly when there is none |
| `AddrMan.AddrMan.Create` | src/addrman.cpp:80-90 | the new entry is in all indexes under the next id |
| `AddrMan.AddrMan.SwapRandom` | src/addrman.cpp:92-110 | two entries exchange their places in the random order and in their stored positions |
| `AddrMan.AddrMan.Delete` | src/addrman.cpp:112-124 | the entry is gone from all indexes, the last entry takes its place in the random order, and nNew drops by one |
| `AddrMan.AddrMan.ClearNew` | src/addrman.cpp:126-139 | the slot is empty, and an entry that lost its last slot is deleted |
| `AddrMan.AddrMan.RemoveFromNew` | src/addrman.cpp:141-187 | the entry is in no new bucket, its reference count is zero and nNew drops by one |
| `AddrMan.AddrMan.MakeRoom` | src/addrman.cpp:141-187 | the occupant of a tried slot is back in the new slot of its source, where it replaces whatever was there |
| `AddrMan.AddrMan.MakeTried` | src/addrman.cpp:141-187 | the entry is out of the new table and in its tried slot, whose occupant has moved to the new table; no assert fails |
| `AddrMan.AddrMan.Move` | src/addrman.cpp:141-187 | after a move every condition holds and no tried slot was vacated |
| `AddrMan.AddrMan.FindBucket` | src/addrman.cpp:189-253 | a failed search means the entry is at its position in no new bucket |
| `AddrMan.AddrMan.FindOwnBucket` | src/addrman.cpp:189-253 | the "no bucket is found" exit is unreachable for an entry that is not tried |
| `AddrMan.AddrMan.Good_` | src/addrman.cpp:189-253 | for any time, every condition is kept; which way it ends, from the state before; the statistics it sets; the collision it remembers, never more than ten; no tried slot is vacated |
| `AddrMan.AddrMan.Enter` | src/addrman.cpp:204-253 | an untried entry enters the tried table exactly if its slot is free or may be taken, and otherwise the collision is remembered |
| `AddrMan.AddrMan.Place` | src/addrman.cpp:304-325 | every condition is kept whether the entry gets the slot, replaces its occupant, or is deleted; a new entry survives exactly when the slot admits it, and a known one at most gains a reference |
| `AddrMan.AddrMan.Refresh` | src/addrman.cpp:264-297 | every condition is kept, and exactly the time and services of the entry change; more buckets are only sought for entries that are not tried, have fewer than eight, and were announced anew |
| `AddrMan.AddrMan.Add_` | src/addrman.cpp:255-326 | every condition is kept; true exactly for a routable address not known before; whether such an address is kept, and with which entry; what a known address's entry becomes |
| `AddrMan.AddrMan.Attempt_` | src/addrman.cpp:328-348 | every condition is kept, and the statistics of exactly the entry with this address and port change |
| `AddrMan.AddrMan.Connected_` | src/addrman.cpp:496-514 | every condition is kept, and the time of the entry is refreshed exactly when it is more than twenty minutes behind |
| `AddrMan.AddrMan.SetServices_` | src/addrman.cpp:516-532 | every condition is kept, and the services of exactly the entry with this address and port change |
| `AddrMan.AddrMan.GetAddr_` | src/addrman.cpp:475-494 | every condition is kept; hands out the non-terrible entries among those drawn, at most 23 percent and 2500, and stops early only at that limit |
| `AddrMan.AddrMan.ResolveOne` | src/addrman.cpp:534-591 | the "not actually a collision" branch is unreachable; which collisions are resolved, from the state before and up to five readings of the clock; the entry moves to the tried table exactly when the older one is evicted, and otherwise nothing changes |
| `AddrMan.AddrMan.ResolveCollisions_` | src/addrman.cpp:534-591 | every condition is kept; every remembered collision is visited once, each in the state the one before it left and with its own readings of the clock; exactly the undecided ones are remembered further; an entry moves exactly when it is to replace the older one, and otherwise nothing changes |
| `AddrMan.AddrMan.SelectTriedCollision_` | src/addrman.cpp:593-618 | never looks up -1: it returns the tried entry that some remembered collision would evict, or drops a dead collision, or there is none |
| `AddrMan.CheckEntries` | src/addrman.cpp:398-440 | zero exactly when every entry passes every per-entry test; collects the tried ids and the reference counts; the address index afterwards, with the addresses that lookups left behind |
| `AddrMan.CheckTried` | src/addrman.cpp:436-448 | nothing is found and nothing left over exactly when the tried table holds each tried id once, in its own slot, and no other |
| `AddrMan.CheckNew` | src/addrman.cpp:450-461 | nothing is found and nothing left over exactly when the new table holds each new id as often as its reference count says, in its own slots, and no other |
| `AddrMan.Check_` | src/addrman.cpp:398-472 | zero exactly when all its tests pass; changes only the address index, by lookups of missing addresses as far as its loop over the entries came, and not at all in a consistent state; with positive clocks, all conditions hold if and only if it returns zero and what it does not look at is in order too |
| `AddrMan.Perform` | src/addrman.cpp:189-618 | every operation keeps every condition and vacates no tried slot |
| `AddrMan.Run` | src/addrman.cpp:189-618 | after every run from a fresh manager every condition holds; with positive clocks the consistency check returns zero |
| `CheckQueue.PoppedConserves` | src/checkqueue.h:108-114 | popping a batch moves checks from the queue and loses none |
| `CheckQueue.BatchSizeFits` | src/checkqueue.h:102-107 | a batch is never empty and never larger than the queue |
| `CheckQueue.Queue.constructor` | src/checkqueue.h:131 | a new queue has no checks, no threads and no failure |
| `CheckQueue.Queue.Add` | src/checkqueue.h:146-158 | the checks are queued and counted as to do; nobody, one worker or all are notified for none, one or more checks |
| `CheckQueue.Queue.Account` | src/checkqueue.h:74-86 | a finished batch lowers the count of checks to do and its failure is recorded; the master is notified exactly when a worker brings the count to zero |
| `CheckQueue.Queue.Head` | src/checkqueue.h:87-117 | the verdict, the wait or the popped batch, and the shared state after it |
| `CheckQueue.Queue.CriticalSection` | src/checkqueue.h:74-117 | accounting and loop head in one critical section are exactly the step of the interleaving model: shared state, what the thread becomes, the notification and the verdict |
| `CheckQueue.Queue.Resume` | src/checkqueue.h:87-117 | what a woken thread does until it releases the mutex again is exactly its step of the model |
| `CheckQueue.StepKeeps` | src/checkqueue.h:66-158 | every step of every thread keeps the invariant: nTodo is queued plus in-flight checks, the counters count threads, each added check is queued, in flight or accounted for exactly once, and a recorded failure is a real one |
| `CheckQueue.RunsAreSafe` | src/checkqueue.h:66-158 | in every interleaving of one master and any number of workers over any number of sessions, every state satisfies the invariant and every verdict given so far is true exactly when all checks of its session pass |
| `CheckQueue.SleepingMasterIsAwaited` | src/checkqueue.h:74-100 | while the master sleeps without having been notified, some worker holds checks |
| `CheckQueue.NoDeadlock` | src/checkqueue.h:66-124 | while the master is waiting, some thread can take a step that does something |
| `CheckQueue.EffectiveDecreases` | src/checkqueue.h:66-124 | every step that does something uses up a bounded budget |
| `CheckQueue.SpuriousWakeStutters` | src/checkqueue.h:97-100 | a wake-up that finds nothing to do leaves the whole state as it was |
| `CheckQueue.SessionsEnd` | src/checkqueue.h:66-143 | without new work a run takes only boundedly many steps that do something, however the threads are scheduled |
| `CheckQueue.NothingLeaks` | src/checkqueue.h:87-97 | a returning Wait reports exactly whether all checks of its session pass, and leaves nothing queued, in flight or failed for the next session |
| `Mempool.TotalWithout` | src/miner.cpp:695-720 | a total over a set is one member's share plus the total over the rest |
| `Miner.UpdatePackagesForAdded` | src/miner.cpp:695-720 | sizes, signature costs and fees of corrected entries are lower by exactly those of the included ancestors, the first with its modified fee if the entry is new and the others with their base fees; every entry stays the pool's less what was included; entries corrected for all chosen ancestors still are; entries exist exactly for those that had one and for the descendants of the included transactions |
| `Miner.CorrectedCovers` | src/miner.cpp:695-720 | corrected totals lie between what the package still needs and the pool's total, so nothing underflows, and are exactly what it needs once corrected for all chosen ancestors |
| `Miner.GenuineAfter` | src/miner.cpp:695-720 | after an update every entry is the pool's, less some of what was included |
| `Miner.CurrentAfter` | src/miner.cpp:695-720 | if the entries were those of the packages with chosen ancestors, corrected for all of them, they still are, for all packages or for any of them |
| `Miner.FeesExactly` | src/miner.h:199-211 | the fees left in an entry are those of the rest of the package if and only if the ancestors included after the first have the same base and modified fees in total |
| `Miner.FeesExact` | src/miner.h:199-211 | without prioritisation they always are |
| `Miner.FeesDrift` | src/miner.cpp:695-720 | a pool in which they are not: its scores put 0 first, then 1, each before their descendant 2, and after the updates for both the entry of 2 keeps the bonus of 1 |
| `Miner.UpdateDescendants` | src/miner.cpp:700-717 | the same for one included transaction |
| `Assembler.AncestorCounts` | src/miner.h:170-177 | a transaction has more ancestors than any of its ancestors |
| `Assembler.SortForBlock` | src/miner.cpp:737-746 | the package once each, by ancestor count |
| `Assembler.PackageOrdered` | src/miner.cpp:737-746 | in that order every transaction's ancestors are already chosen or earlier in the package |
| `Assembler.IterLast` | src/miner.cpp:879-905 | the transaction the package was chosen for comes last, so its corrected entry is still there when the package fails |
| `Assembler.PackageFits` | src/miner.cpp:423-431 | a package that passes the test, or any part of it, keeps the chosen transactions within the weight and signature limits |
| `Assembler.HeirsNotChosen` | src/miner.cpp:695-720 | no corrected entry is ever created for a chosen transaction |
| `Assembler.BlockAssembler.constructor` | src/miner.cpp:90-102 | an empty block with 4000 weight and 400 signature operations reserved |
| `Assembler.BlockAssembler.TestPackage` | src/miner.cpp:423-431 | true exactly when weight plus four times the size, and the signature cost, stay below the limits |
| `Assembler.BlockAssembler.TestPackageTransactions` | src/miner.cpp:437-446 | true exactly when every transaction of the package may be in this block |
| `Assembler.BlockAssembler.AddToBlock` | src/miner.cpp:595-612 | the transaction is placed last and counted; order, duplicates and counters stay right |
| `Assembler.BlockAssembler.AttemptToAddContractToBlock` | src/miner.cpp:448-593 | a contract is placed exactly when there is time for it, its calls can be extracted and afforded, its execution succeeds and the block stays within the gas limit and the chain's limits; the counters then include its transfers and refunds; otherwise nothing changes |
| `Assembler.AffordsGas` | src/miner.cpp:474-496 | true exactly when no call asks for more gas than is left or pays too little, and together they do not ask for more than a transaction may |
| `Assembler.BlockAssembler.GasKept` | src/miner.cpp:448-593 | the gas that contracts used never exceeds the soft limit, and the counters are those of the chosen transactions and the transfers |
| `Assembler.BlockAssembler.AddSorted` | src/miner.cpp:879-905 | after a failure or a timeout in the middle of a package the block is extended by a prefix of it, every member has lost its corrected entry, no other has, and the entry erased for the failed package is there to erase |
| `Assembler.BlockAssembler.AddPackage` | src/miner.cpp:872-915 | invariants between packages are kept, on success and on partial failure; if entries were corrected for all chosen ancestors, after success they are again |
| `Assembler.BlockAssembler.Consider` | src/miner.cpp:818-915 | one candidate: all invariants kept; it ends the selection exactly when it is too cheap, or after too many failures in a nearly full block, and then nothing was placed; a corrected entry that is not selected is gone; with room for the whole pool every eligible candidate is selected, and only ineligible ones are dropped |
| `Assembler.BlockAssembler.AddPackageTxs` | src/miner.cpp:758-917 | at every step the chosen transactions are without duplicates, ancestor-closed with ancestors first, acceptable, exactly counted and within budget, no chosen transaction has a corrected entry, and the selection ends; from a pool whose sizes and signature costs fit the limits exactly the transactions are taken that are acceptable with all their ancestors, unless time ran out or a package left over is too cheap or, being ineligible, too large; a selection that ends early leaves a package that is too cheap, or too large, as recorded after ancestors that are chosen; with room for twice the pool no package is ever too large |
| `Assembler.BlockAssembler.CheapPackage` | src/miner.cpp:828-831 | without prioritisation, what is left of the package that ended the selection really pays less than is demanded for its size |
| `Assembler.RoomForMissing` | src/miner.cpp:423-431 | with room for the whole pool there is room for what any package still needs |
| `Assembler.RoomForAny` | src/miner.cpp:423-431 | with twice the room there is room for totals that were not corrected too |
| `Assembler.BlockAssembler.NothingTooLarge` | src/miner.cpp:423-431 | with twice the room nothing left over is too large, however stale its totals are |
| `Assembler.ChosenEligible` | src/miner.cpp:433-445 | what is chosen is acceptable with all its ancestors |
| `Assembler.BlockAssembler.LimitsKept` | src/miner.cpp:423-431 | without contracts, and with weights at most four times the sizes, the reported weight is the true one and exceeds neither the limit nor the 4000 reserve, and likewise the signature cost |
| `MerkleTree.NodeExists` | src/merkleblock.h:66-68 | a position is below the tree's width exactly when a leaf lies under it |
| `MerkleTree.Sound` | src/merkleblock.cpp:77-113 | a partial tree of the right shape that evaluates to the true hash reports only true txids at their true places, unless it exhibits two different pairs that hash alike |
| `MerkleTree.IndexesIncrease` | src/merkleblock.cpp:77-113 | the reported places lie under the node and strictly increase |
| `MerkleTree.NoCollision` | src/merkleblock.cpp:77-113 | a pair-injective hash function leaves no room for the exception |
| `MerkleTree.PruneFaithful` | src/merkleblock.cpp:59-75 | the built partial tree has the tree's shape and root |
| `MerkleTree.PruneExact` | src/merkleblock.cpp:59-75 | the built partial tree reports exactly the matched txids with their places, in order |
| `MerkleTree.BitCount` | src/merkleblock.h:36-47 | the bits are twice the hashes less one, plus one for every node with a single child |
| `MerkleTree.HashesAtMostLeaves` | src/merkleblock.h:36-40 | no more hashes than transactions |
| `MerkleTree.SizePerMatch` | src/merkleblock.h:36-41 | at most 1 + matched * height hashes and 1 + 2 * matched * height bits |
| `MerkleTree.SinglesCount` | src/merkleblock.cpp:59-75 | nodes with a single child are met at exactly the heights at which a match lies below one |
| `MerkleTree.AllStored` | src/merkleblock.cpp:59-75 | if every transaction matches, every leaf is stored |
| `PartialMerkle.ReadsBack` | src/merkleblock.cpp:77-113 | extracting what was written yields its hash and matches, reads exactly what was written, and finds it bad exactly when two siblings have the same hash |
| `PartialMerkle.ReadsOnlyTrees` | src/merkleblock.cpp:77-113 | whatever is extracted without a failure was written by some partial tree without equal siblings |
| `PartialMerkle.TreeHeight` | src/merkleblock.cpp:120-123 | the least height with a single node |
| `PartialMerkle.AcceptedIsTree` | src/merkleblock.cpp:131-162 | any accepted bits and hashes are a partial tree of the right shape, read to the end |
| `PartialMerkle.AcceptedIsGenuine` | src/merkleblock.cpp:131-162 | any bits and hashes accepted with the true root of a block with as many transactions report only its txids, at their places and in order, unless they exhibit a hash collision |
| `PartialMerkle.InjectiveIsGenuine` | src/merkleblock.cpp:131-162 | with a pair-injective hash function that holds without exception |
| `PartialMerkle.BuiltIsAccepted` | src/merkleblock.cpp:115-162 | what was built is accepted with the true root and exactly the matches if and only if no two visited siblings have the same hash; otherwise the root is null |
| `PartialMerkle.BuiltSizes` | src/merkleblock.h:36-47 | the promised numbers of hashes and bits hold, and the promise of two bits per hash less one holds if and only if no match lies below a node without a right child |
| `PartialMerkle.TooManyBits` | src/merkleblock.h:47 | five transactions with only the last matched break the promise of two bits per hash less one |
| `PartialMerkle.SizeFits` | src/merkleblock.h:31-49 | the serialized size is within 10 + ceil(32.25 N) if and only if N is at most 65535 and the bits beyond two per hash less one fit what the rounding and the short counts spare |
| `PartialMerkle.BuiltSize` | src/merkleblock.h:31-49 | the promised total size holds if and only if there are at most 65535 hashes and not too many heights at which a match lies below a node without a right child |
| `PartialMerkle.SmallSizes` | src/merkleblock.h:31-49 | up to 131072 transactions and 1000 hashes it always holds |
| `PartialMerkle.TooLarge` | src/merkleblock.h:34 | 1012 transactions that all match need a byte more than promised |
| `PartialMerkle.Pack` | src/merkleblock.h:98-102 | packed bytes hold the bits in order, and zeros after them |
| `PartialMerkle.Unpack` | src/merkleblock.h:91-97 | every bit of every byte, in order |
| `PartialMerkle.PartialMerkleTree.constructor` | src/merkleblock.cpp:115-127 | the bits and hashes are those of the pruned tree |
| `PartialMerkle.PartialMerkleTree.FromWire` | src/merkleblock.h:87-97 | the fields read off the wire, not bad |
| `PartialMerkle.PartialMerkleTree.TraverseAndBuild` | src/merkleblock.cpp:59-75 | appends exactly the bits and hashes of the pruned subtree |
| `PartialMerkle.PartialMerkleTree.ParentOfMatch` | src/merkleblock.cpp:60-63 | whether a matched txid lies below the node |
| `PartialMerkle.PartialMerkleTree.TraverseAndExtract` | src/merkleblock.cpp:77-113 | the walk with all its failures, as the specification of one node says |
| `PartialMerkle.PartialMerkleTree.ExtractMatches` | src/merkleblock.cpp:131-162 | the root and the matches, or a null root on any irregularity; the indexes are added to those the caller has |
| `PartialMerkle.Transmit` | src/merkleblock.cpp:39-162 | from txids and a mask over the wire to the matches: the true root and exactly the matched txids, or a null root exactly when two visited siblings have the same hash |
| `Arith256.BaseUint.constructor` | src/arith_uint256.h:56-64 | the 64-bit number |
| `Arith256.BaseUint.Assign` | src/arith_uint256.h:87-94 | the 64-bit number |
| `Arith256.BaseUint.GetLow64` | src/arith_uint256.h:247-251 | the number modulo 2^64 |
| `Arith256.BaseUint.AddAssign` | src/arith_uint256.h:134-144 | the sum modulo 2^256, also when both operands are the same object; no 64-bit intermediate overflows |
| `Arith256.BaseUint.Complement` | src/arith_uint256.h:68-74 | 2^256 - 1 minus the number |
| `Arith256.BaseUint.Negate` | src/arith_uint256.h:76-83 | the negative modulo 2^256 |
| `Arith256.BaseUint.SubAssign` | src/arith_uint256.h:146-150 | the difference modulo 2^256 |
| `Arith256.BaseUint.Increment` | src/arith_uint256.h:172-179 | one more modulo 2^256 |
| `Arith256.BaseUint.Decrement` | src/arith_uint256.h:189-196 | one less modulo 2^256 |
| `Arith256.BaseUint.MulAssignWord` | src/arith_uint256.cpp:56-66 | the product with a 32-bit number modulo 2^256, without 64-bit overflow |
| `Arith256.BaseUint.MulAssign` | src/arith_uint256.cpp:68-82 | the product modulo 2^256, without 64-bit overflow |
| `Arith256.BaseUint.AddRow` | src/arith_uint256.cpp:72-78 | one row of the product added modulo 2^256 |
| `Arith256.BaseUint.CompareTo` | src/arith_uint256.cpp:110-120 | -1, 0 or 1 as the numbers compare |
| `Arith256.BaseUint.Bits` | src/arith_uint256.cpp:192-205 | zero for zero, else the n with 2^(n-1) <= number < 2^n |
| `Arith256.BaseUint.ShiftLeft` | src/arith_uint256.cpp:22-37 | the product with 2^shift modulo 2^256, for every shift |
| `Arith256.BaseUint.ShiftRight` | src/arith_uint256.cpp:39-54 | the quotient by 2^shift rounded down, for every shift |
| `Arith256.BaseUint.DivAssign` | src/arith_uint256.cpp:84-108 | the quotient rounded down for every non-zero divisor; an error exactly for zero, which leaves zero behind |
| `Arith256.BaseUint.DivideStep` | src/arith_uint256.cpp:97-104 | one bit of the quotient: number = quotient * divisor + rest is kept and the rest stays below twice the shifted divisor |
| `Compact.SetCompact` | src/arith_uint256.cpp:228-246 | the number modulo 2^256; overflow exactly when mantissa * 256^(size-3) is at least 2^256; negative exactly when the sign bit is set and the number is not zero |
| `Compact.TooLarge` | src/arith_uint256.cpp:240-244 | the three comparisons decide exactly whether the number reaches 2^256 |
| `Compact.GetCompact` | src/arith_uint256.cpp:248-269 | the encoding by leading bytes; the asserts hold |
| `Compact.GreatestBelow` | src/arith_uint256.cpp:228-269 | no number the format can express lies strictly between a number and what its encoding stands for, and that is never above it |
| `Compact.Reencodes` | src/arith_uint256.cpp:228-269 | what an encoding stands for has that same encoding |
| `Compact.EncodedParts` | src/arith_uint256.cpp:248-269 | mantissa, exponent and sign can be read back, and the sign is set exactly for a negative number with a non-zero mantissa |
| `Compact.NotAllOnes` | src/chain.cpp:122-135 | no encoding stands for 2^256 - 1, so a target plus one never wraps |
| `Compact.GetBlockProof` | src/chain.cpp:122-135 | 2^256 / (target + 1) rounded down for every valid non-zero target, else zero; the divisor is never zero |
| `Chain.InvertLowestOne` | src/chain.cpp:71 | smaller than a positive argument |
| `Chain.LowestOneInverted` | src/chain.cpp:70-71 | the lowest one bit becomes zero and every other bit stays |
| `Chain.GetSkipHeight` | src/chain.cpp:73-82 | below the height it is for |
| `Chain.BlockIndex.constructor` | src/chain.h:139-152 | a block on its parent is linked to all ancestors and has its skip pointer |
| `Chain.BlockIndex.BuildSkip` | src/chain.cpp:116-120 | the skip pointer is the ancestor at the skip height |
| `Chain.BlockIndex.GetAncestor` | src/chain.cpp:84-109 | the block the plain walk along the parents reaches, or null outside the range; the walk along skip pointers ends |
| `Chain.WalkIsPath` | src/chain.cpp:84-109 | the plain walk to a height is the block at that place of the path from the genesis block |
| `Chain.CommonPrefix` | src/chain.cpp:156-171 | a block common to two branches is at the same height on both, with the same blocks below |
| `Chain.LastCommonAncestor` | src/chain.cpp:156-171 | the highest block on both branches, or null if there is none; the assert holds |
| `Chain.ActiveChain.ContainsExactly` | src/chain.h:494-496 | the lookup by height tells membership |
| `Chain.ActiveChain.SetTip` | src/chain.cpp:11-21 | every slot holds the new tip's ancestor at that height, though only the slots down to the fork are rewritten |
| `Chain.ActiveChain.FindFork` | src/chain.cpp:51-60 | the highest block of a branch that is on the active chain, or null if there is none |
| `Chain.ActiveChain.GetLocator` | src/chain.cpp:23-49 | the block and its ancestors at ever larger gaps, each found through slots or skip pointers alike, down to the genesis block |
| `Chain.LocatorShape` | src/chain.cpp:23-49 | a locator starts at its block, goes strictly down, and is logarithmically short |
| `PackedBits.BitsExact` | src/cuckoocache.h:86-117 | setting or clearing a flag changes that flag and no other |
| `Cuckoo.Locs` | src/cuckoocache.h:243-253 | eight positions inside the table |
| `Cuckoo.KeptIsPresent` | src/cuckoocache.h:467-477 | every element in a slot that is not free is found |
| `Cuckoo.NextLoc` | src/cuckoocache.h:417-430 | the position after the first place of the last one, and the second one at first |
| `Cuckoo.MovesOn` | src/cuckoocache.h:417-430 | the element just put in is not moved again if and only if it is not at a position here or the position after its first one is another |
| `Cuckoo.MovesOnIfDistinct` | src/cuckoocache.h:417-430 | it never is moved where the eight positions differ, and always is where the first two are the slot it is in |
| `Cuckoo.StaysPut` | src/cuckoocache.h:417-430 | positions for which the next exchange takes out what was just put in |
| `Cuckoo.CheckedFits` | src/cuckoocache.h:289-321 | after the check there is room for one more live element below epoch_size + max(1, epoch_size/16) |
| `Cuckoo.PlacedOne` | src/cuckoocache.h:406-415 | taking a slot changes the live count and the kept elements by exactly that slot |
| `Cuckoo.SwapStep` | src/cuckoocache.h:430-439 | an exchange conserves the table with the element in hand, the kept elements and the live count |
| `Cuckoo.FillStep` | src/cuckoocache.h:406-415 | ending in a free slot conserves everything but the stale element there |
| `Cuckoo.InsertedKeeps` | src/cuckoocache.h:392-440 | unless it is the one dropped, the inserted element and every element kept before are still kept |
| `Cuckoo.Cache.constructor` | src/cuckoocache.h:340-353 | every slot is free, and the invariant holds |
| `Cuckoo.Cache.EpochCheck` | src/cuckoocache.h:289-321 | the countdown, or the aging of the epochs when the current one is full, or the next countdown |
| `Cuckoo.Cache.CountLive` | src/cuckoocache.h:297-300 | the number of live slots |
| `Cuckoo.Cache.Age` | src/cuckoocache.h:305-311 | the old epoch is freed and the current one becomes the old one, slot by slot |
| `Cuckoo.Cache.Find` | src/cuckoocache.h:396-405 | found exactly when the element is at one of its positions |
| `Cuckoo.Cache.Contains` | src/cuckoocache.h:467-477 | true exactly when the element is at one of its positions, and still so after it is freed for collection; freeing frees exactly the slot found, and every other element stays kept |
| `Cuckoo.Cache.Put` | src/cuckoocache.h:392-440 | the new table plus one dropped element is the old table plus the argument, or unchanged exactly if it was there; nothing is dropped while a position of the argument is free; kept elements stay at their own positions |
| `Cuckoo.Cache.Insert` | src/cuckoocache.h:392-440 | the same with the epoch check; the bound on live slots and countdown is kept; everything kept but the one dropped is found |
| `Bloom.StampedExact` | src/bloom.cpp:262-274 | relabelling a position changes that position and no other |
| `Bloom.StampKeeps` | src/bloom.cpp:262-274 | relabelling with the current generation only makes labels newer |
| `Bloom.WipeKeeps` | src/bloom.cpp:246-260 | keys of the current generation and the one before survive the wipe, one generation older |
| `Bloom.RollingBloomFilter.constructor` | src/bloom.cpp:206-231 | an empty filter of half the elements per generation, rounded up |
| `Bloom.RollingBloomFilter.Reset` | src/bloom.cpp:303-309 | nothing is labelled and nothing is remembered |
| `Bloom.RollingBloomFilter.Wipe` | src/bloom.cpp:254-260 | the word-wise wipe clears exactly the positions labelled with the reused generation |
| `Bloom.RollingBloomFilter.Roll` | src/bloom.cpp:248-261 | the next generation starts, exactly its old labels are wiped, and the keys of two generations keep theirs |
| `Bloom.RollingBloomFilter.Insert` | src/bloom.cpp:246-275 | exactly the key's positions are relabelled, after the wipe if the generation was full; the key is remembered, and the labels of all remembered keys stay recent enough |
| `Bloom.RollingBloomFilter.Contains` | src/bloom.cpp:283-295 | true exactly when all positions of the key are labelled |
| `Bloom.RollingBloomFilter.RecentAreMembers` | src/bloom.cpp:246-295 | the filter contains every key among the last two full generations and the current one, at least the last 2 * nEntriesPerGeneration inserts |
| `Bech32.StepLinear` | src/bech32.cpp:66-96 | one step of the checksum is linear |
| `Bech32.StepInjective` | src/bech32.cpp:66-96 | multiplying by x loses nothing |
| `Bech32.FoldLinear` | src/bech32.cpp:39-96 | the checksum of a difference is the difference of the checksums |
| `Bech32.FoldSix` | src/bech32.cpp:39-96 | six symbols are their own remainder |
| `Bech32.BurstDetected` | src/bech32.cpp:39-96 | messages of any length that differ only within six consecutive symbols have different checksums |
| `Bech32.PolyMod` | src/bech32.cpp:39-96 | the remainder folded over all symbols |
| `Bech32.ExpandHRP` | src/bech32.cpp:105-117 | high bits, a zero, low bits |
| `Bech32.VerifyChecksum` | src/bech32.cpp:120-127 | true exactly when the remainder is one |
| `Bech32.CreateChecksum` | src/bech32.cpp:130-141 | six symbols with which the message verifies |
| `Bech32.ChecksumUnique` | src/bech32.cpp:120-141 | there is only one checksum for a message |
| `Bech32.ErrorsDetected` | src/bech32.cpp:120-127 | a verifying message changed only within six consecutive symbols, a single symbol included, does not verify |
| `GF1024.NoEarlierTurn` | src/bech32.cpp:45-51 | no power of the primitive element of GF(1024) below the 1023rd leaves anything but zero in place |
| `GF1024.ThreeTerms` | src/bech32.cpp:45-51 | three terms whose sum vanishes at three consecutive powers are zero |
| `Bech32Distance.IsRoot` | src/bech32.cpp:45-48 | three consecutive powers of the primitive element are roots of the generator |
| `Bech32Distance.AtStep` | src/bech32.cpp:63-95 | at a root, a step of the checksum multiplies the value by the power and adds the symbol |
| `Bech32Distance.ThreeNonZero` | src/bech32.cpp:45-51 | three symbols less than 1023 apart with remainder zero are zero |
| `Bech32Distance.ThreeErrorsDetected` | src/bech32.cpp:48-51 | a verifying message with one, two or three changed symbols less than 1023 apart does not verify |
| `Bech32Distance.NoThreeMistakes` | src/bech32.cpp:48-51 | two strings that decode with the same human-readable part do not differ in just one, two or three characters of the data |
| `Bech32.Alphabet` | src/bech32.cpp:15-29 | the two tables are inverse in either case; the characters are printable, lower case and not the separator |
| `Bech32.Encode` | src/bech32.cpp:149-162 | the human-readable part, the separator, and the characters of the values and of six verifying checksum symbols |
| `Bech32.Decode` | src/bech32.cpp:165-196 | accepts exactly the printable strings of one case and at most 90 characters that are, in lower case, the encoding of a non-empty human-readable part, and returns what they encode |
| `Bech32.RoundTrip` | src/bech32.cpp:149-196 | decoding an encoding returns what was encoded if and only if the human-readable part is printable and not empty and the string has at most 90 characters; otherwise it fails |
| `Bech32.Canonical` | src/bech32.cpp:149-196 | encoding what was decoded returns the string in lower case |
| `GolombSet.CodeReadsBack` | src/blockfilter.cpp:26-55 | a Golomb-Rice code reads back as the 64-bit number it encodes, and is read exactly to its end |
| `GolombSet.GolombRiceEncode` | src/blockfilter.cpp:26-41 | writes the quotient in unary and the remainder in P bits |
| `GolombSet.GolombRiceDecode` | src/blockfilter.cpp:43-55 | reads one code as the specification says, or fails at the end of the data |
| `BitStream.LowBitsValue` | src/streams.h:513-580 | the bits written for a number, read as a number, are that number modulo 2^nbits |
| `BitStream.AppendChunk` | src/streams.h:569-573 | the shifts put exactly the next bits into the free low bits of the buffered byte, for every offset and number of bits left, and leave the bits below them zero |
| `BitStream.Extracted` | src/streams.h:529-530 | the shifts take exactly the next bits out of the buffered byte |
| `BitStream.ShiftIn` | src/streams.h:528-530 | shifting bits into a 64-bit number appends them, and loses none up to 64 |
| `BitStream.BitStreamWriter.Write` | src/streams.h:561-580 | over buffered bytes, the stream grows by exactly the given number of low bits, most significant first; more than 64 are refused and change nothing |
| `BitStream.BitStreamWriter.Flush` | src/streams.h:582-593 | the buffered bits filled up with zeros to the next byte boundary, and nothing if there are none |
| `BitStream.BitStreamReader.Read` | src/streams.h:513-536 | the next bits of the bytes as a number; fails exactly when fewer are left or more than 64 are asked for |
| `CompactSize.SizeReadsBack` | src/serialize.h:263-318 | a size that was written reads back, with the bytes behind it, if and only if it is at most MAX_SIZE; otherwise it is too large |
| `CompactSize.ReadIsCanonical` | src/serialize.h:288-318 | whatever is read as a size is what would have been written for it, and at most MAX_SIZE |
| `CompactSize.LittleEndianReadsBack` | src/serialize.h:263-318 | bytes, least significant first, read back as the number |
| `CompactSize.BytesReadBack` | src/serialize.h:263-318 | the number of any bytes is written as those bytes |
| `GolombSet.MapIntoRange` | src/blockfilter.cpp:62-86 | x * n / 2^64 rounded down |
| `GolombSet.AllReadBack` | src/blockfilter.cpp:134-162 | the codes of the differences of any sorted list read back as that list |
| `GolombSet.BuildHashedSet` | src/blockfilter.cpp:96-105 | the hashes of all elements and no others, sorted, each as often as elements have it |
| `GolombSet.WriteAll` | src/blockfilter.cpp:146-161 | the bytes are exactly the codes of the sorted hashes, and less than a byte besides; none for no hashes |
| `GolombSet.Build` | src/blockfilter.cpp:134-162 | the serialization holds exactly the sorted hashes; it fails exactly from 2^32 elements on |
| `GolombSet.HoldsCodes` | src/blockfilter.cpp:123-131 | true exactly when the bytes are the announced number of codes, and less than a byte besides |
| `GolombSet.Parse` | src/blockfilter.cpp:111-132 | accepted exactly when the bytes are the serialization of a filter of at most MAX_SIZE elements |
| `GolombSet.Reparsed` | src/blockfilter.cpp:111-162 | a filter that was built is taken back from its serialization, as the same one, if and only if it has at most MAX_SIZE elements |
| `GolombSet.NotReparsed` | src/blockfilter.cpp:111-162 | a filter of MAX_SIZE + 1 hashes that cannot be taken back |
| `GolombSet.MatchInternal` | src/blockfilter.cpp:164-194 | fails exactly above MAX_SIZE elements; a match is a common hash; for sorted lists it is found exactly when there is one |
| `GolombSet.Match` | src/blockfilter.cpp:196-200 | up to MAX_SIZE elements, true exactly when some element of the set has the same range hash; never false for an element of the set |
| `GolombSet.MatchAny` | src/blockfilter.cpp:202-206 | up to MAX_SIZE elements, true exactly when some queried element has the range hash of some element of the set |
| `Numerals.DigitsFit` | src/base58.cpp:48 | if q digits of one base fit in p of another, m digits fit in k whenever p*m <= q*k |
| `Numerals.OneNumeral` | src/base58.cpp:71-119 | a number has one numeral without leading zeros |
| `Base58.EncodeBufferSuffices` | src/base58.cpp:94 | n*138/100 + 1 base-58 digits hold every number of n bytes |
| `Base58.DecodeBufferSuffices` | src/base58.cpp:48 | n*733/1000 + 1 bytes hold every number of n base-58 digits |
| `Base58.MulAdd` | src/base58.cpp:57-64 | the number in the buffer is multiplied and the digit added, and in a large enough buffer the carry is zero in the end |
| `Base58.EncodeBase58` | src/base58.cpp:84-122 | as many ones as leading zero bytes, then the base-58 numeral of the rest, all in the alphabet; the assert holds |
| `Base58.DecodeBase58` | src/base58.cpp:35-82 | succeeds exactly when what lies between surrounding spaces is in the alphabet, and then returns the bytes it encodes; the assert holds |
| `Base58.ReadNumber` | src/base58.cpp:47-70 | the bytes of the number that the digits up to a space stand for, or the first character outside the alphabet |
| `Base58.OneToOne` | src/base58.cpp:35-122 | bytes and strings that encode each other determine each other |
| `Base58.RoundTrip` | src/base58.cpp:35-122 | every byte string, with its leading zeros, survives encoding and decoding |
| `Base58.Canonical` | src/base58.cpp:35-122 | encoding what was decoded returns the string without the spaces around it: the stretch of digits between them; it fails exactly when there is no such stretch |

## Left out

- Coins: the best-block hash, cursors and the error-catching view; the map refinement does not depend on them.
- Coins.CoinsViewDB.BatchWrite: the splitting of a batch into partial database writes and the head-block records around them.
- AddrMan: `Select_` and `GetChance`, an unbounded random search with floating-point odds.
- AddrMan: serialization, whose input need not satisfy any condition, and the lock.
- AddrMan.AddrMan.ResolveCollisions_: the order in which the remembered collisions are visited is left open.
- CheckQueue: thread shutdown by interruption, and the RAII control object beyond its Add and Wait.
- Assembler: which corrected entry scores best and how it compares with the next one in the pool's order are left open; scores are modelled only for the example of `FeesDrift`, on integers instead of floating point, and gas prices not at all.
- Assembler: building the coinbase or coinstake, DGP parameters, contract execution and the staking thread; execution is an arbitrary success, with arbitrary gas, transfers and refunds, or failure.
- Assembler.BlockAssembler.AddPackageTxs: block contents are the mempool transactions in order; the transfers that contracts generate are counted but not placed.
- PartialMerkle: the Bloom-filter and txid-set front end that computes the mask, and the surrounding stream format.
- Arith256: hexadecimal conversion, floating point, and the comparison with a 64-bit number.
- Compact: the equivalent-time computation that uses the block proof.
- Chain: block status, disk positions, serialization and the search by time.
- Cuckoo: the memory ordering of concurrent erases; an erase is an operation between inserts. The depth limit is any number, where the program takes a logarithm.
- Bloom: the sizing formula and false-positive rates; the number of hash functions and of words are any positive numbers the caller gives.
- Bech32: that four errors within 89 characters are detected, which was found by a search over all codes of this kind; up to three, less than 1023 apart, are proved here.
- GolombSet: the block filter around the set, its header chain and the choice of its elements.
- Base58: the variant with a checksum, which wraps the functions modelled here.
- 64-bit and 32-bit wrap-around is modelled in 256-bit arithmetic, compact targets, range mapping, bit streams, Golomb-Rice decoding and address times; elsewhere counters and sizes are unbounded, as no input reaches their limits.
