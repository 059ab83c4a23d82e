# A Dafny model of a Bitcoin Cash node's core structures

The node keeps its peers' addresses, its unspent coins, its block index and its
block templates in hand-written data structures, and talks to other nodes in
hand-written encodings. This project models those structures and encodings in
Dafny 4.11 and proves what they are meant to keep. `dafny verify dfyconfig.toml`
checks the whole of it.

Code that changes state is modelled as classes with the source's own fields and
arrays; each method is proved against a function on plain values, and the
properties are proved of those functions. Code that only computes is modelled as
functions.

| modules | what they model |
|---|---|
| `AddrTypes`, `AddrState`, `AddrBook`, `AddrView`, `AddrMan`, `AddrSafety` | the stochastic address manager: two bucket tables, two maps, a permutation and reference counts that must agree after every operation, read as one address book |
| `AddrSound`, `AddrEffects`, `AddrDraws`, `AddrRuns`, `AddrGuarantees`, `AddrStale` | what each operation does to every address, and over whole runs: who can be lost or demoted, and what becomes of recorded collisions |
| `AddrCodec`, `AddrPersist`, `AddrGenuine`, `AddrIntake`, `AddrRepeats`, `AddrFirst` | its on-disk form, which must restore that book, and what reading any other file leaves |
| `CoinMaps`, `CoinCache` | stacked caches of unspent coins with DIRTY and FRESH flags, against plain maps and their answers |
| `CheckQueue`, `CheckAccount` | the parallel verification queue as a state machine over its threads' steps: the verdict in every interleaving, that waiting ends, and that each check is run or skipped once |
| `MerkleTree`, `MerkleProof`, `MerkleSize`, `MerkleBlock` | partial Merkle trees: soundness for arbitrary proofs, completeness, size, and the Merkle root computed level by level |
| `Mempool`, `Feerate`, `Miner` | block assembly from transaction packages with ancestors, by fee rate |
| `SkipList`, `Chain` | the block index, its skip list with a bound on the steps of a walk, forks and locators |
| `ArithWords`, `ArithShift`, `BigUint`, `Arith256` | multi-word unsigned arithmetic, the compact form of targets, and proof of work |
| `Cuckoo`, `CuckooRun` | the cuckoo cache with its packed flags and epochs, and what a run of it must still find |
| `CashPoly`, `CashField`, `CashAddr`, `CashExact`, `CashShort` | the cashaddr checksum, as a remainder over GF(32), and the format |
| `Radix`, `Base58` | base 58 by repeated multiplication in a fixed buffer |
| `Bloom` | the rolling Bloom filter with three generations in two bit planes |
| `BitStream`, `GolombRice`, `BlockFilter` | bit streams, Golomb-Rice codes and the block filters made of them |
| `CompactBlock` | reconstruction of blocks from short transaction ids |
| `Numbers`, `Options`, `Slices`, `Collections` | powers of two, bitwise or on disjoint numbers, an option type, and positions and repetitions in sequences |

Hash functions, clocks, random draws and the outcome of checks in other parts of
the node are parameters, so every result holds for all of them. Where a result
needs hashes not to collide, the contract says so. Widths matter where the
source has them: 8-, 32-, 40- and 64-bit values wrap or are shown not to.

Where the code and the words about it differ, the model follows the code:

- `CAddrMan::Clear` does not forget recorded tried collisions, although it
  restarts the identifiers. `ClearedSafeExactly` says that this is harmless
  exactly when none was recorded, `StaleIdentifier` gives the later run that
  fails for each one, and `StaleLookup` a whole run from a new manager.
- `CAddrMan::Add_` answers true for an unknown address even when the entry finds
  no slot and is deleted again at once; `AddDroppedExactly` says when, and
  `NewcomerDropped` gives the book.
- `CAddrMan::Unserialize` accepts negative counters and addresses listed twice.
  Its contract says exactly when the manager is consistent afterwards;
  `NegativeCounterAccepted` and `RepeatedNewClashes` give files that break it,
  `HarmlessUnclashed` those that do not.
- `CCoinsViewCache::SpendCoin` answers true whenever an entry is present, even
  for one already spent, as in `SpentTwice`; and the branch in which `FetchCoin` marks a spent coin
  of the view below as FRESH is never taken over a consistent view.
- `AddCoin` notices a broken promise of no overwrite only in its own cache;
  `AddedThenSpent` shows the old coin come back.
- The comment on the format of partial Merkle trees promises at most 2N - 1 flag
  bits; `PromiseKeptExactly` says when that is so, and `BitsBound` what holds
  always. Level widths wrap around beyond 2^31 transactions; `CoveredExactly`
  says what is then still spanned.
- `ExtractMatches` clears the vector of matches but not that of indices, so
  indices are appended to what the caller passed.
- The comment on the cuckoo cache's insertion says that the first displacement
  goes to position 0 of the eight; it goes to position 1.
- A cashaddr string can verify with fewer than eight values, where the decoder
  steps before its buffer; the model calls that outcome `Undefined`.
  `UndefinedExactly` says when, `ShortString` gives one, and
  `NetworkPrefixesDefined` that the networks' own prefixes have none.
- The two paths of `UpdatePackagesForAdded` deduct different fees, modified ones
  for a new entry and plain ones for an existing entry; `OwedAfter` gives the
  exact difference, `FeesRightExactly` when it vanishes, and `SomeFeesWrong` a
  pool where it does not.
- `PartiallyDownloadedBlock` never resets its count of transactions found, so in
  an object used again the scan of the pool can stop before every slot is taken;
  `InitData` says how many are then left.
- The index of a prefilled transaction is incremented in 32 bits, so the largest
  index moves the position by zero instead of failing; `SlotsApartExactly` says
  when no two share a slot and `TwoInOneSlot` gives two that do. Such an index
  cannot come over the wire, where compact sizes end at 2^25.
- The rolling Bloom filter and the flags of the cuckoo cache compute their sizes
  in 32 bits, which fails at the top of the range; the contracts of their
  constructors say exactly where.
- The loop that matches block filters misses a stored value that follows a
  larger one. `MatchInternal` is exact about it and `MissedValue` gives a filter;
  a built one has no such value.

## Model

| member | source | states |
|---|---|---|
| `AddrMan.AddrMan.constructor` | src/addrman.h:496-520 | a fresh manager satisfies every structural clause of Check_ and stands for the empty address book |
| `AddrMan.AddrMan.Clear` | src/addrman.h:496-518 | whatever the indexes held, the result is consistent, empty and numbered from 0; recorded tried collisions survive, and each then names an identifier not yet given |
| `AddrMan.AddrMan.Find` | src/addrman.cpp:90-103 | an address is found exactly when the book knows it, and the identifier found is that address's own entry |
| `AddrMan.AddrMan.Create` | src/addrman.cpp:105-116 | a new entry takes the next identifier and the last place of vRandom, is indexed by address, and is counted nowhere yet |
| `AddrMan.AddrMan.SwapRandom` | src/addrman.cpp:118-136 | two positions of vRandom and the back references of their entries change places; equal positions change nothing |
| `AddrMan.AddrMan.Delete` | src/addrman.cpp:138-149 | an unreferenced new entry leaves mapInfo, mapAddr and vRandom together, and nNew drops by one |
| `AddrMan.AddrMan.ClearNew` | src/addrman.cpp:151-163 | the slot is emptied, its entry loses one reference and disappears when that was the last; an empty slot changes nothing |
| `AddrMan.AddrMan.Uproot` | src/addrman.cpp:165-178 | the entry leaves every new bucket it stands in, and no other entry's slot changes |
| `AddrMan.AddrMan.LeaveTried` | src/addrman.cpp:188-193 | the evicted entry leaves its tried slot and the tried count, and waits uncounted |
| `AddrMan.AddrMan.Evict` | src/addrman.cpp:183-205 | the tried entry in the way returns to its new bucket, where it displaces what stood there |
| `AddrMan.AddrMan.MakeTried` | src/addrman.cpp:165-211 | all structural clauses of Check_ hold again, and the book is the old one with the address tried, the previous holder of its tried slot demoted and what that displaced shed |
| `AddrMan.AddrMan.FindBucket` | src/addrman.cpp:246-263 | from any random start the scan returns a bucket that really holds the entry, so the branch that gives up is never taken on a consistent manager |
| `AddrMan.AddrMan.Advance` | src/addrman.cpp:265-288 | an entry whose tried slot is taken is, when eviction is to be tested, left new and recorded while fewer than ten are; otherwise it is promoted; consistency is kept |
| `AddrMan.AddrMan.Good_` | src/addrman.cpp:213-289 | keeps consistency, and changes the address book exactly as Good says on plain maps |
| `AddrMan.AddrMan.Place` | src/addrman.cpp:351-370 | the entry gets a slot only if that is free, its own, held by a terrible entry, or held by one referenced elsewhere while it has none; an entry left without slots is deleted |
| `AddrMan.AddrMan.Refresh` | src/addrman.cpp:306-325 | a known address takes over the time (penalised, and only when older than its update interval) and the union of services, and nothing else |
| `AddrMan.AddrMan.Enter` | src/addrman.cpp:343-370 | an unknown address is entered with its penalised time and placed, and consistency holds again |
| `AddrMan.AddrMan.Add_` | src/addrman.cpp:291-373 | keeps consistency, answers true exactly for a routable address that was unknown, and changes the book as AddKnown, AddUnknown and AddUnroutable say |
| `AddrMan.AddrMan.Attempt_` | src/addrman.cpp:375-398 | keeps consistency; only the last try, the last counted attempt and the attempt count of a matching entry change |
| `AddrMan.AddrMan.Connected_` | src/addrman.cpp:584-605 | keeps consistency; only the time of a matching entry changes, and only after the update interval |
| `AddrMan.AddrMan.SetServices_` | src/addrman.cpp:607-625 | keeps consistency; only the services of a matching entry change |
| `AddrMan.AddrMan.GetAddr_` | src/addrman.cpp:561-582 | returns at most 2500 addresses and at most 23 of a hundred, each once and none of them terrible; when fewer come back, every passable one is among them; the permutation is that of the draws made, and the book does not change |
| `AddrMan.AddrMan.ResolveCollision` | src/addrman.cpp:628-701 | one recorded collision is settled, with the verdict whether to forget it, as ResolveOneExactly and TriedAfterTurn say; consistency is kept |
| `AddrMan.AddrMan.ResolveCollisions_` | src/addrman.cpp:627-701 | every recorded collision is settled in ascending order of identifier, as ResolveRecords and ResolveTries say, and consistency is kept |
| `AddrMan.AddrMan.SelectTriedCollision_` | src/addrman.cpp:703-730 | returns the tried entry that the recorded one collides with; a recorded identifier without entry is forgotten; consistency is kept if and only if that tried slot is occupied, otherwise an entry for identifier -1 appears |
| `AddrMan.AddrMan.WipeTables` | src/addrman.h:499-510 | both tables are empty |
| `AddrMan.AddrMan.Step` | src/addrman.h:544-657 | every public operation, with any arguments, clock and random draws, keeps consistency and collision safety and changes the book as the operation says |
| `AddrMan.AddrMan.Run` | src/addrman.h:544-657 | so does every finite sequence of operations, with the books between them |
| `AddrMan.FreshRun` | src/addrman.cpp:461-558 | after any run from a fresh manager all structural clauses of Check_ hold and no lookup of a recorded collision meets an empty slot; the books between the operations form a run |
| `AddrMan.WrapReaches` | src/addrman.cpp:249-257 | the wrapped scan from any start visits every new bucket |
| `AddrMan.OffersAnswer` | src/addrman.cpp:568-581 | what the partial shuffle has collected is duplicate-free and passable, and complete once all of vRandom was walked |
| `AddrDraws.DrawnSame` | src/addrman.cpp:118-136 | a partial shuffle permutes vRandom |
| `AddrDraws.AnyOrder` | src/addrman.cpp:568-581 | every order of vRandom can come out of some draws |
| `AddrDraws.OneWay` | src/addrman.cpp:568-581 | of distinct entries, each order comes out of one choice of positions only |
| `AddrSafety.ConsistentIsSound` | src/addrman.cpp:469-545 | the indexes of a consistent manager stand for a book in which no slot and no identifier belongs to two addresses, tried addresses have no buckets and new ones have one to eight |
| `AddrSafety.SafeAfter` | src/addrman.cpp:268-283 | collision safety survives any change that keeps occupied tried slots occupied and reuses no identifier |
| `AddrSafety.AddSafe` | src/addrman.cpp:291-373 | adding an address keeps every recorded collision safe |
| `AddrSafety.GoodSafe` | src/addrman.cpp:213-289 | so does promoting one, even when the entry recorded is promoted or another is demoted |
| `AddrSafety.UpdateSafe` | src/addrman.cpp:375-398 | so does any update that leaves the service of an entry alone |
| `AddrSafety.AttemptSafe` | src/addrman.cpp:375-398 | an attempt keeps recorded collisions safe |
| `AddrSafety.ConnectedSafe` | src/addrman.cpp:584-605 | a connection keeps recorded collisions safe |
| `AddrSafety.SetServicesSafe` | src/addrman.cpp:607-625 | new services keep recorded collisions safe |
| `AddrSafety.ResolveOneSafe` | src/addrman.cpp:628-701 | settling a collision keeps the others safe, whether it is forgotten or not |
| `AddrSafety.SelectSafe` | src/addrman.cpp:703-730 | in a safe book the slot looked up for any recorded identifier with an entry is occupied, and forgetting one is safe |
| `AddrSafety.DemotedSlotRefilled` | src/addrman.cpp:183-211 | a promotion never empties a tried slot: the one it evicts from is filled by the promoted entry |
| `AddrSafety.ClearedCollisions` | src/addrman.h:496-518 | the recorded collisions of a cleared book refer to identifiers already given if and only if there are none |
| `AddrSafety.TriedBucketExactly` | src/addrman.cpp:14-22 | the tried bucket of a service, from its two hashes |
| `AddrSafety.NewBucketExactly` | src/addrman.cpp:24-34 | its new bucket for a source, from the hashes of both groups |
| `AddrSafety.PositionExactly` | src/addrman.cpp:36-42 | and its place in a bucket |
| `AddrSafety.GroupReachesEightTriedBuckets` | src/addrman.cpp:14-22 | all addresses of one group share at most eight tried buckets |
| `AddrSafety.SourceReaches64NewBuckets` | src/addrman.cpp:24-34 | all addresses told by one source group share at most sixty-four new buckets |
| `AddrSound.AddSound` | src/addrman.cpp:291-373 | announcing an address keeps slots and identifiers unshared, tried addresses without buckets and new ones with one to eight |
| `AddrSound.GoodSound` | src/addrman.cpp:213-289 | so does a successful connection, with any eviction it causes |
| `AddrSound.MakeTriedFine` | src/addrman.cpp:165-211 | a promotion leaves every slot with at most one address |
| `AddrSound.UpdateSound` | src/addrman.cpp:375-398 | so does any update that leaves the service alone |
| `AddrSound.ResolveSound` | src/addrman.cpp:627-701 | so does settling the recorded collisions |
| `AddrRuns.FollowsSound` | src/addrman.h:544-657 | every operation, read on the book, keeps it sound |
| `AddrRuns.FollowsSafe` | src/addrman.h:544-657 | every operation, read on the book, keeps the recorded collisions safe |
| `AddrRuns.TraceSound` | src/addrman.h:544-657 | all books of a run are sound |
| `AddrRuns.TraceSafe` | src/addrman.h:544-657 | the recorded collisions are safe throughout a run |
| `AddrGuarantees.PlaceLoses` | src/addrman.cpp:351-370 | placing an address loses at most one other, a terrible one without another slot, and no tried one |
| `AddrGuarantees.AddLosesOnlyTerrible` | src/addrman.cpp:291-373 | an announcement loses at most one address, which was terrible, new and in one bucket only, and demotes none |
| `AddrGuarantees.AddDroppedExactly` | src/addrman.cpp:343-373 | an unknown routable address, which is answered as added, is absent afterwards if and only if its slot is held by an address that is not terrible and has no other |
| `AddrGuarantees.NewcomerDropped` | src/addrman.cpp:343-373 | this happens to the second of two addresses with one slot, the first announced just now |
| `AddrGuarantees.SomeNewcomerDropped` | src/addrman.cpp:343-373 | and there is a book in which it happens |
| `AddrGuarantees.TestedGoodKeepsAll` | src/addrman.cpp:265-288 | a connection that tests before evicting demotes nobody and loses nobody |
| `AddrGuarantees.GoodSpares` | src/addrman.cpp:213-289 | one that does not test demotes only the holder of its own tried slot |
| `AddrGuarantees.GoodLoses` | src/addrman.cpp:165-211 | a connection loses an address only when it does not test, promotes, and demotes the holder of its tried slot into the only slot of the lost one |
| `AddrGuarantees.ResolveOneSpares` | src/addrman.cpp:640-690 | settling a collision demotes only the holder of the slot collided for, and only when its last success is at least four hours old |
| `AddrGuarantees.ResolveOneLoses` | src/addrman.cpp:640-690 | settling a collision loses an address only in that way, and only when the demoted one is stale |
| `AddrGuarantees.ResolveSpares` | src/addrman.cpp:627-701 | the same for all recorded collisions together |
| `AddrGuarantees.ResolveLoses` | src/addrman.cpp:627-701 | so does settling all of them, each on the book that the ones before it leave |
| `AddrGuarantees.RunSpares` | src/addrman.h:544-657 | over any run, an address that is tried stays tried until an untested connection or a settled collision takes its slot, and the latter only when its last success is stale |
| `AddrGuarantees.RunKeeps` | src/addrman.h:544-657 | over any run, an address leaves the book only by an announcement that found it terrible and in one bucket, or by losing its only bucket slot to a tried address that is demoted into it, by an untested connection or, when the latter is stale, by a settled collision |
| `AddrGuarantees.GentleRunKeeps` | src/addrman.h:544-657 | without untested connections and settled collisions only the former is left |
| `AddrStale.StaleIdentifier` | src/addrman.h:496-518 | for every identifier recorded before Clear, announcing that many different routable addresses and one more gives it to an address whose tried slot is empty |
| `AddrStale.ClearedSafeExactly` | src/addrman.cpp:703-730 | after Clear no run ever looks up an empty tried slot if and only if no collision was recorded |
| `AddrStale.RecordCollision` | src/addrman.cpp:265-288 | a new manager records a collision when two addresses with one tried slot are connected to in turn |
| `AddrStale.StaleLookup` | src/addrman.cpp:703-730 | cleared after that, with two more addresses announced, it looks up identifier -1 and is no longer consistent |
| `AddrEffects.TerribleExactly` | src/addrman.cpp:44-72 | terrible means: not tried within the last minute, and without a time, ten minutes in the future, thirty days old, never reached in three attempts, or not in ten over a week |
| `AddrEffects.AddKnown` | src/addrman.cpp:309-371 | a known address adds the announced services to its own, and takes the announced time less the penalty where it has none or one older by an hour, a day for a time itself that old, and the penalty; if it is new, in fewer than eight buckets, announced with a later time and drawn, it gains the bucket of the source exactly when that slot is free or its holder terrible, who then gives it up; nobody else changes |
| `AddrEffects.AddUnknown` | src/addrman.cpp:343-371 | an unknown one enters under the next identifier with the time less the penalty, exactly when its slot is free or its holder terrible or in another bucket too; the holder gives the slot up and nobody else changes |
| `AddrEffects.AddUnroutable` | src/addrman.cpp:296-298 | an unroutable one changes nothing |
| `AddrEffects.GoodKnown` | src/addrman.cpp:213-289 | a connection sets three fields; the address is tried afterwards if and only if it was, its tried slot is free, or no test is asked for; otherwise it is recorded while fewer than ten are; only the holder of the slot steps down, into the new slot of its source, whose holder gives that up |
| `AddrEffects.GoodUnknown` | src/addrman.cpp:216-232 | a connection to a service not in the book is noted as the last one and changes nothing else |
| `AddrEffects.AttemptNoted` | src/addrman.cpp:375-398 | an attempt sets the last try; it is counted exactly if asked for and if none of its own was counted since the last success of any address |
| `AddrEffects.ConnectedRenews` | src/addrman.cpp:584-605 | the time becomes that of the connection exactly when it is more than twenty minutes behind |
| `AddrEffects.ServicesSet` | src/addrman.cpp:607-625 | only the services change, and only those of that service |
| `AddrEffects.ResolveOneExactly` | src/addrman.cpp:628-701 | a record stays if and only if its address is known and valid, the holder of the slot had no success for four hours, and either was tried within them and at most a minute ago, or was not and the newcomer was reached in the last forty minutes; the address is promoted exactly when it is valid and the slot is free or its holder so stale and the record does not stay |
| `AddrEffects.TriedAfterTurn` | src/addrman.cpp:628-701 | so it is tried afterwards if and only if it was before or is promoted then |
| `AddrEffects.TurnRecords` | src/addrman.cpp:628-701 | one turn drops its own record or none |
| `AddrEffects.ResolveRecords` | src/addrman.cpp:627-701 | of all records, exactly those stay that are left open in the book as it is at their turn |
| `AddrEffects.ResolveTries` | src/addrman.cpp:627-701 | an address recorded is tried in the end only if it is tried or promoted at its turn, and if so, unless a later turn takes its slot |
| `AddrState.VacatedLinked` | src/addrman.cpp:153-158 | taking an entry out of one of its new slots keeps all indexes linked, its reference count included |
| `AddrState.OccupiedLinked` | src/addrman.cpp:364-366 | putting an entry into a free slot of its own does too |
| `AddrState.SwappedLinked` | src/addrman.cpp:118-136 | exchanging two places of vRandom permutes it and keeps it and the back references inverse |
| `AddrState.CreatedLinked` | src/addrman.cpp:105-116 | a fresh entry keeps all indexes linked, apart from the two counters |
| `AddrState.DroppedLinked` | src/addrman.cpp:143-148 | removing the last entry of vRandom keeps all indexes linked when it is new and unreferenced |
| `AddrState.UntriedLinked` | src/addrman.cpp:188-193 | taking an entry out of its tried slot leaves a linked state with that entry uncounted |
| `AddrState.PromotedLinked` | src/addrman.cpp:206-210 | putting an uncounted entry into a free tried slot completes the links and counters |
| `AddrView.DeletedView` | src/addrman.cpp:138-149 | deletion removes exactly one address from the book |
| `AddrView.ClearedNewView` | src/addrman.cpp:151-163 | clearing a slot costs exactly its holder one bucket, and the address itself if that was the last |
| `AddrView.DemotedView` | src/addrman.cpp:183-205 | eviction leaves the evicted address new in exactly one bucket and sheds what stood there |
| `AddrView.UprootedView` | src/addrman.cpp:165-181 | after the scan over all buckets no reference is left, which is the assertion the code makes |
| `AddrView.MadeTriedView` | src/addrman.cpp:165-211 | the whole promotion, read on the book, is MakeTried, and the state is consistent |
| `AddrView.PlacedView` | src/addrman.cpp:351-370 | the placement, read on the book, is Place, and the state is consistent |
| `AddrView.FindView` | src/addrman.cpp:90-103 | mapAddr and mapInfo together know exactly the addresses of the book |
| `AddrView.ClearReady` | src/addrman.cpp:151-163 | a linked state satisfies what clearing a slot asserts about the entry in it |
| `AddrView.OffersExact` | src/addrman.cpp:568-581 | the first k places of vRandom yield each passable address there exactly once |
| `AddrView.EmptyConsistent` | src/addrman.h:496-518 | empty indexes are consistent and stand for the empty book |
| `AddrCodec.Xor30Twice` | src/addrman.h:338-398 | flipping bit 30 of the bucket count twice restores it, for negative counts as well |
| `AddrCodec.LoadingNew` | src/addrman.h:411-428 | reading the next new entry continues the restoration |
| `AddrCodec.LoadingTried` | src/addrman.h:433-449 | reading the next tried entry finds its slot free, so none is lost |
| `AddrCodec.LoadingSlot` | src/addrman.h:453-472 | every written index is in range and its slot free, so each reference is restored in the bucket and at the place it had |
| `AddrCodec.LoadingDone` | src/addrman.h:474-493 | when all is read the state is consistent, restores the book, and has nothing to prune |
| `AddrCodec.CountersFit` | src/addrman.h:400-408 | the counters of a consistent manager pass the size checks of the reader |
| `AddrCodec.RandomCounted` | src/addrman.cpp:465-467 | vRandom has as many entries as the two counters say |
| `AddrPersist.WriteNew` | src/addrman.h:340-351 | exactly the referenced entries are written in order of identifier, and the index kept for each is its rank among them |
| `AddrPersist.WriteTried` | src/addrman.h:352-361 | exactly the tried entries are written in order of identifier |
| `AddrPersist.WriteRow` | src/addrman.h:362-374 | a bucket is written as its number of occupied slots and their entries' ranks in slot order |
| `AddrPersist.Serialize` | src/addrman.h:328-375 | the stream is the encoding of the state and starts with version 1, key size 32, the key, both counters and 1024 buckets with bit 30 flipped; the two assertions about the counters hold |
| `AddrPersist.ReadHeader` | src/addrman.h:382-408 | accepted exactly with a key of 32 bytes, all fields and counters that are not too large, negative ones included; the fields are taken as they are |
| `AddrPersist.LoadNew` | src/addrman.h:411-428 | one new entry is indexed under the next identifier, and given the bucket of its source at once, if that slot is free, when the bucket section cannot be used |
| `AddrPersist.ReadNew` | src/addrman.h:411-429 | of any stream, the new entries are read in order as NewRead says, and it is refused exactly when one is missing |
| `AddrPersist.LoadTried` | src/addrman.h:434-445 | one tried entry is indexed under a fresh identifier in its tried slot |
| `AddrPersist.ReadTried` | src/addrman.h:431-450 | of any stream, the tried entries are read as TriedRead says; those whose slot is taken are counted as lost |
| `AddrPersist.LoadIndex` | src/addrman.h:456-470 | an index out of range, a taken slot or a ninth reference changes nothing; any other one adds the reference |
| `AddrPersist.ReadRow` | src/addrman.h:454-471 | the references of one bucket are read as RowRead says, and refused exactly when one is missing |
| `AddrPersist.ReadRows` | src/addrman.h:452-472 | all bucket rows are read as RowsRead says, and refused exactly when one does not parse |
| `AddrPersist.ReadEntries` | src/addrman.h:411-450 | both lists of entries, with identifiers, tried count and losses that follow from them |
| `AddrPersist.ReadAll` | src/addrman.h:382-472 | a file is taken in exactly as Intake says, and refused exactly when Accepts is false |
| `AddrPersist.Prune` | src/addrman.h:474-485 | exactly the entries that are neither tried nor referenced go, with the addresses they had, and the new count drops by as many; indexes other than mapAddr stay linked |
| `AddrPersist.Unserialize` | src/addrman.h:377-494 | on any stream the back references stay sound and recorded collisions are untouched; a file is accepted exactly when Accepts says; it leaves a consistent manager if and only if no counter is negative and no address of two entries is kept by either; a file of a consistent manager loses nothing and brings back service, services, time, source, last success and attempts of every address, with no try on record |
| `AddrPersist.RoundTrip` | src/addrman.h:328-494 | writing one manager and reading into another restores key, counters and every address with its status, buckets, service, services, time, source, last success and attempts; its tries are forgotten, and identifiers are given in the order of writing |
| `AddrIntake.IntakeWired` | src/addrman.h:377-472 | whatever a file with counters that are not negative says, every index but mapAddr comes out right, reference counts and slots included |
| `AddrIntake.ConsistentIffUnclashed` | src/addrman.h:474-494 | after pruning the manager is consistent if and only if no address that two entries have is kept by either |
| `AddrIntake.NewReadSturdy` | src/addrman.h:411-429 | reading any new entries keeps those indexes right |
| `AddrIntake.TriedReadSturdy` | src/addrman.h:431-450 | so does reading any tried entries, taken slots included |
| `AddrIntake.RowsReadSturdy` | src/addrman.h:452-472 | so does reading any bucket rows |
| `AddrFirst.TriedFirst` | src/addrman.h:431-450 | of any tried entries read, exactly those are kept that are listed first for their tried slot |
| `AddrFirst.NewFirst` | src/addrman.h:418-428 | without usable buckets, exactly the new entries listed first for their slot in the bucket of their source have a reference, and just one |
| `AddrFirst.TakesExactly` | src/addrman.h:458-469 | an index read takes its place exactly if it is in range, fewer than eight buckets below refer to it and the place is free |
| `AddrFirst.RowsFirst` | src/addrman.h:452-472 | so every place of every bucket ends with the first index of its row that may take it, and is free if there is none |
| `AddrFirst.FileByOrder` | src/addrman.h:411-472 | of any accepted file with sound counters, the three together: which entries are kept, for which places, and how many are lost |
| `AddrIntake.DeletedWired` | src/addrman.h:474-485 | so does deleting an entry that is not in use |
| `AddrGenuine.GenuineIntake` | src/addrman.h:328-472 | a file written by a consistent manager is accepted, restores its book and leaves nothing to prune |
| `AddrGenuine.RowsReadLoading` | src/addrman.h:362-472 | the bucket rows of such a file parse and restore every reference at its place |
| `AddrRepeats.HarmlessUnclashed` | src/addrman.h:411-450 | a file that lists no address twice, except tried ones with their port, leaves no clash |
| `AddrRepeats.NegativeCounterAccepted` | src/addrman.h:400-408 | a file with a negative counter is accepted |
| `AddrRepeats.RepeatedNewClashes` | src/addrman.h:411-428 | two new entries of one address clash: the first keeps its slot, and the second too unless it has the same one |
| `AddrRepeats.RepeatedTriedHarmless` | src/addrman.h:431-450 | a tried entry listed twice is lost to the slot of its first copy, and nothing clashes |
| `AddrCodec.RestoresAll` | src/addrman.h:57-61 | what is restored is that, field by field |
| `CoinCache.Database.constructor` | src/txdb.cpp:57-58 | the database shows the coins it is given |
| `CoinCache.Database.GetCoin` | src/txdb.cpp:60-62 | a coin is found exactly when it is stored, and is the stored one |
| `CoinCache.Database.BatchWrite` | src/txdb.cpp:84-150 | writing a consistent layer turns the stored coins into what the layer shows over them |
| `CoinCache.Cache.OnDisk` | src/coins.cpp:65-66 | a cache over a database shows what the database shows |
| `CoinCache.Cache.OnCache` | src/coins.cpp:65-66 | a cache over a cache shows what the cache below shows |
| `CoinCache.Cache.LookBelow` | src/coins.cpp:79-81 | asking the view below answers for that view and may fill its cache, but changes what no view shows |
| `CoinCache.Cache.FetchCoin` | src/coins.cpp:72-94 | afterwards an entry is present exactly when the cache had one or the view below shows a coin; no view shows anything else than before |
| `CoinCache.Cache.GetCoin` | src/coins.cpp:96-103 | a coin is returned exactly when the view shows one, and it is that coin |
| `CoinCache.Cache.HaveCoin` | src/coins.cpp:176-179 | true exactly when the view shows a coin, which is then cached |
| `CoinCache.Cache.AccessCoin` | src/coins.cpp:168-174 | the shown coin, or a spent one when there is none |
| `CoinCache.Cache.AddCoin` | src/coins.cpp:105-131 | a script that starts with 0x6a or has more than 10000 bytes adds nothing; the exception is thrown exactly for an unannounced overwrite of a cached unspent coin; otherwise the view gains the coin, the entry is dirty, and FRESH exactly if it was or if none was cached dirty and no overwrite was announced; the flags stay right if and only if the promise of no overwrite is kept |
| `CoinCache.Cache.SpendCoin` | src/coins.cpp:148-164 | the coin disappears from the view and from no other; the answer tells whether an entry was there, also for one already spent; an unspent coin is handed out, or else a spent one; what happens to the entries is stated for wrong flags too |
| `CoinCache.Cache.Erase` | src/coins.cpp:157-162 | a FRESH entry is erased and any other is left as spent |
| `CoinCache.Cache.Uncache` | src/coins.cpp:269-275 | exactly an unmodified entry is dropped, and no view shows anything else than before |
| `CoinCache.Cache.BatchWrite` | src/coins.cpp:197-260 | the misapplied-FRESH exception is thrown exactly when some entry calls for it, with the entries not yet taken over left; entries consistent with this view are never refused and the view becomes what they show over it |
| `CoinCache.Cache.Merge` | src/coins.cpp:201-256 | one entry is merged or refused exactly as Merged and Misapplied say, and unspentness of the views below is kept |
| `CoinCache.Cache.WriteBelow` | src/coins.cpp:262-264 | the view below comes to show what this cache shows; an exception comes exactly from a FRESH entry over a coin that the cache below has |
| `CoinCache.Cache.Flush` | src/coins.cpp:262-267 | the cache is empty, shows what it showed, and the view below shows the same, while views further down do not change; the exception of wrong flags is exact and leaves only entries that were there |
| `CoinCache.AddCoins` | src/coins.cpp:133-146 | the view gains exactly the spendable outputs at their indices, up to an exception at the first one that overwrites, unlooked for, an unspent coin in this very cache; the flags stay right if and only if none overwrites a coin unlooked for |
| `CoinCache.AddOutput` | src/coins.cpp:137-145 | one output, with the exact condition for the exception and for right flags |
| `CoinCache.Step` | src/coins.h:194-297 | each operation of a stack of caches shows and answers what the same operation on a stack of plain maps does |
| `CoinCache.Run` | src/coins.h:194-297 | any legal run over any number of caches, with flushes, pushes and pops, shows in every layer what plain maps would show and gives the answers they would give |
| `CoinCache.SpentTwice` | src/coins.cpp:148-164 | a coin spent twice is answered with true both times, and the second coin handed out is a spent one |
| `CoinCache.AddedThenSpent` | src/coins.h:98-106 | a coin added as new over one that exists below and is not cached goes unnoticed, and once it is spent the old coin is there again |
| `CoinCache.AddedThenFlushed` | src/coins.cpp:229-234 | the same coin, flushed to a cache that has the old one, is refused |
| `CoinMaps.OverPut` | src/coins.cpp:126-130 | an entry put into the layer decides what is shown for its outpoint and for no other |
| `CoinMaps.OverAgreeing` | src/coins.cpp:269-275 | dropping an entry that agrees with the view below changes nothing shown |
| `CoinMaps.OverDropped` | src/coins.cpp:157-159 | dropping a FRESH entry shows the coin as gone |
| `CoinMaps.ErasedOk` | src/coins.cpp:157-162 | erasing a FRESH entry or marking another as spent shows the coin as gone |
| `CoinMaps.AddedOk` | src/coins.h:98-106 | a dirty entry keeps the layer consistent if and only if FRESH is set only where the view below has no coin |
| `CoinMaps.MergedAt` | src/coins.cpp:201-256 | merging an entry touches no other outpoint and depends on no other |
| `CoinMaps.MergedView` | src/coins.cpp:201-256 | merging an entry that is right for the view above is never refused, keeps the flags right against the view below, and shows the child's coin |
| `CoinMaps.LeavesNoTrace` | src/coins.cpp:204-254 | a coin that is added and spent above a parent without it leaves the parent as it was, wherever it is spent |
| `CoinMaps.LeavesRecord` | src/coins.cpp:204-254 | a spent coin that may be below stays on record as dirty and not FRESH |
| `CoinMaps.RestOk` | src/coins.cpp:199-256 | the entries of a consistent layer can be merged one at a time in any order, with the same outcome |
| `CheckQueue.Init` | src/checkqueue.h:137-139 | a new queue is at rest in a fresh round, for any workers and batch size whose batches together stay below 2^32 checks |
| `CheckQueue.BatchOf` | src/checkqueue.h:108-110 | the batch taken from a non-empty queue is never empty, never larger than the queue nor than the batch size |
| `CheckQueue.TaintedBatch` | src/checkqueue.h:112-120 | moving checks from the queue to a batch neither hides nor invents a failure, even when the batch starts out as failed |
| `CheckQueue.ExecutedTaint` | src/checkqueue.h:123-127 | running or skipping the next check of a batch keeps whether the batch will report failure |
| `CheckQueue.CleanUpKeeps` | src/checkqueue.h:74-85 | settling a finished batch keeps all counters exact and the verdict right |
| `CheckQueue.ProceedKeeps` | src/checkqueue.h:87-120 | taking work, sleeping or returning keeps the invariant; the master returns true exactly when no check added in the round fails |
| `CheckQueue.NothingInFlight` | src/checkqueue.h:88-95 | when no check is in flight no worker holds a batch and no failure is outstanding |
| `CheckQueue.InFlightFits` | src/checkqueue.h:57-60 | fewer than 2^32 checks are in flight, so nTodo is zero on an empty queue exactly when none is, however often it wrapped around |
| `CheckQueue.ExecKeeps` | src/checkqueue.h:123-127 | running a check outside the lock keeps the invariant |
| `CheckQueue.EnterKeeps` | src/checkqueue.h:142-146 | entering the loop, as worker or master, keeps the invariant |
| `CheckQueue.AddKeeps` | src/checkqueue.h:149-161 | adding checks keeps the invariant, however many sleepers are woken |
| `CheckQueue.SectionKeeps` | src/checkqueue.h:69-121 | one pass through the critical section leaves nTodo, in 32 bits, nTotal and nIdle exact, and a verdict, if given, is that of the round |
| `CheckQueue.NextKeeps` | src/checkqueue.h:63-161 | every enabled step of any thread keeps the invariant; Wait returns true exactly when no check of the round fails, and leaves a fresh round |
| `CheckQueue.RunHonest` | src/checkqueue.h:63-161 | in every interleaving every verdict is the conjunction of exactly the checks added since the previous one |
| `CheckQueue.EveryRunKeeps` | src/checkqueue.h:43-60 | the counters are exact after every interleaving |
| `CheckQueue.EveryRunHonest` | src/checkqueue.h:63-161 | both hold for all runs of a new queue with any number of workers |
| `CheckQueue.CleanUpPotential` | src/checkqueue.h:74-99 | settling a batch or leaving a wait never raises the work left, and lowers it unless the thread was asleep unnotified |
| `CheckQueue.ProceedPotential` | src/checkqueue.h:87-120 | taking a batch lowers the work left; going to sleep does not raise it |
| `CheckQueue.StepDescends` | src/checkqueue.h:63-161 | while the master waits, every step returns, lowers the work left, or is a spurious wake-up that changes nothing |
| `CheckQueue.SleepAgain` | src/checkqueue.h:87-99 | a thread woken without work goes back to sleep in the same state |
| `CheckQueue.NeverStuck` | src/checkqueue.h:77-99 | while the master waits, some thread can always take a step that returns or lowers the work left, so no wake-up is lost |
| `CheckQueue.MasterStaysIn` | src/checkqueue.h:87-95 | the master leaves the loop only by returning a verdict |
| `CheckQueue.WaitBounded` | src/checkqueue.h:146-146 | spurious wake-ups apart, Wait returns within a number of steps known when it is called |
| `CheckAccount.BatchExactly` | src/checkqueue.h:108-110 | a batch is the share of the queue among all threads and one more, rounded down, but at least one and at most the batch size |
| `CheckAccount.TakenFromTheBack` | src/checkqueue.h:111-120 | it is taken from the back of the queue, last check first, and starts out with the verdict so far |
| `CheckAccount.AddWakes` | src/checkqueue.h:149-161 | adding one check wakes exactly one sleeping worker, if there is one; adding more wakes all; adding none wakes nobody |
| `CheckAccount.NextAccounted` | src/checkqueue.h:63-161 | every step of any thread keeps each check of the round exactly once: in the queue, left in a batch, run, or skipped, and skipped only where a failure is known |
| `CheckAccount.EveryCheckOnce` | src/checkqueue.h:63-161 | whenever Wait returns, in any run of a new queue, each check added has been run or skipped exactly once, and all were run if it returns true |
| `CheckAccount.QuietAfterFailure` | src/checkqueue.h:119-127 | once a failure is noted, no more checks are run than were then left in batches that do not know of it |
| `MerkleTree.WidthMeaning` | src/merkleblock.h:70-72 | a position lies within a level's width exactly when it covers some transaction and the 32-bit sum does not wrap |
| `MerkleTree.HeightFrom` | src/merkleblock.cpp:153-157 | the search for the height stops at the lowest level of at most one node |
| `MerkleTree.CoveredExactly` | src/merkleblock.h:70-72 | the tree spans all transactions if and only if there are at most 2^31 of them |
| `MerkleTree.Children` | src/merkleblock.cpp:90-93 | a node's left child exists, and its right child exactly when it covers a transaction |
| `MerkleTree.TopInTree` | src/merkleblock.cpp:153-160 | the root is a node of the tree for every non-empty block |
| `MerkleTree.LevelWidth` | src/consensus/merkle.cpp:47-60 | the level-by-level computation has exactly as many hashes on each level as the tree has nodes |
| `MerkleTree.NodeOnLevel` | src/merkleblock.cpp:48-71 | the recursive hash of a node is the hash the level-by-level computation puts there |
| `MerkleTree.RootIsMerkleRoot` | src/consensus/merkle.cpp:45-68 | the root of the partial tree is the block's Merkle root, for up to 2^31 transactions |
| `MerkleTree.NodesDistinct` | src/merkleblock.cpp:133-137 | different nodes of a level have different hashes when transaction ids differ and hashes do not collide, so the identical-branches test never fires on an honest proof |
| `MerkleProof.PickedExact` | src/merkleblock.cpp:78-81 | the matches below a range are exactly the marked positions in it, ascending |
| `MerkleProof.BelowSplit` | src/merkleblock.cpp:90-93 | the matches of a node are those of its children in order |
| `MerkleProof.HashesBound` | src/merkleblock.h:38-41 | a node contributes at most one hash per transaction below it, and at most one plus one per match and level |
| `MerkleProof.BitsPerHash` | src/merkleblock.cpp:182-186 | every proof has at least as many bits as hashes |
| `MerkleProof.ExtractSound` | src/merkleblock.cpp:97-144 | for any bits and hashes whatever, if the extraction is not bad and reproduces a node's hash, every match is the transaction id at the index reported |
| `MerkleProof.ExtractSoundAnyCount` | src/merkleblock.cpp:97-144 | the same for a block whose number of transactions is not the claimed one but gives a tree of the same height: no transaction can be proved twice by repeating a branch |
| `MerkleProof.ExtractAscends` | src/merkleblock.cpp:97-144 | the indices reported for any proof ascend strictly within the node's range |
| `MerkleProof.ExtractComplete` | src/merkleblock.cpp:97-144 | reading back what was built for a node yields its hash, all its matches, and consumes exactly its bits and hashes |
| `MerkleSize.BitsCounted` | src/merkleblock.cpp:73-95 | the flag bits are exactly 2N - 1 for N hashes, plus one for each explored node with a single child |
| `MerkleSize.LoneBound` | src/merkleblock.cpp:73-95 | there is at most one such node on each level, and none below a full node |
| `MerkleSize.BitsBound` | src/merkleblock.h:48-49 | the bits never exceed 2N - 1 by more than the height of the tree |
| `MerkleSize.LoneIffQuiet` | src/merkleblock.cpp:73-95 | no such node is explored exactly when nothing is selected below a node with a single child |
| `MerkleSize.PromiseKeptExactly` | src/merkleblock.h:48-49 | the bound of 2N - 1 bits given with the format holds if and only if nothing is selected below a node with a single child |
| `MerkleSize.ThreeTransactions` | src/merkleblock.h:48-49 | it fails for three transactions with the last one selected: four bits for two hashes |
| `MerkleBlock.OrBitSets` | src/merkleblock.h:116-118 | or-ing a shifted flag into a byte sets that bit only |
| `MerkleBlock.PackBits` | src/merkleblock.h:115-118 | flag i becomes bit i mod 8 of byte i / 8, and padding bits are zero |
| `MerkleBlock.UnpackBits` | src/merkleblock.h:109-112 | eight flags come out of each byte, least significant first |
| `MerkleBlock.Padded` | src/merkleblock.h:101-121 | unpacking what was packed gives the flags back, followed by zeros within the same number of bytes |
| `MerkleBlock.WholeTreeDecodes` | src/merkleblock.cpp:165-216 | extraction from the top of an honest proof is complete, padding or not |
| `MerkleBlock.PartialMerkleTree.constructor` | src/merkleblock.cpp:146-161 | the proof encodes exactly the marked transactions, within the bounds on the number of hashes |
| `MerkleBlock.PartialMerkleTree.Empty` | src/merkleblock.cpp:163-163 | the default proof is marked bad and holds nothing |
| `MerkleBlock.PartialMerkleTree.Deserialize` | src/merkleblock.h:106-113 | a received proof holds the count, hashes and flags sent, and is not marked bad |
| `MerkleBlock.PartialMerkleTree.Serialize` | src/merkleblock.h:114-120 | what is sent determines count, hashes and flags |
| `MerkleBlock.PartialMerkleTree.TreeHeight` | src/merkleblock.cpp:188-192 | the loop finds the height of the tree |
| `MerkleBlock.PartialMerkleTree.ParentOfMatch` | src/merkleblock.cpp:76-81 | true exactly when some marked transaction lies below the node |
| `MerkleBlock.PartialMerkleTree.TraverseAndBuild` | src/merkleblock.cpp:73-95 | appends exactly the node's bits and hashes |
| `MerkleBlock.PartialMerkleTree.TraverseAndExtract` | src/merkleblock.cpp:97-144 | computes the outcome of the extraction, adds its matches to those found before, and marks the proof bad exactly when the outcome is |
| `MerkleBlock.PartialMerkleTree.ExtractMatches` | src/merkleblock.cpp:165-216 | for any proof: a non-zero root that is the root of some block with that many transactions, or another number with a tree of the same height, proves every match genuine at its index; indices ascend and are in range; all four refusals are exact, the counts out of proportion among them |
| `MerkleBlock.PartialMerkleTree.SoundHere` | src/merkleblock.cpp:165-216 | soundness of the traversal from the top for every block of that size |
| `MerkleBlock.PartialMerkleTree.CompleteHere` | src/merkleblock.cpp:165-216 | a proof that encodes a block's matches passes all plausibility tests and yields them |
| `MerkleBlock.RoundTrip` | src/merkleblock.cpp:146-216 | building, sending, receiving and extracting returns the Merkle root and exactly the marked ids and indices, as far as the tree spans the block |
| `Mempool.FewerAncestors` | src/miner.h:88-99 | an ancestor's ancestor count is strictly smaller |
| `Mempool.SumSplit` | src/miner.cpp:453-460 | size and signature totals of a package split over any part of it |
| `Miner.Deduct` | src/miner.cpp:321-340 | every descendant not added, and no other, has the transaction's size and signature operations taken off, in either of the two update paths, and their number is returned |
| `Miner.UpdatePackagesForAdded` | src/miner.cpp:316-344 | each descendant's kept totals have exactly its added ancestors taken off, whatever the order; of the fees, plain ones, but for one modified fee where the entry is made on the way; the number returned is that of pairs of an added transaction and a descendant not added |
| `Miner.LessenedStep` | src/miner.cpp:320-341 | one more added transaction continues that account |
| `Miner.FeesLessenedStep` | src/miner.cpp:320-341 | the same for the fees, in both update paths |
| `Miner.OwedAfter` | src/miner.cpp:525-534 | after each package the kept fees of every entry are the modified fees of what remains, plus modified less plain fee of every ancestor deducted after the first |
| `Miner.FeesRightExactly` | src/miner.h:119-127 | for every tracked entry that never failed, the kept fees are those of what remains and the drift of its ancestors in the block but the first deducted; so they are right if and only if these drifts sum to zero |
| `Miner.FeesRightWithoutDrift` | src/miner.h:119-127 | they are right wherever no ancestor in the block has a modified fee that differs from its fee |
| `Miner.TwoParents` | src/miner.cpp:326-340 | of a child with two parents taken in turn they are off by the difference of the second |
| `Miner.SomeFeesWrong` | src/miner.cpp:326-340 | and there is a pool where that is not zero |
| `Mempool.ModFeesSplit` | src/txmempool.h:110-114 | modified fees are plain fees plus the differences, over any set |
| `Miner.RestAfter` | src/miner.cpp:316-344 | what is left of a package after another went in is exactly what the deduction says |
| `Miner.FreshCovers` | src/miner.cpp:453-455 | the totals cached in the pool cover what is left of a package, and are exact while no ancestor is in the block |
| `Miner.CoversAfter` | src/miner.cpp:525-534 | the kept totals of an entry still cover what is left of it after a package went in, and its fees are accounted for |
| `Miner.TrackedAtStart` | src/miner.cpp:399-401 | the modified set is right when selection starts, with a block already begun or not |
| `Miner.TrackedAfter` | src/miner.cpp:521-534 | it is right again after each package |
| `Miner.TrackedFailure` | src/miner.cpp:466-472 | it stays right when a failed package is erased from it |
| `Miner.SortForBlock` | src/miner.cpp:361-371 | the sequence holds exactly the package, each once, by ancestor count |
| `Miner.SortedIsTopological` | src/miner.cpp:364-366 | in a package sorted so, every ancestor in it comes earlier |
| `Miner.ListedNext` | src/miner.cpp:525-529 | appending the next sorted entry keeps every transaction behind its ancestors |
| `Miner.RestCloses` | src/miner.cpp:500-507 | a transaction and its ancestors outside the block are disjoint from it and close it under ancestors |
| `Miner.BlockAssembler.constructor` | src/miner.cpp:71-88 | the size limit is the greatest value that is at least 1000 and at most both the option and, in 64 bits, a thousand below the excessive size, and 1000 where there is none; the signature checks allowed are one for every 141 bytes of the excessive size |
| `Miner.BlockAssembler.ResetBlock` | src/miner.cpp:117-127 | the block is empty and its counters are those of an empty block with room for the coinbase |
| `Miner.BlockAssembler.OnlyUnconfirmed` | src/miner.cpp:244-254 | exactly the transactions outside the block stay |
| `Miner.BlockAssembler.TestPackageTransactions` | src/miner.cpp:270-295 | true exactly when every transaction is final and the whole package fits the size limit, whatever the order of testing |
| `Miner.BlockAssembler.AddToBlock` | src/miner.cpp:297-304 | one transaction is appended and each counter grows by its share |
| `Miner.BlockAssembler.AddSorted` | src/miner.cpp:525-529 | appending a sorted, ancestor-closed package keeps the block closed, ordered, duplicate-free and counted |
| `Miner.BlockAssembler.AddPackage` | src/miner.cpp:518-534 | the package goes in whole, with exact counters and a modified set that is right again |
| `Miner.BlockAssembler.TryPackage` | src/miner.cpp:462-535 | the package is refused exactly when too cheap, too big or not final, in that order of tests, and then nothing changes; otherwise it is added and both limits hold |
| `Miner.BlockAssembler.Consider` | src/miner.cpp:414-535 | one turn of the selection: the attempt is logged with its verdict, a refused entry of the modified set is erased and remembered as failed |
| `Miner.NextPackage` | src/miner.cpp:423-447 | picks the best of the modified set or the next entry of the pool, whichever the order by fee rate prefers |
| `Miner.BlockAssembler.Turn` | src/miner.cpp:423-535 | one turn of the selection, from all transactions neither in the block nor refused, with the number of failures in a row |
| `Miner.BlockAssembler.AddPackageTxs` | src/miner.cpp:380-536 | parents precede children, none is listed twice, every ancestor is in the block, sizes, signature operations, count and fees are exact, everything added is final and both limits hold; each package considered is preferred to all others kept and to the next of the pool; each is refused exactly for the reason logged; the search is given up exactly after more than a thousand too big ones since the last added, with less than a thousand bytes left, and otherwise each transaction is in the block or was refused; both counters returned are those of the log |
| `Miner.SelectingEnd` | src/miner.cpp:414-420 | when nothing is left to consider, each transaction of the pool is in the block or was refused |
| `Miner.NothingBetter` | src/miner.cpp:414-447 | if the pool comes in the order of its index, no transaction that could still go in is preferred to the one considered, by the totals known of it |
| `Feerate.LowerRate` | src/txmempool.h:328-345 | an entry counts with the lower of its own fee rate and that of its package |
| `Feerate.PrefersExactly` | src/txmempool.h:309-326 | one is preferred exactly if its rate is higher as a fraction, or equal with the lower transaction id |
| `Feerate.PrefersOrders` | src/txmempool.h:309-326 | so the comparison without division is a strict total order |
| `Feerate.HasBest` | src/miner.h:101-111 | and every set of entries has a best one |
| `Miner.PickedCovers` | src/miner.cpp:427-460 | the totals of the package picked, from the pool or the modified set, cover what is left of it |
| `SkipList.InvertLowestOneLess` | src/chain.cpp:77-81 | clearing the lowest set bit gives a smaller even number |
| `SkipList.LowestOne` | src/chain.cpp:77-81 | it subtracts exactly the largest power of two that divides the number |
| `SkipList.GetSkipHeight` | src/chain.cpp:83-94 | the skip goes to a non-negative height strictly below, so following skips ends |
| `SkipList.ClimbSkip` | src/chain.cpp:92-93 | below a multiple of a power of two, the skips from odd heights get four times as long each time |
| `SkipList.OddDown` | src/chain.cpp:104-110 | from an odd height the walk takes the skip if and only if it does not pass the target |
| `SkipList.EvenDown` | src/chain.cpp:104-110 | so it does from a multiple of eight |
| `SkipList.TwoSteps` | src/chain.cpp:104-110 | where it prefers the predecessor, it takes the skip of that one next, and the height left has fewer bits set |
| `SkipList.FromMultiple` | src/chain.cpp:96-120 | from a multiple of 2^k, k at least 3, to a target at most 2^k below, at most ((k + 3) / 2) * ((k + 4) / 2) - 4 turns |
| `SkipList.FromOdd` | src/chain.cpp:96-120 | from an odd height below 2^w, one turn for every two bits set and two more, beside those for a multiple of 2^(w - 1) |
| `SkipList.FromEight` | src/chain.cpp:96-120 | from a multiple of eight, one for every bit set but one |
| `SkipList.TurnsBound` | src/chain.cpp:88-93 | from any height below 2^w, w at least 4, to any height below it, at most ((w + 2) / 2) * ((w + 3) / 2) - 4 turns and the larger of w - 4 and w / 2 + 3 |
| `SkipList.TurnsOver18` | src/chain.cpp:88-91 | at most 110 turns over 2^18 blocks, as the comment says |
| `Chain.BlockIndex.constructor` | src/validation.cpp:3394-3399 | a new entry extends the line of its predecessor |
| `Chain.BlockIndex.GetAncestor` | src/chain.cpp:96-120 | over the skip list, the walk returns the very block that single steps back would reach, or nothing when the height is negative or above; with all pointers built it takes the number of turns that TurnsBound limits |
| `Chain.BlockIndex.BuildSkip` | src/chain.cpp:127-131 | the pointer built leads to the ancestor at the skip height, as GetAncestor needs it, and leaves none of the line unbuilt |
| `Chain.AncestorOfAncestor` | src/chain.cpp:96-120 | an ancestor's ancestor is the ancestor |
| `Chain.SkipsBelow` | src/chain.cpp:96-131 | right skip pointers stay right along the line |
| `Chain.BuiltBelow` | src/chain.cpp:96-131 | where all pointers of a line are built, so are those of every ancestor |
| `Chain.SharedBelow` | src/chain.cpp:179-188 | two lines that meet at a height share every block below |
| `Chain.LastCommonAncestor` | src/chain.cpp:167-193 | returns the highest block that both lines share, or nothing when they share none, moving by skip pointers |
| `Chain.AreOnTheSameFork` | src/chain.cpp:195-202 | true exactly when one block is an ancestor of the other |
| `Chain.CChain.constructor` | src/chain.h:357-359 | a new chain is empty |
| `Chain.CChain.ContainsExactly` | src/chain.h:394-397 | the comparison by height tells exactly whether a block is an ancestor of the tip |
| `Chain.CChain.NextFollows` | src/chain.h:399-409 | the next block is in the chain and points back, and there is none after the tip |
| `Chain.CChain.SetTip` | src/chain.cpp:11-22 | the vector becomes exactly the line of the new tip, although the loop stops at the first block that is already right |
| `Chain.CChain.FindFork` | src/chain.cpp:55-66 | returns the highest ancestor that is in the chain; nothing exactly when none is |
| `Chain.CChain.AncestorOf` | src/chain.cpp:40-46 | the chain's index and the skip list give the same ancestor |
| `Chain.CChain.GetLocator` | src/chain.cpp:24-53 | the locator runs from the start down to the genesis block at the doubling distances, and has length logarithmic in the height |
| `Chain.BackStep` | src/chain.cpp:38-49 | the step back is one ten times and doubles from then on |
| `Chain.LocatorBound` | src/chain.cpp:24-53 | beyond twelve blocks, 2^(length - 12) stays below the height |
| `ArithWords.ValBound` | src/arith_uint256.h:24-28 | the value of n words is below 2^(32 n) |
| `ArithWords.ValSplit` | src/arith_uint256.h:24-28 | a value splits into low words and weighted high words |
| `ArithWords.ValCompare` | src/arith_uint256.cpp:121-132 | the highest differing word decides the order |
| `ArithShift.ShiftParts` | src/arith_uint256.cpp:32-37 | a shifted word splits into what stays and what moves into the next |
| `ArithShift.RightStep` | src/arith_uint256.cpp:50-57 | one word of a right shift adds its share to the quotient and leaves the remainder |
| `BigUint.BaseUint.constructor` | src/arith_uint256.h:31-39 | a new number is zero |
| `BigUint.BaseUint.Copy` | src/arith_uint256.h:41-49 | a copy has the same value in its own words |
| `BigUint.BaseUint.AddAssign` | src/arith_uint256.h:136-144 | addition modulo 2^(32 width), also of a number to itself |
| `BigUint.BaseUint.Complement` | src/arith_uint256.h:72-78 | the complement is the largest number minus the value |
| `BigUint.BaseUint.Increment` | src/arith_uint256.h:169-176 | adds one modulo 2^(32 width) |
| `BigUint.BaseUint.Decrement` | src/arith_uint256.h:185-192 | subtracts one modulo 2^(32 width) |
| `BigUint.BaseUint.Negate` | src/arith_uint256.h:80-87 | the negation modulo 2^(32 width) |
| `BigUint.BaseUint.SubAssign` | src/arith_uint256.h:146-149 | subtraction modulo 2^(32 width) |
| `BigUint.BaseUint.MulWord` | src/arith_uint256.cpp:61-70 | multiplication by a word, modulo 2^(32 width), without overflow of the 64-bit carry |
| `BigUint.BaseUint.AddProduct` | src/arith_uint256.cpp:76-81 | one row of the long multiplication adds the product of a word and the low words |
| `BigUint.BaseUint.MulAssign` | src/arith_uint256.cpp:72-85 | multiplication modulo 2^(32 width), also of a number by itself |
| `BigUint.MulRow` | src/arith_uint256.cpp:75-82 | what the rows leave out is a multiple of the modulus |
| `BigUint.BaseUint.CompareTo` | src/arith_uint256.cpp:121-132 | the sign of the difference of the values |
| `BigUint.TopBit` | src/arith_uint256.cpp:179-184 | the highest set bit of a non-zero word |
| `BigUint.BaseUint.Bits` | src/arith_uint256.cpp:176-188 | the length of the binary representation, zero for zero |
| `BigUint.BaseUint.SetZero` | src/arith_uint256.cpp:26-28 | all words are zero |
| `BigUint.BaseUint.ShiftLeft` | src/arith_uint256.cpp:23-40 | multiplication by 2^shift modulo 2^(32 width), for any shift |
| `BigUint.BaseUint.ShiftRight` | src/arith_uint256.cpp:42-59 | division by 2^shift, for any shift |
| `BigUint.BaseUint.SetBit` | src/arith_uint256.cpp:111-111 | sets a bit that is clear, which adds its power of two |
| `BigUint.DividingStep` | src/arith_uint256.cpp:107-116 | each turn keeps quotient times divisor plus remainder equal to the dividend, with the remainder below the next shifted divisor |
| `BigUint.BaseUint.DivAssign` | src/arith_uint256.cpp:87-119 | the exact quotient; division by zero fails, with the number already set to zero |
| `Arith256.SetCompact` | src/arith_uint256.cpp:206-228 | the value decoded, modulo 2^256; overflow is flagged exactly when the decoded value does not fit, negative exactly for a signed non-zero value |
| `Arith256.GetCompact` | src/arith_uint256.cpp:230-251 | the compact form of the value, with both assertions about its size holding |
| `Arith256.EncodedParts` | src/arith_uint256.cpp:239-249 | size, mantissa and sign of a compact form are separate, the mantissa below 2^23 and the sign never on zero |
| `Arith256.DecodeTruncates` | src/arith_uint256.cpp:206-251 | decoding an encoded number gives it back, rounded down to its leading three bytes |
| `Arith256.ReencodeStable` | src/arith_uint256.cpp:206-251 | encoding that rounded number again gives the same compact form |
| `Arith256.OverflowExact` | src/arith_uint256.cpp:222-226 | the three-part overflow test is true exactly when the value reaches 2^256 |
| `Arith256.BytesBounds` | src/arith_uint256.cpp:231-231 | the size is the least number of bytes that holds the value |
| `Arith256.TopBounds` | src/arith_uint256.cpp:233-238 | the leading three bytes are normalised and bracket the value |
| `Arith256.Assign` | src/arith_uint256.h:91-98 | assigning a 64-bit number gives that value |
| `Arith256.GetBlockProof` | src/chain.cpp:133-146 | the work of a block is exactly 2^256 / (target + 1), and zero for a negative, overflowing or zero target |
| `Arith256.WorkQuotient` | src/chain.cpp:141-145 | the rewriting that avoids 2^256 gives the same quotient |
| `Arith256.NotAllOnes` | src/chain.cpp:144-145 | no compact form denotes 2^256 - 1, so target + 1 never wraps |
| `Cuckoo.Flags.constructor` | src/cuckoocache.h:60-67 | every flag starts as collectable; there is room for all of them if and only if the size is not one of the last seven 32-bit numbers |
| `Cuckoo.Flags.Set` | src/cuckoocache.h:91-93 | sets one flag and no other |
| `Cuckoo.Flags.Unset` | src/cuckoocache.h:102-104 | clears one flag and no other |
| `Cuckoo.LocsInRange` | src/cuckoocache.h:263-288 | each of the eight positions is the fraction of the table that its hash is of 2^32, rounded down |
| `Cuckoo.LiveChange` | src/cuckoocache.h:456-458 | writing a slot changes the live elements by what was there and what is put |
| `Cuckoo.AbsentIfNotFound` | src/cuckoocache.h:440-449 | a key at none of its eight positions is nowhere in the table |
| `Cuckoo.SwapKeeps` | src/cuckoocache.h:476-487 | exchanging the element in hand for one at its position keeps elements at home and keys distinct, and the element now in hand is nowhere in the table |
| `Cuckoo.FoundIfLive` | src/cuckoocache.h:545-556 | the first hit among the eight positions is the live element with that key, if there is one |
| `Cuckoo.RevivePlaced` | src/cuckoocache.h:440-449 | keeping or replacing an element where its key stands keeps the table in order |
| `Cuckoo.NextLoc` | src/cuckoocache.h:476-479 | the position behind the last one looked at in the circle of the eight of the key, or the second where the last is none of them; with eight different positions never the place the element was just moved from |
| `Cuckoo.DisplacedSwap` | src/cuckoocache.h:480-487 | a displacement loses no element and keeps live ones accounted for |
| `Cuckoo.StoredAccounts` | src/cuckoocache.h:452-460 | an insertion that ends in a collectable slot gives up only the collectable element there |
| `Cuckoo.DroppedAccounts` | src/cuckoocache.h:413-414 | an insertion that runs out of depth gives up exactly one element |
| `Cuckoo.Cache.constructor` | src/cuckoocache.h:376-389 | a table of at least two slots with no element to be kept; an epoch is 45 percent of the size, in 32 bits, rounded down but at least one; all invariants hold if and only if the flags have room |
| `Cuckoo.Cache.AllowErase` | src/cuckoocache.h:301-301 | one slot becomes collectable, and the table stays in order |
| `Cuckoo.Cache.PleaseKeep` | src/cuckoocache.h:308-308 | one slot stops being collectable |
| `Cuckoo.Cache.Find` | src/cuckoocache.h:545-556 | returns the first element with the key among its positions, marking it when erasing; an element that is to be kept is always found |
| `Cuckoo.Cache.CountRecent` | src/cuckoocache.h:325-331 | the number of unerased elements of the current epoch |
| `Cuckoo.Cache.StartEpoch` | src/cuckoocache.h:337-343 | exactly the elements of the old epoch become collectable, and those of the current epoch become the old |
| `Cuckoo.Cache.EpochCheck` | src/cuckoocache.h:320-355 | counts down, or starts a new epoch exactly when the current one is full, or sets the next time to look; the table does not change |
| `Cuckoo.Cache.Lookup` | src/cuckoocache.h:440-449 | finds the key at one of its positions, or shows it at none |
| `Cuckoo.Cache.Collectable` | src/cuckoocache.h:452-455 | finds the first collectable position of the key, or shows all eight kept |
| `Cuckoo.Cache.Put` | src/cuckoocache.h:456-458 | an absent element stored at its position keeps the table in order |
| `Cuckoo.Cache.Revive` | src/cuckoocache.h:440-448 | an element already there is kept from erasure and moved to the current epoch, and replaced exactly when asked |
| `Cuckoo.Cache.Swap` | src/cuckoocache.h:480-484 | the element displaced is handed back with its epoch and is nowhere in the table |
| `Cuckoo.Cache.Displace` | src/cuckoocache.h:450-488 | either a collectable slot is taken and every live element stays, or after as many displacements as allowed exactly one element is dropped, every element on the way having had all eight positions kept; each goes to the position behind the one it was displaced from, and the slot taken is the first collectable one |
| `Cuckoo.Cache.InsertAged` | src/cuckoocache.h:435-488 | a key already there is revived in place; otherwise the insertion is accounted for as above |
| `Cuckoo.Cache.Insert` | src/cuckoocache.h:433-489 | the same after the epoch check, which makes exactly the old epoch collectable when the counter has run out and the current one is full; the moves are returned and the table is what they make of it |
| `Cuckoo.MovingOn` | src/cuckoocache.h:480-487 | moving an element on keeps all others and the epochs of all |
| `CuckooRun.InsertMatches` | src/cuckoocache.h:433-489 | what is kept after an insert, with epochs, is what its outcome says |
| `CuckooRun.Run` | src/cuckoocache.h:433-556 | over any run of inserts and lookups: every lookup of an element that is to be kept finds it, the elements kept are exactly those the outcomes say, an epoch never holds more than a sixteenth beyond its size, and new epochs begin at least an epoch of inserts apart |
| `CuckooRun.SpacedNext` | src/cuckoocache.h:320-355 | the counter keeps new epochs that far apart |
| `CuckooRun.StaysKept` | src/cuckoocache.h:185-194 | a stored element is kept until a second new epoch begins, unless it is erased, inserted again or moved out |
| `CuckooRun.StillFound` | src/cuckoocache.h:185-194 | so every lookup within an epoch of inserts finds an element that its insert left in the table, whether in a free slot, in place of one with its key, or while another was dropped |
| `CashPoly.ShiftLinear` | src/cashaddr.cpp:101-136 | one step of the checksum is linear over exclusive or |
| `CashPoly.ShiftInjective` | src/cashaddr.cpp:101-136 | only zero is stepped to zero |
| `CashPoly.PolyMod` | src/cashaddr.cpp:42-147 | the loop folds the values, one at a time, into forty bits, and the answer is exclusive-or one |
| `CashField.FoldDivides` | src/cashaddr.cpp:44-73 | what the loop computes is the remainder, modulo the generator polynomial over GF(32), of the values with an implicit one in front |
| `CashField.RemainderUnique` | src/cashaddr.cpp:44-73 | no other forty bits are a remainder of the same polynomial |
| `CashField.RoundAt` | src/cashaddr.cpp:75-99 | one round multiplies by x, adds the value, and subtracts the top coefficient times the generator |
| `CashField.PackedReduced` | src/cashaddr.cpp:107-136 | the five constants are the multiples of the generator by the powers of the field's generator |
| `CashField.LowMultipleZero` | src/cashaddr.cpp:52-58 | a multiple of the generator of degree below eight is zero |
| `CashPoly.FoldConcat` | src/cashaddr.cpp:42-147 | the remainder of a concatenation continues from that of its first part |
| `CashPoly.FoldLinear` | src/cashaddr.cpp:42-147 | the remainder of a difference is the difference of the remainders |
| `CashPoly.FoldZeros` | src/cashaddr.cpp:42-147 | appending zeros never makes a non-zero remainder zero |
| `CashPoly.FoldShort` | src/cashaddr.cpp:42-147 | up to eight five-bit values are their own remainder |
| `CashPoly.BurstDetected` | src/cashaddr.cpp:57-58 | two words of five-bit values that differ only within eight neighbouring places have different checksums |
| `CashPoly.FoldUnpack` | src/cashaddr.cpp:189-193 | the eight five-bit groups of a remainder fold back into it |
| `CashPoly.ChecksumHolds` | src/cashaddr.cpp:37-41 | appending the groups of the remainder of the padded word makes the remainder one |
| `CashAddr.CharsetInverse` | src/cashaddr.cpp:12-27 | the decoding table inverts the character set, whose letters are lower case |
| `CashExact.CharsetText` | src/cashaddr.cpp:15-15 | the character set, eight at a time |
| `CashAddr.CharsetCovers` | src/cashaddr.cpp:17-27 | every accepted character denotes a five-bit value whose character is its lower-case form |
| `CashAddr.ExpandPrefix` | src/cashaddr.cpp:162-171 | the low five bits of every character, then a zero |
| `CashAddr.VerifyChecksum` | src/cashaddr.cpp:176-178 | true exactly when prefix and values fold to one |
| `CashAddr.CreateChecksum` | src/cashaddr.cpp:183-196 | the eight values are the checksum of prefix and payload |
| `CashAddr.CreatedVerifies` | src/cashaddr.cpp:176-196 | a payload with its checksum verifies |
| `CashAddr.ChecksumUnique` | src/cashaddr.cpp:176-196 | no other eight values verify |
| `CashAddr.Encode` | src/cashaddr.cpp:205-216 | prefix, separator and the characters of payload and checksum |
| `CashAddr.Decode` | src/cashaddr.cpp:221-297 | succeeds exactly on well-formed strings of known characters whose checksum verifies, with the lower-cased or default prefix |
| `CashAddr.ScanPrefix` | src/cashaddr.cpp:224-262 | the scan accepts exactly strings of letters and digits in one case with at most one separator, not first and after no digit, and finds it |
| `CashAddr.LowerPrefix` | src/cashaddr.cpp:264-276 | the prefix in lower case |
| `CashAddr.DecodeValues` | src/cashaddr.cpp:278-296 | unknown characters and bad checksums are refused, otherwise the values without the last eight are returned |
| `CashAddr.EncodedShape` | src/cashaddr.cpp:205-262 | what is encoded under a lower-case prefix passes the scan, with its separator where the prefix ends |
| `CashAddr.DecodeEncode` | src/cashaddr.cpp:202-297 | decoding what was encoded returns prefix and payload, whatever the default prefix |
| `CashAddr.EncodeDecode` | src/cashaddr.cpp:202-297 | encoding what was decoded from a string with a prefix returns that string in lower case |
| `CashShort.UndefinedExactly` | src/cashaddr.cpp:278-296 | the decoder steps before its buffer exactly on well-formed, readable strings that verify with fewer than eight characters after the separator |
| `CashShort.ShortString` | src/cashaddr.cpp:278-296 | c:qvdy2z3 is one, whatever the default prefix |
| `CashShort.ShortUnique` | src/cashaddr.cpp:176-178 | a prefix has, up to case, at most one of each length |
| `CashShort.ShortExists` | src/cashaddr.cpp:176-178 | it has one of n values if and only if what is wanting to a remainder of one, after the prefix and n zeros, fits in n values |
| `CashShort.NetworkPrefixesDefined` | src/chainparams.cpp:208-208 | the prefixes ergon, bchtest and bchreg have none |
| `CashExact.DecodedExactly` | src/cashaddr.cpp:202-297 | a string with a separator decodes to a prefix and payload if and only if it is their encoding, in lower case or in capitals throughout |
| `CashExact.DecodedWithDefault` | src/cashaddr.cpp:221-297 | one without, if and only if it is that of the payload and its checksum for the default prefix |
| `CashExact.CaseBlind` | src/cashaddr.cpp:224-262 | in one case throughout, a string decodes as its lower-case form does |
| `Radix.Enough` | src/base58.cpp:102-104 | one inequality between powers bounds the digits needed in another base for all lengths |
| `Radix.ValueOfDigits` | src/base58.cpp:106-121 | the digits of a number have that value |
| `Radix.DigitsOfValue` | src/base58.cpp:106-121 | a numeral without leading zeros is the numeral of its value |
| `Base58.CharOf` | src/base58.cpp:15-33 | the character of a digit is mapped back to it |
| `Base58.Alphabet` | src/base58.cpp:15-33 | the digits are the letters and figures but 0, I, O and l, in the order of their codes |
| `Base58.CharOfDigit` | src/base58.cpp:15-33 | the digit of an accepted character is mapped back to it |
| `Base58.MulAdd` | src/base58.cpp:62-70 | one turn multiplies the big-endian buffer and adds the digit, with no carry left and the used length right |
| `Base58.ConvertStep` | src/base58.cpp:63-68 | each place keeps the invariant between digits, carry and value |
| `Base58.ConvertDone` | src/base58.cpp:63-70 | when the loop stops the carry is zero, as asserted, and all places above are zero |
| `Base58.EncodeFits` | src/base58.cpp:102-104 | n * 138 / 100 + 1 places of base 58 hold any n bytes, for every n |
| `Base58.DecodeFits` | src/base58.cpp:47-49 | n * 733 / 1000 + 1 bytes hold any n digits of base 58, for every n |
| `Base58.Strip` | src/base58.cpp:80-90 | skipping leading zeros leaves the numeral of the value |
| `Base58.Convert` | src/base58.cpp:105-126 | the buffer algorithm computes the numeral of the value in the other base |
| `Base58.SkipSpaces` | src/base58.cpp:36-39 | skips exactly the leading white space |
| `Base58.DecodeWord` | src/base58.cpp:40-92 | up to the first space, invalid characters are refused and the others decoded with their leading ones as zero bytes |
| `Base58.DecodeBase58` | src/base58.cpp:35-142 | decodes exactly the strings that, up to their first zero byte, are one valid word between optional spaces |
| `Base58.DecodeText` | src/base58.cpp:35-92 | the same for a C string |
| `Base58.EncodeBase58` | src/base58.cpp:94-135 | a one for each leading zero byte, then the base-58 numeral of the rest |
| `Base58.DecodeEncode` | src/base58.cpp:35-135 | decoding what was encoded returns the bytes, leading zeros included |
| `Base58.EncodeDecode` | src/base58.cpp:35-135 | every string of valid characters decodes, and encoding the result returns it |
| `Bloom.PutBitPuts` | src/bloom.cpp:293-296 | one bit is set to the value given and no other changes |
| `Bloom.WipeMaskKeeps` | src/bloom.cpp:273-278 | the mask is clear exactly at the places tagged with the generation |
| `Bloom.FastModBelow` | src/bloom.cpp:258-264 | the replacement for the remainder is the fraction of the size that the hash is of 2^32, rounded down |
| `Bloom.BitInExactly` | src/bloom.cpp:287-292 | the bit within a word is given by the six lowest bits of the hash |
| `Bloom.WipedWord` | src/bloom.cpp:276-281 | wiping a pair of words clears exactly the places of one generation |
| `Bloom.MarkedWord` | src/bloom.cpp:293-296 | marking a place gives it the current generation and leaves every other place alone |
| `Bloom.MarkedTags` | src/bloom.cpp:285-297 | after an insertion exactly the places that it selects have the current generation |
| `Bloom.WipedTags` | src/bloom.cpp:267-282 | after a wipe every place has the generation of the last insertion still kept that selected it, or none |
| `Bloom.CarriedExactly` | src/bloom.cpp:300-312 | so an element is carried if and only if each of its places was selected by an insertion still kept |
| `Bloom.RollingBloomFilter.constructor` | src/bloom.cpp:215-249 | a new filter holds no element at all; it works if and only if it has words and is made for 1 to 2^32 - 2 elements, and then a generation is half of them rounded up |
| `Bloom.RollingBloomFilter.Reset` | src/bloom.cpp:314-319 | forgets every insertion: with at least one hash function no element whatever is held afterwards |
| `Bloom.RollingBloomFilter.Wipe` | src/bloom.cpp:275-281 | clears the places of one generation throughout, and no other |
| `Bloom.RollingBloomFilter.Mark` | src/bloom.cpp:285-297 | tags exactly the places of the element with the current generation |
| `Bloom.RollingBloomFilter.NewGeneration` | src/bloom.cpp:267-282 | starts the next generation in the cycle of three without losing any of the last two |
| `Bloom.RollingBloomFilter.Insert` | src/bloom.cpp:266-298 | records the insertion; the generation counter starts again exactly when a generation was full |
| `Bloom.RollingBloomFilter.Contains` | src/bloom.cpp:300-312 | true exactly when every place of the element is tagged with some generation |
| `Bloom.RollingBloomFilter.HeldExactly` | src/bloom.cpp:300-312 | true if and only if each place of the element was selected by one of the insertions of this and the last two generations |
| `Bloom.RollingBloomFilter.RecentExactly` | src/bloom.h:117-129 | these are the last insertions: up to two full generations and the current one |
| `Bloom.RollingBloomFilter.RecentHeld` | src/bloom.h:128-129 | none of the last two full generations of insertions, nor the current ones, is ever reported missing |
| `BitStream.NumberOfBits` | src/streams.h:496-519 | reading n bits of a number below 2^n gives it back |
| `BitStream.BitsOfNumber` | src/streams.h:540-559 | writing the number of some bits gives them back |
| `BitStream.BitAt` | src/streams.h:549-558 | the bit at a place is that of the power of two of its distance from the end |
| `BitStream.ChunkBits` | src/streams.h:549-558 | the bits of a word are those of its leading chunk and the rest |
| `BitStream.ShiftedChunk` | src/streams.h:551-551 | the double shift of a 64-bit word puts exactly the leading chunk at the free places of the buffer |
| `BitStream.ReadChunk` | src/streams.h:512-514 | the double shift of a byte takes exactly the unread bits asked for |
| `BitStream.BitStreamWriter.constructor` | src/streams.h:536-536 | a writer starts at the end of the stream |
| `BitStream.BitStreamWriter.Write` | src/streams.h:540-559 | the low bits of the word are appended, most significant first; more than 64 are refused |
| `BitStream.BitStreamWriter.Flush` | src/streams.h:561-573 | pads with zeros to the next byte |
| `BitStream.BitStreamReader.constructor` | src/streams.h:494-494 | a reader starts with nothing used |
| `BitStream.BitStreamReader.Read` | src/streams.h:496-519 | returns the next bits as a number, and fails exactly beyond 64 bits or beyond the end |
| `GolombRice.AllOnes` | src/blockfilter.cpp:27-31 | writing ~0 in at most 64 bits writes ones only |
| `GolombRice.GolombForm` | src/blockfilter.cpp:22-37 | the code of x is x / 2^P ones, a zero and the P lowest bits, the highest first |
| `GolombRice.GolombRiceEncode` | src/blockfilter.cpp:22-37 | appends the quotient in ones, a zero and the remainder in P bits, for any 64-bit number |
| `GolombRice.GolombInverse` | src/blockfilter.cpp:22-51 | decoding where a code word stands gives the number and ends behind it, for every 64-bit number and P below 64 |
| `GolombRice.GolombRiceDecode` | src/blockfilter.cpp:39-51 | reads one code word, and fails exactly when the stream ends within it |
| `BlockFilter.MapIntoRange` | src/blockfilter.cpp:53-84 | the piecewise multiplication gives the upper 64 bits of the 128-bit product |
| `BlockFilter.HashedBelow` | src/blockfilter.cpp:86-91 | every hash of an element is a 64-bit number |
| `BlockFilter.BuildHashedSet` | src/blockfilter.cpp:93-102 | the hashes of the elements, ascending, each as often as it occurs |
| `BlockFilter.CodedDecodes` | src/blockfilter.cpp:149-174 | decoding and summing the coded differences restores the values one by one |
| `BlockFilter.BuildFilter` | src/blockfilter.cpp:130-157 | refused exactly for 2^32 elements or more; otherwise the bytes hold the ascending hashes of exactly the elements |
| `BlockFilter.BuiltStores` | src/blockfilter.cpp:107-174 | the values read from a built filter are those hashes |
| `BlockFilter.ReadFilter` | src/blockfilter.cpp:107-128 | accepts exactly an encoding of n elements with nothing missing and no byte in excess, which can then be matched |
| `BlockFilter.BuiltIsReadable` | src/blockfilter.cpp:107-157 | a built filter passes that test |
| `BlockFilter.MatchInternal` | src/blockfilter.cpp:159-189 | for any readable filter, true if and only if some queried value is stored with no larger one before it |
| `BlockFilter.MatchAny` | src/blockfilter.cpp:196-199 | the same for the hashes of the queried elements, on any filter built or read |
| `BlockFilter.Match` | src/blockfilter.cpp:191-194 | the same for one element |
| `BlockFilter.BuiltMatches` | src/blockfilter.cpp:130-199 | of a built filter, true exactly when some queried element hashes like some element of it |
| `BlockFilter.AscendingReaches` | src/blockfilter.cpp:159-189 | when the stored values ascend, no common value is missed |
| `BlockFilter.MissedValue` | src/blockfilter.cpp:165-186 | a filter that ReadFilter accepts, of two differences that wrap, holding 5 and then 3: a query for 3 is answered with no |
| `BlockFilter.MeetsIsCollides` | src/blockfilter.cpp:159-199 | order and repetition of the hashes do not matter for the answer |
| `BlockFilter.MembersMatch` | src/blockfilter.h:70-81 | an element of the filter always matches |
| `CompactBlock.PrefilledInRange` | src/blockencodings.cpp:67-88 | the checks put every prefilled index within the block |
| `CompactBlock.SlotsApartExactly` | src/blockencodings.cpp:67-88 | each prefilled transaction has its own slot if and only if no index after the first is 2^32 - 1, which wraps |
| `CompactBlock.TwoInOneSlot` | src/blockencodings.cpp:67-88 | indices 0 and 2^32 - 1 are accepted, and the second transaction takes the place of the first |
| `CompactBlock.EnoughEmpty` | src/blockencodings.cpp:97-105 | enough slots stay empty for the short ids, so the search for the next never leaves the block |
| `CompactBlock.AnnounceDescribes` | src/blockencodings.cpp:21-32 | the announcement of a block describes it: coinbase in place, short ids in order |
| `CompactBlock.PartiallyDownloadedBlock.constructor` | src/blockencodings.h:219-229 | a new object has neither header nor slots |
| `CompactBlock.PartiallyDownloadedBlock.PutPrefilled` | src/blockencodings.cpp:67-89 | accepts exactly indices that fit 32 bits and leave no gap without short id, and fills those slots |
| `CompactBlock.PartiallyDownloadedBlock.NextEmpty` | src/blockencodings.cpp:101-103 | the next slot is empty and skips none that is |
| `CompactBlock.PartiallyDownloadedBlock.IndexSlots` | src/blockencodings.cpp:97-121 | the i-th short id leads to the i-th empty slot; the crowded-bucket refusal is exact |
| `CompactBlock.PartiallyDownloadedBlock.PutAvailable` | src/blockencodings.cpp:131-198 | each slot holds the transaction at hand with its short id that decides it, exactly by the order in which they were looked at, none when two different ones clash, and the count grows by the number of filled ones, in spite of the early exit |
| `CompactBlock.PartiallyDownloadedBlock.InitData` | src/blockencodings.cpp:51-207 | Invalid exactly for an unacceptable message, Failed exactly for a crowded bucket or repeated short ids; otherwise prefilled slots are as sent and every other slot is exactly what the transactions at hand, as far as they were looked at, decide; a scan that stops early has settled all short ids but as many as an earlier block left counted |
| `CompactBlock.PartiallyDownloadedBlock.FillBlock` | src/blockencodings.cpp:215-272 | the missing transactions go into the empty slots in order; too few or too many are Invalid; with too few the object stays open without the transactions it had already moved out, otherwise it cannot be used again |
| `CompactBlock.FirstMatch` | src/blockencodings.cpp:141-144 | a first match fills its slot |
| `CompactBlock.SecondMatch` | src/blockencodings.cpp:145-154 | a further match empties it, unless an extra one repeats what is there, and then it stays empty |
| `CompactBlock.SameMatch` | src/blockencodings.cpp:175-190 | an extra transaction that repeats what is there changes nothing |
| `CompactBlock.OtherKey` | src/blockencodings.cpp:135-154 | looking at a transaction changes neither the match nor the clash of any other short id |
| `CompactBlock.FilledSettled` | src/blockencodings.cpp:156-161 | the slots taken are those of the short ids with a match and no clash |
| `CompactBlock.AllSettled` | src/blockencodings.cpp:156-161 | a count that reaches their number from zero means that all have their transaction |
| `CompactBlock.FilledMore` | src/blockencodings.cpp:141-154 | the count follows every slot filled or emptied |
| `CompactBlock.KeysCard` | src/blockencodings.cpp:123-129 | the size comparison detects repeated short ids exactly |
| `CompactBlock.OutcomeFaithful` | src/blockencodings.cpp:131-198 | when no foreign transaction shares a short id with the block, every filled slot holds the block's own transaction |
| `CompactBlock.MergedBack` | src/blockencodings.cpp:222-233 | filling the gaps with the block's missing transactions gives the block |
| `CompactBlock.SendMissing` | src/net_processing.cpp:1750-1764 | what is sent for the empty slots are the block's transactions there, in order |
| `CompactBlock.Reconstruct` | src/blockencodings.cpp:21-272 | announcing, taking in, requesting and filling returns exactly the block or falls back; it never falls back when short ids are distinct and no bucket is crowded |
| `CompactBlock.WriteIndices` | src/blockencodings.h:69-73 | any indices are written as differences less one in 32 bits; they are the true differences if and only if the indices ascend strictly |
| `CompactBlock.ReadIndices` | src/blockencodings.h:43-67 | what is read ascends strictly within 32 bits and has those differences; refused exactly when that is impossible |
| `CompactBlock.IndicesRoundTrip` | src/blockencodings.h:38-75 | differences determine the indices |

## Left out

- Peer selection (`CAddrMan::Select_`, `GetChance`), a loop over random draws with floating-point chances that ends only with probability one.
- Of `CAddrMan::Check_`, the clauses about the times of entries and about a null key, which no operation relies on.
- Memory accounting, best-block hash and `SetBackend` of the coin caches, and the split of a database write into several batches.
- The rounding of fee rates in double precision: products of fees and sizes are compared exactly.
- `CreateNewBlock` around package selection: coinbase, canonical order, and the final validity check.
- The `CCheckQueueControl` wrapper and its second mutex.
- `FindEarliestAtLeast` and `GetBlockProofEquivalentTime`.
- Hexadecimal and floating-point forms of big numbers and their bitwise operators.
- Payload packing of cashaddr addresses (`src/cashaddrenc.cpp`) and the hash checksum of `Base58Check`.
- `CBloomFilter`, and how the size of the rolling filter follows from the false-positive rate.
- Filter types, filter headers and the CompactSize count in front of an encoded filter.
- Short-id hashing, header fields and message framing of compact blocks, and the count of transactions taken from the extra pool.
- AddrMan.AddrMan.SelectTriedCollision_: the random choice among recorded collisions is any of them.
- CheckQueue.Init: queues whose threads times batch size reach 2^32 are not modelled; the number of checks is not limited.
- MerkleTree.WidthMeaning: `1 << 31` is taken as the two's-complement value, and blocks of 2^32 transactions or more are not modelled.
- Miner.UpdatePackagesForAdded: sums do not wrap at 64 bits.
- Miner.BlockAssembler.TestPackageTransactions: the contextual check of a transaction is an arbitrary predicate.
- Chain.CChain.GetLocator: the step is an unbounded number; the source's signed step does not overflow for any height that fits it.
- Cuckoo.Cache.constructor: the depth limit is a parameter of at least one, as the logarithm in single precision gives, and `setup_bytes` is left out.
- Cuckoo.Cache.Find: flags change one operation at a time; relaxed atomic access by several readers is not modelled.
- Bloom.RollingBloomFilter.constructor: the numbers of hash functions and words are parameters.
- CompactBlock.PartiallyDownloadedBlock.IndexSlots: which hash buckets are crowded is an arbitrary predicate.
- CompactBlock.PartiallyDownloadedBlock.FillBlock: the outcome of the block check is a parameter.
