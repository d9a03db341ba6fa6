# Verified models of a Bitcoin and Zcash derived node

This project models the self-contained data structures and codecs of the node and proves what
their source states or relies on. Each component is a specification (values and functions), the
imperative form of the code (classes over maps, sequences and arrays, or methods with loops)
proved against it, and lemmas about the specification. Check everything with
`dafny verify dfyconfig.toml`.

## Components

- **Address manager** (`AddrManState`, `AddrManLemmas`, `AddrManOps`, `AddrManEffects`,
  `AddrMan`): four cross-linked indexes and two bucket tables. `Consistent` states every condition
  of the code's own `Check_` (error codes -1 to -19 but -16, which is about the key): counters,
  reference counts, both directions of the links between `mapInfo`, `mapAddr` and `vRandom`, and
  each occupied slot being the one its entry hashes to. `Partial` is the same half-way through an
  operation. `AddrManFile`, `AddrManReload`, `AddrManRoundTrip`, `AddrManRecover` and
  `AddrManStream` are about the file: a stored manager is rebuilt without a loss, and any file with
  different addresses is read into a consistent manager. `AddrManBuckets` says which slot every entry of a
  file gets, and `AddrManPolicy` what the rules of choice come to: the share of a group of addresses, who
  gives way to whom, which entries are bad, and that every selection can be handed out.
- **Check queue** (`CheckQueue`, `CheckQueueProtocol`): the shared fields and critical sections as
  an object, and a state machine over all interleavings of one master and any number of workers,
  with spurious wake-ups.
- **Coins cache** (`CoinsMap`, `CoinsShielded`, `CoinsStack`, `CoinsAnchors`, `CoinsCache`): stacks of write-back
  caches over a database refine stacks of flat maps of coins, anchors and nullifiers. A layer is
  changed or flushed only at the top of the stack, and pruned coins count as absent. A modification
  of a record that is found pruned refines the flat map exactly if its visible result does not depend
  on what is left of that record; spending never does, two other callers can. Best hashes are a
  separate part (`BestHash`), with the exact condition under which a flush keeps them, and
  `CoinsAnchors` runs them together with the anchors.
- **Cuckoo cache** (`PackedBits`, `CuckooFlags`, `CuckooState`, `CuckooChain`, `CuckooCache`): the sequential
  behaviour of insertion, displacement, epochs and erasure; `CuckooChain` says whom an insertion moves and
  whom it loses. Inserted elements differ from the
  default-constructed one. The code throws out the element of `locs[1]` first; the comment above it
  (src/cuckoocache.h:416-429) speaks of the first location. The model follows the code.
- **256-bit arithmetic** (`Powers`, `ArithLimbs`, `ArithSteps`, `CompactTarget`, `ArithUint256`):
  eight 32-bit limbs changed in place, and the compact target format. In-place `x *= x` clears its
  own operand; the contract of multiplication says so.
- **cJSON** (`JsonText`, `JsonParse`, `JsonRoundTrip`, `JsonUnicode`, `JsonStrings`, `JsonGrammar`,
  `JsonParser`, `JsonPrinter`): printing and parsing of null, booleans, strings, arrays and objects, and the
  grammar of exactly the texts that are accepted. White space is every byte up to 32, control bytes may stand in a
  string, a \u whose four bytes are not all digits stands for a zero byte, and a string ends at its first
  zero byte: the grammar follows the code in this.
- **Bech32** (`Bech32Poly`, `Bech32Codec`, `Bech32Field`, `Bech32Distance`,
  `Bech32`), the format of BIP 173 and its detection of errors, and **Base58**
  (`Positional`, `Base58Codec`, `Base58`).
- **Block index and chain** (`BlockSkips`, `BlockChain`): skip links, ancestors, locators and forks. A comment
  (src/chain.cpp:67) calls the walk over skip links O(log n); the bound proved is quadratic in the logarithm.
- **Coins records** (`Octets`, `VarInts`, `AmountWrap`, `ScriptCodec`, `CoinsCodec`, `CoinsFormat`,
  `CoinsStream`):
  variable-length integers of fixed widths, amount and script compression, and the spentness mask.
  Negative integers, amounts whose compressed form is cut to 64 bits and overly long scripts do not
  survive; exactly which coins do is stated. The table at src/serialize.h:353 gives three bytes for 16511;
  the code writes two (`CoinsFormat.ThreeDigits`).
- **Bloom filters** (`PackedBits`, `BloomState`, `BloomFilters`).

Hashes, address groups, routability, memory usage, Merkle roots and the elliptic curve are
uninterpreted functions; clocks and random numbers are parameters, arbitrary in their ranges.
`Sets`, `MapSums`, `Powers` and `Octets` hold auxiliary facts.

## Model

| member | source | states |
|---|---|---|
| AddrManOps.RunConsistent | src/addrman.cpp:95-534 | after every run of adding, marking good, attempting, connecting and asking for addresses from an empty manager, with any hashes, random numbers and clock readings and positive timestamps, all conditions of the consistency check hold |
| AddrManOps.StepKeeps | src/addrman.cpp:217-351 | each public operation keeps the whole consistency |
| AddrManOps.AddKeeps | src/addrman.cpp:266-332 | adding an address, known or not, inserted or dropped, keeps the consistency |
| AddrManOps.AddKnown | src/addrman.cpp:275-302 | updating a known address and perhaps giving it one more reference keeps the consistency and the reference limit |
| AddrManOps.CreateKeeps | src/addrman.cpp:108-118 | a created entry gets a fresh id and is the only entry without a slot |
| AddrManOps.PlaceKeeps | src/addrman.cpp:310-330 | inserting into, or giving up, the slot of a source makes a half-placed manager consistent again |
| AddrManOps.GoodKeeps | src/addrman.cpp:217-264 | marking an address good keeps the consistency |
| AddrManOps.MakeTriedKeeps | src/addrman.cpp:169-215 | moving an entry to the tried table, evicting the occupant back to the new table, keeps the consistency |
| AddrManOps.EvictKeeps | src/addrman.cpp:187-210 | eviction frees the tried slot, keeps the half-way consistency and spares the entry being moved |
| AddrManOps.AttemptKeeps | src/addrman.cpp:334-351 | recording an attempt keeps the consistency |
| AddrManOps.ConnectedKeeps | src/addrman.cpp:516-534 | refreshing the time of a connected address keeps the consistency |
| AddrManOps.GetAddrKeeps | src/addrman.cpp:495-514 | the sampling loop permutes vRandom, keeps the consistency, and its sample is what the first positions of vRandom give |
| AddrManOps.GetAddrReturns | src/addrman.cpp:495-514 | the sample has no duplicates, only known entries that are not terrible, no more than the limit, and all of them when it is shorter than the limit |
| AddrManLemmas.SwapKeeps | src/addrman.cpp:120-138 | swapping two positions keeps vRandom and nRandomPos inverse and the entries the same |
| AddrManLemmas.DeleteKeeps | src/addrman.cpp:140-152 | deleting an entry without references loses exactly that entry and its address and keeps the consistency |
| AddrManLemmas.ClearNewKeeps | src/addrman.cpp:154-167 | clearing a new slot keeps the consistency, takes one reference off the occupant and deletes it with the last one |
| AddrManLemmas.ClearNewSpares | src/addrman.cpp:154-167 | clearing a slot never deletes an entry that has no references yet |
| AddrManLemmas.LeaveNewKeeps | src/addrman.cpp:171-181 | taking an entry out of every new bucket leaves its reference count at zero: the assertion there holds |
| AddrManEffects.SizeIsSum | src/addrman.cpp:423-424 | the size of vRandom is nTried plus nNew |
| AddrManEffects.TriedSlotsCounted | src/addrman.cpp:452-469 | nTried is the number of occupied tried slots |
| AddrManEffects.ClearNewEffect | src/addrman.cpp:154-167 | exactly one new slot is emptied, the tried table is untouched, and only the occupant loses a reference |
| AddrManEffects.PlaceEffect | src/addrman.cpp:310-330 | an addition writes at most one new slot; who is inserted, who is dropped and who loses a reference is determined, everybody else stays |
| AddrManEffects.MakeTriedEffect | src/addrman.cpp:169-215 | the entry is in its tried slot without references, the previous occupant is a new entry with one reference in its source's slot, and at most one further entry loses one reference |
| AddrManEffects.EvictEffect | src/addrman.cpp:187-210 | what eviction does to the two tables and to every other entry |
| AddrManEffects.NewcomerEffect | src/addrman.cpp:303-330 | a newcomer is entered with what was told about it and one reference in its source's slot, or not at all; every other entry and slot stays, but for one reference of the slot's previous occupant |
| AddrManEffects.TimeForward | src/addrman.cpp:276-283 | a report about a known address never sets its time back, nor beyond the reported time |
| AddrManEffects.GoodEffect | src/addrman.cpp:217-264 | a known address that was marked good is a tried entry in its own slot with a fresh success and no attempts, its time unchanged |
| AddrManPolicy.GroupBuckets | src/addrman.cpp:27-46 | an address can be in one of eight tried buckets selected by its group and in one of 64 new buckets selected by its source's group, at one of 64 positions |
| AddrManPolicy.TriedShare | src/addrman.h:127-145 | in every consistent state a group of addresses has at most 512 tried entries, one in 32 of the table |
| AddrManPolicy.SourceShare | src/addrman.h:127-145 | what is added on the word of one group of sources changes only the slots of 64 new buckets, 4096 of 65536 slots |
| AddrManPolicy.KnownEffect | src/addrman.cpp:275-332 | a report about a known address refreshes its record, and gives it the slot of the reporting source exactly if it is news, a further reference is drawn, and the slot is free or holds a bad entry; every other entry and slot stays but for that occupant |
| AddrManPolicy.NewcomerExact | src/addrman.cpp:303-332 | a newcomer is entered exactly if the slot of its source is free, or its occupant is bad or has another slot; all fields of its record are stated |
| AddrManPolicy.RefreshedExact | src/addrman.cpp:276-286 | when and to what the time of a known entry moves; services are joined, the rest of the record stays |
| AddrManPolicy.ReferenceChance | src/addrman.cpp:288-302 | a further reference needs news about an entry that is not tried and has fewer than eight; with n references exactly one of every 2^n consecutive random numbers grants it |
| AddrManPolicy.TerribleExact | src/addrman.cpp:56-74 | exactly when an entry is not bad, in seconds and counts |
| AddrManPolicy.TerribleStays | src/addrman.cpp:56-74 | an entry that is bad stays bad as time goes on, unless its time was in the future |
| AddrManPolicy.AttemptsCounted | src/addrman.cpp:334-351 | a series of attempts is counted in exactly the entry of the address and port, with the time of the last one; nothing else changes |
| AddrManPolicy.GivenUp | src/addrman.cpp:334-351 | after three attempts an entry without a success is bad a minute later; after ten, one whose last success is a week old |
| AddrManPolicy.ConnectedEffect | src/addrman.cpp:516-534 | the time of a connected entry moves to the given one exactly when it is more than 20 minutes behind, and nothing else changes |
| AddrManPolicy.LimitExact | src/addrman.cpp:497-499 | the sample is limited to 23 in a hundred of the entries and to 2500 |
| AddrManPolicy.AnySample | src/addrman.cpp:495-514 | every sequence of distinct entries that are not bad, as many as the limit, is handed out for some random numbers |
| AddrMan.Manager.constructor | src/addrman.h:266-286 | a manager starts empty: every cell of both tables is free |
| AddrMan.Manager.Clear | src/addrman.h:266-286 | the loops over the tables leave the empty manager, whatever was there |
| AddrMan.Manager.SwapRandom | src/addrman.cpp:120-138 | the fields are changed as the specification says; the assertions about the indexes hold |
| AddrMan.Manager.Delete | src/addrman.cpp:140-152 | the in-place deletion is the specified one |
| AddrMan.Manager.ClearNew | src/addrman.cpp:154-167 | the in-place clearing is the specified one; the occupant has a reference to lose |
| AddrMan.Manager.LeaveBuckets | src/addrman.cpp:171-178 | the loop over the buckets removes every slot of the entry and counts each one |
| AddrMan.Manager.EvictFrom | src/addrman.cpp:187-210 | after making space the tried slot is free: the assertion there holds |
| AddrMan.Manager.MakeTried | src/addrman.cpp:169-215 | the in-place move to the tried table is the specified one; all its assertions hold |
| AddrMan.Manager.Find | src/addrman.cpp:95-106 | finds the id of exactly the known address and port |
| AddrMan.Manager.FindBucket | src/addrman.cpp:243-258 | the search from a random bucket always finds a bucket that holds the entry, so the bail-out is unreachable |
| AddrMan.Manager.Good | src/addrman.cpp:217-264 | the in-place operation is the specified one and keeps the manager consistent |
| AddrMan.Manager.Create | src/addrman.cpp:108-118 | the new entry is entered into all indexes under the next id |
| AddrMan.Manager.Refresh | src/addrman.cpp:275-302 | the update of a known entry, and whether it gets another reference: one chance in 2 to the number it has |
| AddrMan.Manager.Insert | src/addrman.cpp:321-324 | the slot is cleared for the entry, which survives it and gains one reference |
| AddrMan.Manager.Place | src/addrman.cpp:310-330 | an entry is inserted into its source's slot, or dropped when it has no slot at all |
| AddrMan.Manager.Add | src/addrman.cpp:266-332 | the in-place operation is the specified one, keeps the manager consistent, and reports a newcomer |
| AddrMan.Manager.Attempt | src/addrman.cpp:334-351 | the in-place operation is the specified one and keeps the manager consistent |
| AddrMan.Manager.Connected | src/addrman.cpp:516-534 | the in-place operation is the specified one and keeps the manager consistent |
| AddrMan.Manager.GetAddr | src/addrman.cpp:495-514 | the in-place sampling is the specified one; the addresses returned are copies of the sampled entries |
| AddrManRoundTrip.ReloadKeeps | src/addrman.h:349-527 | reading back what a consistent manager wrote, under the same key and map: nothing is refused; the result is consistent, has the same counters, every entry under a new id with all its fields but nLastTry, nRefCount and nRandomPos and nothing else besides, the same tried table, and each new entry in exactly one slot that it had |
| AddrManRoundTrip.SerializeIsFile | src/addrman.h:349-404 | what is written: the numbers of records are the counters (the two assertions), within the limits the reader checks |
| AddrManRoundTrip.WrittenEntered | src/addrman.h:434-463 | no tried record that was written collides, so all records are entered and linked |
| AddrManRoundTrip.WrittenPlaced | src/addrman.h:465-509 | the stored buckets give every new entry a free slot it had before |
| AddrManReload.PickedCounts | src/addrman.h:363-382 | the entries with references are the nNew new ones, and the tried ones are nTried |
| AddrManReload.AllNoted | src/addrman.h:383-396 | every new entry is named in some stored bucket |
| AddrManReload.CountsFit | src/addrman.h:426-432 | the counters never exceed the sizes of the tables |
| AddrManRecover.ReadConsistent | src/addrman.h:406-527 | any accepted file with counts that are not negative, different addresses and sound stamps is read into a consistent manager, whatever its buckets, version and key |
| AddrManRecover.RebucketKeeps | src/addrman.h:312-313 | a stored manager, read under another map of autonomous systems or any other placement, is consistent |
| AddrManBuckets.Rebucketed | src/addrman.h:489-509 | if the file's version is not 2, or its bucket count or its map's version differs, every occupied new slot is that of its entry's source, and the slot of a record's source is held by the first record that has it |
| AddrManBuckets.StoredSlotKept | src/addrman.h:465-509 | if all three agree, an entry is in the slot of the last bucket stored for it unless an entry before it is there, and then the slot of its source is its own or an earlier one's; it has no other slot |
| AddrManBuckets.ReadTable | src/addrman.h:465-509 | the whole new table after a file was read: who is where, and that nobody is twice |
| AddrManBuckets.LastBucket | src/addrman.h:465-478 | a number is noted exactly if it is valid and listed in some bucket, with the last bucket that lists it |
| AddrManBuckets.FlipsBit30 | src/addrman.h:332-334 | the stored bucket count differs from the real one in bit 30 and in nothing else |
| AddrManBuckets.WrittenUsable | src/addrman.h:351-404 | the buckets of a written file are used exactly under a map of the same version; a reader that does not know about bit 30 sees more than 2^30 buckets |
| AddrManRecover.TriedSlotsTaken | src/addrman.h:446-463 | the slot of every tried record is held by the first record that has it: a tried record is lost exactly to an earlier one with the same slot |
| AddrManRecover.UnplacedCollides | src/addrman.h:489-509 | a new entry goes without a slot only if the slot of its source is taken |
| AddrManStream.WriteNews | src/addrman.h:363-373 | the loop over mapInfo writes the records of the new entries and numbers them; the assertion about nNew holds |
| AddrManStream.WriteTrieds | src/addrman.h:374-382 | the loop writes the tried records; the assertion about nTried holds |
| AddrManStream.WriteBucket | src/addrman.h:383-396 | the stored size of a bucket is the number of its entries, and their numbers are written in order |
| AddrManStream.Serialize | src/addrman.h:349-404 | the loops write the file of the manager |
| AddrManStream.ReadNews | src/addrman.h:434-442 | the first loop enters the new records under ascending ids |
| AddrManStream.ReadTrieds | src/addrman.h:444-463 | the second loop enters tried records into free slots and takes the lost ones off the counter |
| AddrManStream.ReadBucket | src/addrman.h:468-478 | the last bucket of every valid number is noted |
| AddrManStream.PlaceRecord | src/addrman.h:489-509 | an entry gets its stored slot, or else that of its source, or none |
| AddrManStream.PruneRecords | src/addrman.h:511-521 | the last loop deletes exactly the new entries without a slot, without breaking the links it relies on |
| AddrManStream.Unserialize | src/addrman.h:406-527 | the method accepts a file exactly if the specified reading does, and then leaves the specified manager; a refused header leaves an empty one with the counts of the file |
| AddrManStream.RefusedConsistent | src/addrman.h:411-432 | after a refused header the manager is consistent exactly if the size of the key was wrong or both counts are zero |
| CheckQueueProtocol.WaitIsExact | src/checkqueue.h:84-161 | in every interleaving the master's wait returns true exactly when every check added since the previous one evaluates to true |
| CheckQueueProtocol.TodoIsExact | src/checkqueue.h:92-135 | in every reachable state nTodo counts the queued checks and those in unfinished batches, nTotal and nIdle count the threads inside and asleep, and no check is lost or duplicated |
| CheckQueueProtocol.SleepingMasterIsAttended | src/checkqueue.h:97-119 | while the master sleeps unnotified, some worker holds an unfinished batch and can take a step |
| CheckQueueProtocol.RunKeeps | src/checkqueue.h:84-174 | every state of every run satisfies the invariant |
| CheckQueueProtocol.StepKeeps | src/checkqueue.h:84-174 | every atomic step of every thread keeps the invariant |
| CheckQueueProtocol.ReturnIsExact | src/checkqueue.h:107-116 | the value returned from any state that satisfies the invariant is exact |
| CheckQueueProtocol.TakenFits | src/checkqueue.h:121-134 | a critical section takes at least one check and no more than are queued or the batch size allows |
| CheckQueue.BatchFits | src/checkqueue.h:121-126 | the computed batch size is between one and the queue's size, and at most the maximal batch size if that is positive |
| CheckQueue.BatchExact | src/checkqueue.h:121-126 | the batch size is the largest n within the maximal one such that n times the threads, the idle ones counted twice, plus one fits into the queue; or one |
| CheckQueue.PoppedConserves | src/checkqueue.h:127-132 | popping a batch loses no check and invents none |
| CheckQueue.Queue.Add | src/checkqueue.h:164-174 | the checks are appended and counted; one or all waiting workers are to be notified |
| CheckQueue.Queue.Settle | src/checkqueue.h:94-105 | the clean-up of a batch, or the registration of a new thread, and when the master is notified |
| CheckQueue.Queue.Proceed | src/checkqueue.h:106-134 | a thread leaves, sleeps or takes a batch exactly as decided on the shared fields |
| CheckQueue.Queue.Enter | src/checkqueue.h:92-135 | a whole critical section of a thread that takes the lock |
| CheckQueue.Queue.Resume | src/checkqueue.h:117-135 | a whole critical section of a thread that was woken up |
| CheckQueue.Queue.PopBatch | src/checkqueue.h:127-132 | the loop moves the back of the queue into the batch |
| CheckQueue.Evaluate | src/checkqueue.h:136-141 | the result of a batch is true exactly if the queue was all right before and every check passes |
| CoinsStack.RunRefines | src/coins.cpp:121-558 | a run of reads, modifications, anchors, nullifiers, new caches, discards and flushes on a stack of caches shows at every level what the same run does to a stack of flat maps; of a modification it asks only that, where the record found is pruned, the visible result is the one for an absent record |
| CoinsStack.StepRefines | src/coins.cpp:121-558 | each operation keeps the stack valid and refines the operation on flat maps, under the same condition |
| CoinsStack.ModifyExact | src/coins.cpp:362-381 | the condition on a modification is exact: the stack shows what the flat map has if and only if it holds; the stack stays valid in any case |
| CoinsStack.SpendReadsAbsent | src/main.cpp:2741-2748 | spending an output meets the condition in every state, on every record |
| CoinsStack.SpendSeen | src/coins.cpp:57-64 | after spending, exactly that output is gone from the visible record, and the record goes with its last output |
| CoinsStack.PutBackReadsAbsent | src/main.cpp:3042-3067 | putting an output back without a height meets the condition exactly if the record is not pruned, nothing is put back, or nothing is left of the record |
| CoinsStack.TombstoneReadsAbsent | src/importcoin.cpp:459-465 | an import tombstone meets the condition exactly if the record is not pruned or was no coinbase |
| CoinsStack.PrunedRecordShows | src/coins.cpp:724-736 | a reached state in which it fails: after the only output of a coinbase was spent, undoing without a height or adding a tombstone shows the old record's metadata again |
| CoinsMap.FetchKeeps | src/coins.cpp:121-138 | fetching changes nothing that can be seen at any level and keeps every entry's flags right |
| CoinsMap.ModifyRefines | src/coins.cpp:362-381 | a modification changes exactly one record of the flat map, cleaned up, and nothing below |
| CoinsMap.MergeAllowed | src/coins.cpp:504-511 | the assertion that an entry unknown to the parent is fresh never fires |
| CoinsMap.FlushRefines | src/coins.cpp:493-558 | flushing leaves every visible record as it was, at the cache and at its base, and keeps both valid |
| AnchorsMap.FetchKeeps | src/coins.cpp:140-184 | looking up an anchor returns the tree of its root and changes nothing that can be seen |
| AnchorsMap.PushRefines | src/coins.cpp:212-243 | pushing a tree makes exactly its anchor visible |
| AnchorsMap.PopRefines | src/coins.cpp:284-313 | popping hides exactly the current best anchor, and changes nothing that the base shows |
| AnchorsMap.FlushRefines | src/coins.cpp:461-491 | after a flush cache and base show the same anchors, and an anchor is seen as before exactly if the database is not asked to forget an empty root |
| AnchorsMap.FlushCanForget | src/coins.cpp:461-491 | a reached stack in which the exception happens: a popped empty root is seen again after the flush |
| NullifiersMap.FetchKeeps | src/coins.cpp:186-209 | looking up a nullifier changes nothing that can be seen |
| NullifiersMap.SetRefines | src/coins.cpp:338-351 | setting a nullifier changes exactly that one |
| NullifiersMap.FlushRefines | src/coins.cpp:438-459 | flushing keeps the set of spent nullifiers at the cache and hands it to the base |
| BestHash.FetchKeeps | src/coins.cpp:401-432 | reading the best block or anchor fills in the hash and changes no answer |
| BestHash.FlushRefines | src/coins.cpp:543-550 | the best hash survives a flush exactly if the cache has read or set it, or the base has none of its own to lose |
| BestHash.FlushAfterFetch | src/coins.cpp:543-550 | reading the hash before flushing makes the flush keep it |
| BestHash.FlushCanForget | src/coins.cpp:543-550 | a concrete stack whose best hash is lost by a flush of a hash that was never read |
| CoinsAnchors.BestAnchorVisible | src/coins.cpp:212-336 | in every run of new caches, reads, pushes, pops and flushes that lose no hash, each pool's best anchor is an anchor that is seen, so the assertion in a pop holds; and exactly the roots pushed and not popped are seen |
| CoinsAnchors.StepShows | src/coins.cpp:212-336 | each operation keeps what every level shows in step with the history of its roots |
| CoinsAnchors.PopShows | src/coins.cpp:266-313 | a pop finds the current best anchor, and afterwards the root before it is the best one and is seen |
| CoinsAnchors.FlushShows | src/coins.cpp:461-491 | with histories that begin with the empty root no anchor is forgotten in a flush, so cache and base show the same history |
| CoinsAnchors.OldRootHides | src/coins.cpp:284-313 | why a pushed root has to be new: pushing the empty root again and undoing both pushes hides the best anchor |
| CoinsCache.Cache.FetchCoins | src/coins.cpp:121-138 | the in-place fetch is the specified one and keeps the usage counter the exact sum of what is cached |
| CoinsCache.Cache.GetCoins | src/coins.cpp:353-360 | returns the record the view shows |
| CoinsCache.Cache.GetAnchorAt | src/coins.cpp:140-184 | finds an anchor exactly if the view has it, with its tree |
| CoinsCache.Cache.GetNullifier | src/coins.cpp:186-209 | tells whether the view has the nullifier, and caches the answer |
| CoinsCache.Cache.GetBestBlock | src/coins.cpp:401-414 | returns and keeps the best block of the stack |
| CoinsCache.Cache.GetBestAnchor | src/coins.cpp:417-432 | returns and keeps the best anchor of the pool, and leaves the other pool's alone |
| CoinsCache.Cache.EndModification | src/coins.cpp:724-736 | the end of a modification cleans up, forgets a fresh pruned entry and brings the usage counter back to the exact sum, without going below zero |
| CoinsCache.Cache.ModifyCoins | src/coins.cpp:362-381 | modification from start to end is the specified one with an exact usage counter |
| CoinsCache.Cache.SetNullifier | src/coins.cpp:338-351 | the in-place operation is the specified one |
| CoinsCache.Cache.PushAnchor | src/coins.cpp:212-263 | an anchor is entered and becomes the best one, unless it is the best one already |
| CoinsCache.Cache.PopAnchor | src/coins.cpp:266-336 | the current best anchor is brought into the cache and marked as removed, and the given root becomes the best one |
| CoinsCache.Cache.TakeOver | src/coins.cpp:502-532 | one entry of a child's map is merged in place as specified, the usage counter staying exact |
| CoinsCache.Cache.BatchWriteCoins | src/coins.cpp:502-533 | the erasing loop merges the whole child map |
| CoinsCache.Cache.BatchWriteAnchors | src/coins.cpp:461-491 | the loop merges the child's anchors with an exact usage counter |
| CoinsCache.Cache.BatchWriteNullifiers | src/coins.cpp:438-459 | the loop merges the child's nullifiers |
| CoinsCache.Cache.BatchWrite | src/coins.cpp:493-547 | a child's maps and hashes are written into the cache as specified; the assertion about fresh entries holds for every child that is valid over the cache |
| CoinsCache.Cache.Flush | src/coins.cpp:549-558 | everything is handed down and forgotten except the hashes, and the usage counter is zero |
| CuckooState.RunValid | src/cuckoocache.h:340-477 | in every run from a set-up cache the elements are at their own locations without duplicates, the epoch stays bounded, and only inserted elements are live |
| CuckooState.InsertEffect | src/cuckoocache.h:392-440 | the live elements after an insertion are those the epoch check left and the new one, less at most one element, and none if a location was free or the element was there |
| CuckooState.KickEffect | src/cuckoocache.h:406-439 | whatever the hashes and the depth limit, elements thrown out find a place again with their epochs, except at most one; none is lost if the element has room |
| CuckooChain.NextLocFollows | src/cuckoocache.h:416-430 | the location an element is thrown out of is the one after the location looked at last, round from the eighth to the first, or the second if that was none of the eight; it is never the one just filled when the eight differ |
| CuckooChain.ChainPlaced | src/cuckoocache.h:406-439 | if the last element of a chain of displacements shorter than the depth limit has room, it gets its first free slot, every other one is in the slot of the one it threw out, with its epoch, and nobody is lost |
| CuckooChain.ChainLost | src/cuckoocache.h:406-439 | if the chain is as long as the depth limit, exactly its last element is lost |
| CuckooChain.ChainExists | src/cuckoocache.h:406-439 | every insertion follows such a chain |
| CuckooChain.ApartChain | src/cuckoocache.h:406-439 | slots that follow each other, differ and are full make a chain with their occupants, who end up one slot further |
| CuckooChain.SecondMakesRoom | src/cuckoocache.h:406-439 | if the occupant of the second location has room and the depth limit is two at least, the new element is at that location and nobody is lost |
| CuckooChain.InsertExact | src/cuckoocache.h:380-440 | whom an insertion of a new element loses: nobody if its chain ends with room before the depth limit, else exactly the last of the chain |
| CuckooState.LocationsExact | src/cuckoocache.h:210-253 | the k-th location is the k-th hash as a fraction of 2^32 times the size, rounded down |
| CuckooState.NextScan | src/cuckoocache.h:289-321 | exactly after how many insertions the next scan comes |
| CuckooState.SetupEpoch | src/cuckoocache.h:340-353 | size, epoch size of 45 hundredths and first scan of a set-up cache; for which sizes the 32-bit product fits |
| CuckooState.EpochCheckEffect | src/cuckoocache.h:289-321 | the check drops exactly the old epoch when the current one is full, and afterwards live current entries plus the counter leave room for one more within epoch_size + max(1, epoch_size/16) |
| CuckooState.AgedEffect | src/cuckoocache.h:305-311 | starting a new epoch leaves exactly the elements of the current one, as old ones |
| CuckooState.ContainsEffect | src/cuckoocache.h:467-477 | an element is found exactly if it is in the table, and erasing removes exactly it from the live ones |
| CuckooState.SetupValid | src/cuckoocache.h:340-353 | a set-up cache is valid and empty |
| CuckooState.StepValid | src/cuckoocache.h:392-477 | every operation keeps the cache valid |
| CuckooState.Locations | src/cuckoocache.h:243-253 | the eight locations lie inside the table for every hash |
| CuckooFlags.BitFlags.constructor | src/cuckoocache.h:61-68 | all flags are set, and there are enough of them |
| CuckooFlags.BitFlags.Setup | src/cuckoocache.h:79-83 | fresh flags, all set |
| CuckooFlags.BitFlags.Set | src/cuckoocache.h:92-95 | sets exactly one packed flag |
| CuckooFlags.BitFlags.Unset | src/cuckoocache.h:103-106 | clears exactly one packed flag |
| CuckooCache.Cache.Setup | src/cuckoocache.h:340-353 | the in-place set-up is the specified one |
| CuckooCache.Cache.CountCurrent | src/cuckoocache.h:295-300 | the loop counts the live entries of the current epoch |
| CuckooCache.Cache.Age | src/cuckoocache.h:305-311 | the loop over the flags starts a new epoch as specified |
| CuckooCache.Cache.EpochCheck | src/cuckoocache.h:289-321 | the in-place check is the specified one |
| CuckooCache.Cache.Displace | src/cuckoocache.h:406-439 | the loop of swaps is the specified chain of displacements |
| CuckooCache.Cache.Insert | src/cuckoocache.h:392-440 | the in-place insertion is the specified one, about which InsertExact is proved, and loses at most one element |
| CuckooCache.Cache.Contains | src/cuckoocache.h:467-477 | the lookup is exact, and with erasing the live elements lose exactly the element |
| ArithUint256.BaseUint.AddAssign | src/arith_uint256.h:150-160 | the sum modulo 2^256, also when both operands are the same object |
| ArithUint256.BaseUint.SubAssign | src/arith_uint256.h:162-166 | the difference modulo 2^256 |
| ArithUint256.BaseUint.Negated | src/arith_uint256.h:92-99 | the complement plus one is the negation modulo 2^256 |
| ArithUint256.BaseUint.Increment | src/arith_uint256.h:188-195 | the successor modulo 2^256 |
| ArithUint256.BaseUint.Decrement | src/arith_uint256.h:205-212 | the predecessor modulo 2^256 |
| ArithUint256.BaseUint.MulAssignWord | src/arith_uint256.cpp:71-81 | the product with a word modulo 2^256 |
| ArithUint256.BaseUint.MulAssign | src/arith_uint256.cpp:83-97 | the product modulo 2^256 for another operand; multiplying a number by itself in place gives zero, since the operand is cleared first |
| ArithUint256.BaseUint.ShiftLeft | src/arith_uint256.cpp:37-52 | multiplication by a power of two modulo 2^256, for every shift |
| ArithUint256.BaseUint.ShiftRight | src/arith_uint256.cpp:54-69 | division by a power of two, for every shift |
| ArithUint256.BaseUint.Bits | src/arith_uint256.cpp:187-200 | the position of the highest bit plus one |
| ArithUint256.BaseUint.CompareTo | src/arith_uint256.cpp:125-135 | the sign of the comparison of the two numbers |
| ArithUint256.BaseUint.EqualTo | src/arith_uint256.cpp:137-149 | equality with a 64-bit number |
| ArithUint256.BaseUint.IsZero | src/arith_uint256.h:76-82 | whether the number is zero |
| ArithUint256.BaseUint.GetLow64 | src/arith_uint256.h:260-264 | the number modulo 2^64 |
| ArithUint256.BaseUint.DivAssign | src/arith_uint256.cpp:99-122 | long division is exact: the quotient times the divisor plus a remainder below the divisor is the dividend; division by zero is an error |
| ArithSteps.DividingStep | src/arith_uint256.cpp:112-120 | one turn of the division keeps the quotient so far, the remainder and the shifted divisor in their relation |
| ArithSteps.Aligned | src/arith_uint256.cpp:106-112 | aligning the divisor by the difference of the bit lengths loses no bit and brings it within a factor of two |
| ArithSteps.HighestBit | src/arith_uint256.cpp:187-200 | the highest bit of the highest limb that is not zero is the highest bit of the number |
| ArithSteps.ShiftLeftStep | src/arith_uint256.cpp:44-50 | what one limb's two writes contribute to a left shift, and what falls off |
| ArithSteps.ShiftRightStep | src/arith_uint256.cpp:61-67 | one limb's two writes keep the number a quotient of what was read so far |
| ArithSteps.MulRow | src/arith_uint256.cpp:87-95 | a row of limb products adds one limb's product to the total, up to what falls off |
| ArithUint256.BaseUint.SetCompact | src/arith_uint256.cpp:220-238 | the value read from a compact word, its sign flag, and the overflow flag |
| ArithUint256.BaseUint.GetCompact | src/arith_uint256.cpp:240-261 | the word computed from the limbs is the one of the specification |
| CompactTarget.OverflowExact | src/arith_uint256.cpp:232-236 | the overflow flag is raised exactly when the value reaches 2^256 |
| CompactTarget.WrittenWord | src/arith_uint256.cpp:240-261 | a written word reads back as the number cut to a multiple of its unit, with the sign asked for |
| CompactTarget.MagnitudeExact | src/arith_uint256.h:275-293 | a word stands for mantissa * 256^(exponent - 3), rounded down |
| CompactTarget.Examples | src/arith_uint256.h:285-288 | the documented examples, read and written, and a negative word |
| CompactTarget.KeptPrecise | src/arith_uint256.cpp:220-261 | writing and reading raises no flag but the sign asked for, never increases a number, and loses less than one part in 2^15 |
| CompactTarget.KeptMonotone | src/arith_uint256.cpp:220-261 | writing and reading is monotone |
| CompactTarget.KeptIdempotent | src/arith_uint256.cpp:220-261 | writing and reading twice is the same as once, and gives the same word |
| CompactTarget.ReadValueKept | src/arith_uint256.cpp:220-261 | a value read from a word without overflow is kept exactly |
| CompactTarget.WordReturns | src/arith_uint256.cpp:220-261 | a word is written again after it was read exactly if it is zero or in normal form |
| JsonRoundTrip.RoundTrip | src/cJSON.c:1162-1672 | a printed tree, formatted or not, is parsed as itself exactly if it is nested no deeper than the limit, and refused otherwise |
| JsonRoundTrip.ValueTrip | src/cJSON.c:1162-1640 | a value's text inside a longer text is parsed as that value, its end included, unless the nesting limit is exceeded |
| JsonRoundTrip.StringTrip | src/cJSON.c:666-914 | a printed string is parsed as itself |
| JsonRoundTrip.EscapedTrip | src/cJSON.c:679-770 | the first pass finds the end of an escaped string and the second one takes its escapes out |
| JsonUnicode.LiteralExact | src/cJSON.c:545-606 | an escape is decoded exactly to the code point that it is the text of, one literal or a surrogate pair with digits in either case, or to zero if four bytes behind \u are not all digits; lone surrogates are refused |
| JsonUnicode.EitherCase | src/cJSON.c:508-541 | four hexadecimal digits are read as the same number in either case |
| JsonUnicode.Hex4Exact | src/cJSON.c:508-541 | four bytes are read as the number whose digits they are, or as zero if one is no digit |
| JsonStrings.ParseStringExact | src/cJSON.c:666-792 | a string is parsed exactly from a literal whose escapes spell it: which bytes end it, every escape, and the cut at a zero byte |
| JsonStrings.EscapeShortest | src/cJSON.c:795-914 | a byte is printed as itself, or by the shortest of its escapes if it is a control byte, a quote or a backslash |
| JsonGrammar.ParseExact | src/cJSON.c:952-1036 | a text is parsed as a value exactly if it is a text of that value in the grammar of JSON without numbers, between white space, nested within the limit and, if required, with nothing behind |
| JsonGrammar.SoundValue | src/cJSON.c:1162-1215 | whatever is parsed has the grammatical form of the value |
| JsonGrammar.CompleteValue | src/cJSON.c:1162-1215 | whatever has the form is parsed as the value, with its exact end, unless it is nested too deeply |
| JsonGrammar.Layout | src/cJSON.c:1561-1672 | an example of both layouts: line breaks, tabs by depth, commas and spaces |
| JsonUnicode.Utf8Trip | src/cJSON.c:608-659 | the bytes written for a code point are its shortest UTF-8 form |
| JsonText.TextNulFree | src/cJSON.c:795-914 | printed text contains no zero byte, so that finding its end by the terminator is right |
| JsonParser.ParseHex4 | src/cJSON.c:508-541 | the value of four hexadecimal digits, or zero |
| JsonParser.ParseBuffer.SkipWhitespace | src/cJSON.c:931-949 | the offset of the next byte that is not white space |
| JsonParser.ParseBuffer.ScanString | src/cJSON.c:679-701 | the first pass finds the closing quote, if there is one, and counts the escapes |
| JsonParser.RoomFits | src/cJSON.c:703-705 | what has been written leaves room in the computed buffer for what is still to be written |
| JsonParser.ParseBuffer.Utf16LiteralToUtf8 | src/cJSON.c:545-663 | a literal is decoded into the bytes of its code point, last byte first |
| JsonParser.ParseBuffer.Unescape | src/cJSON.c:703-770 | the second pass stays inside the buffer of the computed size and writes the unescaped string with its terminator |
| JsonParser.ParseBuffer.ParseString | src/cJSON.c:666-792 | parsing a string in place is the specified parsing |
| JsonParser.ParseBuffer.ParseValue | src/cJSON.c:1162-1215 | parsing a value, numbers excepted, in place is the specified parsing, and ends at the same depth |
| JsonParser.ParseBuffer.ParseArray | src/cJSON.c:1296-1387 | parsing an array with its loop is the specified parsing, without numbers and limit included |
| JsonParser.ParseBuffer.ParseObject | src/cJSON.c:1452-1558 | parsing an object with its loop is the specified parsing, without numbers and limit included |
| JsonParser.ParseWithOpts | src/cJSON.c:952-1029 | parsing a whole text without numbers, with or without the requirement that nothing follows |
| JsonPrinter.PrintBuffer.Ensure | src/cJSON.c:341-426 | succeeds exactly if the needed bytes and a terminator fit below the limit, keeps what was written, and then they fit |
| JsonPrinter.PrintBuffer.UpdateOffset | src/cJSON.c:429-439 | moves the offset to the end of the text |
| JsonPrinter.PrintBuffer.CountEscapes | src/cJSON.c:822-846 | the counted escape bytes are exactly what the escaped string takes more |
| JsonPrinter.PrintBuffer.PrintStringPtr | src/cJSON.c:795-914 | a string is printed with its escapes inside the space asked for, exactly if it fits |
| JsonPrinter.PrintBuffer.PrintValue | src/cJSON.c:1218-1293 | a value's text is appended exactly if it fits with one byte to spare |
| JsonPrinter.PrintBuffer.PrintArray | src/cJSON.c:1390-1449 | an array's text is appended exactly if it fits, at the same depth |
| JsonPrinter.PrintBuffer.PrintObject | src/cJSON.c:1561-1672 | an object's text is appended exactly if it fits, with its tabs and line breaks when formatted |
| JsonPrinter.Print | src/cJSON.c:1039-1110 | the printed text is the specified one, unless it is too long |
| JsonPrinter.PrintPreallocated | src/cJSON.c:1142-1159 | succeeds exactly if the buffer is one byte longer than the text with its terminator |
| Bech32Codec.EncodeDecode | src/bech32.cpp:147-192 | 5-bit values are read back from their encoding exactly if the human-readable part is nonempty, printable, without upper case, and the length is within the limit |
| Bech32Codec.DecodeEncode | src/bech32.cpp:147-192 | whatever decodes is encoded again as the same string in lower case |
| Bech32Codec.AtMostOneVerifies | src/bech32.cpp:118-125 | of two value sequences that differ only inside six consecutive symbols at most one verifies |
| Bech32Codec.ChecksumVerifies | src/bech32.cpp:117-139 | of all six symbols exactly the created checksum makes the values verify |
| Bech32Poly.WindowDetected | src/bech32.cpp:37-94 | two sequences of any length that differ only inside six consecutive symbols have different checksums |
| Bech32Poly.StepInjective | src/bech32.cpp:80-92 | the checksum step is injective on 30-bit states |
| Bech32Poly.StepXor | src/bech32.cpp:80-92 | the checksum step is linear over GF(2) |
| Bech32Poly.FeedXor | src/bech32.cpp:37-94 | the checksum is linear over GF(2) |
| Bech32Poly.ChecksumExact | src/bech32.cpp:127-139 | a sequence with six more symbols has the checksum one exactly if they are those computed from the sequence with zeros |
| Bech32Field.RemainderExact | src/bech32.cpp:37-94 | the six symbols of the checksum are the remainder of the values' polynomial over GF(32), with a one in front, by the generator of BIP 173, and there is no other remainder |
| Bech32Field.GroupStep | src/bech32.cpp:62-91 | the five constants are the multiples of k(x): a step multiplies by x, adds the next value and reduces |
| Bech32Field.VerifiesExact | src/bech32.cpp:118-125 | a string verifies exactly if the generator divides its polynomial up to a remainder of one |
| Bech32Distance.ThreeErrors | src/bech32.cpp:45-49 | of two value sequences of up to 1023 symbols that differ in one to three places at most one verifies: the documented guarantee for the 1023 characters a string may have |
| Bech32Distance.ThreeSubstitutions | src/bech32.cpp:161-192 | replacing one to three characters behind the separator of a valid string by others, not by the same in the other case nor by another separator, makes it invalid |
| Bech32Distance.ThreeDetected | src/bech32.cpp:37-94 | such sequences have different checksums, behind any beginning |
| Bech32Distance.GeneratorRoot | src/bech32.cpp:45-49 | the generator vanishes at three consecutive powers of an element of GF(1024) |
| Bech32Distance.Unfixed | src/bech32.cpp:45-49 | that element has the order 1023 |
| Bech32Distance.StepEval | src/bech32.cpp:59-74 | one step of the checksum is one step of evaluating the polynomial at each of the three roots |
| Bech32Field.ExpandedExact | src/bech32.cpp:103-115 | the expanded human-readable part: three high bits of every character, a zero, five low bits of every character |
| Bech32Field.CharsetExact | src/bech32.cpp:13-13 | the character set |
| Bech32Field.RevExact | src/bech32.cpp:16-25 | the reverse table gives a symbol exactly for its character in either case |
| Bech32Field.FieldExample | src/bech32.cpp:51-59 | the example of a product in GF(32) |
| Bech32Field.Example | src/bech32.cpp:147-192 | the string a12uel5l of BIP 173 is written and read |
| Bech32.PolyMod | src/bech32.cpp:37-94 | the loop with the five conditional additions computes the checksum |
| Bech32.ExpandHRP | src/bech32.cpp:103-115 | the two loops expand the human-readable part |
| Bech32.VerifyChecksum | src/bech32.cpp:118-125 | computes the verification predicate |
| Bech32.CreateChecksum | src/bech32.cpp:127-139 | the shifts take out the six symbols of the checksum |
| Bech32.Encode | src/bech32.cpp:147-159 | the loop writes the encoding, or nothing if a value is no symbol |
| Bech32.CheckCharacters | src/bech32.cpp:162-170 | accepts exactly printable strings that are not in mixed case |
| Bech32.Decode | src/bech32.cpp:162-192 | the passes over the string compute the specified decoding |
| Base58Codec.DecodeEncode | src/base58.cpp:36-115 | decoding gives back every byte vector that was encoded, leading zeros included |
| Base58Codec.EncodeDecode | src/base58.cpp:36-115 | encoding gives back every text of the alphabet that was decoded, leading ones included |
| Base58Codec.DecodeExact | src/base58.cpp:36-80 | a text decodes exactly if it is one word of the alphabet between spaces, and to the vector whose encoding the word is |
| Base58Codec.EncodeExact | src/base58.cpp:82-115 | the encoding is exactly the word of the alphabet with the same value in base 58 and as many leading ones as the vector has leading zeros |
| Base58Codec.CharsetExact | src/base58.cpp:34-34 | the alphabet |
| Positional.DigitsEnough | src/base58.cpp:90-91 | the buffer of 138/100 digits holds every number of the given bytes |
| Positional.BytesEnough | src/base58.cpp:47-48 | the buffer of 733/1000 bytes holds every number of the given digits |
| Base58.MultiplyAdd | src/base58.cpp:55-61 | the in-place pass multiplies the number in the buffer and adds to it, up to the carry |
| Base58.NoCarry | src/base58.cpp:62-62 | a number that fits leaves no carry: the assertion holds |
| Base58.DecodeDigits | src/base58.cpp:50-66 | the loop over a word collects its number, or stops at a character out of the alphabet |
| Base58.Encode | src/base58.cpp:82-115 | the loops compute the encoding, and the assertion about the carry holds |
| Base58.Decode | src/base58.cpp:36-80 | the loops compute the decoding, and the assertion about the carry holds |
| Base58.DecodeString | src/base58.cpp:122-125 | a string object is decoded up to its first zero byte |
| BlockChain.BlockIndex.GetAncestor | src/chain.cpp:144-174 | over the skip links, the block that walking back one block at a time reaches, or no block if the height is out of range; and, if all skip links are set, in the number of steps that TurnsBound bounds |
| BlockChain.BlockIndex.BuildSkip | src/chain.cpp:176-180 | sets a skip link to the ancestor at the skip height and keeps all skip links right |
| BlockChain.AddBlock | src/chain.cpp:176-180 | a tree with a block more is a tree whose skip links are right |
| BlockSkips.SkipHeightBelow | src/chain.cpp:134-142 | a skip link points strictly back |
| BlockSkips.LowestOne | src/chain.cpp:131-131 | exactly the lowest bit that is set is taken out |
| BlockSkips.SkipHeightExact | src/chain.cpp:134-142 | an even height skips to the one without its lowest bit, an odd one to the odd one without the two lowest bits above its last |
| BlockSkips.TurnsBound | src/chain.cpp:144-174 | with all skip links set, walking back from a height of k bits takes at most k * (k + 3) / 2 - 1 steps |
| BlockSkips.PhaseTurns | src/chain.cpp:151-172 | the steps while one bit is above the target's: at most one for every set bit below it and three more, and those of the lower bits |
| BlockChain.ChainAncestor | src/chain.h:575-640 | a chain holds at every height the ancestor of its blocks |
| BlockChain.Chain.SetTip | src/chain.cpp:35-46 | the chain becomes the path to the given block, although the loop stops at the first block already in place |
| BlockChain.Chain.GetLocator | src/chain.cpp:48-75 | a locator names the ancestors of the start at the locator heights, whether or not the start is on the chain |
| BlockChain.LocatorFalls | src/chain.cpp:48-75 | the locator heights fall strictly and end at zero |
| BlockChain.LocatorShort | src/chain.cpp:48-75 | a locator has at most twelve entries more than the logarithm of the height plus one |
| BlockChain.LocatorExact | src/chain.cpp:48-75 | the heights of a locator in closed form: eleven single steps, then steps that double, and the first block |
| BlockChain.Chain.FindFork | src/chain.cpp:77-86 | the highest ancestor of the block that is on the chain, or none if no ancestor is |
| CoinsCodec.CoinsTrip | src/coins.h:179-240 | coins that are not pruned, of the code's integer types, are read back in normal form, which says what becomes of negative integers, of values and of overly long scripts; exactly their bytes are taken |
| CoinsCodec.CoinsExact | src/coins.h:179-240 | coins are read back as themselves if and only if version and height are not negative, nothing is spent at the end, no spent output kept a script, and every unspent output is storable |
| CoinsCodec.StorableKept | src/compressor.h:119-134 | an output is read back as itself exactly if its value, as an unsigned number, ends in a zero or is at most 2049638230412172402, and its script is not overly long |
| AmountWrap.KeptExactly | src/compressor.cpp:157-200 | an amount of 64 bits, compressed and decompressed in 64-bit arithmetic, is kept exactly if its compressed form fits into 64 bits |
| VarInts.Int32Trip | src/serialize.h:374-403 | a 32-bit integer is read back exactly if it is not negative; of a negative one the lowest seven bits are left |
| VarInts.MinusOne | src/main.cpp:3179-3184 | version -1 is read back as 127, which the code knows and corrects for |
| CoinsCodec.NormalIsSame | src/coins.h:136-142 | the normal form is the record itself exactly under the conditions of CoinsExact |
| CoinsCodec.MaskTrip | src/coins.h:191-230 | the spentness mask is read back, and exactly its bytes are taken |
| CoinsCodec.SomethingToCode | src/coins.h:183-186 | coins that are not pruned have an output in the code or the mask: the assertion holds |
| CoinsCodec.OutTrip | src/compressor.h:119-134 | an output is read back from its compact form as what is kept of its value and script |
| CoinsFormat.FirstExample | src/coins.h:61-73 | the text of the first documented record, for any address |
| CoinsFormat.SecondExample | src/coins.h:76-93 | the text of the second documented record, with its header code and mask, for any addresses |
| CoinsFormat.MaskBit | src/coins.h:49-49 | bit k of the b-th mask byte is set exactly if output 2 + 8 * b + k is unspent |
| CoinsStream.CalcMaskSize | src/coins.cpp:39-55 | the loop computes the number of mask bytes and how many are not zero |
| CoinsStream.WriteMaskByte | src/coins.h:192-198 | the bits set one after the other are the byte of the next eight outputs |
| CoinsStream.CleanupOutputs | src/coins.h:136-142 | the loop removes exactly the spent outputs at the end |
| CoinsStream.Serialize | src/coins.h:179-206 | the loops write the coins' text |
| CoinsStream.Unserialize | src/coins.h:208-240 | the loops read coins, or report the end of the stream |
| VarInts.AmountTrip | src/compressor.cpp:157-200 | every amount is read back from its compressed form |
| VarInts.CompressedTrip | src/compressor.cpp:157-200 | every number is the compressed form of one amount |
| VarInts.CompressedFits | src/compressor.cpp:157-174 | the compressed form of a 64-bit amount fits into 64 bits exactly if the amount ends in a zero or is at most 2049638230412172402 |
| VarInts.Compress | src/compressor.cpp:157-174 | the loop in 64-bit arithmetic computes the compressed form modulo 2^64, and the compressed form itself exactly if it fits |
| VarInts.Decompress | src/compressor.cpp:176-200 | the loops in 64-bit arithmetic compute the amount modulo 2^64 |
| VarInts.VarIntTrip | src/serialize.h:374-403 | a number is read back from its variable-length form, whatever follows |
| CoinsFormat.VarIntExact | src/serialize.h:335-347 | a text is that of a number exactly if all digits but the last are marked and the documented sum gives the number; so every number has one text |
| CoinsFormat.VarIntLength | src/serialize.h:343-344 | exactly how many digits a number takes |
| CoinsFormat.ThreeDigits | src/serialize.h:350-355 | 0x80, 0xFF, 0x7F is the text of 32895, and 16511 has two digits, against the documentation's table |
| CoinsFormat.AmountForm | src/compressor.cpp:146-174 | the compressed form by the trailing zeros and the last other digit of an amount |
| VarInts.WriteVarInt | src/serialize.h:374-389 | the digits collected backwards fit into the buffer and give the specified form, negative integers included |
| VarInts.ReadVarIntLoop | src/serialize.h:391-403 | the loop reads the specified number, wrapping around in its type |
| ScriptCodec.SpecialTrip | src/compressor.cpp:27-146 | a special form stands for exactly the script it was made from |
| ScriptCodec.ScriptTrip | src/compressor.h:73-104 | a script is read back if it is not too long, and replaced by an invalid one if it is |
| BloomState.LastKeysFound | src/bloom.cpp:234-287 | after any run of insertions since the reset, each of the last nElements keys is found |
| BloomState.RunHolds | src/bloom.cpp:247-259 | how many of the last keys each of the two filters holds, across all staggered clears and wraparounds |
| BloomState.RunExact | src/bloom.cpp:247-259 | after any run each of the two filters has exactly the bits of the last keys in its window |
| BloomState.FoundExact | src/bloom.cpp:247-273 | a key is found exactly if all its bits are bits of the last n keys and those before them since the last multiple of n |
| BloomState.OldForgotten | src/bloom.cpp:247-273 | a key with a bit that none of the last 2n keys has is not found |
| BloomState.FlagsExact | src/bloom.cpp:76-117 | with up-to-date flags the shortcuts for full and empty filters answer as the bits do, but for an empty filter without hash functions |
| BloomState.SeedsDiffer | src/bloom.cpp:70-74 | the seeds of two of fifty hash functions differ, whatever the tweak |
| BloomState.InsertKeeps | src/bloom.cpp:76-117 | an inserted key is found, and no key is lost |
| BloomFilters.BloomFilter.Insert | src/bloom.cpp:76-87 | sets exactly the bits of the key in the packed bytes, unless the filter is full |
| BloomFilters.BloomFilter.Contains | src/bloom.cpp:103-117 | true exactly if all bits of the key are set or the filter is full, false if it is empty |
| BloomFilters.BloomFilter.Clear | src/bloom.cpp:133-138 | the filter is empty |
| BloomFilters.BloomFilter.UpdateEmptyFull | src/bloom.cpp:221-232 | the loop sets the flags by the bits, for an empty vector too |
| BloomFilters.RollingBloomFilter.Insert | src/bloom.cpp:247-259 | the object stays what a run over its history makes of it |
| BloomFilters.RollingBloomFilter.Contains | src/bloom.cpp:267-273 | true for each of the last nElements keys of the history, and exactly for the keys whose bits are all bits of the keys that still count |
| BloomFilters.RollingBloomFilter.Reset | src/bloom.cpp:281-287 | the history starts anew |

## Left out

- Address manager: addresses and byte vectors are numbers, `Select_`, `GetChance` and `DecodeAsmap` are not modelled (floating point, retry loops, file reading), and neither is the locking.
- AddrManStream.Unserialize: the stream is a record of its parts, not bytes, and one that ends early is refused before anything is entered, where the code has entered a part of it.
- AddrMan.Manager.Add: the result is true for a newcomer even when it was dropped at once, as in the code.
- Check queue: `fQuit` is never set, the RAII control object and its mutex are not modelled, and termination under a fair scheduler is not stated; a sleeping master's worker being able to step is.
- Coins cache: the Sprout and Sapling maps are one map keyed by the pool, the view below a cache is a value, memory usage is a function of the cached value, and `hasModifier` is not modelled.
- CoinsStack.StepRefines: a flush that would make the database forget an empty root is excluded there; AnchorsMap.FlushRefines states exactly when that happens.
- Values of inputs, priorities, interest and import coins, and requirements of shielded transactions: they depend on code outside the model.
- CuckooCache.Cache.Setup: the depth limit, a logarithm in floating point, is a parameter, and the epoch size of 45 percent is computed in integers.
- Cuckoo cache: memory ordering of the flag atomics and concurrent lookups, and `setup_bytes`.
- 256-bit arithmetic: hexadecimal strings, conversion to `double`, bitwise assignment operators and conversion to the opaque 256-bit type.
- cJSON: numbers and raw values (the modelled parser refuses them), allocation hooks and failures, null pointers, the error position, duplication, comparison, minification and list editing.
- Bech32: that four errors in a window of 89 symbols are found (src/bech32.cpp:48-49) rests on a search over error patterns and is not stated; three in 1023 are.
- Bech32 and Base58: the check variants of Base58 and addresses built on both (they rest on hashes).
- BlockChain.Chain.GetLocator: names blocks instead of their hashes, and the doubling step is an unbounded number where the code's is an `int`.
- Block index: `pprev` and `nHeight` are constants of a block; proof-of-work, disk positions and median time are not modelled.
- CoinsCodec.CoinsTrip: uncompressed public keys (0x04) rest on a curve parameter that is sound, and the header code and script sizes are taken to fit into 32 bits, which a record in memory does.
- Bloom filters: sizes and hash counts computed in floating point are parameters, as are the Murmur hash and the tweak; `IsRelevantAndUpdate` and the serialized form are not modelled.
- Network, RPC, HTTP, database, start-up, chain parameters, compact blocks, mempool and cross-chain code.
