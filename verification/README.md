# Verification model of the echo application's Poco core

The echo server and client of this repository do little themselves: they frame text messages over a FIFO
buffer and send them through sockets. What is intricate is in the Poco Foundation headers they ship under
`shared/include/Poco`. This Dafny project models those headers and the packet classes, statement by
statement where they change state, and proves what they promise.

An object whose methods update its fields is a Dafny class with those fields; each method is proved against
a function or predicate on values, and the theorems about whole runs, round trips and interleavings are
lemmas about those values. Active methods and the reference counts of `AutoPtr`, which span
several objects and threads, are state machines over their atomic steps. `dafny verify dfyconfig.toml` verifies the project.
Members without a row in the table below are steps of a proof.

| module | what it models | main results |
|---|---|---|
| `LinearHashTables`, `HashMaps` | linear hashing and the map on top of it | `Shape`/`Consistent` kept by every operation, refinement of a mathematical map, `IterationVisitsEachOnce` |
| `IndexedLists` | a container beside an index of iterators into it | list and index stay in bijection |
| `LruRuns`, `LruCaches` | least-recently-used caching | `EvictsLeastRecentlyUsed`, `HitReturnsLastStored`, `SmallHitIsLargeHit` (inclusion) |
| `ExpireRuns`, `ExpireCaches` | both time-based caches | `FetchServesYoungIff`, `FetchSucceedsIffYoung`, exactness of the prefix scan |
| `NumericText`, `NumericStrings` | integer printing and parsing | `RoundTripIff`, `UnsignedReadIffGuardPasses`, `DigitsReadExactlyInRange` |
| `ActiveMethods` | caller, pool thread and result owners of an active method | `NoUseAfterDelete`, `WaitReturnsAfterResult` (the result found is the one handed over), `NothingLeaks`, `NeverStuck` |
| `AutoPtrs` | reference counting | `RunKeepsInv`, `DiesWithLastOwner` |
| `OwningNodes` | AutoPtrs inside the objects they own | `AssignFaultsIffUnsafe`, `ReleaseDeletesDoomed` |
| `FifoBuffers`, `Packets` | the FIFO buffer and the message packets | conservation, `Announced`, `MessagesRoundTrip`, `SendAndReceive` |
| `Hmacs`, `Pbkdf2s` | keyed digests and key derivation over any hash | equality with RFC 2104 section 2 and RFC 2898 section 5.2, both spelled out octet by octet (`Rfc2104`, `Int32IsBigEndian`, `BlockIsXorOfChain`) |
| `Events`, `BasicEvents` | events and shared delegates | `NotifyInvokesSurvivors` (in order of registration), `ApplyEffect` |
| `PoolRuns`, `ObjectPools` | the object pool | `RunKeepsInv`, `AvailableIsBorrowable`, `LendsAgainIff` |
| `StreamBufs` | the bidirectional stream buffer | order and conservation, the exact cases in which they fail |
| `Archives` | numbering archived log files | `ArchiveByNumber` shifts the chain without loss |
| `ListMaps` | the list-based multimap | `Erase` removes every entry in spite of its early return |
| `Collections`, `CacheOperations` | sequences without duplicates, removal; the operations of a cache | helpers |

## Where the code differs from its documentation

The model follows the code. In these places the code does not do what its documentation or its users would
expect; for each a lemma or a contract says exactly when it does, and most have an instance beside it.

- `shared/include/Poco/NumericString.h:80-168` cannot read everything that `intToStr` writes: digits from 8
  on in bases 9 and 11 to 15, the `0x` prefix, negative numbers outside base 10, and separators other than
  full stop, comma and blank. `RoundTripIff` is the exact condition, `EightIsLostInBaseNine` and
  `ApostropheIsRefused` are instances. With a separator the text starts with one when the number of digits is
  a multiple of three (`LeadingSeparatorIff`, `HundredHasLeadingSeparator`), and a text that fills the buffer
  exactly has no cell for its terminator (`NoTerminator` in `IntToStr`, `OneCellHasNoTerminator`). A sign with
  no digit behind it is read as 0 (`NoDigits`).
- The guard of `shared/include/Poco/NumericString.h:105-146` looks at the previous partial result only, so that
  numerals out of range get past it. In an unsigned type they are accepted exactly when `GuardPasses` holds
  (`UnsignedReadIffGuardPasses`, `OutOfRangeIsReadAsZero`); in a signed one `SignedBeyondIsRejectedIff` says
  when they overflow.
- `shared/include/Poco/FIFOBuffer.h:116-134` leaves the start of the stored part where it is, so that a
  shrinking buffer keeps `begin + used <= size` exactly when the old end fits the new size (`Resize`,
  `AcceptsFreeSpaceIff`, `ShrinkingCutsOff`). It tells the writable observers the truth exactly when `ResizeIsAnnounced` holds
  (`ResizeAnnouncesIff`, `GrowingAFullBufferIsSilent`).
- `shared/include/Poco/PBKDF2Engine.h:92-101` does not reset the engine, although
  `shared/include/Poco/DigestEngine.h:56-60` promises that `digest` does: later digests repeat the first
  (`Digest`, `SecondDigestIsStale`).
- `shared/include/Poco/BufferedBidirectionalStreamBuf.h:86-105` moves the putback characters before it knows
  that the device has any more (`FailedRefillKeepsPutbackIff`, `SecondRefillSeesTheDamage`,
  `WrongCharactersCanBePutBack`), and lines 144-153 send again what the device took of a partial write
  (`FlushConservesIff`, `PartialFlushRepeats`). `overflow` called with end of file returns end of file on
  success, too (`Overflow`, `FlushedIsEndOfFile`).
- `shared/include/Poco/ObjectPool.h:250-273` signals waiting borrowers only when it destroys the object, and
  a woken borrower looks at the size only (`WakeMissesPooledObjectIff`, `PooledObjectIsMissed`). A pooled
  object whose activation fails is destroyed but counted for ever; the pool can lend again exactly while not
  all were lost that way (`LendsAgainIff`, `OnlyObjectIsLost`).
- `shared/include/Poco/ArchiveStrategy.h:92-107` renames the file that already has the stamped name and then
  does not archive the log itself (`LogIsArchivedIff`, `SecondArchiveLeavesLog`).
- `shared/include/Poco/ListMap.h:59-63` does not reserve room but creates default entries (`Reserve`).
- `shared/include/Poco/AutoPtr.h:93-101` takes the reference of a plain pointer over only when the pointer
  is not the one it already holds (`AssignTakesOwnershipIff`, `ReferenceIsLeftBehind`). Lines 114-123 release
  the old object before they read the other AutoPtr, which may lie in it (`AssignFaultsIffUnsafe`,
  `HeadToNextIsUnsafe`).
- `server/src/packets/CMessagePacket.cpp:17-42` deletes the old message before it knows that the length is
  usable (`Read`, `NegativeLengthDeletesMessage`), and `server/src/packets/CMessageSendPacket.cpp:22-36` reports success also for a frame that
  was cut off, which is one longer than the free space (`Write`, `CutFrameIsReportedSent`).
- `shared/include/Poco/ExpireStrategy.h:109-120` forgets entries for good: when the clock is set back, a fetch
  misses an entry that is young again exactly if an earlier operation has seen it expired
  (`FetchServesYoungIff`, `PrunedStaysLostWhenClockGoesBack`).

## Model

| member | source | states |
|---|---|---|
| LinearHashTables.ResidueIsModulus | shared/include/Poco/LinearHashTable.h:424-431 | the recursive residue the proofs work with is the remainder the address function takes, for every hash and modulus |
| LinearHashTables.ResidueOfDouble | shared/include/Poco/LinearHashTable.h:424-439 | doubling the modulus either keeps a residue or adds the old modulus to it, which is why one bucket splits into exactly two |
| LinearHashTables.Halves | shared/include/Poco/LinearHashTable.h:464-468 | a power of two other than 1 halves exactly and stays a power of two: merge never drives `_front` to 0 |
| LinearHashTables.Doubles | shared/include/Poco/LinearHashTable.h:443-448 | doubling `_front` keeps it a power of two |
| LinearHashTables.AddressInRange | shared/include/Poco/LinearHashTable.h:424-439 | every hash has a bucket: the address is below `_front + _split` |
| LinearHashTables.AddressAfterDoubling | shared/include/Poco/LinearHashTable.h:443-448 | resetting `_split` and doubling `_front` changes no address |
| LinearHashTables.AddressAfterSplit | shared/include/Poco/LinearHashTable.h:441-460 | advancing `_split` moves values out of one bucket only, and only to the new last one |
| LinearHashTables.AddressAfterMerge | shared/include/Poco/LinearHashTable.h:462-480 | retreating `_split` moves values out of the last bucket only, and back to the one they were split from |
| LinearHashTables.AbsentFromTable | shared/include/Poco/LinearHashTable.h:320-330 | a key that is not in the bucket its address names is nowhere in the table, so that searching one bucket is enough |
| LinearHashTables.ModelHolds | shared/include/Poco/LinearHashTable.h:320-342 | the map that a duplicate-free bag stands for contains exactly its values under their keys |
| LinearHashTables.ModelSize | shared/include/Poco/LinearHashTable.h:405-409 | the map has as many keys as the table counts elements |
| LinearHashTables.FirstFrom | shared/include/Poco/LinearHashTable.h:299-312 | begin() skips exactly the empty buckets: nothing comes before the iterator it returns |
| LinearHashTables.Successor | shared/include/Poco/LinearHashTable.h:141-153 | `++` advances the rank by exactly one, across any number of empty buckets |
| LinearHashTables.VisitedIsRest | shared/include/Poco/LinearHashTable.h:141-153 | the loop from any iterator to end() dereferences precisely the rest of the iteration order |
| LinearHashTables.IterationVisitsEachOnce | shared/include/Poco/LinearHashTable.h:299-318 | iterating a table from begin() to end() visits every element exactly once and nothing else, in every consistent table |
| LinearHashTables.LinearHashTable.constructor | shared/include/Poco/LinearHashTable.h:236-244 | a new table satisfies the invariant and is empty |
| LinearHashTables.LinearHashTable.BucketAddress | shared/include/Poco/LinearHashTable.h:424-439 | the address is the one the placement invariant speaks about, and it is a bucket of the table |
| LinearHashTables.LinearHashTable.Split | shared/include/Poco/LinearHashTable.h:441-460 | adds one bucket, keeps the stored values (as a multiset) and every value where its address says |
| LinearHashTables.LinearHashTable.Merge | shared/include/Poco/LinearHashTable.h:462-480 | removes one bucket, keeps the stored values and every value where its address says |
| LinearHashTables.LinearHashTable.Redistribute | shared/include/Poco/LinearHashTable.h:453-459 | the loop of split and merge puts back every detached value exactly once |
| LinearHashTables.LinearHashTable.Find | shared/include/Poco/LinearHashTable.h:320-330 | finds an iterator to the value exactly when the key is in the mathematical table, and to that value |
| LinearHashTables.LinearHashTable.FindInBucket | shared/include/Poco/LinearHashTable.h:320-330 | the first slot with the key, or the end of the bucket when it has none |
| LinearHashTables.LinearHashTable.Insert | shared/include/Poco/LinearHashTable.h:351-378 | refines insertion into a map: a present key keeps its old value and is reported, an absent one is added; the iterator points to the entry |
| LinearHashTables.LinearHashTable.InsertNew | shared/include/Poco/LinearHashTable.h:361-373 | split, then store, restores the invariant and adds exactly the new value |
| LinearHashTables.LinearHashTable.EraseAt | shared/include/Poco/LinearHashTable.h:380-389 | erases exactly the element pointed to; the end iterator erases nothing |
| LinearHashTables.LinearHashTable.Erase | shared/include/Poco/LinearHashTable.h:391-396 | refines removal from a map, present or not |
| LinearHashTables.LinearHashTable.Clear | shared/include/Poco/LinearHashTable.h:398-403 | empties the table and restores the invariant of a new one |
| LinearHashTables.AssignKeepsConsistentIff | shared/include/Poco/LinearHashTable.h:200-203 | writing through an iterator keeps the invariant exactly when the new key belongs into the same bucket and no other element has it |
| LinearHashTables.LinearHashTable.Assign | shared/include/Poco/LinearHashTable.h:200-203 | writes any value through an iterator; the table stays valid exactly when the value fits, and under its old key only that entry changes |
| LinearHashTables.LinearHashTable.Begin | shared/include/Poco/LinearHashTable.h:299-312 | the loop over empty buckets finds the first element |
| LinearHashTables.LinearHashTable.Next | shared/include/Poco/LinearHashTable.h:141-153 | the iterator moves to its successor in iteration order |
| LinearHashTables.LinearHashTable.SkipEmpty | shared/include/Poco/LinearHashTable.h:146-150 | the loop over empty buckets ends at the first value there or at end() |
| HashMaps.HashMap.constructor | shared/include/Poco/HashMap.h:104-113 | a new map is empty; entries are compared by key alone |
| HashMaps.HashMap.Find | shared/include/Poco/HashMap.h:149-159 | the iterator points to the pair of key and mapped value exactly when the map has the key |
| HashMaps.HashMap.Count | shared/include/Poco/HashMap.h:161-165 | 1 or 0, for a key in or not in the map |
| HashMaps.HashMap.Insert | shared/include/Poco/HashMap.h:167-176 | keeps the value of a present key and says so; adds an absent one; no other key changes |
| HashMaps.HashMap.Erase | shared/include/Poco/HashMap.h:178-187 | removes that key and no other |
| HashMaps.HashMap.Lookup | shared/include/Poco/HashMap.h:204-211 | the mapped value, or NotFoundException for an absent key |
| HashMaps.HashMap.Subscript | shared/include/Poco/HashMap.h:213-218 | inserts the default value for an absent key and changes nothing for a present one |
| HashMaps.HashMap.Store | shared/include/Poco/HashMap.h:213-218 | `map[key] = value` refines the update of a mathematical map |
| HashMaps.HashMap.Clear | shared/include/Poco/HashMap.h:189-192 | the map is empty afterwards |
| HashMaps.HashMap.Size | shared/include/Poco/HashMap.h:194-197 | the number of keys of the map |
| IndexedLists.DropByIndex | shared/include/Poco/LRUStrategy.h:67-76 | in a linked container the index of a key leads to the node of that key, and to one position only |
| IndexedLists.DropKeepsLinked | shared/include/Poco/LRUStrategy.h:67-76 | erasing a key from list and index together keeps them in bijection |
| IndexedLists.InsertKeepsLinked | shared/include/Poco/LRUStrategy.h:57-65 | inserting a new key into list and index together keeps them in bijection |
| IndexedLists.MoveKeepsLinked | shared/include/Poco/LRUStrategy.h:78-88 | moving a node to the front keeps the index leading to it and the bijection |
| IndexedLists.IndexCount | shared/include/Poco/LRUStrategy.h:104-114 | the index has as many keys as the list has nodes, so that its size can stand for the list's |
| LruRuns.StepKeepsValid | shared/include/Poco/AbstractCache.h:207-351 | every operation keeps list and values on the same keys, without duplicates, and within the capacity |
| LruRuns.RunsStayValid | shared/include/Poco/AbstractCache.h:207-351 | so does every run |
| LruRuns.RunsSortByUse | shared/include/Poco/LRUStrategy.h:57-128 | in every run the list is sorted by the number of the last operation that added, updated or fetched each key |
| LruRuns.LostByStep | shared/include/Poco/LRUStrategy.h:104-128 | unless a key is removed itself or all are cleared, only an add or update that overflows the list loses it, and it loses the end of the list: removing one key leaves the others cached |
| LruRuns.EvictsLeastRecentlyUsed | shared/include/Poco/LRUStrategy.h:104-128 | in every run, each key that is gone after an operation other than its own removal and a clear was used less recently than each key that stays, and the capacity is then fully used |
| LruRuns.StepEffect | shared/include/Poco/AbstractCache.h:207-351 | for each entry, what an operation does to it: it appears or changes by its own add or update only, and disappears only by its own removal, a clear, or as the last of a full list when another key is new |
| LruRuns.HitReturnsLastStored | shared/include/Poco/AbstractCache.h:303-329 | in every run a hit returns the value last stored under the key and not removed since: eviction loses entries but never changes one |
| LruRuns.StoredIsFound | shared/include/Poco/AbstractCache.h:207-253 | what was just added or updated is found |
| LruRuns.EvictKeepsIncluded | shared/include/Poco/LRUStrategy.h:104-128 | cutting both lists to their capacities keeps the inclusion, given that the lists differ by at most the difference of the capacities |
| LruRuns.StepKeepsIncluded | shared/include/Poco/AbstractCache.h:207-351 | every operation keeps the inclusion of two caches of capacities n <= m |
| LruRuns.RunsStayIncluded | shared/include/Poco/AbstractCache.h:207-351 | inclusion holds after every run of the same operations on both caches |
| LruRuns.SmallHitIsLargeHit | shared/include/Poco/AbstractCache.h:303-329 | after the same operations, every hit of the smaller cache is a hit with the same value in the larger |
| LruCaches.LruStrategy.constructor | shared/include/Poco/LRUStrategy.h:47-51 | a strategy starts with an empty list in bijection with its index |
| LruCaches.LruStrategy.OnAdd | shared/include/Poco/LRUStrategy.h:57-65 | the key goes to the front; list and index stay in bijection if and only if it was not listed before |
| LruCaches.LruStrategy.OnRemove | shared/include/Poco/LRUStrategy.h:67-76 | the key leaves list and index, wherever it stood; the order of the others stays |
| LruCaches.LruStrategy.OnUpdate | shared/include/Poco/AbstractStrategy.h:43-48 | a remove and an add make the key the most recent one |
| LruCaches.LruStrategy.OnGet | shared/include/Poco/LRUStrategy.h:78-88 | a fetched key moves to the front with its node, an unknown key changes nothing |
| LruCaches.LruStrategy.OnClear | shared/include/Poco/LRUStrategy.h:90-94 | forgets all keys |
| LruCaches.LruStrategy.OnIsValid | shared/include/Poco/LRUStrategy.h:96-102 | a key is valid exactly when it is listed |
| LruCaches.LruStrategy.OnReplace | shared/include/Poco/LRUStrategy.h:104-128 | the loop from the end of the list names exactly the keys beyond the size |
| LruCaches.LruCache.constructor | shared/include/Poco/LRUCache.h:38-41 | a new cache is the empty state |
| LruCaches.LruCache.Create | shared/include/Poco/LRUStrategy.h:47-51 | fails with InvalidArgumentException exactly for size 0 |
| LruCaches.LruCache.DoRemove | shared/include/Poco/AbstractCache.h:275-284 | removes the key from strategy and values together |
| LruCaches.LruCache.DoReplace | shared/include/Poco/AbstractCache.h:338-351 | keeps exactly the most recent keys up to the capacity, with their values |
| LruCaches.LruCache.RemoveAll | shared/include/Poco/AbstractCache.h:342-350 | the removal loop removes exactly the given keys, in whatever order it meets them |
| LruCaches.LruCache.DoAdd | shared/include/Poco/AbstractCache.h:207-219 | refines the add of the run model, for which eviction order and inclusion are proved |
| LruCaches.LruCache.DoUpdate | shared/include/Poco/AbstractCache.h:235-253 | refines the update of the run model; a missing key is added |
| LruCaches.LruCache.Remove | shared/include/Poco/AbstractCache.h:114-121 | the key is gone and every other entry and its place in the order of use stays |
| LruCaches.LruCache.DoHas | shared/include/Poco/AbstractCache.h:286-301 | true exactly when a fetch would hit |
| LruCaches.LruCache.DoGet | shared/include/Poco/AbstractCache.h:303-329 | refines the fetch of the run model and returns the cached value or nothing |
| LruCaches.LruCache.DoClear | shared/include/Poco/AbstractCache.h:331-336 | refines clear |
| LruCaches.LruCache.Size | shared/include/Poco/AbstractCache.h:146-152 | replaces first and then counts the cached keys |
| ExpireRuns.RunHolds | shared/include/Poco/AbstractCache.h:207-351 | in every run, for any readings of the clock: the cache holds a key exactly when its last entry has not been seen expired by an add, an update, a replace or a fetch of the key, and then holds that entry |
| ExpireRuns.FetchServesYoungIff | shared/include/Poco/AbstractCache.h:286-329 | for both strategies and any readings of the clock: a fetch serves the last entry of the key, if young, and nothing otherwise, except exactly when the entry is young again after it has been seen expired; then it fails |
| ExpireRuns.DroppedStaysExpired | shared/include/Poco/ExpireStrategy.h:109-120 | with a clock that never goes back an entry once seen expired stays expired |
| ExpireRuns.RunTracksLast | shared/include/Poco/AbstractCache.h:207-351 | with such a clock the cache holds for each key its last entry, or that entry has expired |
| ExpireRuns.FetchSucceedsIffYoung | shared/include/Poco/AccessExpireStrategy.h:52-67 | so with such a clock a fetch succeeds if and only if the last add or update of the key (or, with access expiry, the last successful fetch) is younger than the limit, and returns that value |
| ExpireRuns.PrunedStaysLostWhenClockGoesBack | shared/include/Poco/ExpireStrategy.h:109-120 | an instance of the exception: an entry pruned at a late reading stays lost when the clock is set back |
| ExpireRuns.AccessRenews | shared/include/Poco/AccessExpireStrategy.h:52-67 | an entry fetched just before its limit is still served at the limit under access expiry, and is not under plain expiry |
| ExpireCaches.DropKeepsStamped | shared/include/Poco/ExpireStrategy.h:74-82 | erasing a key from both indexes keeps them in bijection, in time order, with the right timestamps |
| ExpireCaches.InsertKeepsStamped | shared/include/Poco/ExpireStrategy.h:60-72 | and keeps the bijection and the timestamps |
| ExpireCaches.ExpiredIsPrefix | shared/include/Poco/ExpireStrategy.h:109-120 | because the index is sorted, the expired keys are exactly those in front of its first young entry |
| ExpireCaches.PruneIsRemove | shared/include/Poco/AbstractCache.h:338-351 | removing the expired keys is the pruning of the timed map |
| ExpireCaches.ExpireStrategy.constructor | shared/include/Poco/ExpireStrategy.h:49-54 | a strategy starts empty, with its two indexes in bijection |
| ExpireCaches.ExpireStrategy.UpperBound | shared/include/Poco/ExpireStrategy.h:60-72 | the position behind all entries with the same or an earlier timestamp |
| ExpireCaches.ExpireStrategy.OnAdd | shared/include/Poco/ExpireStrategy.h:60-72 | stamps the key, new or not, and leaves the other timestamps alone |
| ExpireCaches.ExpireStrategy.OnRemove | shared/include/Poco/ExpireStrategy.h:74-82 | forgets the key in both indexes |
| ExpireCaches.ExpireStrategy.OnUpdate | shared/include/Poco/AbstractStrategy.h:43-48 | renews the timestamp |
| ExpireCaches.ExpireStrategy.OnGet | shared/include/Poco/AccessExpireStrategy.h:52-67 | renews the timestamp under access expiry only, and only while it is young |
| ExpireCaches.ExpireStrategy.IsElapsedFor | shared/include/Poco/ExpireStrategy.h:95-107 | the iterator stored for a key leads to the timestamp of that very key |
| ExpireCaches.ExpireStrategy.OnClear | shared/include/Poco/ExpireStrategy.h:89-93 | forgets everything |
| ExpireCaches.ExpireStrategy.OnIsValid | shared/include/Poco/ExpireStrategy.h:95-107 | valid exactly when the key is stamped and young |
| ExpireCaches.ExpireStrategy.OnReplace | shared/include/Poco/ExpireStrategy.h:109-120 | the prefix scan with its early stop names exactly the expired keys |
| ExpireCaches.ExpireCache.constructor | shared/include/Poco/ExpireCache.h:47-50 | a new cache is the empty timed map |
| ExpireCaches.ExpireCache.Create | shared/include/Poco/ExpireStrategy.h:49-54 | fails with InvalidArgumentException exactly below 25 milliseconds |
| ExpireCaches.ExpireCache.DoRemove | shared/include/Poco/AbstractCache.h:275-284 | removes the key from values and timestamps together |
| ExpireCaches.ExpireCache.DoReplace | shared/include/Poco/AbstractCache.h:338-351 | prunes exactly the expired entries |
| ExpireCaches.ExpireCache.RemoveAll | shared/include/Poco/AbstractCache.h:342-350 | the removal loop removes exactly the given keys, in whatever order it meets them |
| ExpireCaches.ExpireCache.DoAdd | shared/include/Poco/AbstractCache.h:207-219 | refines the add of the run model |
| ExpireCaches.ExpireCache.DoUpdate | shared/include/Poco/AbstractCache.h:235-253 | refines the update of the run model; a missing key is added |
| ExpireCaches.ExpireCache.Remove | shared/include/Poco/AbstractCache.h:114-121 | refines the remove of the run model |
| ExpireCaches.ExpireCache.DoHas | shared/include/Poco/AbstractCache.h:286-301 | true exactly when a fetch would succeed |
| ExpireCaches.ExpireCache.DoGet | shared/include/Poco/AbstractCache.h:303-329 | refines the fetch of the run model: renews under access expiry, removes an expired entry, returns a young one |
| ExpireCaches.ExpireCache.DoClear | shared/include/Poco/AbstractCache.h:331-336 | refines clear |
| ExpireCaches.ExpireCache.Size | shared/include/Poco/AbstractCache.h:146-152 | prunes first and then counts |
| NumericText.GuardIsExact | shared/include/Poco/NumericString.h:105-117 | the guard lets a partial result pass exactly when a digit 0 could be appended within range |
| NumericText.WidthReached | shared/include/Poco/NumericString.h:296-316 | the text is padded to exactly the width, or has its natural length when that is greater |
| NumericText.SeparatorsOnlyAdded | shared/include/Poco/NumericString.h:284-294 | taking the separators out of the printed digits gives the digits printed without separators |
| NumericText.LeadingSeparatorIff | shared/include/Poco/NumericString.h:284-294 | a separator also stands in front of the first digit exactly when the number of digits is a multiple of three |
| NumericText.DigitsReadExactlyInRange | shared/include/Poco/NumericString.h:104-163 | digits the base accepts are read as the number they stand for if that is in range; if it is not, a signed type never gets a number, and an unsigned one gets its remainder exactly when the guard lets every digit pass |
| NumericText.SignedBeyondIsRejectedIff | shared/include/Poco/NumericString.h:105-146 | a signed numeral out of range ends the loop at the first digit that takes it there: with false exactly when a digit 0 in its place would do so, too, and with an overflow otherwise |
| NumericText.UnsignedReadIffGuardPasses | shared/include/Poco/NumericString.h:105-146 | an unsigned numeral, in range or not, is accepted exactly when the wrapped-around value of every prefix passes the guard, and is then read as its remainder |
| NumericText.UnsignedParseIffGuardPasses | shared/include/Poco/NumericString.h:80-168 | so does the whole of strToInt: the remainder or false |
| NumericText.OutOfRangeIsReadAsZero | shared/include/Poco/NumericString.h:105-146 | 256 and 2560 are accepted as 8-bit unsigned numbers and read as 0 |
| NumericText.HundredHasLeadingSeparator | shared/include/Poco/NumericString.h:284-294 | a hundred is printed with a separator in front |
| NumericText.ScanPrintedDigits | shared/include/Poco/NumericString.h:284-294 | reading printed digits, with or without separators, gives back the number |
| NumericText.DigitsAcceptedInBase | shared/include/Poco/NumericString.h:108-146 | every number can be read back in bases 2 to 8, 10 and 16 |
| NumericText.UnacceptedIsPrinted | shared/include/Poco/NumericString.h:284-294 | a digit that the parser will not accept does show up in the printed text |
| NumericText.SkipIsHarmless | shared/include/Poco/NumericString.h:88-88 | skipping leading white space never changes what is read |
| NumericText.PaddingIsSkipped | shared/include/Poco/NumericString.h:313-316 | blank padding is skipped and zero padding needs no skipping |
| NumericText.RoundTripIff | shared/include/Poco/NumericString.h:259-333 | printing and then parsing gives back the value if and only if the text is readable (a negative number needs base 10 and a signed type, the digits must be accepted in the base, no hexadecimal prefix) and its separator is one the parser skips or does no harm; for all values within the maximum, bases, prefixes, widths, blank or zero fill, and separators that are not digits |
| NumericText.SeparatedRoundTripIff | shared/include/Poco/NumericString.h:148-161 | with a separator that the parser does not skip: exactly the readable numbers of less than three digits come back, and those of three digits whose leading separator is taken for white space or a plus |
| NumericText.ApostropheIsRefused | shared/include/Poco/NumericString.h:148-161 | a thousand printed with an apostrophe is refused even if the parser is told about it |
| NumericText.RoundTripInDocumentedBases | shared/include/Poco/NumericString.h:259-333 | in bases 2 to 8, 10 and 16 (16 without prefix) every number from 0 to the maximum survives the round trip |
| NumericText.EightIsLostInBaseNine | shared/include/Poco/NumericString.h:121-128 | a number that is printed in base 9 and refused when it is read back |
| NumericText.DigitCharacters | shared/include/Poco/NumericString.h:108-146 | the digits are the characters of 0123456789ABCDEF and 0123456789abcdef, each with its position as its value, and no other character is one |
| NumericText.SpelledIsReadAlike | shared/include/Poco/NumericString.h:108-146 | in whatever case its letters are, a numeral is read as the same digits in capital letters are, in range or not, so that the theorems about reading hold for either spelling |
| NumericText.SignedNumeralIsRead | shared/include/Poco/NumericString.h:88-168 | behind any white space and an optional sign, a numeral within the maximum spelled in either case is read as its value, negated behind a minus in base 10 for a signed type; other minuses are refused |
| NumericText.NoDigits | shared/include/Poco/NumericString.h:88-98 | white space alone is refused, and a sign with nothing behind it is accepted and read as 0 |
| NumericText.SeparatorsAnywhere | shared/include/Poco/NumericString.h:148-157 | the separator the parser is told about may stand anywhere among the digits |
| NumericText.StrangersAreRefused | shared/include/Poco/NumericString.h:148-163 | a character that is neither a digit nor that separator in base 10 makes any text a failure |
| NumericText.PrintedIsNumeral | shared/include/Poco/NumericString.h:284-294 | the digits printed are below the base, without leading zeros, the most significant first, and the number is their value |
| NumericText.SeparatorPositions | shared/include/Poco/NumericString.h:284-294 | in the printed digits every fourth character from the end is a separator and no other is |
| NumericText.ReadExamples | shared/include/Poco/NumericString.h:88-163 | "ff" and "FF" in base 16 are 255; "7" is read in base 2; white space in front of a minus is skipped |
| NumericText.LayoutExamples | shared/include/Poco/NumericString.h:296-316 | zero padding stands behind prefix and sign, any other in front of them |
| NumericStrings.Push | shared/include/Poco/NumericString.h:189-253 | the wrapped pointer admits exactly as many characters as the buffer has cells |
| NumericStrings.Fill | shared/include/Poco/NumericString.h:313-316 | a padding loop reaches the width exactly or fails exactly when the buffer is too small for it |
| NumericStrings.TableDigit | shared/include/Poco/NumericString.h:286-288 | the symmetric digit table gives the digit of the magnitude for negative remainders as well |
| NumericStrings.PrintDigit | shared/include/Poco/NumericString.h:286-293 | one turn writes one digit and, at every third in base 10, a separator |
| NumericStrings.PrintDigits | shared/include/Poco/NumericString.h:282-294 | the loop writes the digits of the magnitude, least significant first, and finds the sign |
| NumericStrings.PrintZeros | shared/include/Poco/NumericString.h:296-302 | zero padding leaves exactly the room that sign and prefix need |
| NumericStrings.PrintCore | shared/include/Poco/NumericString.h:281-311 | digits, zero padding, prefix and sign come in that order, and it fails exactly when they do not fit |
| NumericStrings.PushAll | shared/include/Poco/NumericString.h:304-309 | the characters of the prefix |
| NumericStrings.ReverseInPlace | shared/include/Poco/NumericString.h:321-330 | the two-pointer swap reverses the text and touches nothing behind it |
| NumericStrings.IntToStr | shared/include/Poco/NumericString.h:259-333 | writes the specified text with its terminator for every value and option, RangeError exactly when the text is longer than the buffer (of any size), false for a bad base |
| NumericStrings.OneCellHasNoTerminator | shared/include/Poco/NumericString.h:318-321 | a digit printed into one cell leaves none for the terminator |
| NumericStrings.TakeChar | shared/include/Poco/NumericString.h:106-163 | the switch on a character is one step of the specified scan |
| NumericStrings.ScanDigits | shared/include/Poco/NumericString.h:100-163 | the loop with its early returns computes the specified scan |
| NumericStrings.StrToInt | shared/include/Poco/NumericString.h:80-168 | parses every text as specified, including null, blank and signed text, and with the wrap-around of unsigned types |
| ActiveMethods.StepKeepsInv | shared/include/Poco/ActiveStarter.h:37-41 | every step of every party keeps the invariant |
| ActiveMethods.StepIsSafe | shared/include/Poco/ActiveResult.h:244-276 | no enabled step dereferences a deleted runnable or holder, not even the release that deletes the runnable and with it the result inside, and wait() returns only with a result |
| ActiveMethods.RunKeepsInv | shared/include/Poco/ActiveMethod.h:87-94 | the invariant holds in every state of every interleaving |
| ActiveMethods.NoUseAfterDelete | shared/include/Poco/ActiveRunnable.h:58-78 | in every interleaving, including `run()` ending before `duplicate()`: nothing is used after its deletion or deleted twice, the runnable goes only when caller and thread are through with it, and the holder lives while any ActiveResult does: that of `operator ()`, those of clients, and the one in the runnable |
| ActiveMethods.WaitReturnsAfterResult | shared/include/Poco/ActiveResult.h:289-309 | in every interleaving wait() returns only after the thread has set data or an error, once, and the client finds that very value or error |
| ActiveMethods.ResultWasSet | shared/include/Poco/ActiveRunnable.h:63-75 | in every run a value is there only if the method has returned that value before, and an error only if it has thrown that one |
| ActiveMethods.EventStaysSet | shared/include/Poco/ActiveResult.h:41-137 | once set, event and outcome never change, so that every later wait() returns too |
| ActiveMethods.NothingLeaks | shared/include/Poco/AutoPtr.h:68-91 | when caller, thread and all results are done, runnable and holder have each been deleted exactly once, also when the pool refused to start the thread |
| ActiveMethods.NoEndlessRun | shared/include/Poco/ActiveRunnable.h:58-78 | only so many steps can follow one another when no client copies a result |
| ActiveMethods.CanFinish | shared/include/Poco/ActiveRunnable.h:58-78 | from every state that keeps the invariant there is a way to the end |
| ActiveMethods.NeverStuck | shared/include/Poco/ActiveStarter.h:37-41 | from every state of every run the protocol can be brought to its end without copying a result; steps that advance it cannot go on for ever, and one is enabled until the end |
| ActiveMethods.ThreadMayFinishBeforeDuplicate | shared/include/Poco/ActiveStarter.h:37-41 | there is a run in which the thread has released the runnable before the starter duplicates it |
| ActiveMethods.ResultIsFound | shared/include/Poco/ActiveRunnable.h:58-78 | for every value and every exception there is a run in which a waiting client finds it |
| ActiveMethods.ResultsEffect | shared/include/Poco/ActiveResult.h:229-276 | only returning or copying a result gives the clients one more, and only dropping one takes one away |
| AutoPtrs.PointeeIsAlive | shared/include/Poco/AutoPtr.h:64-91 | an AutoPtr never points to a deleted object |
| AutoPtrs.StepEffect | shared/include/Poco/AutoPtr.h:64-186 | a copy or assignment points where the original does, a swap exchanges two, reset points nowhere, and every AutoPtr not written to stays as it is |
| AutoPtrs.SharedSurvives | shared/include/Poco/AutoPtr.h:114-135 | releasing one of two AutoPtrs to an object leaves it alive for the other, which is what assignment relies on |
| AutoPtrs.StepKeepsInv | shared/include/Poco/AutoPtr.h:64-186 | every constructor, assignment, reset, swap and destructor keeps the count of every object equal to the number of its owners and meets no deleted object |
| AutoPtrs.RunKeepsInv | shared/include/Poco/AutoPtr.h:64-186 | in every run, so that duplicate() and release() are only ever called on objects that are alive |
| AutoPtrs.ReferenceIsLeftBehind | shared/include/Poco/AutoPtr.h:93-101 | a run in which an AutoPtr is handed the object it shares and leaves its plain reference behind |
| AutoPtrs.AssignTakesOwnershipIff | shared/include/Poco/AutoPtr.h:93-101 | assigning a plain pointer takes its reference over exactly when it is not the one already held |
| AutoPtrs.DiesWithLastOwner | shared/include/Poco/RefCountedObject.h:78-88 | in every run an object is deleted in a step exactly when the step takes away its last owner |
| OwningNodes.ReleaseDeletesDoomed | shared/include/Poco/RefCountedObject.h:78-88 | a release deletes exactly the nodes on the chain up to the first with another owner, and leaves all counts right; it goes wrong exactly when the AutoPtr being assigned lies in one of them |
| OwningNodes.AssignFaultsIffUnsafe | shared/include/Poco/AutoPtr.h:114-123 | assigning from another AutoPtr uses something deleted exactly when it would delete the node in which one of the two lies; otherwise it points where the other did and the counts are right |
| OwningNodes.RootsAreSafe | shared/include/Poco/AutoPtr.h:114-123 | assignments between AutoPtrs outside of nodes never go wrong |
| OwningNodes.MakeKeepsInv | shared/include/Poco/AutoPtr.h:68-70 | a new node has one owner |
| OwningNodes.DestroyKeepsInv | shared/include/Poco/AutoPtr.h:88-91 | a destructor removes its AutoPtr and the nodes it dooms with their fields, nothing else, and leaves every count equal to the number of owners |
| OwningNodes.StepFaultsIffUnsafe | shared/include/Poco/AutoPtr.h:64-123 | no other operation can go wrong |
| OwningNodes.RunFaultsIffUnsafe | shared/include/Poco/AutoPtr.h:64-123 | a run goes wrong with its first unsafe assignment and not before |
| OwningNodes.HeadToNextIsUnsafe | shared/include/Poco/AutoPtr.h:114-123 | a run in which stepping the only pointer to a list to the next node reads the deleted one |
| FifoBuffers.AnnouncedAlternates | shared/include/Poco/FIFOBuffer.h:519-531 | announced events strictly alternate, starting with the opposite of the initial status |
| FifoBuffers.AnnouncedStatus | shared/include/Poco/FIFOBuffer.h:519-531 | the events told so far determine the status |
| FifoBuffers.TransitionIsAnnounced | shared/include/Poco/FIFOBuffer.h:519-531 | the events of a change that leaves the size alone keep readable in step with non-emptiness and writable with non-fullness |
| FifoBuffers.ResizeAnnouncesIff | shared/include/Poco/FIFOBuffer.h:116-134 | resize tells the writable observers the truth exactly when fullness before and after agrees with its comparison against the new size |
| FifoBuffers.GrowingAFullBufferIsSilent | shared/include/Poco/FIFOBuffer.h:116-134 | a full buffer that grows becomes writable without an event |
| FifoBuffers.AcceptsFreeSpaceIff | shared/include/Poco/FIFOBuffer.h:219-251 | in unsigned arithmetic write accepts min(length, size - used) for every length exactly while begin + used lies within the size |
| FifoBuffers.FifoBuffer.constructor | shared/include/Poco/FIFOBuffer.h:78-87 | an empty buffer of the given size, with nothing to announce |
| FifoBuffers.FifoBuffer.FromData | shared/include/Poco/FIFOBuffer.h:100-109 | a buffer that starts full with a copy of the data |
| FifoBuffers.FifoBuffer.Wrap | shared/include/Poco/FIFOBuffer.h:89-98 | an empty buffer over memory that stays with its owner |
| FifoBuffers.FifoBuffer.Notify | shared/include/Poco/FIFOBuffer.h:519-531 | tells the observers about exactly the changes of status |
| FifoBuffers.FifoBuffer.NotifyChange | shared/include/Poco/FIFOBuffer.h:519-531 | announcements that were true stay true, or nothing is told when notification is off |
| FifoBuffers.FifoBuffer.Begin | shared/include/Poco/FIFOBuffer.h:356-369 | compaction moves the contents to the start and never changes them |
| FifoBuffers.FifoBuffer.Extend | shared/include/Poco/FIFOBuffer.h:242-248 | elements behind the stored ones become the newest; everything removed followed by the contents is everything accepted |
| FifoBuffers.FifoBuffer.Store | shared/include/Poco/FIFOBuffer.h:311-330 | appends the source to the contents, in order, and keeps conservation and announcements |
| FifoBuffers.FifoBuffer.Forget | shared/include/Poco/FIFOBuffer.h:185-192 | drops exactly the oldest elements and keeps conservation and announcements |
| FifoBuffers.FifoBuffer.Peek | shared/include/Poco/FIFOBuffer.h:136-172 | shows the oldest elements, as many as asked for and present, and changes nothing |
| FifoBuffers.FifoBuffer.Read | shared/include/Poco/FIFOBuffer.h:174-195 | removes and returns exactly the oldest elements; nothing in the error state |
| FifoBuffers.FifoBuffer.ReadBuffer | shared/include/Poco/FIFOBuffer.h:197-217 | the same, where length 0 asks for everything |
| FifoBuffers.FifoBuffer.Write | shared/include/Poco/FIFOBuffer.h:219-251 | accepts exactly min(length, free space) elements and appends them; nothing at end of file or in the error state |
| FifoBuffers.FifoBuffer.Drain | shared/include/Poco/FIFOBuffer.h:288-309 | removes the oldest elements, all of them for length 0 |
| FifoBuffers.FifoBuffer.Copy | shared/include/Poco/FIFOBuffer.h:311-330 | appends all or nothing, and fails exactly when it does not fit or the buffer is not writable |
| FifoBuffers.FifoBuffer.Advance | shared/include/Poco/FIFOBuffer.h:332-354 | declares elements behind the stored ones as used without disturbing the stored ones; fails exactly when they do not fit or the buffer is not writable |
| FifoBuffers.FifoBuffer.Resize | shared/include/Poco/FIFOBuffer.h:116-134 | keeps the contents when asked to; the invariant survives if and only if begin + used fits the new size |
| FifoBuffers.FifoBuffer.ResizeContents | shared/include/Poco/FIFOBuffer.h:127-132 | the contents survive, or are dropped when they need not be preserved, and conservation holds |
| FifoBuffers.ShrinkingCutsOff | shared/include/Poco/FIFOBuffer.h:116-134 | a filled and half read buffer of size 4 that is shrunk to 3 has its stored part behind its size |
| FifoBuffers.CopyInto | shared/include/Poco/FIFOBuffer.h:236-246 | copying puts the elements at their place and touches nothing else |
| FifoBuffers.FifoBuffer.SetError | shared/include/Poco/FIFOBuffer.h:408-433 | raising the flag empties the buffer and tells exactly the observers whose status it ends; lowering it announces writability unless at end of file |
| FifoBuffers.FifoBuffer.SetEOF | shared/include/Poco/FIFOBuffer.h:442-460 | changes no contents and tells the writable observers unconditionally |
| FifoBuffers.FifoBuffer.At | shared/include/Poco/FIFOBuffer.h:378-400 | the element at that distance from the oldest, InvalidAccessException beyond the contents |
| FifoBuffers.FifoBuffer.ResizeMemory | shared/include/Poco/Buffer.h:115-141 | more memory is allocated with the old contents if asked for; less only lowers the size |
| Packets.UnwordWord | server/src/packets/CMessageSendPacket.cpp:30-33 | the four bytes of a length determine it |
| Packets.CStringOfTerminated | server/src/packets/CMessagePacket.cpp:31-34 | a terminated message is recovered up to its first zero |
| Packets.FrameBytes | server/src/packets/CMessageSendPacket.cpp:22-36 | a frame is the tag 0x11 and the length with the zero, in four bytes each with the least significant first, and the message with its zero |
| Packets.ReceivedAt | server/src/packets/CMessagePacket.cpp:24-34 | byte for byte a short read delivers what the buffer has and leaves the destination as it was behind that, and it takes from the buffer what it delivers |
| Packets.MessageSendPacket.constructor | server/src/packets/CMessageSendPacket.cpp:3-11 | takes the C string up to its zero, whatever lies behind it |
| Packets.MessageSendPacket.Write | server/src/packets/CMessageSendPacket.cpp:22-36 | appends the frame of type, length and terminated text, cut off where the buffer is full (or entirely at end of file or in the error state), and returns true in every case; the whole frame is stored if and only if there is room for it |
| Packets.AppendCut | server/src/packets/CMessageSendPacket.cpp:22-36 | one of its writes, whose result is not looked at |
| Packets.MessagePacket.Read | server/src/packets/CMessagePacket.cpp:17-42 | consumes length and text and replaces the message, for every buffer content and state, including buffers that run short; a negative length leaves the packet with its old message deleted |
| Packets.MessagePacket.ReadBody | server/src/packets/CMessagePacket.cpp:31-34 | the message is what the buffer delivers, completed by what the new memory held |
| Packets.NegativeLengthDeletesMessage | server/src/packets/CMessagePacket.cpp:17-42 | a packet that has read a message is left with a deleted one by a negative length |
| Packets.FrameIsReceived | server/src/packets/CMessagePacket.cpp:17-42 | a frame at the head of the buffer is read as its message whatever stands behind it, and nothing behind it is touched |
| Packets.FramesAreReceived | server/src/packets/CMessagePacket.cpp:17-42 | any list of frames is read back as the messages in order and leaves nothing; every tag is that of a message and every Read succeeds |
| Packets.WrittenIsCutFrames | server/src/packets/CMessageSendPacket.cpp:22-36 | after writing any packets one by one the buffer holds their frames in order, up to its size |
| Packets.MessagesRoundTrip | server/src/packets/CMessagePacket.cpp:17-42 | messages without zeros whose frames fit come out the same and in the same order, with the right tags and successful Reads, and the buffer is empty |
| Packets.SendAll | server/src/packets/CMessageSendPacket.cpp:22-36 | packets written one by one into one buffer append their frames in order, cut off where it is full |
| Packets.ReceiveOne | server/src/packets/CMessagePacket.cpp:17-42 | takes the type tag, as the network loop does in front of the handlers, and reads one packet, whatever the buffer holds |
| Packets.ReceiveAll | server/src/packets/CMessagePacket.cpp:17-42 | does so as often as there are messages |
| Packets.SendAndReceive | server/src/packets/CMessagePacket.cpp:17-42 | messages sent and received through one buffer object come out without a difference when their frames fit |
| Packets.CutFrameIsReportedSent | server/src/packets/CMessageSendPacket.cpp:22-36 | a frame of nine bytes in a buffer of five is cut off and reported as sent |
| Hmacs.DigestEngine.constructor | shared/include/Poco/DigestEngine.h:41-41 | an engine starts with no message |
| Hmacs.DigestEngine.Reset | shared/include/Poco/DigestEngine.h:52-54 | forgets the message |
| Hmacs.DigestEngine.Update | shared/include/Poco/DigestEngine.h:44-46 | appends to the message |
| Hmacs.DigestEngine.Digest | shared/include/Poco/DigestEngine.h:56-60 | the hash of everything since the last reset or digest, after which the engine is reset |
| Hmacs.HmacEngine.constructor | shared/include/Poco/HMACEngine.h:47-57 | the engine is keyed and ready for a first message |
| Hmacs.HmacEngine.Init | shared/include/Poco/HMACEngine.h:94-125 | both pads are those of RFC 2104 section 2 for keys of every length, and the inner one has been taken |
| Hmacs.HmacEngine.Reset | shared/include/Poco/HMACEngine.h:72-76 | ready for a new message under the same key |
| Hmacs.HmacEngine.Update | shared/include/Poco/HMACEngine.h:127-130 | appends to the text, so that chunking does not matter |
| Hmacs.HmacEngine.Digest | shared/include/Poco/HMACEngine.h:78-91 | the HMAC of RFC 2104 section 2 of the text since the last digest, and the engine is ready for the next one |
| Hmacs.CopyKey | shared/include/Poco/HMACEngine.h:105-118 | key material followed by zeros |
| Hmacs.XorPad | shared/include/Poco/HMACEngine.h:119-123 | the loop combines every byte of the pad with the constant |
| Hmacs.LongKeyIsItsDigest | shared/include/Poco/HMACEngine.h:100-113 | a key longer than a block and its digest are equivalent |
| Hmacs.ZeroPaddedKey | shared/include/Poco/HMACEngine.h:98-118 | zeros at the end of a short key do not matter |
| Hmacs.Rfc2104 | shared/include/Poco/HMACEngine.h:78-125 | byte by byte: the key with 0x36 is hashed in front of the text and the key with 0x5C in front of that result, with a long key hashed first and a short one filled with zeros |
| Pbkdf2s.DerivedPrefix | shared/include/Poco/PBKDF2Engine.h:92-101 | in RFC 2898 section 5.2 a shorter derived key is a prefix of a longer one |
| Pbkdf2s.Pbkdf2Engine.constructor | shared/include/Poco/PBKDF2Engine.h:69-75 | an engine starts without passphrase and result |
| Pbkdf2s.Pbkdf2Engine.Reset | shared/include/Poco/PBKDF2Engine.h:86-90 | drops passphrase and result |
| Pbkdf2s.Pbkdf2Engine.Update | shared/include/Poco/PBKDF2Engine.h:104-107 | appends to the passphrase |
| Pbkdf2s.Pbkdf2Engine.Block | shared/include/Poco/PBKDF2Engine.h:109-131 | F(P, S, c, i) of RFC 2898 section 5.2, which BlockIsXorOfChain spells out, with a count of 0 working like 1 |
| Pbkdf2s.Pbkdf2Engine.Digest | shared/include/Poco/PBKDF2Engine.h:92-101 | after construction or reset the first dkLen octets of T_1 and then T_2 and then ...; without a reset the first result again |
| Pbkdf2s.Pbkdf2Engine.AppendBlocks | shared/include/Poco/PBKDF2Engine.h:94-98 | the block loop produces the derived key and stops with the block that completes it |
| Pbkdf2s.Next | shared/include/Poco/PBKDF2Engine.h:120-122 | each further U is the HMAC of the one before |
| Pbkdf2s.XorInto | shared/include/Poco/PBKDF2Engine.h:124-127 | the inner loop is the octet-wise exclusive or |
| Pbkdf2s.SecondDigestIsStale | shared/include/Poco/PBKDF2Engine.h:92-101 | input after a digest has no effect on the next digest, whatever it is |
| Pbkdf2s.Int32IsBigEndian | shared/include/Poco/PBKDF2Engine.h:113-116 | the block number is encoded in the four octets that give it when read most significant first, and in no others |
| Pbkdf2s.FirstBlockNumber | shared/include/Poco/PBKDF2Engine.h:113-116 | the first block hashes the salt with 00 00 00 01 behind it |
| Pbkdf2s.BlockIsXorOfChain | shared/include/Poco/PBKDF2Engine.h:109-131 | an octet of T_i is the exclusive or of that octet of c chained HMACs, the first over the salt and the encoded number |
| Pbkdf2s.DerivedAt | shared/include/Poco/PBKDF2Engine.h:92-101 | each octet of the derived key is the octet at its place in its block |
| Events.ApplyKeepsWellFormed | shared/include/Poco/DefaultStrategy.h:65-114 | every operation leaves the registrations in the order in which they were added, no two with one number; only new ones can appear |
| Events.ApplyAllKeepsWellFormed | shared/include/Poco/DefaultStrategy.h:65-114 | neither does any sequence of operations |
| Events.RemovedStaysRemoved | shared/include/Poco/DefaultStrategy.h:72-96 | a removed delegate never comes back: adding it again makes a new one |
| Events.EndsOnce | shared/include/Poco/DefaultStrategy.h:57-63 | a notification ends at one turn only: the first whose callback throws, or the last |
| Events.NotifyInvokesSurvivors | shared/include/Poco/AbstractEvent.h:224-245 | whatever is added, removed or cleared meanwhile, exactly the snapshot's delegates still registered at their turn are invoked, once each and in the order in which they were added, in any number of turns taken |
| Events.LateDelegatesAreNotInvoked | shared/include/Poco/AbstractEvent.h:224-245 | a delegate added during the notification is not invoked by it |
| Events.ApplyEffect | shared/include/Poco/DefaultStrategy.h:65-114 | for each registration, what an operation does to it: it appears by being added, and disappears when all are cleared, its handle is given, or it is the oldest equal to the delegate given |
| Events.FirstAddedIsFirstTold | shared/include/Poco/DefaultStrategy.h:57-70 | of two delegates the one added first is told first |
| Events.NobodyAfterThrow | shared/include/Poco/DefaultStrategy.h:57-63 | after a callback that throws nobody else is told, and the exception is passed on |
| BasicEvents.Delegate.constructor | shared/include/Poco/Delegate.h:37-41 | a delegate starts with its receiver |
| BasicEvents.Delegate.Notify | shared/include/Poco/Delegate.h:64-73 | calls its target exactly while it has not been disabled |
| BasicEvents.Delegate.Disable | shared/include/Poco/Delegate.h:86-90 | never calls again |
| BasicEvents.BasicEvent.constructor | shared/include/Poco/AbstractEvent.h:155-159 | an event starts enabled and without delegates |
| BasicEvents.BasicEvent.AddDelegate | shared/include/Poco/DefaultStrategy.h:65-70 | a clone goes to the end, behind all that were added before, and its handle is new; every delegate ever added is active exactly while it is registered |
| BasicEvents.BasicEvent.EraseAt | shared/include/Poco/DefaultStrategy.h:72-96 | disabling and erasing one delegate keeps that equivalence, also for vectors that share the delegate |
| BasicEvents.BasicEvent.RemoveByTarget | shared/include/Poco/DefaultStrategy.h:72-83 | removes the first delegate equal to the given one, or nothing |
| BasicEvents.BasicEvent.PositionOfTarget | shared/include/Poco/DefaultStrategy.h:74-76 | the search finds the first delegate equal to the given one, or the end |
| BasicEvents.BasicEvent.PositionOfHandle | shared/include/Poco/DefaultStrategy.h:87-89 | the search finds the delegate of the handle, or the end |
| BasicEvents.BasicEvent.RemoveByHandle | shared/include/Poco/DefaultStrategy.h:85-96 | removes exactly the delegate of the handle, or nothing |
| BasicEvents.BasicEvent.ClearDelegates | shared/include/Poco/DefaultStrategy.h:107-114 | disables and removes all |
| BasicEvents.BasicEvent.Perform | shared/include/Poco/AbstractEvent.h:172-210 | an operation of a callback has its specified effect |
| BasicEvents.BasicEvent.PerformAll | shared/include/Poco/AbstractEvent.h:172-210 | so has a sequence of them |
| BasicEvents.BasicEvent.Turn | shared/include/Poco/DefaultStrategy.h:57-63 | a turn invokes its delegate exactly when it is still registered |
| BasicEvents.BasicEvent.StillRegistered | shared/include/Poco/Delegate.h:64-73 | the flag of a shared delegate tells whether it is registered |
| BasicEvents.BasicEvent.Notify | shared/include/Poco/AbstractEvent.h:224-245 | the loop over the copied vector invokes what the value model says, in the order of registration, up to the first callback that throws, whose exception is passed on, and leaves the event as the operations of those turns do; nothing happens when the event is disabled |
| BasicEvents.DisabledEventIsSilent | shared/include/Poco/AbstractEvent.h:224-245 | after disable a notification tells nobody, and after enable it tells the delegate that is still there |
| PoolRuns.StepKeepsInv | shared/include/Poco/ObjectPool.h:209-312 | every step of borrowers and returns keeps size = pooled + lent + lost and both limits, and lends only what is not lent |
| PoolRuns.RunKeepsInv | shared/include/Poco/ObjectPool.h:209-312 | so does every interleaving of borrowers, waiters and returns: no object is pooled twice or both pooled and lent |
| PoolRuns.AvailableIsBorrowable | shared/include/Poco/ObjectPool.h:292-297 | available() is exactly how many zero-timeout borrows in a row succeed, the next one returning null |
| PoolRuns.BorrowUndoesReturn | shared/include/Poco/ObjectPool.h:250-273 | an object that was kept is the next one lent, and lending it restores the state before the return |
| PoolRuns.WakeMissesPooledObjectIff | shared/include/Poco/ObjectPool.h:233-240 | a woken borrower keeps waiting although an object is available exactly when the size is at its peak and the pool is not empty |
| PoolRuns.PooledObjectIsMissed | shared/include/Poco/ObjectPool.h:250-273 | that state is reached: the only object is returned to the pool and the waiting borrower still times out |
| PoolRuns.AllLostLendsNothing | shared/include/Poco/ObjectPool.h:300-312 | a pool whose objects were all lost to failed activation lends nothing in its next step |
| PoolRuns.LostForGood | shared/include/Poco/ObjectPool.h:300-312 | and in no continuation |
| PoolRuns.LendsAgain | shared/include/Poco/ObjectPool.h:209-248 | a pool with an object not lost lends again after at most one return |
| PoolRuns.LendsAgainIff | shared/include/Poco/ObjectPool.h:209-312 | some continuation lends an object if and only if not all objects were lost, which is when size is below its peak or something is pooled or lent |
| PoolRuns.OnlyObjectIsLost | shared/include/Poco/ObjectPool.h:300-312 | a pool that lends nothing any more is reached: its only object is lent, returned and lost in its next activation |
| PoolRuns.BorrowEffect | shared/include/Poco/ObjectPool.h:209-248 | an object is lent when one is pooled (the last returned) or may be made, null exactly without a time-out from a pool with nothing to give, and an exception leaves the lent ones alone |
| PoolRuns.ReturnEffect | shared/include/Poco/ObjectPool.h:250-273 | an object is kept exactly when it is valid and there is room; otherwise it is destroyed and no longer counted |
| PoolRuns.ResumeEffect | shared/include/Poco/ObjectPool.h:224-248 | a woken borrower waits again exactly while the size is at its peak, and makes a new object otherwise; after a time-out it gets null |
| PoolRuns.InvalidIsNeverLentAgain | shared/include/Poco/ObjectPool.h:250-273 | in no continuation is an object lent that has failed its validation or its activation |
| ObjectPools.ObjectPool.constructor | shared/include/Poco/ObjectPool.h:169-179 | a new pool is empty and counts nothing |
| ObjectPools.ObjectPool.CreateObject | shared/include/Poco/ObjectPool.h:243-247 | an object is counted only when both its creation and its activation succeed |
| ObjectPools.ObjectPool.BorrowObject | shared/include/Poco/ObjectPool.h:209-248 | refines the borrow of the protocol up to its first return or wait; with a factory that does not fail it lends exactly when available() is positive |
| ObjectPools.ObjectPool.Resume | shared/include/Poco/ObjectPool.h:233-247 | refines the wake or time-out of a waiting borrower |
| ObjectPools.ObjectPool.ReturnObject | shared/include/Poco/ObjectPool.h:250-273 | refines the return, makes one more object available in either case, and signals waiting borrowers exactly when the object was destroyed |
| ObjectPools.ObjectPool.Available | shared/include/Poco/ObjectPool.h:292-297 | the number that the protocol proves borrowable |
| StreamBufs.FailedRefillKeepsPutbackIff | shared/include/Poco/BufferedBidirectionalStreamBuf.h:86-105 | a refill that fails leaves the putback characters in place for every content exactly when the moved ranges coincide or do not overlap |
| StreamBufs.SecondRefillSeesTheDamage | shared/include/Poco/BufferedBidirectionalStreamBuf.h:86-105 | otherwise a later successful refill can put wrong characters in front of the new ones |
| StreamBufs.WrongCharactersCanBePutBack | shared/include/Poco/BufferedBidirectionalStreamBuf.h:86-105 | a stream that gets there: five characters one by one, once nothing, a sixth, and what can be put back is not what was read |
| StreamBufs.StreamBuf.MovePutback | shared/include/Poco/BufferedBidirectionalStreamBuf.h:93-96 | the move puts the last consumed characters, up to four, in front of position 4 |
| StreamBufs.StreamBuf.ReadFromDevice | shared/include/Poco/BufferedBidirectionalStreamBuf.h:98-98 | what the device delivers stands behind the putback area |
| StreamBufs.PartialFlushRepeats | shared/include/Poco/BufferedBidirectionalStreamBuf.h:144-153 | a character taken of a partial write is sent again |
| StreamBufs.FlushedIsEndOfFile | shared/include/Poco/BufferedBidirectionalStreamBuf.h:72-84 | a successful flush through overflow returns end of file |
| StreamBufs.FlushConservesIff | shared/include/Poco/BufferedBidirectionalStreamBuf.h:144-153 | device output followed by pending output is unchanged by a flush exactly when the device takes all or nothing |
| StreamBufs.RefillDelivers | shared/include/Poco/BufferedBidirectionalStreamBuf.h:93-104 | after a refill, what was consumed followed by the get area is what the device delivered, and the putback area holds the last consumed characters |
| StreamBufs.StreamBuf.constructor | shared/include/Poco/BufferedBidirectionalStreamBuf.h:57-64 | both areas start empty |
| StreamBufs.StreamBuf.Underflow | shared/include/Poco/BufferedBidirectionalStreamBuf.h:86-105 | returns the next character, refills only when there is none, keeps order and the putback area (the latter after a failed refill under the exact condition) |
| StreamBufs.StreamBuf.Bump | shared/include/Poco/BufferedBidirectionalStreamBuf.h:86-105 | the characters consumed are exactly those delivered, in order, none lost or repeated |
| StreamBufs.StreamBuf.FlushBuffer | shared/include/Poco/BufferedBidirectionalStreamBuf.h:144-153 | conserves the output exactly when the device takes all or nothing, and fails exactly when it does not take all |
| StreamBufs.StreamBuf.Overflow | shared/include/Poco/BufferedBidirectionalStreamBuf.h:72-84 | flushes, then stores the character behind what is left pending; a refused character is not put; device output followed by pending output is everything put |
| StreamBufs.StreamBuf.StoreChar | shared/include/Poco/BufferedBidirectionalStreamBuf.h:72-84 | a stored character is the last of the pending output |
| StreamBufs.StreamBuf.PutChar | shared/include/Poco/BufferedBidirectionalStreamBuf.h:72-84 | accepts a character exactly when there is room or a full buffer can be flushed, stores it last, sends nothing unless the buffer is full, and keeps the same conservation |
| StreamBufs.StreamBuf.Sync | shared/include/Poco/BufferedBidirectionalStreamBuf.h:107-114 | succeeds exactly when nothing stays pending, and conserves the output |
| Archives.MovedIsShifted | shared/include/Poco/ArchiveStrategy.h:110-139 | when all links have moved, the chain is shifted by one: no two files meet under one name and every content survives |
| Archives.ChainOfTwo | shared/include/Poco/ArchiveStrategy.h:110-139 | a chain of two and its newest file become a chain of three, oldest last, and the log stays |
| Archives.LogIsArchivedIff | shared/include/Poco/ArchiveStrategy.h:92-107 | the log is found under the stamped name exactly when that name was free before |
| Archives.SecondArchiveLeavesLog | shared/include/Poco/ArchiveStrategy.h:92-107 | of two archivings within one timestamp the second leaves the log in place and its stamped name free |
| Archives.ArchiveByTimestamp.constructor | shared/include/Poco/ArchiveStrategy.h:92-107 | the strategy starts on any finite file set |
| Archives.ArchiveByTimestamp.Exists | shared/include/Poco/ArchiveStrategy.h:103-103 | tells whether the name is taken |
| Archives.ArchiveByTimestamp.MoveFile | shared/include/Poco/ArchiveStrategy.h:136-136 | the file is found under the new name only |
| Archives.ArchiveByTimestamp.ArchiveByNumber | shared/include/Poco/ArchiveStrategy.h:110-139 | terminates on every finite file set; the stamped file becomes .0, each .k below the first gap becomes .k+1, nothing is overwritten and all other files stay |
| Archives.ArchiveByTimestamp.Archive | shared/include/Poco/ArchiveStrategy.h:92-107 | archives the log under a free stamped name; otherwise shifts the chain and leaves the log where it is |
| Archives.ArchiveByTimestamp.OpenLog | shared/include/Poco/ArchiveStrategy.h:106-106 | an existing log is opened with its content, a missing one is created |
| ListMaps.BlocksInsert | shared/include/Poco/ListMap.h:133-143 | inserting at the end of the block of an element keeps equal elements together |
| ListMaps.CutBlockRemovesAllIff | shared/include/Poco/ListMap.h:150-170 | the early return removes every entry of the key exactly when there is no second block of it |
| ListMaps.ContiguousHasOneBlock | shared/include/Poco/ListMap.h:150-170 | a contiguous list has no second block |
| ListMaps.InsertKeepsContiguous | shared/include/Poco/ListMap.h:133-143 | insert keeps equal keys contiguous |
| ListMaps.InsertAppends | shared/include/Poco/ListMap.h:133-143 | insert puts a new key at the end, appends to the entries of a present one, and leaves the others and their order alone |
| ListMaps.CutKeepsContiguous | shared/include/Poco/ListMap.h:145-170 | erasing keeps equal keys contiguous |
| ListMaps.FirstIsHead | shared/include/Poco/ListMap.h:118-131 | find points to the oldest entry of the key |
| ListMaps.ListMap.constructor | shared/include/Poco/ListMap.h:54-57 | an empty map |
| ListMaps.ListMap.Reserve | shared/include/Poco/ListMap.h:59-63 | the map is not empty: it holds so many default entries |
| ListMaps.ListMap.Find | shared/include/Poco/ListMap.h:118-131 | the first entry with an equal key, or the end |
| ListMaps.ListMap.Insert | shared/include/Poco/ListMap.h:133-143 | inserts at the end of the block and returns its position, moving nothing else; keys stay contiguous |
| ListMaps.ListMap.Erase | shared/include/Poco/ListMap.h:150-170 | removes every entry of the key, returns their number and keeps the order of the others |
| ListMaps.ListMap.EraseBlock | shared/include/Poco/ListMap.h:150-170 | the loop cuts out the first block, in any list |
| ListMaps.ListMap.EraseAt | shared/include/Poco/ListMap.h:145-148 | removes that entry only |
| ListMaps.ListMap.Subscript | shared/include/Poco/ListMap.h:196-207 | finds the first entry of a key or inserts a default one |
| ListMaps.ListMap.Lookup | shared/include/Poco/ListMap.h:187-194 | the value of the oldest entry of the key, or NotFoundException |

## Left out

Contracts stated for less than the program's whole behaviour:

- NumericStrings.StrToInt: a numeral beyond the maximum that the guard lets through is the outcome `Undefined` in a signed type, since what machine overflow gives is not defined.
- NumericText.RoundTripIff: excludes the minimum of a signed type, whose magnitude does not fit the type, fill characters other than blank and zero, which the parser was never meant to skip, and a separator that is itself a digit.
- NumericStrings.IntToStr: the debug assertions on the size are not modelled; `uIntToStr` (lines 337-408) is the same code without the sign and is described by the contract for values from 0 on.
- FifoBuffers.FifoBuffer.Resize: when the stored part no longer lies within the new size the buffer leaves the model; what later calls then do in unsigned arithmetic is stated for `write` only (`AcceptsFreeSpaceIff`).
- FifoBuffers.FifoBuffer.NotifyChange: announcements are tied to the contents for runs of read, write, drain, copy and advance; setEOF, setError(false) and resize notify regardless, as their contracts say.
- StreamBufs.StreamBuf.constructor: a buffer size below 4, for which the pointers of the putback area lie outside the buffer, is excluded, as are putting characters back and seeking.
- StreamBufs.StreamBuf.FlushBuffer: the device reports as its result the number of characters it has taken.
- Hmacs.HmacEngine.Digest: a digest longer than a block, which RFC 2104 does not foresee, is cut to a block when it stands for a key, as the code does.
- Packets.MessagePacket.Read: bytes of an `int` are taken as four, least significant first, and memory that has not been written is a parameter of the model; a packet whose message has been deleted without a replacement cannot be used again.
- ExpireCaches.ExpireStrategy.OnAdd: an entry the key already has is erased before the insertion and not after it; nothing in between depends on the order.
- BasicEvents.BasicEvent.Notify: what callbacks and other threads do is given per turn as a sequence of operations; what a nested notification calls is not part of it, and what a callback that throws has itself done to the event before is not stated.
- BasicEvents.BasicEvent.RemoveByHandle: handles are numbers that are never given twice, while the source compares addresses, so that the handle of a removed delegate can name a later one that was allocated at the same place.
- Events.RemovedStaysRemoved: about delegates and not about addresses, for the same reason.
- ExpireRuns.FetchServesYoungIff: every operation reads the clock once, while a fetch under access expiry reads it for the renewal and again for the check, and a scan for expired entries at each of them.
- ActiveMethods.NoUseAfterDelete: about one invocation at a time (invocations share nothing), with `run()`, `operator ()` and `start()` as atomic steps of a state machine and not as methods on heap objects; destructors of other objects are left out.
- AutoPtrs.RunKeepsInv: pointers and counts are maps and the operations steps on them, so that aliasing is in the maps and not on the heap; objects that own AutoPtrs themselves are the subject of OwningNodes, with one AutoPtr in each node and no plain pointers.
- LinearHashTables.AddressInRange: hash values and bucket counts are unbounded numbers; doubling beyond the machine word is not modelled.
- LinearHashTables.LinearHashTable.Split: buckets are sequences, so that moving an element between buckets by swap with a default value is a plain append.

Not modelled:

- `AbstractCache` is written out once per strategy, for `LRUStrategy` and for the two expire strategies; `ExpireLRUCache` and `AccessExpireLRUCache` need `StrategyCollection`, which is not part of this model.
- getAllKeys, forceReplace, null values, and the public events that a cache raises for its users.
- Locks, condition variables and thread pools: a region under a lock is one step, and an event is a flag.
- Time-outs and the data and exception accessors of `ActiveResult`; `ActiveDispatcher` and `Activity`.
- notifyAsync, expiring and priority delegates, and function delegates.
- `Buffer` apart from resize: setCapacity, assign, append and comparison.
- reserve, copying, swapping and assigning of the containers.
- Floating-point formatting and parsing, and white space of other locales.
- Compressing, purging and rotating log files, and other archive strategies.
- Casts and comparisons of `AutoPtr`; `SharedPtr`.
- Hash functions themselves, and all classes of which only the interface is here (digests, checksums, paths, dates, notification queues, memory pools).
- Sockets, the server and client loops, the console, the SQLite white list and option parsing.
- `HashTable`, `Nullable`, `Optional`, `DynamicFactory`, `ByteOrder` and `Any`: they would add easy members only.
