# ZSLRUQueueCache, modelled in Dafny

`ZSLRUQueueCache` is a two-tier least-recently-used cache.

- **Memory tier.** The `memoryCache` dictionary, bounded by the number of items (`memoryCountLimit`).
- **Disk tier.** One archived file per key in the cache directory, bounded by total bytes (`diskSizeLimit`). The running total is kept in `diskSize`.
- **Recency queue.** Both tiers share one ordering of keys, `keyQueue`.

A limit of 0 means unlimited. When a tier is over its limit, the least recently used keys are ejected from that tier first. On low memory the cache can optionally empty its memory tier and shrink the count limit by a resize factor, but never below 1.

The model is purely functional. A cache state is an immutable `Cache` value, and every public operation is a function from one state to the next.

| file | module | what it holds |
|---|---|---|
| `queue.dfy` | `RecencyQueue` | the queue as a `seq` of distinct keys: touch (move to the most recently used end), prune, oldest resident key, and the predicate `EvictsOldestFirst` that defines "least recently used first" |
| `memory_tier.dfy` | `MemoryTier` | count-bounded ejection from the memory dictionary |
| `disk_tier.dfy` | `DiskTier` | files as `Blob(value, bytes)` by key with a running byte total; write, byte-bounded deletion, and the directory scan |
| `cache.dfy` | `LruCache` | the facade: state, the `Valid` invariant, initialisers, setters, `setObject:forKey:`, `objectForKey:`, the two `removeAll…` methods, the low-memory handler, and `diskSize` |
| `cache_properties.dfy` | `CacheProperties` | properties that span several calls: LRU order in each tier, round trips, promotion on access, the two-slot recency scenario, and repeated low-memory events |

Three design decisions shape the model.

- **Two independent tiers.** Memory ejection removes a key from memory only, and disk ejection deletes only its file. A key stays queued while it is resident in either tier.
- **`Valid`, the invariant every public operation keeps:**
  - the queue holds each resident key exactly once, and nothing else;
  - `diskSize` equals the sum of the file sizes;
  - a key resident in both tiers holds the same object in both.
- **Limits are not part of `Valid`.** A setter can lower a limit without ejecting anything, so being within the limits is a separate predicate, `WithinLimits`. Every insertion re-establishes it, and a lookup keeps it when it held before.

The archived size of an object (what NSCoding would produce) is a parameter of `SetObject`. The low-memory resize factor is a parameter of `OnLowMemory` and must be at least 2.

Two facts about the settings come from the header.

- `exclusiveDiskCacheUser` defaults to YES (Classes/ZSLRUQueueCache.h:71).
- The settings are mutable properties (Classes/ZSLRUQueueCache.h:98-106).

Objects are immutable values. The memory tier of the class holds the caller's object while the disk holds an archive of it; the model assumes the object is not changed afterwards, so "a key resident in both tiers holds the same object in both" is meaningful.

`countInMemory` is modelled by `LruCache.CountInMemory`, the size of the memory dictionary. The contracts below use it, and it has no contract of its own.

## Model

| member | source | states |
|---|---|---|
| RecencyQueue.Touch | Classes/ZSLRUQueueCache.h:93-95 | using a key makes it the most recently used: it ends up last, after every other queued key; the queue holds the same keys plus this one, no key is queued twice, and any two other keys keep their relative order |
| RecencyQueue.TouchNewestIsNoOp | Classes/ZSLRUQueueCache.h:93-95 | using the key that is already the most recently used leaves the queue as it is |
| RecencyQueue.TouchIdempotent | Classes/ZSLRUQueueCache.h:93-95 | using a key twice in a row orders the queue the same as using it once |
| RecencyQueue.Keep | Classes/ZSLRUQueueCache.h:93-95 | forgetting queued keys keeps exactly the chosen keys, still without duplicates; two kept keys are in the same order as before, and no other pair is ordered |
| RecencyQueue.OldestIn | Classes/ZSLRUQueueCache.h:29-31 | finds the least recently used key of a tier: it is resident there, and no older queued key is |
| RecencyQueue.EvictOldestStep | Classes/ZSLRUQueueCache.h:29-31 | ejecting the least recently used resident key is an oldest-first ejection |
| RecencyQueue.EvictsOldestFirstTrans | Classes/ZSLRUQueueCache.h:29-31 | two oldest-first ejections in a row are one oldest-first ejection |
| RecencyQueue.NewestSurvives | Classes/ZSLRUQueueCache.h:29-31 | an oldest-first ejection that keeps any queued key keeps the most recently used one |
| RecencyQueue.NewestEvictedEmptiesAll | Classes/ZSLRUQueueCache.h:29-31 | an oldest-first ejection that removes the most recently used key removes every key |
| RecencyQueue.SecondNewestSurvives | UnitTests/TestZSLRUQueueCache.h:39-42 | an oldest-first ejection that keeps two or more queued keys keeps the second most recently used one |
| RecencyQueue.TouchKeepOrder | Classes/ZSLRUQueueCache.h:29-31 | touching a key and then keeping a set of keys moves only that key: any two other queued keys survive exactly when both are kept, and then in their previous order |
| RecencyQueue.TouchKeepsPreviousNewest | UnitTests/TestZSLRUQueueCache.h:39-42 | after using another key, the previously most recently used key is second most recent |
| MemoryTier.EvictToCount | Classes/ZSLRUQueueCache.h:50-53 | memory ejection only removes keys and leaves the survivors' objects alone. With limit 0, or when within the limit, nothing is ejected. Otherwise exactly `limit` keys remain, chosen oldest first |
| DiskTier.BytesRemove | Classes/ZSLRUQueueCache.h:58-63 | the size of the directory does not depend on the order in which its files are summed |
| DiskTier.Write | Classes/ZSLRUQueueCache.h:58-63 | writing a file stores the archive under its key and leaves the other files alone. `diskSize` stays the true total: an overwrite adjusts it by the size difference |
| DiskTier.DeleteOldest | Classes/ZSLRUQueueCache.h:29-31 | deleting a file removes exactly one, the least recently used, and keeps `diskSize` the true total |
| DiskTier.EvictToSize | Classes/ZSLRUQueueCache.h:54-57 | disk ejection only deletes files and leaves the survivors alone. With limit 0, or when within the limit, nothing is deleted. Otherwise the total ends within the limit, with files deleted oldest first, and deletion stops as soon as the total fits: restoring the last file deleted would exceed the limit |
| DiskTier.LastDeletionStep | Classes/ZSLRUQueueCache.h:54-57 | deleting the oldest file of an over-full directory and then ejecting just enough leaves an ejection that went no further than needed |
| DiskTier.NewestFittingSurvives | Classes/ZSLRUQueueCache.h:29-31 | the most recently used file is never deleted if it fits within the byte limit on its own |
| DiskTier.NewestOutlivesOldest | Classes/ZSLRUQueueCache.h:29-31 | while other files account for some of the bytes, deleting the oldest file spares the newest |
| DiskTier.ScanSize | Classes/ZSLRUQueueCache.h:58-63 | the expensive summation over the directory, one file at a time, yields the true total size |
| LruCache.InitWithLimits | Classes/ZSLRUQueueCache.h:119-130 | the designated initialiser gives an empty, valid cache in the given directory, with the requested limits and the documented defaults (exclusive YES, clear NO, reduce NO) |
| LruCache.InitWithCacheDirectory | Classes/ZSLRUQueueCache.h:110-117 | the plain initialiser gives an empty, valid cache in the given directory, with no limits and the same defaults |
| LruCache.Configure | Classes/ZSLRUQueueCache.h:98-106 | the setters of the limits and flags replace the settings, keep the directory and the cached contents, and keep the cache valid |
| LruCache.Prune | Classes/ZSLRUQueueCache.h:93-95 | once evictions are done, the queue holds exactly the keys resident in some tier, and any two of them keep their recency order; both tiers and the settings are untouched |
| LruCache.SetObject | Classes/ZSLRUQueueCache.h:136 | `setObject:forKey:` keeps the cache valid and within both limits, keeps the settings, and the stored object is in memory afterwards |
| LruCache.ObjectForKey | Classes/ZSLRUQueueCache.h:134 | `objectForKey:` finds a key exactly when some tier holds it, returns that tier's object, and leaves the key in memory. A miss changes nothing. The disk and the settings are never changed |
| LruCache.RemoveAllObjectsFromMemory | Classes/ZSLRUQueueCache.h:138 | `removeAllObjectsFromMemory` leaves a count of 0 and the disk unchanged; only keys still on disk stay queued, in their recency order |
| LruCache.RemoveAllObjectsFromDisk | Classes/ZSLRUQueueCache.h:140 | `removeAllObjectsFromDisk` leaves no files, a `diskSize` of 0, and memory unchanged; only keys still in memory stay queued, in their recency order |
| LruCache.ShrunkLimit | Classes/ZSLRUQueueCache.h:80-91 | the reduced limit: 0 (unlimited) stays 0; a positive limit never drops below 1 and a limit above 1 strictly decreases; a limit of at least the factor becomes its floor quotient by the factor, and a smaller positive limit becomes 1 |
| LruCache.OnLowMemory | Classes/ZSLRUQueueCache.h:74-91 | a low-memory event does nothing unless clearing is on. With clearing, memory is emptied, the disk kept, and the queue is the one `removeAllObjectsFromMemory` leaves, so the disk keys keep their recency order. With reducing as well, the count limit becomes its shrunk value (`ShrunkLimit`), so a nonzero limit stays between 1 and its old value. The flags and validity are kept |
| LruCache.DiskSize | Classes/ZSLRUQueueCache.h:58-63 | `diskSize` reports the true total in both modes: from the counter for an exclusive user, from a scan otherwise |
| LruCache.InsertStaysCoherent | Classes/ZSLRUQueueCache.h:29-31 | after an insertion's ejections, a key left in both tiers holds the same object in both |
| LruCache.LoadStaysCoherent | Classes/ZSLRUQueueCache.h:134 | loading a file into memory, then ejecting, leaves the tiers agreeing on every key they share |
| LruCache.NewestInMemorySurvives | Classes/ZSLRUQueueCache.h:29-31 | the key just used is never the one ejected from memory |
| CacheProperties.SetObjectMakesNewest | Classes/ZSLRUQueueCache.h:136 | a stored key becomes the most recently used |
| CacheProperties.SetObjectKeepsOrder | Classes/ZSLRUQueueCache.h:29-31 | an insertion moves only the stored key: any two other keys still queued keep their recency order, and no pair changes order |
| CacheProperties.SetObjectEvictsOldestFromMemory | Classes/ZSLRUQueueCache.h:29-31 | an insertion ejects from memory oldest first and changes no other key's object. With limit 0 or within the limit, memory is the old dictionary plus the new key; otherwise the count equals the limit |
| CacheProperties.SetObjectEvictsOldestFromDisk | Classes/ZSLRUQueueCache.h:54-57 | an insertion deletes files oldest first and changes no other key's file. It deletes nothing while the new total fits, or when there is no byte limit, and stops deleting as soon as the total fits |
| CacheProperties.SetObjectKeepsOnDiskIffFits | Classes/ZSLRUQueueCache.h:54-57 | the stored key stays on disk if and only if its own archive fits the byte limit (or there is none), and the file holds what was stored |
| CacheProperties.OversizedObjectEmptiesDisk | Classes/ZSLRUQueueCache.h:29-31 | storing an object whose archive alone exceeds a nonzero byte limit deletes every file: all older files are deleted before it, and then it is deleted too |
| CacheProperties.SetThenGet | UnitTests/TestZSLRUQueueCache.h:29-32 | round trip: looking up a key just stored returns the stored object |
| CacheProperties.DiskCopySurvivesMemoryClear | Classes/ZSLRUQueueCache.h:138 | an object stored with an archive that fits on disk is still found after memory is emptied |
| CacheProperties.ObjectForKeyMemoryHit | Classes/ZSLRUQueueCache.h:134 | a memory hit only moves the key to the most recently used end |
| CacheProperties.ObjectForKeyLoadsFromDisk | Classes/ZSLRUQueueCache.h:134 | a disk hit loads the object as the most recently used key, adds no other key to memory, and leaves the surviving objects unchanged. The memory ejection it causes is least recently used first, ejects nothing when the keys fit, and otherwise leaves exactly `memoryCountLimit` keys; the limits stay met |
| CacheProperties.DiskLoadMemoryKeys | Classes/ZSLRUQueueCache.h:50-53 | over key sets, the memory ejection after a disk hit is oldest first, ejects nothing when the keys fit, and otherwise leaves exactly the count limit |
| CacheProperties.DiskLoadKeepsOrder | Classes/ZSLRUQueueCache.h:29-31 | a disk hit moves only the loaded key: any two other keys still queued keep their recency order, and no pair changes order |
| CacheProperties.DiskLoadIsNewest | Classes/ZSLRUQueueCache.h:134 | after a disk hit the key is the most recently used |
| CacheProperties.DiskLoadKeepsOthers | Classes/ZSLRUQueueCache.h:134 | a disk hit brings no key but its own into memory and changes no other in-memory object |
| CacheProperties.ObjectForKeyPromotes | UnitTests/TestZSLRUQueueCache.h:39-42 | a hit makes the key the most recently used; memory gains at most that key, other objects are unchanged, and the limits are kept |
| CacheProperties.LookupIdempotent | Classes/ZSLRUQueueCache.h:134 | looking up a key twice in a row gives the same object and state as looking it up once |
| CacheProperties.RepeatedMemoryHit | Classes/ZSLRUQueueCache.h:134 | a memory hit on the most recently used key leaves the cache as it was |
| CacheProperties.PromotedKeySurvivesNextInsert | UnitTests/TestZSLRUQueueCache.h:39-42 | with room for two or more objects (or no limit), a key just looked up, whether found in memory or on disk, survives the next insertion of another key |
| CacheProperties.NewestSurvivesNextInsert | UnitTests/TestZSLRUQueueCache.h:34-37 | with room for two or more objects (or no limit), the most recently used in-memory key survives the next insertion of another key |
| CacheProperties.SetObjectMemoryKeys | Classes/ZSLRUQueueCache.h:50-53 | seen through the set of in-memory keys, an insertion ejects oldest first, exactly down to the count limit |
| CacheProperties.ThirdInsertEjectsOldest | UnitTests/TestZSLRUQueueCache.h:34-37 | with room for two and keys a then b in memory, storing a third key ejects a |
| CacheProperties.LookupThenInsertEjectsOther | UnitTests/TestZSLRUQueueCache.h:39-42 | with room for two, looking up one of the two keys and then storing a new key ejects the other one |
| CacheProperties.InsertFits | Classes/ZSLRUQueueCache.h:50-53 | an insertion that fits the count limit ejects nothing from memory |
| CacheProperties.FirstInsertFits | UnitTests/TestZSLRUQueueCache.h:34-37 | the first object stored into an empty cache with room for two is the only one in memory |
| CacheProperties.SecondInsertFits | UnitTests/TestZSLRUQueueCache.h:34-37 | with room for two and one key in memory, a second key joins it and becomes the most recently used |
| CacheProperties.TwoInsertsFit | UnitTests/TestZSLRUQueueCache.h:34-37 | two objects stored into an empty cache with room for two are both kept, the second as most recently used |
| CacheProperties.RecencyScenario | UnitTests/TestZSLRUQueueCache.h:34-42 | with room for two: after storing 1, 2, 3, memory holds {2, 3}; looking up 2 and storing 4 leaves {2, 4} |
| CacheProperties.LookupAfterClearingMemory | Classes/ZSLRUQueueCache.h:138 | after memory is emptied, a lookup finds exactly the keys on disk, with their archived objects |
| CacheProperties.LookupAfterClearingDisk | Classes/ZSLRUQueueCache.h:140 | after the disk is emptied, a lookup finds exactly the keys in memory, with their objects |
| CacheProperties.ShrunkLimitNBounds | Classes/ZSLRUQueueCache.h:85-87 | repeated shrinking of a positive limit stays between 1 and the original limit, shrinks at least geometrically, and is exactly 1 once the factor to the power n reaches the limit |
| CacheProperties.LowMemoryEventsShrink | UnitTests/TestZSLRUQueueCache.h:49-52 | with clearing and reducing on, each of n low-memory events shrinks the limit once, memory is empty after the first, and the disk is untouched |
| CacheProperties.RepeatedLowMemory | Classes/ZSLRUQueueCache.h:80-91 | repeated low-memory events shrink a positive count limit geometrically but never below 1, reaching 1 after enough events |

## Left out

- **Filesystem work.** Directory creation, file reads and writes, and a missing trailing slash are left out. Each file is a `Blob` of the object and its byte size, keyed by the cache key.
- **NSCoding archiving.** The archived size is a parameter of `SetObject`, and unarchiving is assumed to return the stored object.
- **`diskFilenameForCacheKey:`.** The implementation file of the class is not part of this model. The model keys files by the cache key itself. This assumes the naming function is injective: two distinct keys never share a file. A naming collision would make two keys overwrite one file, and that is not modelled.
- **Rescanning on every insertion.** A non-exclusive user recalculates the directory size on each addition. Without foreign files that scan equals the running total (`LruCache.DiskSize`), so ejection uses the running total in both modes.
- **Foreign files in the cache directory.** When `exclusiveDiskCacheUser` is NO the directory could hold other files. They are not modelled: the scan in `DiskTier.ScanSize` sums exactly the cache's own files.
- **The value of `ZSLRUQueueCache_DYNAMIC_RESIZE_FACTOR`.** Its value is not given in the header. The factor is the parameter `factor >= 2`, applied with floor division. The header also mentions a size limit being reduced; the only in-memory limit is the count limit, and that is the one shrunk.
- **Low-memory notifications.** UIKit's registration and delivery are replaced by the explicit transition `OnLowMemory`.
- **Concurrency.** The properties are `nonatomic` and nothing in the header synchronises, so the model is single-threaded.
- **Integer widths.** `NSUInteger` and `unsigned long long` are modelled as unbounded naturals. Overflow of `diskSize` is not modelled.
- **Setters that lower a limit.** The header does not say whether lowering a limit ejects at once. In the model the next insertion re-establishes `WithinLimits`.
- **I/O errors.** Unreadable or corrupt files, and archiving failures, are not modelled: a file once written is always readable.
- LruCache.InitWithLimits: starts with an empty disk tier, so the cache directory is assumed empty. The header lets the directory already exist, and every file in it then belongs to the cache (Classes/ZSLRUQueueCache.h:43-44). Files left by an earlier instance are not modelled: the header gives neither their sizes nor their recency order.
- LruCache.InitWithCacheDirectory: the same empty-directory assumption, since it delegates to `InitWithLimits`.
- **Setting `cacheDirectory`.** The header declares it as a mutable property (Classes/ZSLRUQueueCache.h:98). `LruCache.Configure` replaces only the settings; moving an existing cache to another directory is not modelled.
- **Object identity.** Objects and keys are values. Nil objects or keys, and the aliasing of a mutable object held in memory while its archive sits on disk, are not modelled.
- **The helper classes.** `ZSFloat`, `ZSBool` and `ZSKeyValuePair` are value holders without logic. They are not part of this model.
