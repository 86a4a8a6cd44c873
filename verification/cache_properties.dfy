/**
 Properties of the cache that relate several operations, or that describe one
 operation in more detail than its own contract: least-recently-used ejection in
 each tier, the round trips through memory and through disk, promotion on access,
 and the low-memory shrink policy.
 */
module CacheProperties {
  import opened RecencyQueue
  import opened MemoryTier
  import opened DiskTier
  import opened LruCache

  /** An insertion makes its key the most recently used. */
  lemma SetObjectMakesNewest<K, V>(c: Cache<K, V>, k: K, v: V, bytes: nat)
    requires Valid(c)
    ensures var r := SetObject(c, k, v, bytes);
      |r.queue| > 0 && r.queue[|r.queue| - 1] == k
  {
    SetObjectSteps(c, k, v, bytes);
    var r := SetObject(c, k, v, bytes);
    KeepNewest(Touch(c.queue, k), r.memory.Keys + r.disk.files.Keys);
  }

  /**
   An insertion ejects least recently used keys first from memory, changes no
   other key's in-memory object, ejects only while memory is over its count limit
   and then exactly as many keys as the limit demands. With a limit of 0 memory
   never ejects.
   */
  lemma SetObjectEvictsOldestFromMemory<K, V>(c: Cache<K, V>, k: K, v: V, bytes: nat)
    requires Valid(c)
    ensures var r := SetObject(c, k, v, bytes);
      var limit := c.settings.memoryCountLimit;
      && EvictsOldestFirst(Touch(c.queue, k), c.memory.Keys + {k}, r.memory.Keys)
      && (forall x :: x in r.memory && x != k ==> x in c.memory && r.memory[x] == c.memory[x])
      && (limit == 0 || |c.memory[k := v]| <= limit ==> r.memory == c.memory[k := v])
      && (limit > 0 && |c.memory[k := v]| > limit ==> CountInMemory(r) == limit)
  {
    SetObjectSteps(c, k, v, bytes);
    InsertThenEvictToCount(Touch(c.queue, k), c.memory, k, v, c.settings.memoryCountLimit);
  }

  /** Inserting into memory and then ejecting, stated over the map before the insertion. */
  lemma InsertThenEvictToCount<K, V>(q: seq<K>, m: map<K, V>, k: K, v: V, limit: nat)
    requires Unique(q) && m.Keys + {k} <= Elems(q)
    ensures var r := EvictToCount(q, m[k := v], limit);
      && EvictsOldestFirst(q, m.Keys + {k}, r.Keys)
      && (forall x :: x in r && x != k ==> x in m && r[x] == m[x])
  {
    assert m[k := v].Keys == m.Keys + {k};
  }

  /**
   An insertion deletes least recently used files first, changes no other key's
   file, deletes nothing while the new total is within the byte limit (or there
   is none), and stops deleting as soon as the total fits.
   */
  lemma SetObjectEvictsOldestFromDisk<K, V>(c: Cache<K, V>, k: K, v: V, bytes: nat)
    requires Valid(c)
    ensures var r := SetObject(c, k, v, bytes);
      var limit := c.settings.diskSizeLimit;
      && EvictsOldestFirst(Touch(c.queue, k), c.disk.files.Keys + {k}, r.disk.files.Keys)
      && (forall x :: x in r.disk.files && x != k ==> x in c.disk.files && r.disk.files[x] == c.disk.files[x])
      && (limit == 0 || Bytes(c.disk.files[k := Blob(v, bytes)]) <= limit
          ==> r.disk.files == c.disk.files[k := Blob(v, bytes)])
      && LastDeletionNeeded(Touch(c.queue, k), c.disk.files[k := Blob(v, bytes)], r.disk, limit)
  {
    SetObjectSteps(c, k, v, bytes);
    WriteThenEvictToSize(Touch(c.queue, k), c.disk, k, v, bytes, c.settings.diskSizeLimit);
  }

  /** Writing a file and then ejecting, stated over the files before the write. */
  lemma WriteThenEvictToSize<K, V>(q: seq<K>, d: Disk<K, V>, k: K, v: V, bytes: nat, limit: nat)
    requires Unique(q) && d.files.Keys + {k} <= Elems(q) && Accounted(d)
    ensures var w := Write(d, k, v, bytes);
      var r := EvictToSize(q, w, limit);
      && w.files == d.files[k := Blob(v, bytes)]
      && EvictsOldestFirst(q, d.files.Keys + {k}, r.files.Keys)
      && (forall x :: x in r.files && x != k ==> x in d.files && r.files[x] == d.files[x])
      && LastDeletionNeeded(q, d.files[k := Blob(v, bytes)], r, limit)
  {
    var w := Write(d, k, v, bytes);
    assert w.files == d.files[k := Blob(v, bytes)];
  }

  /**
   The inserted key stays on disk exactly when its own archive fits within the
   byte limit (or there is none): every older file is deleted before it.
   */
  lemma SetObjectKeepsOnDiskIffFits<K, V>(c: Cache<K, V>, k: K, v: V, bytes: nat)
    requires Valid(c)
    ensures var r := SetObject(c, k, v, bytes);
      && (k in r.disk.files <==> c.settings.diskSizeLimit == 0 || bytes <= c.settings.diskSizeLimit)
      && (k in r.disk.files ==> r.disk.files[k] == Blob(v, bytes))
  {
    var limit := c.settings.diskSizeLimit;
    var q := Touch(c.queue, k);
    var w := Write(c.disk, k, v, bytes);
    SetObjectSteps(c, k, v, bytes);
    var r := SetObject(c, k, v, bytes);
    if limit > 0 && bytes <= limit {
      NewestFittingSurvives(q, w, limit);
    }
    if k in r.disk.files {
      BytesBound(r.disk.files, k);
    }
  }

  /**
   An object whose archive alone exceeds a nonzero byte limit empties the disk:
   every older file is deleted before the new one, and then the new one too.
   */
  lemma OversizedObjectEmptiesDisk<K, V>(c: Cache<K, V>, k: K, v: V, bytes: nat)
    requires Valid(c) && c.settings.diskSizeLimit > 0 && bytes > c.settings.diskSizeLimit
    ensures SetObject(c, k, v, bytes).disk.files == map[]
  {
    SetObjectKeepsOnDiskIffFits(c, k, v, bytes);
    SetObjectEvictsOldestFromDisk(c, k, v, bytes);
    NewestEvictedEmptiesAll(Touch(c.queue, k), c.disk.files.Keys + {k}, SetObject(c, k, v, bytes).disk.files.Keys);
  }

  /** Round trip: an object just stored is what a lookup of its key returns. */
  lemma SetThenGet<K, V>(c: Cache<K, V>, k: K, v: V, bytes: nat)
    requires Valid(c)
    ensures ObjectForKey(SetObject(c, k, v, bytes), k).found == Some(v)
  {
  }

  /**
   The disk copy outlives the memory tier: once stored with an archive that fits
   the byte limit, an object is still found after memory has been emptied.
   */
  lemma DiskCopySurvivesMemoryClear<K, V>(c: Cache<K, V>, k: K, v: V, bytes: nat)
    requires Valid(c)
    requires c.settings.diskSizeLimit == 0 || bytes <= c.settings.diskSizeLimit
    ensures ObjectForKey(RemoveAllObjectsFromMemory(SetObject(c, k, v, bytes)), k).found == Some(v)
  {
    SetObjectKeepsOnDiskIffFits(c, k, v, bytes);
  }

  /** A lookup that hits in memory only moves the key to the most recently used end. */
  lemma ObjectForKeyMemoryHit<K, V>(c: Cache<K, V>, k: K)
    requires Valid(c) && k in c.memory
    ensures ObjectForKey(c, k).cache == c.(queue := Touch(c.queue, k))
  {
  }

  /**
   A lookup that hits on disk loads the object into memory as the most recently
   used key, ejecting for the count limit as an insertion does: least recently
   used first, and only down to the limit.
   */
  lemma ObjectForKeyLoadsFromDisk<K, V>(c: Cache<K, V>, k: K)
    requires Valid(c) && k !in c.memory && k in c.disk.files
    ensures var r := ObjectForKey(c, k).cache;
      && |r.queue| > 0 && r.queue[|r.queue| - 1] == k
      && (forall x :: x in r.memory ==> x in c.memory || x == k)
      && (forall x :: x in r.memory && x in c.memory ==> r.memory[x] == c.memory[x])
      && (WithinLimits(c) ==> WithinLimits(r))
      && DiskLoadEjection(c, k, r.memory.Keys)
  {
    ObjectForKeyDiskSteps(c, k);
    DiskLoadIsNewest(c, k);
    DiskLoadKeepsOthers(c, k);
    DiskLoadMemoryKeys(c, k);
  }

  /**
   The memory keys after loading `k` from disk: an oldest-first ejection from the
   old keys plus `k`, ejecting nothing when they fit and exactly down to the limit
   otherwise.
   */
  ghost predicate DiskLoadEjection<K, V>(c: Cache<K, V>, k: K, after: set<K>) {
    var before := c.memory.Keys + {k};
    var limit := c.settings.memoryCountLimit;
    && EvictsOldestFirst(Touch(c.queue, k), before, after)
    && (limit == 0 || |before| <= limit ==> after == before)
    && (limit > 0 && |before| > limit ==> |after| == limit)
  }

  /** The memory ejection of a disk hit, over key sets. */
  lemma DiskLoadMemoryKeys<K, V>(c: Cache<K, V>, k: K)
    requires Valid(c) && k !in c.memory && k in c.disk.files
    ensures DiskLoadEjection(c, k, ObjectForKey(c, k).cache.memory.Keys)
  {
    ObjectForKeyDiskSteps(c, k);
    InsertThenEvictKeys(Touch(c.queue, k), c.memory, k, c.disk.files[k].value, c.settings.memoryCountLimit);
  }

  /** A key loaded from disk becomes the most recently used. */
  lemma DiskLoadIsNewest<K, V>(c: Cache<K, V>, k: K)
    requires Valid(c) && k !in c.memory && k in c.disk.files
    ensures var r := ObjectForKey(c, k).cache;
      |r.queue| > 0 && r.queue[|r.queue| - 1] == k
  {
    var r := ObjectForKey(c, k).cache;
    ObjectForKeyDiskSteps(c, k);
    KeepNewest(Touch(c.queue, k), r.memory.Keys + c.disk.files.Keys);
  }

  /** Loading from disk adds only the loaded key to memory and leaves other objects alone. */
  lemma DiskLoadKeepsOthers<K, V>(c: Cache<K, V>, k: K)
    requires Valid(c) && k !in c.memory && k in c.disk.files
    ensures var r := ObjectForKey(c, k).cache;
      && (forall x :: x in r.memory ==> x in c.memory || x == k)
      && (forall x :: x in r.memory && x in c.memory ==> r.memory[x] == c.memory[x])
  {
    ObjectForKeyDiskSteps(c, k);
    InsertThenEvictToCount(Touch(c.queue, k), c.memory, k, c.disk.files[k].value, c.settings.memoryCountLimit);
  }

  /**
   A lookup hit makes the key the most recently used; it loads at most that key
   into memory, keeps every other in-memory object unchanged, and keeps memory
   within its count limit.
   */
  lemma ObjectForKeyPromotes<K, V>(c: Cache<K, V>, k: K)
    requires Valid(c)
    ensures var r := ObjectForKey(c, k);
      && (r.found.Some? ==> |r.cache.queue| > 0 && r.cache.queue[|r.cache.queue| - 1] == k)
      && (forall x :: x in r.cache.memory ==> x in c.memory || x == k)
      && (forall x :: x in r.cache.memory && x in c.memory ==> r.cache.memory[x] == c.memory[x])
      && (k in c.memory ==> r.cache.memory == c.memory)
      && (WithinLimits(c) ==> WithinLimits(r.cache))
  {
    if k in c.memory {
      ObjectForKeyMemoryHit(c, k);
    } else if k in c.disk.files {
      ObjectForKeyLoadsFromDisk(c, k);
    }
  }

  /** Looking a key up twice in a row is the same as looking it up once. */
  lemma LookupIdempotent<K, V>(c: Cache<K, V>, k: K)
    requires Valid(c)
    ensures ObjectForKey(ObjectForKey(c, k).cache, k) == ObjectForKey(c, k)
  {
    if k in c.memory {
      ObjectForKeyMemoryHit(c, k);
      RepeatedMemoryHit(c.(queue := Touch(c.queue, k)), k);
    } else if k in c.disk.files {
      DiskLoadIsNewest(c, k);
      RepeatedMemoryHit(ObjectForKey(c, k).cache, k);
    }
  }

  /** A memory hit on the most recently used key changes nothing. */
  lemma RepeatedMemoryHit<K, V>(c: Cache<K, V>, k: K)
    requires Valid(c) && k in c.memory && |c.queue| > 0 && c.queue[|c.queue| - 1] == k
    ensures ObjectForKey(c, k) == Fetched(c, Some(c.memory[k]))
  {
    ObjectForKeyMemoryHit(c, k);
    TouchNewestIsNoOp(c.queue, k);
  }

  /**
   Promotion protects: with room for two objects in memory, a key just looked up
   (found in memory or on disk) is not the one ejected by the next insertion of a
   different key.
   */
  lemma PromotedKeySurvivesNextInsert<K, V>(c: Cache<K, V>, k: K, k': K, v: V, bytes: nat)
    requires Valid(c) && (k in c.memory || k in c.disk.files) && k' != k
    requires c.settings.memoryCountLimit == 0 || c.settings.memoryCountLimit >= 2
    ensures k in SetObject(ObjectForKey(c, k).cache, k', v, bytes).memory
  {
    ObjectForKeyPromotes(c, k);
    NewestSurvivesNextInsert(ObjectForKey(c, k).cache, k, k', v, bytes);
  }

  /**
   An insertion moves only the stored key: every other key still queued keeps
   its recency order relative to the others.
   */
  lemma SetObjectKeepsOrder<K, V>(c: Cache<K, V>, k: K, v: V, bytes: nat)
    requires Valid(c)
    ensures var r := SetObject(c, k, v, bytes);
      forall x, y {:trigger Precedes(r.queue, x, y)} | x in c.queue && y in c.queue && x != k && y != k ::
        Precedes(r.queue, x, y) <==> x in r.queue && y in r.queue && Precedes(c.queue, x, y)
  {
    SetObjectSteps(c, k, v, bytes);
    var r := SetObject(c, k, v, bytes);
    TouchKeepOrder(c.queue, k, r.memory.Keys + r.disk.files.Keys);
  }

  /**
   A lookup that hits on disk moves only the loaded key: every other key still
   queued keeps its recency order relative to the others.
   */
  lemma DiskLoadKeepsOrder<K, V>(c: Cache<K, V>, k: K)
    requires Valid(c) && k !in c.memory && k in c.disk.files
    ensures var r := ObjectForKey(c, k).cache;
      forall x, y {:trigger Precedes(r.queue, x, y)} | x in c.queue && y in c.queue && x != k && y != k ::
        Precedes(r.queue, x, y) <==> x in r.queue && y in r.queue && Precedes(c.queue, x, y)
  {
    ObjectForKeyDiskSteps(c, k);
    var r := ObjectForKey(c, k).cache;
    TouchKeepOrder(c.queue, k, r.memory.Keys + c.disk.files.Keys);
  }

  /**
   With room for two objects in memory, the most recently used key survives the
   insertion of a different key.
   */
  lemma NewestSurvivesNextInsert<K, V>(c: Cache<K, V>, k: K, k': K, v: V, bytes: nat)
    requires Valid(c) && k in c.memory && k' != k
    requires |c.queue| > 0 && c.queue[|c.queue| - 1] == k
    requires c.settings.memoryCountLimit == 0 || c.settings.memoryCountLimit >= 2
    ensures k in SetObject(c, k', v, bytes).memory
  {
    SetObjectMemoryKeys(c, k', v, bytes);
    InsertKeepsPreviousNewest(c.queue, c.memory.Keys, k, k', SetObject(c, k', v, bytes).memory.Keys,
                              c.settings.memoryCountLimit);
  }

  /** `SetObjectEvictsOldestFromMemory` restated over the sets of keys in memory. */
  lemma SetObjectMemoryKeys<K, V>(c: Cache<K, V>, k: K, v: V, bytes: nat)
    requires Valid(c)
    ensures var r := SetObject(c, k, v, bytes).memory.Keys;
      var s := c.memory.Keys + {k};
      var limit := c.settings.memoryCountLimit;
      && EvictsOldestFirst(Touch(c.queue, k), s, r)
      && (limit == 0 || |s| <= limit ==> r == s)
      && (limit > 0 && |s| > limit ==> |r| == limit)
  {
    SetObjectSteps(c, k, v, bytes);
    InsertThenEvictKeys(Touch(c.queue, k), c.memory, k, v, c.settings.memoryCountLimit);
  }

  /** The memory keys after inserting and ejecting, stated over the keys before the insertion. */
  lemma InsertThenEvictKeys<K, V>(q: seq<K>, m: map<K, V>, k: K, v: V, limit: nat)
    requires Unique(q) && m.Keys + {k} <= Elems(q)
    ensures var r := EvictToCount(q, m[k := v], limit).Keys;
      var s := m.Keys + {k};
      && EvictsOldestFirst(q, s, r)
      && (limit == 0 || |s| <= limit ==> r == s)
      && (limit > 0 && |s| > limit ==> |r| == limit)
  {
    assert m[k := v].Keys == m.Keys + {k};
  }

  /**
   The queue-level core of `NewestSurvivesNextInsert`: `r` is any result of an
   oldest-first, exactly-as-needed ejection after touching `k'`.
   */
  lemma InsertKeepsPreviousNewest<K>(q: seq<K>, s: set<K>, k: K, k': K, r: set<K>, limit: nat)
    requires Unique(q) && s <= Elems(q) && k in s && k' != k
    requires |q| > 0 && q[|q| - 1] == k
    requires limit == 0 || limit >= 2
    requires EvictsOldestFirst(Touch(q, k'), s + {k'}, r)
    requires limit == 0 || |s + {k'}| <= limit ==> r == s + {k'}
    requires limit > 0 && |s + {k'}| > limit ==> |r| == limit
    ensures k in r
  {
    TouchKeepsPreviousNewest(q, k');
    if limit > 0 && |s + {k'}| > limit {
      SecondNewestSurvives(Touch(q, k'), s + {k'}, r);
    }
  }

  /** A two-element set holding two distinct keys is exactly those keys. */
  lemma ExactlyTwo<K>(s: set<K>, x: K, y: K)
    requires x in s && y in s && x != y && |s| == 2
    ensures s == {x, y}
  {
    assert |s - {x}| == 1;
    assert |s - {x} - {y}| == 0;
    assert s - {x} - {y} == {};
  }

  /**
   With room for two objects holding a and then b, inserting a third key ejects
   a, the least recently used.
   */
  lemma ThirdInsertEjectsOldest<K, V>(c: Cache<K, V>, a: K, b: K, k: K, v: V, bytes: nat)
    requires Valid(c) && c.settings.memoryCountLimit == 2
    requires c.memory.Keys == {a, b} && a != b && k != a && k != b
    requires |c.queue| > 0 && c.queue[|c.queue| - 1] == b
    ensures SetObject(c, k, v, bytes).memory.Keys == {b, k}
  {
    ThirdKeyOverflows(c.memory, a, b, k, v);
    SetObjectEvictsOldestFromMemory(c, k, v, bytes);
    InsertIntoFullPair(c.queue, c.memory.Keys, b, k, SetObject(c, k, v, bytes).memory.Keys);
  }

  /** A third key added to two makes three. */
  lemma ThirdKeyOverflows<K, V>(m: map<K, V>, a: K, b: K, k: K, v: V)
    requires m.Keys == {a, b} && a != b && k != a && k != b
    ensures |m[k := v]| == 3
  {
    assert m[k := v].Keys == {a, b} + {k};
  }

  /**
   The queue-level core of `ThirdInsertEjectsOldest`: oldest-first ejection down
   to two keys after touching `k` keeps `k` and the previous newest key `b`.
   */
  lemma InsertIntoFullPair<K>(q: seq<K>, s: set<K>, b: K, k: K, r: set<K>)
    requires Unique(q) && s <= Elems(q) && b in s && k != b
    requires |q| > 0 && q[|q| - 1] == b
    requires EvictsOldestFirst(Touch(q, k), s + {k}, r) && k in r && |r| == 2
    ensures r == {b, k}
  {
    TouchKeepsPreviousNewest(q, k);
    KeepsTwoNewest(Touch(q, k), s + {k}, r);
  }

  /** Oldest-first ejection down to two keys keeps the two newest of the queue. */
  lemma KeepsTwoNewest<K>(q: seq<K>, before: set<K>, after: set<K>)
    requires |q| >= 2 && Unique(q) && EvictsOldestFirst(q, before, after)
    requires after <= Elems(q) && q[|q| - 2] in before && q[|q| - 1] in after
    requires |after| == 2
    ensures after == {q[|q| - 2], q[|q| - 1]}
  {
    SecondNewestSurvives(q, before, after);
    ExactlyTwo(after, q[|q| - 2], q[|q| - 1]);
  }

  /**
   With room for two objects holding b and k, looking up b and then inserting a
   new key ejects k, not the promoted b.
   */
  lemma LookupThenInsertEjectsOther<K, V>(c: Cache<K, V>, b: K, k: K, d: K, v: V, bytes: nat)
    requires Valid(c) && c.settings.memoryCountLimit == 2
    requires c.memory.Keys == {b, k} && b != k && d != b && d != k
    ensures SetObject(ObjectForKey(c, b).cache, d, v, bytes).memory.Keys == {b, d}
  {
    ObjectForKeyMemoryHit(c, b);
    assert ObjectForKey(c, b).cache.memory.Keys == {k, b};
    ThirdInsertEjectsOldest(ObjectForKey(c, b).cache, k, b, d, v, bytes);
  }

  /** An insertion that fits within the count limit ejects nothing from memory. */
  lemma InsertFits<K, V>(c: Cache<K, V>, k: K, v: V, bytes: nat)
    requires Valid(c)
    requires c.settings.memoryCountLimit == 0 || |c.memory[k := v]| <= c.settings.memoryCountLimit
    ensures SetObject(c, k, v, bytes).memory == c.memory[k := v]
  {
    SetObjectEvictsOldestFromMemory(c, k, v, bytes);
  }

  /** Into an empty cache with room for two, one insertion leaves just that key. */
  lemma FirstInsertFits<K, V>(c: Cache<K, V>, a: K, v: V, bytes: nat)
    requires Valid(c) && c.memory == map[] && c.settings.memoryCountLimit == 2
    ensures var c1 := SetObject(c, a, v, bytes);
      Valid(c1) && c1.settings == c.settings && c1.memory.Keys == {a}
  {
    SetObjectMemoryKeys(c, a, v, bytes);
    assert c.memory.Keys + {a} == {a};
  }

  /** With one key in memory and room for two, a second key joins it and becomes newest. */
  lemma SecondInsertFits<K, V>(c: Cache<K, V>, a: K, b: K, v: V, bytes: nat)
    requires Valid(c) && c.memory.Keys == {a} && c.settings.memoryCountLimit == 2 && a != b
    ensures var c2 := SetObject(c, b, v, bytes);
      && Valid(c2) && c2.settings == c.settings
      && c2.memory.Keys == {a, b}
      && |c2.queue| > 0 && c2.queue[|c2.queue| - 1] == b
  {
    assert c.memory[b := v].Keys == {a, b};
    assert |c.memory[b := v].Keys| == 2;
    InsertFits(c, b, v, bytes);
    SetObjectMakesNewest(c, b, v, bytes);
  }

  /** Into an empty cache with room for two, two insertions leave both keys, newest last. */
  lemma TwoInsertsFit<K, V>(c: Cache<K, V>, a: K, b: K, va: V, vb: V, bytes: nat)
    requires Valid(c) && c.memory == map[] && c.settings.memoryCountLimit == 2 && a != b
    ensures var c2 := SetObject(SetObject(c, a, va, bytes), b, vb, bytes);
      && Valid(c2) && c2.settings == c.settings
      && c2.memory.Keys == {a, b}
      && |c2.queue| > 0 && c2.queue[|c2.queue| - 1] == b
  {
    FirstInsertFits(c, a, va, bytes);
    SecondInsertFits(SetObject(c, a, va, bytes), a, b, vb, bytes);
  }

  /**
   The recency scenario with room for two objects: after storing 1, 2 and 3 only
   2 and 3 remain in memory; looking up 2 and then storing 4 leaves 2 and 4.
   */
  lemma RecencyScenario<V>(directory: string, v1: V, v2: V, v3: V, v4: V, bytes: nat)
    ensures var c0 := InitWithLimits<int, V>(directory, 2, 0);
      var c3 := SetObject(SetObject(SetObject(c0, 1, v1, bytes), 2, v2, bytes), 3, v3, bytes);
      && c3.memory.Keys == {2, 3}
      && SetObject(ObjectForKey(c3, 2).cache, 4, v4, bytes).memory.Keys == {2, 4}
  {
    var c0 := InitWithLimits<int, V>(directory, 2, 0);
    TwoInsertsFit(c0, 1, 2, v1, v2, bytes);
    var c2 := SetObject(SetObject(c0, 1, v1, bytes), 2, v2, bytes);
    ThirdInsertEjectsOldest(c2, 1, 2, 3, v3, bytes);
    LookupThenInsertEjectsOther(SetObject(c2, 3, v3, bytes), 2, 3, 4, v4, bytes);
  }

  /**
   After memory is emptied a lookup finds exactly the keys still on disk, with
   their archived objects.
   */
  lemma LookupAfterClearingMemory<K, V>(c: Cache<K, V>, k: K)
    requires Valid(c)
    ensures var r := ObjectForKey(RemoveAllObjectsFromMemory(c), k).found;
      && (k in c.disk.files ==> r == Some(c.disk.files[k].value))
      && (k !in c.disk.files ==> r == None)
  {
  }

  /**
   After the disk is emptied a lookup finds exactly the keys still in memory,
   with their objects.
   */
  lemma LookupAfterClearingDisk<K, V>(c: Cache<K, V>, k: K)
    requires Valid(c)
    ensures var r := ObjectForKey(RemoveAllObjectsFromDisk(c), k).found;
      && (k in c.memory ==> r == Some(c.memory[k]))
      && (k !in c.memory ==> r == None)
  {
  }

  /** `b` raised to the power `n`. */
  function Pow(b: nat, n: nat): nat {
    if n == 0 then 1 else b * Pow(b, n - 1)
  }

  /** A count limit after `n` shrinks by `factor`. */
  function ShrunkLimitN(limit: nat, factor: nat, n: nat): nat
    requires factor >= 2
  {
    if n == 0 then limit else ShrunkLimit(ShrunkLimitN(limit, factor, n - 1), factor)
  }

  /**
   Repeated shrinking of a nonzero limit is geometric but never goes below 1, and
   reaches exactly 1 once the factor raised to the number of shrinks reaches the
   original limit.
   */
  lemma {:induction false} ShrunkLimitNBounds(limit: nat, factor: nat, n: nat)
    requires factor >= 2 && limit > 0
    ensures 1 <= ShrunkLimitN(limit, factor, n) <= limit
    ensures ShrunkLimitN(limit, factor, n) > 1 ==> ShrunkLimitN(limit, factor, n) * Pow(factor, n) <= limit
    ensures Pow(factor, n) >= limit ==> ShrunkLimitN(limit, factor, n) == 1
  {
    var r := ShrunkLimitN(limit, factor, n);
    if n > 0 {
      ShrunkLimitNBounds(limit, factor, n - 1);
      var prev := ShrunkLimitN(limit, factor, n - 1);
      if r > 1 {
        GeometricStep(r, prev, factor, Pow(factor, n - 1), limit);
      }
    }
    if r > 1 && Pow(factor, n) >= limit {
      MulLeftMono(2, r, Pow(factor, n));
    }
  }

  /** One more shrink step divides by one more factor of `factor`. */
  lemma GeometricStep(r: nat, prev: nat, factor: nat, p: nat, limit: nat)
    requires r * factor <= prev && prev * p <= limit
    ensures r * (factor * p) <= limit
  {
    MulLeftMono(r * factor, prev, p);
    assert r * (factor * p) == (r * factor) * p;
  }

  /** Multiplication by a natural number is monotone. */
  lemma MulLeftMono(a: nat, b: nat, c: nat)
    requires a <= b
    ensures a * c <= b * c
  {
  }

  /** The cache after `n` low-memory notifications in a row. */
  function LowMemoryEvents<K(==), V>(c: Cache<K, V>, factor: nat, n: nat): Cache<K, V>
    requires factor >= 2
  {
    if n == 0 then c else OnLowMemory(LowMemoryEvents(c, factor, n - 1), factor)
  }

  /**
   With clearing and reducing on, every one of `n` low-memory events shrinks the
   count limit once, and memory is empty after the first.
   */
  lemma {:induction false} LowMemoryEventsShrink<K, V>(c: Cache<K, V>, factor: nat, n: nat)
    requires factor >= 2
    requires c.settings.shouldClearOnLowMemory && c.settings.shouldReduceCacheOnLowMemory
    ensures var r := LowMemoryEvents(c, factor, n);
      && r.settings.shouldClearOnLowMemory && r.settings.shouldReduceCacheOnLowMemory
      && r.settings.memoryCountLimit == ShrunkLimitN(c.settings.memoryCountLimit, factor, n)
      && (n > 0 ==> CountInMemory(r) == 0)
      && r.disk == c.disk
  {
    if n > 0 {
      LowMemoryEventsShrink(c, factor, n - 1);
    }
  }

  /**
   Repeated low-memory events with clearing and reducing on shrink a nonzero count
   limit geometrically but never below 1; after enough of them it is exactly 1.
   */
  lemma RepeatedLowMemory<K, V>(c: Cache<K, V>, factor: nat, n: nat)
    requires factor >= 2
    requires c.settings.shouldClearOnLowMemory && c.settings.shouldReduceCacheOnLowMemory
    requires c.settings.memoryCountLimit > 0
    ensures var limit := LowMemoryEvents(c, factor, n).settings.memoryCountLimit;
      && 1 <= limit <= c.settings.memoryCountLimit
      && (limit > 1 ==> limit * Pow(factor, n) <= c.settings.memoryCountLimit)
      && (Pow(factor, n) >= c.settings.memoryCountLimit ==> limit == 1)
  {
    LowMemoryEventsShrink(c, factor, n);
    ShrunkLimitNBounds(c.settings.memoryCountLimit, factor, n);
  }
}
