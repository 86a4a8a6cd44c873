/**
 The cache facade (`ZSLRUQueueCache`): a memory tier bounded by item count and a
 disk tier bounded by bytes, sharing one recency queue. Every public operation is a
 pure transition from one cache state to the next.
 */
module LruCache {
  import opened RecencyQueue
  import opened MemoryTier
  import opened DiskTier

  datatype Option<T> = None | Some(value: T)

  /**
   The settable configuration. A limit of 0 means unlimited.
   */
  datatype Settings = Settings(
    memoryCountLimit: nat,
    diskSizeLimit: nat,
    exclusiveDiskCacheUser: bool,
    shouldClearOnLowMemory: bool,
    shouldReduceCacheOnLowMemory: bool)

  datatype Cache<K(==), V> = Cache(
    cacheDirectory: string,
    settings: Settings,
    memory: map<K, V>,
    disk: Disk<K, V>,
    queue: seq<K>)

  /** The result of a lookup: the cache after the lookup, and the object found, if any. */
  datatype Fetched<K(==), V> = Fetched(cache: Cache<K, V>, found: Option<V>)

  /**
   The bookkeeping every reachable state keeps: the queue holds each resident key
   exactly once and nothing else, the running byte total matches the files, and a
   key resident in both tiers holds the same object in both.
   */
  ghost predicate Valid<K, V>(c: Cache<K, V>) {
    && Unique(c.queue)
    && Elems(c.queue) == c.memory.Keys + c.disk.files.Keys
    && Accounted(c.disk)
    && Coherent(c.memory, c.disk.files)
  }

  /** A key resident in both tiers holds the same object in both. */
  ghost predicate Coherent<K, V>(memory: map<K, V>, files: map<K, Blob<V>>) {
    forall x :: x in memory && x in files ==> memory[x] == files[x].value
  }

  /** `countInMemory`: the number of objects held in memory. */
  function CountInMemory<K(==), V>(c: Cache<K, V>): nat {
    |c.memory|
  }

  /** Both tiers are within their limits (a limit of 0 bounds nothing). */
  ghost predicate WithinLimits<K, V>(c: Cache<K, V>) {
    && (c.settings.memoryCountLimit > 0 ==> CountInMemory(c) <= c.settings.memoryCountLimit)
    && (c.settings.diskSizeLimit > 0 ==> c.disk.size <= c.settings.diskSizeLimit)
  }

  /**
   The designated initialiser: an empty cache with the given limits and the
   documented defaults for the three switches.
   */
  function InitWithLimits<K(==), V>(directory: string, memoryLimit: nat, diskLimit: nat): (c: Cache<K, V>)
    ensures Valid(c) && WithinLimits(c)
    ensures CountInMemory(c) == 0 && c.disk.files == map[] && c.disk.size == 0 && c.queue == []
    ensures c.cacheDirectory == directory
    ensures c.settings.memoryCountLimit == memoryLimit && c.settings.diskSizeLimit == diskLimit
    ensures c.settings.exclusiveDiskCacheUser
    ensures !c.settings.shouldClearOnLowMemory && !c.settings.shouldReduceCacheOnLowMemory
  {
    Cache(directory, Settings(memoryLimit, diskLimit, true, false, false), map[], Disk(map[], 0), [])
  }

  /** The initialiser without limits: neither tier is bounded. */
  function InitWithCacheDirectory<K(==), V>(directory: string): (c: Cache<K, V>)
    ensures Valid(c) && WithinLimits(c)
    ensures CountInMemory(c) == 0 && c.disk.files == map[] && c.queue == []
    ensures c.cacheDirectory == directory
    ensures c.settings.memoryCountLimit == 0 && c.settings.diskSizeLimit == 0
    ensures c.settings.exclusiveDiskCacheUser
    ensures !c.settings.shouldClearOnLowMemory && !c.settings.shouldReduceCacheOnLowMemory
  {
    InitWithLimits(directory, 0, 0)
  }

  /**
   The setters of the limits and flags: they replace the configuration and leave
   the cached contents alone (a lowered limit takes effect at the next insertion).
   */
  function Configure<K(==), V>(c: Cache<K, V>, s: Settings): (r: Cache<K, V>)
    ensures r.settings == s && r.cacheDirectory == c.cacheDirectory
    ensures r.memory == c.memory && r.disk == c.disk && r.queue == c.queue
    ensures Valid(c) ==> Valid(r)
  {
    c.(settings := s)
  }

  /** Forgets the queued keys that are resident in neither tier. */
  function Prune<K(==), V>(c: Cache<K, V>): (r: Cache<K, V>)
    requires Unique(c.queue)
    requires c.memory.Keys + c.disk.files.Keys <= Elems(c.queue)
    requires Accounted(c.disk)
    requires Coherent(c.memory, c.disk.files)
    ensures Valid(r)
    ensures r.memory == c.memory && r.disk == c.disk && r.settings == c.settings
    ensures forall x, y {:trigger Precedes(r.queue, x, y)} | x in c.queue && y in c.queue ::
              Precedes(r.queue, x, y)
              <==> (x in c.memory || x in c.disk.files) && (y in c.memory || y in c.disk.files)
                   && Precedes(c.queue, x, y)
  {
    c.(queue := Keep(c.queue, c.memory.Keys + c.disk.files.Keys))
  }

  /**
   `setObject:forKey:` — stores the object in memory and writes its archive of
   `bytes` bytes to disk, makes the key the most recently used, then ejects least
   recently used keys from memory while over the count limit and from disk while
   over the byte limit, each tier on its own.
   */
  function SetObject<K(==), V>(c: Cache<K, V>, k: K, v: V, bytes: nat): (r: Cache<K, V>)
    requires Valid(c)
    ensures Valid(r) && WithinLimits(r)
    ensures r.settings == c.settings && r.cacheDirectory == c.cacheDirectory
    ensures k in r.memory && r.memory[k] == v
  {
    var q := Touch(c.queue, k);
    var memory := EvictToCount(q, c.memory[k := v], c.settings.memoryCountLimit);
    var disk := EvictToSize(q, Write(c.disk, k, v, bytes), c.settings.diskSizeLimit);
    NewestInMemorySurvives(q, c.memory[k := v], c.settings.memoryCountLimit);
    InsertStaysCoherent(q, c.memory, c.disk, k, v, bytes, c.settings.memoryCountLimit, c.settings.diskSizeLimit);
    Prune(c.(memory := memory, disk := disk, queue := q))
  }

  /**
   `objectForKey:` — a memory hit returns the object; a disk hit loads the object
   into memory (ejecting for the count limit as an insertion does); either hit makes
   the key the most recently used. A miss returns nothing and changes nothing.
   */
  function ObjectForKey<K(==), V>(c: Cache<K, V>, k: K): (r: Fetched<K, V>)
    requires Valid(c)
    ensures Valid(r.cache)
    ensures r.found.Some? <==> k in c.memory || k in c.disk.files
    ensures k in c.memory ==> r.found == Some(c.memory[k])
    ensures k in c.disk.files ==> r.found == Some(c.disk.files[k].value)
    ensures r.found.None? ==> r.cache == c
    ensures r.found.Some? ==> k in r.cache.memory
    ensures r.cache.disk == c.disk && r.cache.settings == c.settings
  {
    if k in c.memory then
      Fetched(c.(queue := Touch(c.queue, k)), Some(c.memory[k]))
    else if k in c.disk.files then
      var v := c.disk.files[k].value;
      var q := Touch(c.queue, k);
      var memory := EvictToCount(q, c.memory[k := v], c.settings.memoryCountLimit);
      NewestInMemorySurvives(q, c.memory[k := v], c.settings.memoryCountLimit);
      LoadStaysCoherent(q, c.memory, c.disk.files, k, c.settings.memoryCountLimit);
      Fetched(Prune(c.(memory := memory, queue := q)), Some(v))
    else
      Fetched(c, None)
  }

  /**
   `removeAllObjectsFromMemory` — empties the memory tier; keys still on disk stay
   queued in their order, the others are forgotten.
   */
  function RemoveAllObjectsFromMemory<K(==), V>(c: Cache<K, V>): (r: Cache<K, V>)
    ensures CountInMemory(r) == 0
    ensures r.disk == c.disk && r.settings == c.settings
    ensures Elems(r.queue) == Elems(c.queue) * c.disk.files.Keys
    ensures forall x, y {:trigger Precedes(r.queue, x, y)} | x in c.queue && y in c.queue ::
              Precedes(r.queue, x, y) <==> x in c.disk.files && y in c.disk.files && Precedes(c.queue, x, y)
    ensures Valid(c) ==> Valid(r)
  {
    c.(memory := map[], queue := Keep(c.queue, c.disk.files.Keys))
  }

  /**
   `removeAllObjectsFromDisk` — deletes every file and zeroes the byte total; keys
   still in memory stay queued in their order, the others are forgotten.
   */
  function RemoveAllObjectsFromDisk<K(==), V>(c: Cache<K, V>): (r: Cache<K, V>)
    ensures r.disk.size == 0 && r.disk.files == map[]
    ensures r.memory == c.memory && r.settings == c.settings
    ensures Elems(r.queue) == Elems(c.queue) * c.memory.Keys
    ensures forall x, y {:trigger Precedes(r.queue, x, y)} | x in c.queue && y in c.queue ::
              Precedes(r.queue, x, y) <==> x in c.memory && y in c.memory && Precedes(c.queue, x, y)
    ensures Valid(c) ==> Valid(r)
  {
    c.(disk := Disk(map[], 0), queue := Keep(c.queue, c.memory.Keys))
  }

  /**
   The memory limit after one low-memory event: the limit divided by the resize
   factor, but never below 1; an unlimited (0) limit stays unlimited.
   */
  function ShrunkLimit(limit: nat, factor: nat): (r: nat)
    requires factor >= 2
    ensures limit == 0 ==> r == 0
    ensures limit > 0 ==> 1 <= r <= limit
    ensures limit > 1 ==> r < limit
    ensures limit >= factor ==> r * factor <= limit < (r + 1) * factor
    ensures 0 < limit < factor ==> r == 1
  {
    if limit == 0 then 0
    else
      QuotientBounds(limit, factor);
      if limit / factor < 1 then 1
      else limit / factor
  }

  /** Floor division brackets its dividend and shrinks any positive one. */
  lemma QuotientBounds(n: nat, d: nat)
    requires d >= 2
    ensures (n / d) * d <= n < (n / d + 1) * d
    ensures n > 0 ==> n / d < n
  {
    var q, m := n / d, n % d;
    assert n == q * d + m && 0 <= m < d;
    assert (q + 1) * d == q * d + d;
    assert q * d >= q * 2 by {
      assert q * d - q * 2 == q * (d - 2);
    }
  }

  /**
   The low-memory notification handler. With `shouldClearOnLowMemory` it empties
   memory; with `shouldReduceCacheOnLowMemory` as well, it shrinks a nonzero count
   limit by the resize factor `factor` (floor 1). Without clearing it does nothing.
   */
  function OnLowMemory<K(==), V>(c: Cache<K, V>, factor: nat): (r: Cache<K, V>)
    requires factor >= 2
    ensures !c.settings.shouldClearOnLowMemory ==> r == c
    ensures c.settings.shouldClearOnLowMemory ==> CountInMemory(r) == 0 && r.disk == c.disk
    ensures c.settings.shouldClearOnLowMemory ==> r.queue == RemoveAllObjectsFromMemory(c).queue
    ensures c.settings.shouldClearOnLowMemory && c.settings.shouldReduceCacheOnLowMemory
              && c.settings.memoryCountLimit > 0
            ==> 1 <= r.settings.memoryCountLimit <= c.settings.memoryCountLimit
    ensures c.settings.shouldClearOnLowMemory && c.settings.shouldReduceCacheOnLowMemory
            ==> r.settings.memoryCountLimit == ShrunkLimit(c.settings.memoryCountLimit, factor)
    ensures !c.settings.shouldReduceCacheOnLowMemory || c.settings.memoryCountLimit == 0
            ==> r.settings.memoryCountLimit == c.settings.memoryCountLimit
    ensures r.settings.diskSizeLimit == c.settings.diskSizeLimit
    ensures r.settings.exclusiveDiskCacheUser == c.settings.exclusiveDiskCacheUser
    ensures r.settings.shouldClearOnLowMemory == c.settings.shouldClearOnLowMemory
    ensures r.settings.shouldReduceCacheOnLowMemory == c.settings.shouldReduceCacheOnLowMemory
    ensures Valid(c) ==> Valid(r)
    ensures WithinLimits(c) ==> WithinLimits(r)
  {
    if !c.settings.shouldClearOnLowMemory then c
    else
      var cleared := RemoveAllObjectsFromMemory(c);
      if c.settings.shouldReduceCacheOnLowMemory then
        var limit := ShrunkLimit(c.settings.memoryCountLimit, factor);
        cleared.(settings := cleared.settings.(memoryCountLimit := limit))
      else cleared
  }

  /**
   The `diskSize` accessor: the running total for an exclusive user of the
   directory, a directory scan otherwise. Both report the size of the files.
   */
  method DiskSize<K(==), V>(c: Cache<K, V>) returns (n: nat)
    requires Valid(c)
    ensures n == Bytes(c.disk.files)
  {
    if c.settings.exclusiveDiskCacheUser {
      n := c.disk.size;
    } else {
      n := ScanSize(c.disk.files);
    }
  }

  /** The three steps of an insertion: touch, eject from each tier, prune the queue. */
  lemma SetObjectSteps<K, V>(c: Cache<K, V>, k: K, v: V, bytes: nat)
    requires Valid(c)
    ensures var q := Touch(c.queue, k);
      var r := SetObject(c, k, v, bytes);
      && r.memory == EvictToCount(q, c.memory[k := v], c.settings.memoryCountLimit)
      && r.disk == EvictToSize(q, Write(c.disk, k, v, bytes), c.settings.diskSizeLimit)
      && r.queue == Keep(q, r.memory.Keys + r.disk.files.Keys)
  {
  }

  /** The steps of a lookup that hits on disk only: touch, load, eject, prune. */
  lemma ObjectForKeyDiskSteps<K, V>(c: Cache<K, V>, k: K)
    requires Valid(c) && k !in c.memory && k in c.disk.files
    ensures var q := Touch(c.queue, k);
      var r := ObjectForKey(c, k).cache;
      && r.memory == EvictToCount(q, c.memory[k := c.disk.files[k].value], c.settings.memoryCountLimit)
      && r.queue == Keep(q, r.memory.Keys + c.disk.files.Keys)
  {
  }

  /** Writing one object to both tiers and then ejecting from each keeps them coherent. */
  lemma InsertStaysCoherent<K, V>(q: seq<K>, m: map<K, V>, d: Disk<K, V>, k: K, v: V, bytes: nat,
                                  memoryLimit: nat, diskLimit: nat)
    requires Unique(q) && m.Keys + d.files.Keys + {k} <= Elems(q) && Accounted(d)
    requires Coherent(m, d.files)
    ensures Coherent(EvictToCount(q, m[k := v], memoryLimit), EvictToSize(q, Write(d, k, v, bytes), diskLimit).files)
  {
    var m' := EvictToCount(q, m[k := v], memoryLimit);
    var d' := EvictToSize(q, Write(d, k, v, bytes), diskLimit);
    forall x | x in m' && x in d'.files
      ensures m'[x] == d'.files[x].value
    {
      if x != k {
        assert m'[x] == m[x];
      }
    }
  }

  /** Loading a file's object into memory and then ejecting from memory keeps the tiers coherent. */
  lemma LoadStaysCoherent<K, V>(q: seq<K>, m: map<K, V>, files: map<K, Blob<V>>, k: K, limit: nat)
    requires Unique(q) && m.Keys + {k} <= Elems(q) && k in files
    requires Coherent(m, files)
    ensures Coherent(EvictToCount(q, m[k := files[k].value], limit), files)
  {
    var m' := EvictToCount(q, m[k := files[k].value], limit);
    forall x | x in m' && x in files
      ensures m'[x] == files[x].value
    {
      if x != k {
        assert m'[x] == m[x];
      }
    }
  }

  /** The newly touched key is never ejected from memory for count. */
  lemma NewestInMemorySurvives<K, V>(q: seq<K>, m: map<K, V>, limit: nat)
    requires Unique(q) && m.Keys <= Elems(q)
    requires |q| > 0 && q[|q| - 1] in m
    ensures q[|q| - 1] in EvictToCount(q, m, limit)
  {
    var r := EvictToCount(q, m, limit);
    if limit > 0 && |m| > limit {
      assert r != map[];
      var x :| x in r;
      assert x in r.Keys * Elems(q);
      NewestSurvives(q, m.Keys, r.Keys);
    }
  }

  /** Pruning a queue keeps its newest key last when that key is resident. */
  lemma KeepNewest<K>(q: seq<K>, s: set<K>)
    requires |q| > 0 && q[|q| - 1] in s
    ensures |Keep(q, s)| > 0 && Keep(q, s)[|Keep(q, s)| - 1] == q[|q| - 1]
  {
    assert q == q[..|q| - 1] + [q[|q| - 1]];
    KeepAppend(q[..|q| - 1], [q[|q| - 1]], s);
  }
}
