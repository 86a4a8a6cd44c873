/**
 The in-memory tier (the `memoryCache` dictionary), bounded by item count
 (`memoryCountLimit`, 0 meaning unlimited). The dictionary itself knows nothing of
 recency: the eviction order comes from the shared recency queue.
 */
module MemoryTier {
  import opened RecencyQueue

  /**
   Ejects the least recently used in-memory keys, one at a time, until at most
   `limit` remain. Only the memory dictionary shrinks; a disk copy of an ejected
   key is not touched here.
   */
  function EvictToCount<K(==), V>(q: seq<K>, m: map<K, V>, limit: nat): (r: map<K, V>)
    requires Unique(q) && m.Keys <= Elems(q)
    ensures r.Keys <= m.Keys
    ensures forall x :: x in r ==> r[x] == m[x]
    ensures limit == 0 || |m| <= limit ==> r == m
    ensures limit > 0 ==> |r| <= limit
    ensures limit > 0 && |m| > limit ==> |r| == limit
    ensures EvictsOldestFirst(q, m.Keys, r.Keys)
    decreases |m|
  {
    if limit == 0 || |m| <= limit then m
    else
      assert Occurs(q, m.Keys) by {
        var x :| x in m;
        assert x in Elems(q);
      }
      var oldest := q[OldestIn(q, m.Keys)];
      var m' := m - {oldest};
      assert m'.Keys == m.Keys - {oldest};
      EvictOldestStep(q, m.Keys);
      var r := EvictToCount(q, m', limit);
      EvictsOldestFirstTrans(q, m.Keys, m'.Keys, r.Keys);
      r
  }
}
