/**
 The on-disk tier: one archived file per key in the cache directory, bounded by the
 total number of bytes (`diskSizeLimit`, 0 meaning unlimited). The running byte
 total `diskSize` is kept beside the files so that, for an exclusive user of the
 directory, no size summation over the directory is needed.
 */
module DiskTier {
  import opened RecencyQueue

  /** An archived object as written to its file: the object and the file's size in bytes. */
  datatype Blob<V> = Blob(value: V, bytes: nat)

  /** The files of the cache directory, by key, and the running byte total. */
  datatype Disk<K(==), V> = Disk(files: map<K, Blob<V>>, size: nat)

  /** The total size of a set of files, summed in no particular order. */
  ghost function Bytes<K, V>(files: map<K, Blob<V>>): nat
    decreases |files|
  {
    if files == map[] then 0
    else
      var k :| k in files;
      files[k].bytes + Bytes(files - {k})
  }

  /** The total is the same whichever file the summation starts from. */
  lemma {:induction false} BytesRemove<K, V>(files: map<K, Blob<V>>, k: K)
    requires k in files
    ensures Bytes(files) == files[k].bytes + Bytes(files - {k})
    decreases |files|
  {
    var y :| y in files && Bytes(files) == files[y].bytes + Bytes(files - {y});
    if y != k {
      assert (files - {y}).Keys == files.Keys - {y};
      assert (files - {k}).Keys == files.Keys - {k};
      BytesRemove(files - {y}, k);
      BytesRemove(files - {k}, y);
      assert files - {y} - {k} == files - {k} - {y};
    }
  }

  /** One file never weighs more than the whole directory. */
  lemma BytesBound<K, V>(files: map<K, Blob<V>>, k: K)
    requires k in files
    ensures files[k].bytes <= Bytes(files)
  {
    BytesRemove(files, k);
  }

  /** The running byte total agrees with the files actually present. */
  ghost predicate Accounted<K, V>(d: Disk<K, V>) {
    d.size == Bytes(d.files)
  }

  /**
   Writes (or overwrites) the file of `k` with an archive of `bytes` bytes and
   adjusts the running total by the difference.
   */
  function Write<K(==), V>(d: Disk<K, V>, k: K, v: V, bytes: nat): (r: Disk<K, V>)
    requires Accounted(d)
    ensures Accounted(r)
    ensures r.files.Keys == d.files.Keys + {k}
    ensures r.files[k] == Blob(v, bytes)
    ensures forall x :: x in d.files && x != k ==> r.files[x] == d.files[x]
  {
    var files := d.files[k := Blob(v, bytes)];
    BytesRemove(files, k);
    assert files - {k} == d.files - {k};
    if k in d.files then
      BytesRemove(d.files, k);
      Disk(files, d.size - d.files[k].bytes + bytes)
    else
      assert d.files - {k} == d.files;
      Disk(files, d.size + bytes)
  }

  /** Deletes the file of the least recently used key that is on disk. */
  function DeleteOldest<K(==), V>(q: seq<K>, d: Disk<K, V>): (r: Disk<K, V>)
    requires Unique(q) && d.files.Keys <= Elems(q) && Accounted(d) && d.files != map[]
    ensures Accounted(r)
    ensures r.files.Keys <= d.files.Keys && |r.files| == |d.files| - 1
    ensures forall x :: x in r.files ==> r.files[x] == d.files[x]
    ensures EvictsOldestFirst(q, d.files.Keys, r.files.Keys)
  {
    assert Occurs(q, d.files.Keys) by {
      var x :| x in d.files;
      assert x in Elems(q);
    }
    var oldest := q[OldestIn(q, d.files.Keys)];
    BytesRemove(d.files, oldest);
    EvictOldestStep(q, d.files.Keys);
    var files := d.files - {oldest};
    assert files.Keys == d.files.Keys - {oldest};
    Disk(files, d.size - d.files[oldest].bytes)
  }

  /**
   Eviction went no further than needed: restoring the most recently used file
   that was deleted (the last one deleted) to what is left of `before` would put
   the total back over `limit`.
   */
  ghost predicate LastDeletionNeeded<K, V>(q: seq<K>, before: map<K, Blob<V>>, after: Disk<K, V>, limit: nat) {
    forall i :: 0 <= i < |q| && q[i] in before && q[i] !in after.files
                && (forall j :: i < j < |q| && q[j] in before ==> q[j] in after.files)
                ==> after.size + before[q[i]].bytes > limit
  }

  /**
   Deleting the oldest file from an over-full directory keeps the previous
   property: if the rest of the eviction stopped in time, so did the whole.
   */
  lemma LastDeletionStep<K, V>(q: seq<K>, d: Disk<K, V>, r: Disk<K, V>, limit: nat)
    requires Unique(q) && d.files.Keys <= Elems(q) && Accounted(d) && d.files != map[] && d.size > limit
    requires Accounted(r) && r.files.Keys <= DeleteOldest(q, d).files.Keys
    requires forall x :: x in r.files ==> r.files[x] == d.files[x]
    requires LastDeletionNeeded(q, DeleteOldest(q, d).files, r, limit)
    ensures LastDeletionNeeded(q, d.files, r, limit)
  {
    assert Occurs(q, d.files.Keys) by {
      var x :| x in d.files;
      assert x in Elems(q);
    }
    var o := OldestIn(q, d.files.Keys);
    var rest := DeleteOldest(q, d).files;
    assert rest == d.files - {q[o]};
    forall i | 0 <= i < |q| && q[i] in d.files && q[i] !in r.files
               && (forall j :: i < j < |q| && q[j] in d.files ==> q[j] in r.files)
      ensures r.size + d.files[q[i]].bytes > limit
    {
      if q[i] in rest {
        assert forall j :: i < j < |q| && q[j] in rest ==> q[j] in r.files;
      } else {
        assert i == o;
        RestoreOldest(q, d.files, o, r, limit);
      }
    }
  }

  /**
   When everything newer than the oldest file survived, the survivors are the
   whole directory minus that file, so restoring it gives back the full total.
   */
  lemma RestoreOldest<K, V>(q: seq<K>, files: map<K, Blob<V>>, o: nat, r: Disk<K, V>, limit: nat)
    requires Unique(q) && files.Keys <= Elems(q) && Bytes(files) > limit
    requires o < |q| && q[o] in files && forall j :: 0 <= j < o ==> q[j] !in files
    requires Accounted(r) && r.files.Keys <= files.Keys - {q[o]}
    requires forall x :: x in r.files ==> r.files[x] == files[x]
    requires forall j :: o < j < |q| && q[j] in files ==> q[j] in r.files
    ensures r.size + files[q[o]].bytes > limit
  {
    forall x | x in files && x != q[o]
      ensures x in r.files
    {
      assert x in Elems(q);
      var j :| 0 <= j < |q| && q[j] == x;
      assert j >= o;
    }
    assert r.files == files - {q[o]};
    BytesRemove(files, q[o]);
  }

  /**
   Deletes the least recently used files, one at a time, until the running total
   is within `limit`. Only the disk tier shrinks; an in-memory copy of a deleted
   key is not touched here.
   */
  function EvictToSize<K(==), V>(q: seq<K>, d: Disk<K, V>, limit: nat): (r: Disk<K, V>)
    requires Unique(q) && d.files.Keys <= Elems(q) && Accounted(d)
    ensures Accounted(r)
    ensures r.files.Keys <= d.files.Keys
    ensures forall x :: x in r.files ==> r.files[x] == d.files[x]
    ensures limit == 0 || d.size <= limit ==> r == d
    ensures limit > 0 ==> r.size <= limit
    ensures EvictsOldestFirst(q, d.files.Keys, r.files.Keys)
    ensures LastDeletionNeeded(q, d.files, r, limit)
    decreases |d.files|
  {
    if limit == 0 || d.size <= limit then d
    else
      assert d.files != map[];
      var d' := DeleteOldest(q, d);
      var r := EvictToSize(q, d', limit);
      EvictsOldestFirstTrans(q, d.files.Keys, d'.files.Keys, r.files.Keys);
      LastDeletionStep(q, d, r, limit);
      r
  }

  /**
   The most recently used file survives eviction whenever it fits within the
   limit on its own: older files are always deleted before it.
   */
  lemma {:induction false} NewestFittingSurvives<K, V>(q: seq<K>, d: Disk<K, V>, limit: nat)
    requires Unique(q) && d.files.Keys <= Elems(q) && Accounted(d)
    requires |q| > 0 && q[|q| - 1] in d.files && d.files[q[|q| - 1]].bytes <= limit
    ensures q[|q| - 1] in EvictToSize(q, d, limit).files
    decreases |d.files|
  {
    if limit > 0 && d.size > limit {
      NewestOutlivesOldest(q, d);
      NewestFittingSurvives(q, DeleteOldest(q, d), limit);
    }
  }

  /**
   When the newest file does not account for all the bytes on disk, deleting the
   oldest file leaves the newest one in place.
   */
  lemma NewestOutlivesOldest<K, V>(q: seq<K>, d: Disk<K, V>)
    requires Unique(q) && d.files.Keys <= Elems(q) && Accounted(d)
    requires |q| > 0 && q[|q| - 1] in d.files && d.files[q[|q| - 1]].bytes < d.size
    ensures q[|q| - 1] in DeleteOldest(q, d).files
  {
    var newest := q[|q| - 1];
    BytesRemove(d.files, newest);
    assert (d.files - {newest}).Keys == d.files.Keys - {newest};
    assert d.files - {newest} != map[];
    var d' := DeleteOldest(q, d);
    assert d'.files != map[];
    var x :| x in d'.files;
    NewestSurvives(q, d.files.Keys, d'.files.Keys);
  }

  /**
   The directory scan a non-exclusive user performs: sums the sizes of the files,
   one file at a time, in whatever order the directory lists them.
   */
  method ScanSize<K, V>(files: map<K, Blob<V>>) returns (total: nat)
    ensures total == Bytes(files)
  {
    total := 0;
    var rest := files;
    while rest != map[]
      invariant total + Bytes(rest) == Bytes(files)
      decreases |rest|
    {
      var k :| k in rest;
      BytesRemove(rest, k);
      total := total + rest[k].bytes;
      rest := rest - {k};
    }
  }
}
