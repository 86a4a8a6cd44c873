/**
 The recency queue of the cache (the `keyQueue` array): an ordered sequence of
 distinct keys, least recently used at the front, most recently used at the back.
 Both tiers share this one ordering, so eviction in either tier walks it from the
 front.
 */
module RecencyQueue {

  /** The set of keys a queue holds. */
  function Elems<K(==)>(q: seq<K>): set<K> {
    set x | x in q
  }

  /** No key is queued twice. */
  predicate Unique<K(==)>(q: seq<K>) {
    forall i, j :: 0 <= i < j < |q| ==> q[i] != q[j]
  }

  /** `x` is queued somewhere before `y`. */
  ghost predicate Precedes<K>(q: seq<K>, x: K, y: K) {
    exists i, j :: 0 <= i < j < |q| && q[i] == x && q[j] == y
  }

  /** Both keys of an ordered pair are queued. */
  lemma PrecedesMembers<K>(q: seq<K>)
    ensures forall x, y :: Precedes(q, x, y) ==> x in q && y in q
  {
    forall x, y | Precedes(q, x, y)
      ensures x in q && y in q
    {
      var i, j :| 0 <= i < j < |q| && q[i] == x && q[j] == y;
    }
  }

  /** Order in a queue with one more key at the front. */
  lemma PrecedesCons<K>(h: K, t: seq<K>)
    ensures forall x, y :: Precedes([h] + t, x, y) <==> (x == h && y in t) || Precedes(t, x, y)
  {
    var q := [h] + t;
    forall x, y
      ensures Precedes(q, x, y) <==> (x == h && y in t) || Precedes(t, x, y)
    {
      if Precedes(q, x, y) {
        var i, j :| 0 <= i < j < |q| && q[i] == x && q[j] == y;
        if i > 0 {
          assert t[i - 1] == x && t[j - 1] == y;
        } else {
          assert t[j - 1] == y;
        }
      }
      if x == h && y in t {
        var j :| 0 <= j < |t| && t[j] == y;
        assert q[0] == x && q[j + 1] == y;
      }
      if Precedes(t, x, y) {
        var i, j :| 0 <= i < j < |t| && t[i] == x && t[j] == y;
        assert q[i + 1] == x && q[j + 1] == y;
      }
    }
  }

  /** Order in a queue with one more key at the back. */
  lemma PrecedesSnoc<K>(t: seq<K>, h: K)
    ensures forall x, y :: Precedes(t + [h], x, y) <==> Precedes(t, x, y) || (x in t && y == h)
  {
    var q := t + [h];
    forall x, y
      ensures Precedes(q, x, y) <==> Precedes(t, x, y) || (x in t && y == h)
    {
      if Precedes(q, x, y) {
        var i, j :| 0 <= i < j < |q| && q[i] == x && q[j] == y;
        assert t[i] == x;
        if j < |t| {
          assert t[j] == y;
        }
      }
      if Precedes(t, x, y) {
        var i, j :| 0 <= i < j < |t| && t[i] == x && t[j] == y;
        assert q[i] == x && q[j] == y;
      }
      if x in t && y == h {
        var i :| 0 <= i < |t| && t[i] == x;
        assert q[i] == x && q[|t|] == y;
      }
    }
  }

  /** The keys of `q` that lie in `s`, in queue order. */
  function Keep<K(==)>(q: seq<K>, s: set<K>): (r: seq<K>)
    ensures Elems(r) == Elems(q) * s
    ensures Unique(q) ==> Unique(r)
    ensures |r| <= |q|
    ensures forall x, y {:trigger Precedes(r, x, y)} {:trigger Precedes(q, x, y)} | x in q && y in q ::
              Precedes(r, x, y) <==> x in s && y in s && Precedes(q, x, y)
  {
    if q == [] then []
    else
      var rest := Keep(q[1..], s);
      assert Elems(q) == {q[0]} + Elems(q[1..]);
      assert q == [q[0]] + q[1..];
      PrecedesCons(q[0], q[1..]);
      PrecedesMembers(rest);
      PrecedesMembers(q[1..]);
      if q[0] in s then
        assert Elems([q[0]] + rest) == {q[0]} + Elems(rest);
        PrecedesCons(q[0], rest);
        assert forall x, y | x in q && y in q ::
          Precedes([q[0]] + rest, x, y) <==> x in s && y in s && Precedes(q, x, y)
        by {
          forall x, y | x in q && y in q
            ensures Precedes([q[0]] + rest, x, y) <==> x in s && y in s && Precedes(q, x, y)
          {
            assert y in rest <==> y in Elems(q[1..]) * s;
            if x in q[1..] && y in q[1..] {
              assert Precedes(rest, x, y) <==> x in s && y in s && Precedes(q[1..], x, y);
            }
          }
        }
        [q[0]] + rest
      else rest
  }

  /** Filtering distributes over concatenation. */
  lemma {:induction false} KeepAppend<K>(a: seq<K>, b: seq<K>, s: set<K>)
    ensures Keep(a + b, s) == Keep(a, s) + Keep(b, s)
    decreases |a|
  {
    if a == [] {
      assert a + b == b;
    } else {
      assert (a + b)[0] == a[0];
      assert (a + b)[1..] == a[1..] + b;
      KeepAppend(a[1..], b, s);
    }
  }

  /** A filter that lets every queued key through leaves the queue as it is. */
  lemma {:induction false} KeepAll<K>(q: seq<K>, s: set<K>)
    requires Elems(q) <= s
    ensures Keep(q, s) == q
    decreases |q|
  {
    if q != [] {
      assert q[0] in Elems(q);
      assert Elems(q[1..]) <= Elems(q);
      KeepAll(q[1..], s);
    }
  }

  /**
   Moves `k` to the most-recently-used end, inserting it if it was absent;
   the other keys keep their order.
   */
  function Touch<K(==)>(q: seq<K>, k: K): (r: seq<K>)
    ensures |r| > 0 && r[|r| - 1] == k
    ensures Elems(r) == Elems(q) + {k}
    ensures Unique(q) ==> Unique(r)
    ensures forall x, y {:trigger Precedes(r, x, y)} {:trigger Precedes(q, x, y)}
              | x in q && y in q && x != k && y != k :: Precedes(r, x, y) <==> Precedes(q, x, y)
    ensures forall x {:trigger Precedes(r, x, k)} :: x in q && x != k ==> Precedes(r, x, k)
  {
    var rest := Keep(q, Elems(q) - {k});
    assert Elems(rest + [k]) == Elems(rest) + {k};
    PrecedesSnoc(rest, k);
    assert forall x | x in q && x != k :: x in Elems(rest);
    rest + [k]
  }

  /** Touching the key that is already the most recently used changes nothing. */
  lemma TouchNewestIsNoOp<K>(q: seq<K>, k: K)
    requires Unique(q) && |q| > 0 && q[|q| - 1] == k
    ensures Touch(q, k) == q
  {
    var p := q[..|q| - 1];
    assert q == p + [k];
    assert Elems(p) <= Elems(q) - {k} by {
      forall x | x in p
        ensures x != k
      {
        var i :| 0 <= i < |p| && p[i] == x;
        assert q[i] == x;
      }
    }
    KeepAppend(p, [k], Elems(q) - {k});
    KeepAll(p, Elems(q) - {k});
  }

  /** Touching a key twice in a row is the same as touching it once. */
  lemma TouchIdempotent<K>(q: seq<K>, k: K)
    ensures Touch(Touch(q, k), k) == Touch(q, k)
  {
    var rest := Keep(q, Elems(q) - {k});
    var s := Elems(Touch(q, k)) - {k};
    KeepAppend(rest, [k], s);
    KeepAll(rest, s);
    assert Keep([k], s) == [];
  }

  /**
   Touching `k` and then keeping the keys in `s` leaves every other kept pair in
   its previous order: only `k` moves.
   */
  lemma TouchKeepOrder<K>(q: seq<K>, k: K, s: set<K>)
    ensures forall x, y {:trigger Precedes(Keep(Touch(q, k), s), x, y)}
              | x in q && y in q && x != k && y != k ::
              Precedes(Keep(Touch(q, k), s), x, y) <==> x in s && y in s && Precedes(q, x, y)
    ensures forall x | x in q :: x in Keep(Touch(q, k), s) <==> x in s
  {
    var t := Touch(q, k);
    forall x | x in q
      ensures x in t && (x in Keep(t, s) <==> x in s)
    {
      assert x in Elems(q) && x in Elems(t);
      assert x in Keep(t, s) <==> x in Elems(Keep(t, s));
    }
    forall x, y | x in q && y in q && x != k && y != k
      ensures Precedes(Keep(t, s), x, y) <==> x in s && y in s && Precedes(q, x, y)
    {
      assert Precedes(t, x, y) <==> Precedes(q, x, y);
    }
  }

  /** Some key of `q` lies in `s`. */
  predicate Occurs<K(==)>(q: seq<K>, s: set<K>) {
    exists i :: 0 <= i < |q| && q[i] in s
  }

  /** The position of the least recently used key of `q` that lies in `s`. */
  function OldestIn<K(==)>(q: seq<K>, s: set<K>): (i: nat)
    requires Occurs(q, s)
    ensures i < |q| && q[i] in s
    ensures forall j :: 0 <= j < i ==> q[j] !in s
  {
    if q[0] in s then 0
    else
      assert Occurs(q[1..], s) by {
        var i :| 0 <= i < |q| && q[i] in s;
        assert q[1..][i - 1] == q[i];
      }
      OldestIn(q[1..], s) + 1
  }

  /**
   The keys of `before` that are not in `after` were all used less recently (in `q`)
   than every key kept: no key is evicted while an older one of `before` survives.
   */
  ghost predicate EvictsOldestFirst<K>(q: seq<K>, before: set<K>, after: set<K>) {
    && after <= before
    && forall i, j :: 0 <= i < j < |q| && q[i] in after && q[j] in before ==> q[j] in after
  }

  /** Removing the oldest key of `s` evicts oldest first. */
  lemma EvictOldestStep<K>(q: seq<K>, s: set<K>)
    requires Unique(q) && Occurs(q, s)
    ensures EvictsOldestFirst(q, s, s - {q[OldestIn(q, s)]})
  {
    var o := OldestIn(q, s);
    forall i, j | 0 <= i < j < |q| && q[i] in s - {q[o]} && q[j] in s
      ensures q[j] != q[o]
    {
      assert o <= i;
    }
  }

  /** Two rounds of oldest-first eviction over the same queue are one such round. */
  lemma EvictsOldestFirstTrans<K>(q: seq<K>, a: set<K>, b: set<K>, c: set<K>)
    requires EvictsOldestFirst(q, a, b) && EvictsOldestFirst(q, b, c)
    ensures EvictsOldestFirst(q, a, c)
  {
    forall i, j | 0 <= i < j < |q| && q[i] in c && q[j] in a
      ensures q[j] in c
    {
      assert q[i] in b;
      assert q[j] in b;
    }
  }

  /**
   After oldest-first eviction over `q`, the newest key of `q` survives when it
   was a candidate and anything queued survived at all.
   */
  lemma NewestSurvives<K>(q: seq<K>, before: set<K>, after: set<K>)
    requires |q| > 0 && EvictsOldestFirst(q, before, after)
    requires q[|q| - 1] in before
    requires after * Elems(q) != {}
    ensures q[|q| - 1] in after
  {
    var x :| x in after * Elems(q);
    var i :| 0 <= i < |q| && q[i] == x;
    if i < |q| - 1 {
      assert q[i] in after;
    }
  }

  /**
   Oldest-first eviction over `q` that evicts the newest key of `q` evicts every
   queued key: each of them is older.
   */
  lemma NewestEvictedEmptiesAll<K>(q: seq<K>, before: set<K>, after: set<K>)
    requires |q| > 0 && EvictsOldestFirst(q, before, after) && before <= Elems(q)
    requires q[|q| - 1] in before && q[|q| - 1] !in after
    ensures after == {}
  {
    forall x | x in Elems(q)
      ensures x !in after
    {
      var i :| 0 <= i < |q| && q[i] == x;
      if i < |q| - 1 {
        assert q[i] !in after;
      }
    }
  }

  /** Touching a key other than the newest leaves the old newest key second newest. */
  lemma TouchKeepsPreviousNewest<K>(q: seq<K>, k: K)
    requires |q| > 0 && q[|q| - 1] != k
    ensures |Touch(q, k)| >= 2 && Touch(q, k)[|Touch(q, k)| - 2] == q[|q| - 1]
  {
    var p := q[..|q| - 1];
    assert q == p + [q[|q| - 1]];
    KeepAppend(p, [q[|q| - 1]], Elems(q) - {k});
  }

  /**
   After oldest-first eviction over `q` that keeps at least two queued keys, the
   second newest key of `q` survives when it was a candidate.
   */
  lemma SecondNewestSurvives<K>(q: seq<K>, before: set<K>, after: set<K>)
    requires |q| >= 2 && EvictsOldestFirst(q, before, after)
    requires q[|q| - 2] in before
    requires after <= Elems(q) && |after| >= 2
    ensures q[|q| - 2] in after
  {
    var newest := q[|q| - 1];
    assert after - {newest} != {} by {
      if newest in after {
        assert |after - {newest}| == |after| - 1;
      } else {
        assert after - {newest} == after;
      }
    }
    var x :| x in after - {newest};
    assert x in Elems(q);
    var i :| 0 <= i < |q| && q[i] == x;
    if i < |q| - 2 {
      assert q[i] in after;
    }
  }
}
