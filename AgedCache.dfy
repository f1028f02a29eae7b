/** The behaviour both caches share, stated on the map from keys to entries that each
    of them keeps: what `put` stores, what `get` sees, what eviction keeps, and what
    `size` and `isEmpty` report. `now` is the clock reading the call makes. */
module AgedCache {

  import opened Wrappers
  import opened ExpirableEntries

  /** The map after `put`: an entry started at `now`, with the retention widened from
      `int` to `long`, replaces whatever the key held. */
  function Put<K, V>(m: map<K, ExpirableEntry<V>>, key: K, value: V, retentionInMillis: Int32, now: Int64)
    : map<K, ExpirableEntry<V>>
  {
    m[key := ExpirableEntry(now, retentionInMillis as Int64, value)]
  }

  /** What `get` returns: the value of a live entry, `None` for a missing or expired one. */
  function Get<K, V>(m: map<K, ExpirableEntry<V>>, key: K, now: Int64): Option<V>
  {
    if key in m && m[key].IsLive(now) then Some(m[key].GetValue()) else None
  }

  /** The map after `clearExpired`: the live entries, untouched. */
  function Evict<K, V>(m: map<K, ExpirableEntry<V>>, now: Int64): map<K, ExpirableEntry<V>>
  {
    map key | key in m && m[key].IsLive(now) :: m[key]
  }

  /** What `size` returns: the number of entries left after eviction. */
  function Size<K, V>(m: map<K, ExpirableEntry<V>>, now: Int64): nat
  {
    |Evict(m, now)|
  }

  /** What `isEmpty` returns: whether nothing is left after eviction. */
  function IsEmpty<K, V>(m: map<K, ExpirableEntry<V>>, now: Int64): bool
  {
    Evict(m, now) == map[]
  }

  // ---- put ----

  /** After `put`, `get` on the same key depends only on that `put`: it returns the new
      value exactly while less than the new retention has elapsed since the `put`. */
  lemma PutThenGet<K, V>(m: map<K, ExpirableEntry<V>>, key: K, value: V, retentionInMillis: Int32,
                         now: Int64, later: Int64)
    ensures Get(Put(m, key, value, retentionInMillis, now), key, later)
         == if later as int - now as int < retentionInMillis as int then Some(value) else None
  {
  }

  /** `put` changes the mapping of its own key only. */
  lemma PutKeepsOtherKeys<K, V>(m: map<K, ExpirableEntry<V>>, key: K, value: V, retentionInMillis: Int32,
                                now: Int64, other: K)
    requires other != key
    ensures other in Put(m, key, value, retentionInMillis, now) <==> other in m
    ensures other in m ==> Put(m, key, value, retentionInMillis, now)[other] == m[other]
  {
  }

  /** An entry put with a zero or negative retention is invisible to `get` from then on,
      and the next eviction at a reading not before the `put` removes it. */
  lemma NonPositiveRetentionIsNeverSeen<K, V>(m: map<K, ExpirableEntry<V>>, key: K, value: V,
                                              retentionInMillis: Int32, now: Int64, later: Int64)
    requires retentionInMillis <= 0
    requires now <= later
    ensures Get(Put(m, key, value, retentionInMillis, now), key, later) == None
    ensures key !in Evict(Put(m, key, value, retentionInMillis, now), later)
  {
  }

  /** `size` right after `put`: the key's old entry stops counting if it was live, and
      the new one counts if its retention is positive. */
  lemma SizeAfterPut<K, V>(m: map<K, ExpirableEntry<V>>, key: K, value: V, retentionInMillis: Int32, now: Int64)
    ensures Size(Put(m, key, value, retentionInMillis, now), now)
         == Size(m, now) - (if Get(m, key, now).Some? then 1 else 0) + (if retentionInMillis > 0 then 1 else 0)
  {
    var before := Evict(m, now).Keys;
    var after := Evict(Put(m, key, value, retentionInMillis, now), now).Keys;
    var others := before - {key};
    assert |before| == |others| + (if key in before then 1 else 0) by {
      if key in before {
        assert before == others + {key};
      } else {
        assert before == others;
      }
    }
    if retentionInMillis > 0 {
      assert after == others + {key};
    } else {
      assert after == others;
    }
  }

  // ---- get ----

  /** Eviction at the reading `get` makes does not change what `get` returns. */
  lemma EvictIsInvisibleToGet<K, V>(m: map<K, ExpirableEntry<V>>, key: K, now: Int64)
    ensures Get(Evict(m, now), key, now) == Get(m, key, now)
  {
  }

  /** `get` at a reading sees only what eviction at that reading keeps: two maps whose
      evictions agree give the same answers. */
  lemma GetSeesOnlyLive<K, V>(m1: map<K, ExpirableEntry<V>>, m2: map<K, ExpirableEntry<V>>, key: K, now: Int64)
    requires Evict(m1, now) == Evict(m2, now)
    ensures Get(m1, key, now) == Get(m2, key, now)
  {
    EvictIsInvisibleToGet(m1, key, now);
    EvictIsInvisibleToGet(m2, key, now);
  }

  // ---- clearExpired ----

  /** Eviction removes exactly the entries whose elapsed time has reached their retention,
      and keeps every other entry unchanged. */
  lemma EvictRemovesExactlyExpired<K, V>(m: map<K, ExpirableEntry<V>>, now: Int64)
    ensures m.Keys - Evict(m, now).Keys
         == set key | key in m && m[key].Elapsed(now) >= m[key].retentionInMillis as int
    ensures forall key :: key in Evict(m, now) ==> key in m && Evict(m, now)[key] == m[key]
  {
  }

  /** Everything eviction leaves behind is live. */
  lemma EvictLeavesOnlyLive<K, V>(m: map<K, ExpirableEntry<V>>, now: Int64)
    ensures forall key :: key in Evict(m, now) ==> Evict(m, now)[key].IsLive(now)
  {
  }

  /** Evicting a second time at the same reading changes nothing. */
  lemma EvictIsIdempotent<K, V>(m: map<K, ExpirableEntry<V>>, now: Int64)
    ensures Evict(Evict(m, now), now) == Evict(m, now)
  {
  }

  /** As the clock advances, eviction keeps fewer keys, never more. */
  lemma EvictShrinksOverTime<K, V>(m: map<K, ExpirableEntry<V>>, earlier: Int64, later: Int64)
    requires earlier <= later
    ensures Evict(m, later).Keys <= Evict(m, earlier).Keys
    ensures Size(m, later) <= Size(m, earlier)
  {
    var keptLater := Evict(m, later).Keys;
    var keptEarlier := Evict(m, earlier).Keys;
    assert keptLater <= keptEarlier;
    assert keptEarlier == keptLater + (keptEarlier - keptLater);
  }

  // ---- size and isEmpty ----

  /** `isEmpty` answers true exactly when `size` at the same reading answers 0, which is
      exactly when no entry is live. */
  lemma IsEmptyIffSizeZero<K, V>(m: map<K, ExpirableEntry<V>>, now: Int64)
    ensures IsEmpty(m, now) <==> Size(m, now) == 0
    ensures IsEmpty(m, now) <==> forall key :: key in m ==> !m[key].IsLive(now)
  {
    if !IsEmpty(m, now) {
      var key :| key in Evict(m, now);
      assert key in m && m[key].IsLive(now);
    } else {
      forall key | key in m
        ensures !m[key].IsLive(now)
      {
        assert key !in Evict(m, now);
      }
    }
  }
}
