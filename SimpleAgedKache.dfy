/** The Kotlin cache: the same operations as the Java one, with eviction written as an
    in-place filter of the `entries` map and kept private to the class. The clock reading
    each call makes is its `now` argument. */
module KotlinCache {

  import opened Wrappers
  import opened ExpirableEntries
  import AgedCache
  import opened CallHistory

  class SimpleAgedKache<K(==), V> {

    var entries: map<K, ExpirableEntry<V>>

    /** A new cache holds no entries. */
    constructor ()
      ensures entries == map[]
    {
      entries := map[];
    }

    /** Stores an entry started now, with the retention widened to `long`, replacing any
        entry the key held; no other key changes. */
    method Put(key: K, value: V, retentionInMillis: Int32, now: Int64)
      modifies this
      ensures entries == AgedCache.Put(old(entries), key, value, retentionInMillis, now)
      ensures key in entries && entries[key] == ExpirableEntry(now, retentionInMillis as Int64, value)
      ensures forall k :: k != key ==> (k in entries <==> k in old(entries))
      ensures forall k :: k != key && k in entries ==> entries[k] == old(entries)[k]
    {
      var entry := ExpirableEntry(now, retentionInMillis as Int64, value);
      entries := entries[key := entry];
    }

    /** Evicts, then reports whether no entry is left, that is, whether none was live. */
    method IsEmpty(now: Int64) returns (empty: bool)
      modifies this
      ensures entries == AgedCache.Evict(old(entries), now)
      ensures empty == AgedCache.IsEmpty(old(entries), now)
      ensures empty <==> forall k :: k in old(entries) ==> !old(entries)[k].IsLive(now)
    {
      ClearExpired(now);
      empty := |entries| == 0;
      AgedCache.IsEmptyIffSizeZero(old(entries), now);
    }

    /** Removes in place every entry whose elapsed time has reached its retention, and keeps
        all the others as they were. Private to the class in the source. */
    method ClearExpired(now: Int64)
      modifies this
      ensures entries == AgedCache.Evict(old(entries), now)
      ensures old(entries).Keys - entries.Keys
           == set k | k in old(entries) && old(entries)[k].Elapsed(now) >= old(entries)[k].retentionInMillis as int
    {
      entries := map k | k in entries && !(now as int - entries[k].startTime as int >= entries[k].retentionInMillis as int)
                   :: entries[k];
      AgedCache.EvictRemovesExactlyExpired(old(entries), now);
    }

    /** Evicts, then returns how many entries are left: the number of live entries. */
    method Size(now: Int64) returns (count: nat)
      modifies this
      ensures entries == AgedCache.Evict(old(entries), now)
      ensures count == AgedCache.Size(old(entries), now)
      ensures forall k :: k in entries ==> entries[k].IsLive(now)
    {
      ClearExpired(now);
      count := |entries|;
    }

    /** Returns the value when the key has an entry and it is live, and `None` otherwise;
        the map is left alone. */
    method Get(key: K, now: Int64) returns (value: Option<V>)
      ensures value == AgedCache.Get(entries, key, now)
      ensures value.Some? <==> key in entries && entries[key].Elapsed(now) < entries[key].retentionInMillis as int
    {
      var entry := if key in entries then Some(entries[key]) else None;
      if entry.Some? && now as int - entry.value.startTime as int < entry.value.retentionInMillis as int {
        return Some(entry.value.entry);
      }
      return None;
    }
  }

  /** No call in the sequence is `clearExpired`, which the Kotlin class keeps private. */
  predicate OnlyPublicCalls<K, V>(calls: seq<Call<K, V>>)
  {
    forall i :: 0 <= i < |calls| ==> !calls[i].ClearExpiredCall?
  }

  /** Makes `calls` on a new Kotlin cache, one method call each, and collects the replies:
      they are those of the shared specification, hence those of the Java cache too. */
  method ReplayOnKotlin<K(==), V>(calls: seq<Call<K, V>>) returns (replies: seq<Reply<V>>)
    requires OnlyPublicCalls(calls)
    ensures replies == Run(calls).1
  {
    var cache := new SimpleAgedKache<K, V>();
    replies := [];
    for i := 0 to |calls|
      invariant cache.entries == Run(calls[..i]).0
      invariant replies == Run(calls[..i]).1
    {
      assert calls[..i + 1][..i] == calls[..i];
      ghost var before := cache.entries;
      var reply: Reply<V>;
      match calls[i] {
        case PutCall(key, value, retention, at) =>
          cache.Put(key, value, retention, at);
          reply := Done;
        case GetCall(key, at) =>
          var value := cache.Get(key, at);
          reply := Value(value);
        case SizeCall(at) =>
          var count := cache.Size(at);
          reply := Count(count);
        case IsEmptyCall(at) =>
          var empty := cache.IsEmpty(at);
          reply := Flag(empty);
      }
      assert reply == Answer(before, calls[i]);
      replies := replies + [reply];
    }
    assert calls[..|calls|] == calls;
  }

  /** Retentions 10 and 10000 at reading 0: at reading 500 only the second is left. */
  method ShortRetentionGoesFirst()
  {
    var cache := new SimpleAgedKache<string, int>();
    cache.Put("x", 1, 10, 0);
    cache.Put("y", 2, 10000, 0);
    var count := cache.Size(500);
    assert cache.entries == map["y" := ExpirableEntry(0, 10000, 2)];
    assert count == 1;
    var empty := cache.IsEmpty(500);
    assert !empty;
  }
}
