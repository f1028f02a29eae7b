/** The Java cache: a class whose `entries` map its methods update in place. The clock
    reading each call makes is its `now` argument. */
module JavaCache {

  import opened Wrappers
  import opened ExpirableEntries
  import AgedCache
  import opened CallHistory

  class SimpleAgedCache<K(==), V> {

    var entries: map<K, ExpirableEntry<V>>

    /** A new cache holds no entries. */
    constructor ()
      ensures entries == map[]
    {
      entries := map[];
    }

    /** Stores an entry started now, replacing any entry the key held; no other key changes. */
    method Put(key: K, value: V, retentionInMillis: Int32, now: Int64)
      modifies this
      ensures entries == AgedCache.Put(old(entries), key, value, retentionInMillis, now)
      ensures key in entries && entries[key] == ExpirableEntry(now, retentionInMillis as Int64, value)
      ensures forall k :: k != key ==> (k in entries <==> k in old(entries))
      ensures forall k :: k != key && k in entries ==> entries[k] == old(entries)[k]
    {
      var entry := ExpirableEntry(now, retentionInMillis as Int64, value);
      entries := entries[key := entry];
    }

    /** Evicts, then reports whether no entry is left, that is, whether none was live. */
    method IsEmpty(now: Int64) returns (empty: bool)
      modifies this
      ensures entries == AgedCache.Evict(old(entries), now)
      ensures empty == AgedCache.IsEmpty(old(entries), now)
      ensures empty <==> forall k :: k in old(entries) ==> !old(entries)[k].IsLive(now)
    {
      ClearExpired(now);
      empty := entries == map[];
      AgedCache.IsEmptyIffSizeZero(old(entries), now);
    }

    /** Walks a snapshot of the entries and removes from the live map every key whose entry
        has reached its retention; the surviving entries are left as they were. */
    method ClearExpired(now: Int64)
      modifies this
      ensures entries == AgedCache.Evict(old(entries), now)
      ensures forall k :: k in entries ==> k in old(entries) && entries[k] == old(entries)[k] && entries[k].IsLive(now)
    {
      var snapshot := entries;
      var pending := snapshot.Keys;
      while pending != {}
        invariant pending <= snapshot.Keys
        invariant entries.Keys <= snapshot.Keys
        invariant forall k :: k in entries ==> entries[k] == snapshot[k]
        invariant forall k :: k in pending ==> k in entries
        invariant forall k :: k in snapshot && k !in pending ==> (k in entries <==> snapshot[k].IsLive(now))
        decreases pending
      {
        var key :| key in pending;
        var entry := snapshot[key];
        if now as int - entry.startTime as int >= entry.retentionInMillis as int {
          entries := entries - {key};
        }
        pending := pending - {key};
      }
      assert entries.Keys == AgedCache.Evict(snapshot, now).Keys;
    }

    /** Evicts, then returns how many entries are left: the number of live entries. */
    method Size(now: Int64) returns (count: nat)
      modifies this
      ensures entries == AgedCache.Evict(old(entries), now)
      ensures count == AgedCache.Size(old(entries), now)
      ensures forall k :: k in entries ==> entries[k].IsLive(now)
    {
      ClearExpired(now);
      count := |entries|;
    }

    /** Returns the value of a live entry for the key, and `None` when the key is missing or
        its entry has expired; an expired entry stays in the map. */
    method Get(key: K, now: Int64) returns (value: Option<V>)
      ensures value == AgedCache.Get(entries, key, now)
      ensures value.Some? <==> key in entries && entries[key].Elapsed(now) < entries[key].retentionInMillis as int
    {
      if key in entries {
        var entry := entries[key];
        if now as int - entry.startTime as int < entry.retentionInMillis as int {
          return Some(entry.GetValue());
        }
      }
      return None;
    }
  }

  /** Makes `calls` on a new Java cache, one method call each, and collects the replies:
      they are those of the shared specification. */
  method ReplayOnJava<K(==), V>(calls: seq<Call<K, V>>) returns (replies: seq<Reply<V>>)
    ensures replies == Run(calls).1
  {
    var cache := new SimpleAgedCache<K, V>();
    replies := [];
    for i := 0 to |calls|
      invariant cache.entries == Run(calls[..i]).0
      invariant replies == Run(calls[..i]).1
    {
      assert calls[..i + 1][..i] == calls[..i];
      ghost var before := cache.entries;
      var reply: Reply<V>;
      match calls[i] {
        case PutCall(key, value, retention, at) =>
          cache.Put(key, value, retention, at);
          reply := Done;
        case GetCall(key, at) =>
          var value := cache.Get(key, at);
          reply := Value(value);
        case ClearExpiredCall(at) =>
          cache.ClearExpired(at);
          reply := Done;
        case SizeCall(at) =>
          var count := cache.Size(at);
          reply := Count(count);
        case IsEmptyCall(at) =>
          var empty := cache.IsEmpty(at);
          reply := Flag(empty);
      }
      assert reply == Answer(before, calls[i]);
      replies := replies + [reply];
    }
    assert calls[..|calls|] == calls;
  }

  /** A put with retention 100 at reading 0: seen at 50, gone at 100, and then not counted. */
  method AppleExpiresAtItsRetention()
  {
    var cache := new SimpleAgedCache<string, string>();
    cache.Put("a", "apple", 100, 0);
    var seen := cache.Get("a", 50);
    assert seen == Some("apple");
    var gone := cache.Get("a", 100);
    assert gone == None;
    var count := cache.Size(100);
    assert AgedCache.Evict(map["a" := ExpirableEntry(0, 100, "apple")], 100) == map[];
    assert count == 0;
  }
}
