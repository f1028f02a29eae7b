# Simple aged cache, modelled in Dafny

The repository is a key/value cache whose entries expire. It exists twice, with the same
behaviour: `SimpleAgedCache` in Java and `SimpleAgedKache` in Kotlin. Each keeps a private
hash map from keys to `ExpirableEntry` records. A record holds the clock reading taken when the
entry was put, a retention in milliseconds, and the stored value. An entry is *live* while
`now - startTime < retentionInMillis`. The bound is strict, so an entry whose elapsed time
equals its retention has expired.

- `put` overwrites whatever the key held.
- `get` hides an expired entry but does not remove it.
- `clearExpired` removes every expired entry.
- `size` and `isEmpty` run `clearExpired` first, then report on what is left.

The project is split into these files:

- `ExpirableEntry.dfy` (module `ExpirableEntries`): the record as a datatype. It also holds
  the Java `int` and `long` widths as newtypes and the liveness test.
- `AgedCache.dfy` (module `AgedCache`): the behaviour both caches share. It is written as
  functions on the map of entries (`Put`, `Get`, `Evict`, `Size`, `IsEmpty`), with lemmas
  about them.
- `CallHistory.dfy` (module `CallHistory`): sequences of calls on a new cache. Its theorem
  says that when the clock never goes back, a cache that evicts lazily gives the same
  replies as one that never evicts. In particular, `size` counts the keys whose latest `put`
  is still live.
- `SimpleAgedCache.dfy` (module `JavaCache`): the Java class. Its `entries` map is a field
  that the methods update in place. `ClearExpired` walks a snapshot of the keys and removes
  the expired ones from the live map.
- `SimpleAgedKache.dfy` (module `KotlinCache`): the Kotlin class. Its eviction is a filter
  of the map in place, the counterpart of `removeIf`.
- `Wrappers.dfy`: an `Option` type. Its `None` stands for the `null` that `get` returns.

Each class method is proved against the shared functions. Each module also has a replay
method. It makes an arbitrary sequence of calls on a new object and proves that the replies
are those of `CallHistory.Run`. So the Java and Kotlin classes give the same replies to the
same calls. The two small scenario methods, `JavaCache.AppleExpiresAtItsRetention` and
`KotlinCache.ShortRetentionGoesFirst`, are verified clients of the contracts.

The clock is not an object here. Every operation takes the reading it makes as a `now`
argument.

## Model

| member | source | states |
|---|---|---|
| ExpirableEntries.NewEntryKeepsFields | src/main/java/io/collective/ExpirableEntry.java:24-37 | building an entry refuses no start time and no retention, keeps both unchanged, and `getValue` returns the value passed in |
| ExpirableEntries.LiveAtStartIffPositiveRetention | src/main/java/io/collective/SimpleAgedCache.java:99 | at the clock reading it was put with, an entry is live exactly when its retention is positive |
| ExpirableEntries.ExpiryIsPermanent | src/main/java/io/collective/SimpleAgedCache.java:69 | an entry expired at one reading is expired at every later reading |
| ExpirableEntries.NonPositiveRetentionNeverLive | src/main/kotlin/io/collective/SimpleAgedKache.kt:72 | an entry with zero or negative retention is never live at or after its start time |
| AgedCache.PutThenGet | src/main/java/io/collective/SimpleAgedCache.java:42-47 | after `put(k, v, r)` at `now`, `get(k)` at `later` depends on that put alone: it returns `v` exactly when `later - now < r`, otherwise none |
| AgedCache.PutKeepsOtherKeys | src/main/java/io/collective/SimpleAgedCache.java:46 | `put` leaves the presence and the entry of every other key unchanged |
| AgedCache.NonPositiveRetentionIsNeverSeen | src/main/kotlin/io/collective/SimpleAgedKache.kt:24-27 | an entry put with retention <= 0 is never returned by `get` at a reading not before the put, and the next eviction removes it |
| AgedCache.SizeAfterPut | src/main/java/io/collective/SimpleAgedCache.java:42-47 | `size` right after `put` loses the key's old entry if it was live and gains the new one exactly when its retention is positive |
| AgedCache.EvictIsInvisibleToGet | src/main/java/io/collective/SimpleAgedCache.java:94-106 | evicting at the reading `get` makes does not change what `get` returns, so `get` that does not evict answers as if it had |
| AgedCache.GetSeesOnlyLive | src/main/kotlin/io/collective/SimpleAgedKache.kt:69-76 | two maps whose live entries at a reading agree give the same `get` answers at that reading |
| AgedCache.EvictRemovesExactlyExpired | src/main/kotlin/io/collective/SimpleAgedKache.kt:43-50 | eviction removes exactly the keys with `now - startTime >= retention` and keeps every other entry unchanged |
| AgedCache.EvictLeavesOnlyLive | src/main/java/io/collective/SimpleAgedCache.java:64-73 | every entry left after eviction is live |
| AgedCache.EvictIsIdempotent | src/main/java/io/collective/SimpleAgedCache.java:64-73 | evicting a second time at the same reading changes nothing |
| AgedCache.EvictShrinksOverTime | src/main/java/io/collective/SimpleAgedCache.java:69 | at a later reading eviction keeps a subset of the keys it keeps earlier, so `size` never grows while time passes without puts |
| AgedCache.IsEmptyIffSizeZero | src/main/java/io/collective/SimpleAgedCache.java:54-59 | `isEmpty` is true exactly when `size` at the same reading is 0, exactly when no entry is live |
| CallHistory.RunAgreesWithPutLog | src/main/java/io/collective/SimpleAgedCache.java:42-86 | when the clock never goes back, every entry the cache holds is the latest put of its key, and every latest put it has dropped is expired at any reading not before the last call |
| CallHistory.LazyEvictionIsUnobservable | src/main/java/io/collective/SimpleAgedCache.java:42-106 | when the clock never goes back, a new cache gives the same reply to every call as a cache that never evicts |
| CallHistory.ObservationsFollowLatestPuts | src/main/java/io/collective/SimpleAgedCache.java:81-106 | after any call sequence with a clock that never goes back, `get` returns the value of the key's latest put exactly while it is live, and `size` counts the keys whose latest put is live |
| JavaCache.SimpleAgedCache.constructor | src/main/java/io/collective/SimpleAgedCache.java:16-25 | a new cache has no entries |
| JavaCache.SimpleAgedCache.Put | src/main/java/io/collective/SimpleAgedCache.java:42-47 | the key maps to an entry with start time `now`, the given retention and the given value; every other key keeps its entry |
| JavaCache.SimpleAgedCache.IsEmpty | src/main/java/io/collective/SimpleAgedCache.java:54-59 | evicts, then returns true exactly when no entry was live |
| JavaCache.SimpleAgedCache.ClearExpired | src/main/java/io/collective/SimpleAgedCache.java:64-73 | the loop over a snapshot of the keys leaves exactly the live entries, unchanged |
| JavaCache.SimpleAgedCache.Size | src/main/java/io/collective/SimpleAgedCache.java:81-86 | evicts, returns the number of live entries, and leaves only live entries |
| JavaCache.SimpleAgedCache.Get | src/main/java/io/collective/SimpleAgedCache.java:94-106 | returns the value exactly when the key is present and `now - startTime < retention`, otherwise none; changes nothing |
| JavaCache.ReplayOnJava | src/main/java/io/collective/SimpleAgedCache.java:42-106 | any sequence of calls on a new Java cache gives the replies of the shared specification |
| KotlinCache.SimpleAgedKache.constructor | src/main/kotlin/io/collective/SimpleAgedKache.kt:10-15 | a new cache has no entries |
| KotlinCache.SimpleAgedKache.Put | src/main/kotlin/io/collective/SimpleAgedKache.kt:24-27 | the key maps to an entry with start time `now`, the retention widened to `long` and the given value; every other key keeps its entry |
| KotlinCache.SimpleAgedKache.IsEmpty | src/main/kotlin/io/collective/SimpleAgedKache.kt:34-38 | evicts, then returns true exactly when no entry was live |
| KotlinCache.SimpleAgedKache.ClearExpired | src/main/kotlin/io/collective/SimpleAgedKache.kt:43-50 | the in-place filter removes exactly the entries with `now - startTime >= retention` and keeps the others unchanged |
| KotlinCache.SimpleAgedKache.Size | src/main/kotlin/io/collective/SimpleAgedKache.kt:57-61 | evicts, returns the number of live entries, and leaves only live entries |
| KotlinCache.SimpleAgedKache.Get | src/main/kotlin/io/collective/SimpleAgedKache.kt:69-76 | returns the value exactly when the key has an entry with `now - startTime < retention`, otherwise none; changes nothing |
| KotlinCache.ReplayOnKotlin | src/main/kotlin/io/collective/SimpleAgedKache.kt:24-76 | any sequence of public calls on a new Kotlin cache gives the replies of the shared specification, so the same replies as the Java cache |

## Left out

- The clock (`java.time.Clock`, `Clock.systemDefaultZone()`) is not modelled. Each call
  takes its reading as a `now` argument instead.
- Both `clearExpired` versions read the clock once per entry. The model uses one reading per
  call, as a fixed or fake clock gives.
- The results about call sequences (`CallHistory`) assume that the clock never goes back.
  The source expects this of its clock but does not check it.
- `now - startTime` is computed without the wrap-around of Java `long` subtraction. Readings
  far enough apart to overflow are not modelled.
- JavaCache.SimpleAgedCache.Size: returns an unbounded count. `HashMap.size()` returns an
  `int` that saturates at `Integer.MAX_VALUE`.
- KotlinCache.SimpleAgedKache.Size: returns an unbounded count, for the same reason.
- Java `null` as a stored value cannot be told apart from "absent" by the source's `get`.
  In the model, `get` returns `Option` and a stored value is always `Some`.
- Java object hashing and equality are not modelled. `HashMap` internals and iteration order
  are left out too. Keys are any type with equality, and the Java loop picks each snapshot
  key in an arbitrary order.
- The copy of the map that the Java loop makes to avoid `ConcurrentModificationException`
  becomes an immutable snapshot value. Thread safety is out of scope: the source has none and
  claims none.
- In Kotlin, `clearExpired` is private. Its replay method therefore accepts no
  `clearExpired` call.
