/** The entry record stored by both caches, the Java integer widths it is built from,
    and the liveness test both caches apply to it. */
module ExpirableEntries {

  /** Java `int`: the type of the retention argument that `put` receives. */
  newtype Int32 = x: int | -0x8000_0000 <= x < 0x8000_0000

  /** Java `long`: clock readings and the retention an entry stores. */
  newtype Int64 = x: int | -0x8000_0000_0000_0000 <= x < 0x8000_0000_0000_0000

  /** An entry of the cache: the clock reading when it was put, how many milliseconds
      it is retained, and the stored value. Nothing changes an entry once it is built,
      and its constructor accepts any start time and any retention, zero and negative
      retentions included. */
  datatype ExpirableEntry<V> = ExpirableEntry(startTime: Int64, retentionInMillis: Int64, entry: V)
  {
    /** The stored value. */
    function GetValue(): V
    {
      entry
    }

    /** Milliseconds since the entry was put, at clock reading `now`. */
    function Elapsed(now: Int64): int
    {
      now as int - startTime as int
    }

    /** An entry is live while its elapsed time is strictly below its retention;
        at elapsed time equal to the retention it has expired. */
    predicate IsLive(now: Int64)
    {
      Elapsed(now) < retentionInMillis as int
    }
  }

  /** Building an entry keeps the start time, the retention and the value as given,
      and refuses nothing. */
  lemma NewEntryKeepsFields<V>(startTime: Int64, retentionInMillis: Int64, value: V)
    ensures ExpirableEntry(startTime, retentionInMillis, value).startTime == startTime
    ensures ExpirableEntry(startTime, retentionInMillis, value).retentionInMillis == retentionInMillis
    ensures ExpirableEntry(startTime, retentionInMillis, value).GetValue() == value
  {
  }

  /** An entry is live at the reading it was put with exactly when its retention is positive. */
  lemma LiveAtStartIffPositiveRetention<V>(e: ExpirableEntry<V>)
    ensures e.IsLive(e.startTime) <==> e.retentionInMillis > 0
  {
  }

  /** Once expired, an entry stays expired for every later clock reading. */
  lemma ExpiryIsPermanent<V>(e: ExpirableEntry<V>, earlier: Int64, later: Int64)
    requires earlier <= later
    requires !e.IsLive(earlier)
    ensures !e.IsLive(later)
  {
  }

  /** An entry with a zero or negative retention is never live at or after its start time. */
  lemma NonPositiveRetentionNeverLive<V>(e: ExpirableEntry<V>, now: Int64)
    requires e.retentionInMillis <= 0
    requires e.startTime <= now
    ensures !e.IsLive(now)
  {
  }
}
