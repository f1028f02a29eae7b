/** Sequences of calls on a new cache. `Run` follows the caches, which evict lazily; the
    put log follows a cache that never evicts anything. Under a clock that never goes
    back, no caller can tell the two apart: every reply is the same. */
module CallHistory {

  import opened Wrappers
  import opened ExpirableEntries
  import opened AgedCache

  /** One public call on a cache, with the clock reading it makes. */
  datatype Call<K, V> =
    | PutCall(key: K, value: V, retentionInMillis: Int32, at: Int64)
    | GetCall(key: K, at: Int64)
    | ClearExpiredCall(at: Int64)
    | SizeCall(at: Int64)
    | IsEmptyCall(at: Int64)

  /** What a call returns to its caller. */
  datatype Reply<V> = Done | Value(value: Option<V>) | Count(count: nat) | Flag(flag: bool)

  /** The entries after the call. */
  function Apply<K, V>(m: map<K, ExpirableEntry<V>>, c: Call<K, V>): map<K, ExpirableEntry<V>>
  {
    match c
    case PutCall(key, value, retention, at) => Put(m, key, value, retention, at)
    case GetCall(_, _) => m
    case ClearExpiredCall(at) => Evict(m, at)
    case SizeCall(at) => Evict(m, at)
    case IsEmptyCall(at) => Evict(m, at)
  }

  /** The reply to the call, made on entries `m`. */
  function Answer<K, V>(m: map<K, ExpirableEntry<V>>, c: Call<K, V>): Reply<V>
  {
    match c
    case PutCall(_, _, _, _) => Done
    case GetCall(key, at) => Value(Get(m, key, at))
    case ClearExpiredCall(_) => Done
    case SizeCall(at) => Count(Size(m, at))
    case IsEmptyCall(at) => Flag(IsEmpty(m, at))
  }

  /** The entries of a new cache after `calls`, and the replies it gave. */
  function Run<K, V>(calls: seq<Call<K, V>>): (map<K, ExpirableEntry<V>>, seq<Reply<V>>)
  {
    if calls == [] then (map[], [])
    else
      var (m, replies) := Run(calls[..|calls| - 1]);
      var c := calls[|calls| - 1];
      (Apply(m, c), replies + [Answer(m, c)])
  }

  /** The latest entry put for each key, with nothing ever evicted. */
  function PutLog<K, V>(calls: seq<Call<K, V>>): map<K, ExpirableEntry<V>>
  {
    if calls == [] then map[]
    else
      var log := PutLog(calls[..|calls| - 1]);
      match calls[|calls| - 1]
      case PutCall(key, value, retention, at) => Put(log, key, value, retention, at)
      case _ => log
  }

  /** The replies of a cache that never evicts: each call answered on the put log. */
  function NeverEvictingReplies<K(==), V>(calls: seq<Call<K, V>>): seq<Reply<V>>
  {
    if calls == [] then []
    else
      var prefix := calls[..|calls| - 1];
      NeverEvictingReplies(prefix) + [Answer(PutLog(prefix), calls[|calls| - 1])]
  }

  /** The clock readings of the calls never decrease. */
  predicate ClockNeverGoesBack<K, V>(calls: seq<Call<K, V>>)
  {
    forall i, j :: 0 <= i < j < |calls| ==> calls[i].at <= calls[j].at
  }

  /** No call reads the clock after `t`. */
  predicate AllCallsBy<K, V>(calls: seq<Call<K, V>>, t: Int64)
  {
    forall i :: 0 <= i < |calls| ==> calls[i].at <= t
  }

  /** The cache's entries `m` agree with the put log at reading `t`: every entry the cache
      holds is the latest put of its key, and every latest put it dropped is expired at `t`. */
  ghost predicate Agrees<K, V>(m: map<K, ExpirableEntry<V>>, log: map<K, ExpirableEntry<V>>, t: Int64)
  {
    && (forall key :: key in m ==> key in log && log[key] == m[key])
    && (forall key :: key in log && key !in m ==> !log[key].IsLive(t))
  }

  /** Agreement at a reading carries over to every later reading: what expired stays expired. */
  lemma AgreesLater<K, V>(m: map<K, ExpirableEntry<V>>, log: map<K, ExpirableEntry<V>>, earlier: Int64, later: Int64)
    requires Agrees(m, log, earlier)
    requires earlier <= later
    ensures Agrees(m, log, later)
  {
    forall key | key in log && key !in m
      ensures !log[key].IsLive(later)
    {
      ExpiryIsPermanent(log[key], earlier, later);
    }
  }

  /** Entries that agree with the put log look the same as it to eviction at any later reading. */
  lemma AgreeingEvictSame<K, V>(m: map<K, ExpirableEntry<V>>, log: map<K, ExpirableEntry<V>>, t: Int64, now: Int64)
    requires Agrees(m, log, t)
    requires t <= now
    ensures Evict(m, now) == Evict(log, now)
  {
    AgreesLater(m, log, t, now);
  }

  /** One call keeps the cache's entries in agreement with the put log. */
  lemma ApplyKeepsAgreement<K, V>(m: map<K, ExpirableEntry<V>>, log: map<K, ExpirableEntry<V>>, c: Call<K, V>)
    requires Agrees(m, log, c.at)
    ensures Agrees(Apply(m, c), if c.PutCall? then Put(log, c.key, c.value, c.retentionInMillis, c.at) else log, c.at)
  {
  }

  /** Under a clock that never goes back, a new cache's entries after `calls` agree with the
      put log at any reading no call has passed. */
  lemma {:induction false} RunAgreesWithPutLog<K, V>(calls: seq<Call<K, V>>, t: Int64)
    requires ClockNeverGoesBack(calls)
    requires AllCallsBy(calls, t)
    ensures Agrees(Run(calls).0, PutLog(calls), t)
  {
    if calls != [] {
      var prefix := calls[..|calls| - 1];
      var c := calls[|calls| - 1];
      assert ClockNeverGoesBack(prefix);
      assert AllCallsBy(prefix, c.at);
      RunAgreesWithPutLog(prefix, c.at);
      ApplyKeepsAgreement(Run(prefix).0, PutLog(prefix), c);
      AgreesLater(Run(calls).0, PutLog(calls), c.at, t);
    }
  }

  /** Under a clock that never goes back, lazy eviction is unobservable: a new cache gives
      the same replies as one that never evicts. */
  lemma {:induction false} LazyEvictionIsUnobservable<K, V>(calls: seq<Call<K, V>>)
    requires ClockNeverGoesBack(calls)
    ensures Run(calls).1 == NeverEvictingReplies(calls)
  {
    if calls != [] {
      var prefix := calls[..|calls| - 1];
      var c := calls[|calls| - 1];
      assert ClockNeverGoesBack(prefix);
      LazyEvictionIsUnobservable(prefix);
      assert AllCallsBy(prefix, c.at);
      RunAgreesWithPutLog(prefix, c.at);
      var m, log := Run(prefix).0, PutLog(prefix);
      AgreeingEvictSame(m, log, c.at, c.at);
      if c.GetCall? {
        GetSeesOnlyLive(m, log, c.key, c.at);
      }
    }
  }

  /** At a reading no call has passed, `get` on the cache returns what the latest put of the
      key gives, and `size` counts the keys whose latest put is still live. */
  lemma {:induction false} ObservationsFollowLatestPuts<K, V>(calls: seq<Call<K, V>>, key: K, now: Int64)
    requires ClockNeverGoesBack(calls)
    requires AllCallsBy(calls, now)
    ensures Get(Run(calls).0, key, now)
         == if key in PutLog(calls) && PutLog(calls)[key].IsLive(now) then Some(PutLog(calls)[key].GetValue()) else None
    ensures Size(Run(calls).0, now) == |set k | k in PutLog(calls) && PutLog(calls)[k].IsLive(now)|
  {
    var m, log := Run(calls).0, PutLog(calls);
    RunAgreesWithPutLog(calls, now);
    AgreeingEvictSame(m, log, now, now);
    GetSeesOnlyLive(m, log, key, now);
    assert Evict(log, now).Keys == set k | k in log && log[k].IsLive(now);
  }
}
