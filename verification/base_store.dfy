/** The keyspace shared by all operation modules and its lookup with lazy
    expiry (`BaseRedisStore`). Every command is a pure function of the
    keyspace, the current instant and its arguments; it returns its result
    together with the keyspace it leaves behind. */
module BaseStore {
  import opened Common
  import opened Values

  type Keyspace = map<string, RedisValue>

  /** A command's result and the keyspace after it. */
  datatype Step<T> = Step(result: T, store: Keyspace)

  /** What an observer sees at `now`: the entries that have not expired. */
  function Live(ks: Keyspace, now: int): (live: Keyspace)
    ensures forall k :: k in live <==> k in ks && !IsExpired(ks[k], now)
    ensures forall k :: k in live ==> live[k] == ks[k]
  {
    map k | k in ks && !IsExpired(ks[k], now) :: ks[k]
  }

  /** The only change a read may make: evicting the looked-up key once it
      has expired. */
  predicate EvictsAtMost(ks: Keyspace, ks': Keyspace, now: int, key: string)
  {
    ks' == ks || (key in ks && IsExpired(ks[key], now) && ks' == ks - {key})
  }

  /** The keyspace a lookup of `key` leaves behind: the key is gone when its
      record has expired, and every other entry stays as it was. */
  function Evict(ks: Keyspace, now: int, key: string): (ks': Keyspace)
    ensures forall k :: k in ks' <==> k in ks && (k != key || !IsExpired(ks[k], now))
    ensures forall k :: k in ks' ==> ks'[k] == ks[k]
    ensures EvictsAtMost(ks, ks', now, key)
  {
    if key in ks && IsExpired(ks[key], now) then ks - {key} else ks
  }

  /** `TryGetValue`: finds `key`; an entry whose expiry has passed is removed
      and reported as not found. */
  function TryGetValue(ks: Keyspace, now: int, key: string): (r: Step<Option<RedisValue>>)
    ensures r.result == if key in Live(ks, now) then Some(ks[key]) else None
    ensures r.store == Evict(ks, now, key)
    ensures Live(r.store, now) == Live(ks, now)
  {
    if key in ks then
      if IsExpired(ks[key], now) then Step(None, ks - {key})
      else Step(Some(ks[key]), ks)
    else Step(None, ks)
  }

  /** Looking up a key twice at the same instant finds what the first lookup
      found and changes nothing more. */
  lemma TryGetValueIdempotent(ks: Keyspace, now: int, key: string)
    ensures TryGetValue(TryGetValue(ks, now, key).store, now, key) == TryGetValue(ks, now, key)
  {
  }

  /** Evicting an expired entry cannot be observed: the live view is the same. */
  lemma EvictionIsInvisible(ks: Keyspace, ks': Keyspace, now: int, key: string)
    requires EvictsAtMost(ks, ks', now, key)
    ensures Live(ks', now) == Live(ks, now)
  {
  }

  /** An eviction touches no key but the looked-up one. */
  lemma EvictsAtMostKeepsOthers(ks: Keyspace, ks': Keyspace, now: int, key: string)
    requires EvictsAtMost(ks, ks', now, key)
    ensures ks' - {key} == ks - {key}
  {
    if ks' != ks {
      assert ks' - {key} == ks - {key} - {key};
    }
  }

  /** `GetOrAdd` as the write commands use it: the existing record, whatever
      its kind and even if expired, or a fresh one. */
  function GetOrAdd(ks: Keyspace, key: string, created: RedisValue): (v: RedisValue)
    ensures key in ks ==> v == ks[key]
    ensures key !in ks ==> v == created
  {
    if key in ks then ks[key] else created
  }

  /** The record under `key` if it is live and of the given kind. */
  function LiveOfKind(ks: Keyspace, now: int, key: string, kind: RedisValueType): Option<RedisValue>
  {
    if key in ks && !IsExpired(ks[key], now) && ks[key].kind == kind then Some(ks[key]) else None
  }
}
