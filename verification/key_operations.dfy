/** String and key commands (`KeyOperations`). */
module KeyOperations {
  import opened Common
  import opened Values
  import opened BaseStore

  /** Two records that differ at most in their expiry. */
  predicate SameButExpiry(a: RedisValue, b: RedisValue)
  {
    a.(expirationTime := None) == b.(expirationTime := None)
  }

  /** `SetAsync`: replaces whatever is stored under `key` by a String record;
      an expiration `d` makes it expire at `now + d`, none leaves it permanent. */
  function Set(ks: Keyspace, now: int, key: string, value: string, expiration: Option<int>): (r: Step<bool>)
    ensures r.result
    ensures key in r.store && r.store[key].kind == String && r.store[key].stringValue == Some(value)
    ensures EmptyPayloads(r.store[key])
    ensures expiration.None? ==> r.store[key].expirationTime.None?
    ensures expiration.Some? ==> r.store[key].expirationTime == Some(now + expiration.value)
    ensures r.store - {key} == ks - {key}
  {
    var expiresAt := if expiration.Some? then Some(now + expiration.value) else None;
    Step(true, ks[key := New(String).(stringValue := Some(value), expirationTime := expiresAt)])
  }

  /** `GetAsync`: the string payload of a live record, of whatever kind. */
  function Get(ks: Keyspace, now: int, key: string): (r: Step<Option<string>>)
    ensures key !in Live(ks, now) ==> r.result.None?
    ensures key in Live(ks, now) ==> r.result == ks[key].stringValue
    ensures r.store == Evict(ks, now, key)
  {
    var found := TryGetValue(ks, now, key);
    if found.result.Some? then Step(found.result.value.stringValue, found.store)
    else Step(None, found.store)
  }

  /** `DeleteAsync`: removes the raw entry; reports whether one was there,
      expired or not. */
  function Delete(ks: Keyspace, key: string): (r: Step<bool>)
    ensures r.result <==> key in ks
    ensures key !in r.store
    ensures r.store - {key} == ks - {key}
  {
    Step(key in ks, ks - {key})
  }

  /** `ExistsAsync`: whether a live record is stored under `key`. */
  function Exists(ks: Keyspace, now: int, key: string): (r: Step<bool>)
    ensures r.result <==> key in Live(ks, now)
    ensures r.store == Evict(ks, now, key)
  {
    var found := TryGetValue(ks, now, key);
    Step(found.result.Some?, found.store)
  }

  /** `TTLAsync`: the time left before the raw entry's expiry, when it has one
      and some time is left; never evicts. */
  function Ttl(ks: Keyspace, now: int, key: string): (r: Option<int>)
    ensures r.Some? <==> key in ks && ks[key].expirationTime.Some? && now < ks[key].expirationTime.value
    ensures r.Some? ==> r.value > 0 && now + r.value == ks[key].expirationTime.value
  {
    if key in ks && ks[key].expirationTime.Some? then
      var left := ks[key].expirationTime.value - now;
      if left > 0 then Some(left) else None
    else None
  }

  /** `SetExpirationAsync`: gives a raw entry (expired or not) the expiry
      `now + expiration`; fails on an absent key. */
  function SetExpiration(ks: Keyspace, now: int, key: string, expiration: int): (r: Step<bool>)
    ensures r.result <==> key in ks
    ensures !r.result ==> r.store == ks
    ensures r.result ==> key in r.store && SameButExpiry(r.store[key], ks[key])
    ensures r.result ==> r.store[key].expirationTime == Some(now + expiration)
    ensures r.store - {key} == ks - {key}
  {
    if key in ks then Step(true, ks[key := ks[key].(expirationTime := Some(now + expiration))])
    else Step(false, ks)
  }

  /** `RemoveExpirationAsync`: makes a raw entry permanent; fails on an absent key. */
  function RemoveExpiration(ks: Keyspace, key: string): (r: Step<bool>)
    ensures r.result <==> key in ks
    ensures !r.result ==> r.store == ks
    ensures r.result ==> key in r.store && SameButExpiry(r.store[key], ks[key])
    ensures r.result ==> r.store[key].expirationTime.None?
    ensures r.store - {key} == ks - {key}
  {
    if key in ks then Step(true, ks[key := ks[key].(expirationTime := None)])
    else Step(false, ks)
  }

  /** A value set without expiration is read back at every later instant. */
  lemma SetThenGet(ks: Keyspace, now: int, later: int, key: string, value: string)
    ensures Get(Set(ks, now, key, value, None).store, later, key).result == Some(value)
  {
  }

  /** A value set with expiration `d` is read back up to and including
      instant `now + d`; the first read after that finds nothing and evicts the key. */
  lemma SetWithExpirationThenGet(ks: Keyspace, now: int, d: int, later: int, key: string, value: string)
    ensures later <= now + d ==> Get(Set(ks, now, key, value, Some(d)).store, later, key).result == Some(value)
    ensures later > now + d ==> Get(Set(ks, now, key, value, Some(d)).store, later, key).result.None?
    ensures later > now + d ==> key !in Get(Set(ks, now, key, value, Some(d)).store, later, key).store
  {
  }

  /** Right after a set with expiration `d`, the time left is `d` when positive. */
  lemma SetWithExpirationThenTtl(ks: Keyspace, now: int, d: int, key: string, value: string)
    ensures Ttl(Set(ks, now, key, value, Some(d)).store, now, key) == if d > 0 then Some(d) else None
  {
  }

  /** After a delete the key reads as absent, and deleting again reports false. */
  lemma DeleteThenGet(ks: Keyspace, now: int, key: string)
    ensures Get(Delete(ks, key).store, now, key).result.None?
    ensures !Delete(Delete(ks, key).store, key).result
  {
  }

  /** Delete looks at the raw entry: an expired entry is reported as deleted
      although `Exists` already reports it absent. */
  lemma DeleteSeesExpiredEntry(ks: Keyspace, now: int, key: string)
    requires key in ks && IsExpired(ks[key], now)
    ensures Delete(ks, key).result
    ensures !Exists(ks, now, key).result
  {
  }

  /** At the expiry instant itself the record is still read, yet no time is reported left. */
  lemma TtlAtExpiryInstant(ks: Keyspace, now: int, key: string)
    requires key in ks && ks[key].expirationTime == Some(now)
    ensures Ttl(ks, now, key).None?
    ensures Exists(ks, now, key).result
    ensures Get(ks, now, key).result == ks[key].stringValue
  {
  }

  /** A reported time left means the key is live. */
  lemma TtlImpliesLive(ks: Keyspace, now: int, key: string)
    requires Ttl(ks, now, key).Some?
    ensures Exists(ks, now, key).result
  {
  }

  /** Setting an expiry skips the expiry check, so it revives an expired entry. */
  lemma SetExpirationRevives(ks: Keyspace, now: int, key: string, d: int)
    requires key in ks && IsExpired(ks[key], now) && d >= 0
    ensures Exists(SetExpiration(ks, now, key, d).store, now, key).result
  {
  }

  /** A permanent value given expiration `d` is read up to instant `now + d`
      and is gone after it. */
  lemma SetExpirationThenGet(ks: Keyspace, now: int, d: int, later: int, key: string, value: string)
    requires now <= later
    ensures var stored := Set(ks, now, key, value, None).store;
      && SetExpiration(stored, now, key, d).result
      && (later <= now + d ==> Get(SetExpiration(stored, now, key, d).store, later, key).result == Some(value))
      && (later > now + d ==> Get(SetExpiration(stored, now, key, d).store, later, key).result.None?)
  {
  }

  /** After removing its expiry an entry stays live at every later instant. */
  lemma RemoveExpirationMakesPermanent(ks: Keyspace, now: int, key: string)
    requires key in ks
    ensures forall t :: Exists(RemoveExpiration(ks, key).store, t, key).result
  {
  }
}
