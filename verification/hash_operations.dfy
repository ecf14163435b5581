/** Hash commands (`HashOperations`). `HSet` writes through `GetOrAdd`
    without any kind or expiry check; the reads and `HDel` use the lazy-expiry
    lookup and require a live Hash record. */
module HashOperations {
  import opened Common
  import opened Values
  import opened BaseStore

  /** Two records that differ at most in their hash payload. */
  predicate SameButHash(a: RedisValue, b: RedisValue)
  {
    a.(hashValue := map[]) == b.(hashValue := map[])
  }

  /** The fields of a live Hash record under `key`, if there is one. */
  function LiveFields(ks: Keyspace, now: int, key: string): Option<map<string, string>>
  {
    var v := LiveOfKind(ks, now, key, Hash);
    if v.Some? then Some(v.value.hashValue) else None
  }

  /** `HSetAsync`: binds `field` to `value` in the hash payload of the
      existing record (any kind, expired or not) or of a new Hash record. */
  function HSet(ks: Keyspace, key: string, field: string, value: string): (r: Step<bool>)
    ensures r.result
    ensures key in r.store && field in r.store[key].hashValue && r.store[key].hashValue[field] == value
    ensures key in ks ==> r.store[key].hashValue - {field} == ks[key].hashValue - {field}
    ensures key in ks ==> SameButHash(r.store[key], ks[key])
    ensures key !in ks ==> r.store[key] == New(Hash).(hashValue := map[field := value])
    ensures r.store - {key} == ks - {key}
  {
    var v := GetOrAdd(ks, key, New(Hash));
    Step(true, ks[key := v.(hashValue := v.hashValue[field := value])])
  }

  /** `HSet` writes into the record `GetOrAdd` yields (the raw entry, or a
      fresh Hash record) and changes nothing of it but the one field. */
  lemma HSetWritesGetOrAdd(ks: Keyspace, key: string, field: string, value: string)
    ensures SameButHash(HSet(ks, key, field, value).store[key], GetOrAdd(ks, key, New(Hash)))
    ensures HSet(ks, key, field, value).store[key].hashValue == GetOrAdd(ks, key, New(Hash)).hashValue[field := value]
  {
  }

  /** `HGetAsync`: the value of `field` in a live Hash record. */
  function HGet(ks: Keyspace, now: int, key: string, field: string): (r: Step<Option<string>>)
    ensures r.result.Some? <==> LiveFields(ks, now, key).Some? && field in LiveFields(ks, now, key).value
    ensures r.result.Some? ==> r.result.value == ks[key].hashValue[field]
    ensures r.store == Evict(ks, now, key)
  {
    var found := TryGetValue(ks, now, key);
    if found.result.Some? && found.result.value.kind == Hash && field in found.result.value.hashValue then
      Step(Some(found.result.value.hashValue[field]), found.store)
    else Step(None, found.store)
  }

  /** `HGetAllAsync`: a copy of a live Hash record's fields; empty for anything else. */
  function HGetAll(ks: Keyspace, now: int, key: string): (r: Step<map<string, string>>)
    ensures LiveFields(ks, now, key).Some? ==> r.result == LiveFields(ks, now, key).value
    ensures LiveFields(ks, now, key).None? ==> r.result == map[]
    ensures r.store == Evict(ks, now, key)
  {
    var found := TryGetValue(ks, now, key);
    if found.result.Some? && found.result.value.kind == Hash then Step(found.result.value.hashValue, found.store)
    else Step(map[], found.store)
  }

  /** `HDelAsync`: removes `field` from a live Hash record; reports whether it was there. */
  function HDel(ks: Keyspace, now: int, key: string, field: string): (r: Step<bool>)
    ensures r.result <==> LiveFields(ks, now, key).Some? && field in LiveFields(ks, now, key).value
    ensures LiveFields(ks, now, key).Some? ==> r.store == ks[key := ks[key].(hashValue := ks[key].hashValue - {field})]
    ensures LiveFields(ks, now, key).None? ==> r.store == Evict(ks, now, key)
  {
    var found := TryGetValue(ks, now, key);
    if found.result.Some? && found.result.value.kind == Hash then
      var v := found.result.value;
      Step(field in v.hashValue, found.store[key := v.(hashValue := v.hashValue - {field})])
    else Step(false, found.store)
  }

  /** A field set on a fresh key is read back, and is the hash's only field. */
  lemma HSetThenHGet(ks: Keyspace, now: int, key: string, field: string, value: string)
    requires key !in ks
    ensures HGet(HSet(ks, key, field, value).store, now, key, field).result == Some(value)
    ensures HGetAll(HSet(ks, key, field, value).store, now, key).result == map[field := value]
  {
  }

  /** On a live hash, a field just set is read back and every other field
      keeps its value. */
  lemma HSetThenHGetLive(ks: Keyspace, now: int, key: string, field: string, value: string)
    requires LiveFields(ks, now, key).Some?
    ensures HGet(HSet(ks, key, field, value).store, now, key, field).result == Some(value)
    ensures forall f :: f != field && f in LiveFields(ks, now, key).value ==>
      HGet(HSet(ks, key, field, value).store, now, key, f).result == Some(LiveFields(ks, now, key).value[f])
    ensures HGetAll(HSet(ks, key, field, value).store, now, key).result == LiveFields(ks, now, key).value[field := value]
  {
  }

  /** `HSet` on a record of another kind writes its hash payload but leaves
      the kind, so the field cannot be read back. */
  lemma HSetOnOtherKind(ks: Keyspace, now: int, key: string, field: string, value: string)
    requires key in ks && ks[key].kind != Hash
    ensures HGet(HSet(ks, key, field, value).store, now, key, field).result.None?
    ensures HSet(ks, key, field, value).store[key].kind == ks[key].kind
  {
  }

  /** A single field read agrees with the full copy. */
  lemma HGetAgreesWithHGetAll(ks: Keyspace, now: int, key: string, field: string)
    ensures HGet(ks, now, key, field).result ==
      (var all := HGetAll(ks, now, key).result; if field in all then Some(all[field]) else None)
  {
  }

  /** After `HDel` the field is gone. */
  lemma HDelThenHGet(ks: Keyspace, now: int, key: string, field: string)
    ensures HGet(HDel(ks, now, key, field).store, now, key, field).result.None?
  {
  }
}
