/** List commands (`ListOperations`). The pushes write through `GetOrAdd`
    without any kind or expiry check; the pops and `LRange` use the lazy-expiry
    lookup and require a List record; `LIndex` reads the raw entry. */
module ListOperations {
  import opened Common
  import opened Values
  import opened BaseStore
  import opened Ranges

  /** Two records that differ at most in their list payload. */
  predicate SameButList(a: RedisValue, b: RedisValue)
  {
    a.(listValue := []) == b.(listValue := [])
  }

  /** The list payload `GetOrAdd` would find: the raw entry's, or empty. */
  function RawList(ks: Keyspace, key: string): seq<string>
  {
    if key in ks then ks[key].listValue else []
  }

  /** `LPushAsync`: inserts `value` at the head of the list of the existing
      record (any kind, expired or not), or of a new List record; returns the
      new length. */
  function LPush(ks: Keyspace, key: string, value: string): (r: Step<int>)
    ensures key in r.store && r.store[key].listValue == [value] + RawList(ks, key)
    ensures r.result == |RawList(ks, key)| + 1
    ensures key in ks ==> SameButList(r.store[key], ks[key])
    ensures key !in ks ==> SameButList(r.store[key], New(List))
    ensures r.store - {key} == ks - {key}
  {
    var v := GetOrAdd(ks, key, New(List));
    var list := [value] + v.listValue;
    Step(|list|, ks[key := v.(listValue := list)])
  }

  /** `RPushAsync`: appends `values` in argument order to the list of the
      existing record (any kind, expired or not), or of a new record whose kind
      is the enum default, String; returns the new length. */
  function RPush(ks: Keyspace, key: string, values: seq<string>): (r: Step<int>)
    ensures key in r.store && r.store[key].listValue == RawList(ks, key) + values
    ensures r.result == |RawList(ks, key)| + |values|
    ensures key in ks ==> SameButList(r.store[key], ks[key])
    ensures key !in ks ==> SameButList(r.store[key], Default()) && r.store[key].kind == String
    ensures r.store - {key} == ks - {key}
  {
    var v := GetOrAdd(ks, key, Default());
    var list := v.listValue + values;
    Step(|list|, ks[key := v.(listValue := list)])
  }

  /** Both pushes write into the record `GetOrAdd` yields (the raw entry, or
      the fresh record each creates) and change nothing of it but its list. */
  lemma PushesWriteGetOrAdd(ks: Keyspace, key: string, value: string, values: seq<string>)
    ensures SameButList(LPush(ks, key, value).store[key], GetOrAdd(ks, key, New(List)))
    ensures LPush(ks, key, value).store[key].listValue == [value] + GetOrAdd(ks, key, New(List)).listValue
    ensures SameButList(RPush(ks, key, values).store[key], GetOrAdd(ks, key, Default()))
    ensures RPush(ks, key, values).store[key].listValue == GetOrAdd(ks, key, Default()).listValue + values
  {
  }

  /** The list of a live List record under `key`, if there is one. */
  function LiveList(ks: Keyspace, now: int, key: string): Option<seq<string>>
  {
    var v := LiveOfKind(ks, now, key, List);
    if v.Some? then Some(v.value.listValue) else None
  }

  /** `LPopAsync`: removes and returns the head of a live List record's
      non-empty list; otherwise returns nothing and evicts the key if it has expired. */
  function LPop(ks: Keyspace, now: int, key: string): (r: Step<Option<string>>)
    ensures r.result.Some? <==> LiveList(ks, now, key).Some? && |LiveList(ks, now, key).value| > 0
    ensures r.result.Some? ==> r.result.value == ks[key].listValue[0]
    ensures r.result.Some? ==> key in r.store && r.store[key] == ks[key].(listValue := ks[key].listValue[1..])
    ensures r.result.Some? ==> r.store - {key} == ks - {key}
    ensures r.result.None? ==> r.store == Evict(ks, now, key)
  {
    var found := TryGetValue(ks, now, key);
    if found.result.Some? && found.result.value.kind == List && |found.result.value.listValue| > 0 then
      var v := found.result.value;
      Step(Some(v.listValue[0]), found.store[key := v.(listValue := v.listValue[1..])])
    else Step(None, found.store)
  }

  /** `RPopAsync`: removes and returns the last element of a live List
      record's non-empty list; otherwise returns nothing and evicts the key if it has expired. */
  function RPop(ks: Keyspace, now: int, key: string): (r: Step<Option<string>>)
    ensures r.result.Some? <==> LiveList(ks, now, key).Some? && |LiveList(ks, now, key).value| > 0
    ensures r.result.Some? ==> r.result.value == ks[key].listValue[|ks[key].listValue| - 1]
    ensures r.result.Some? ==> key in r.store && r.store[key] == ks[key].(listValue := ks[key].listValue[..|ks[key].listValue| - 1])
    ensures r.result.Some? ==> r.store - {key} == ks - {key}
    ensures r.result.None? ==> r.store == Evict(ks, now, key)
  {
    var found := TryGetValue(ks, now, key);
    if found.result.Some? && found.result.value.kind == List && |found.result.value.listValue| > 0 then
      var v := found.result.value;
      var last := |v.listValue| - 1;
      Step(Some(v.listValue[last]), found.store[key := v.(listValue := v.listValue[..last])])
    else Step(None, found.store)
  }

  /** `LRangeAsync`: the clamped window of a live List record's list; empty
      for anything else. The list itself is not changed. */
  function LRange(ks: Keyspace, now: int, key: string, start: int, stop: int): (r: Step<seq<string>>)
    ensures LiveList(ks, now, key).Some? ==> r.result == Window(LiveList(ks, now, key).value, start, stop)
    ensures LiveList(ks, now, key).None? ==> r.result == []
    ensures r.store == Evict(ks, now, key)
  {
    var found := TryGetValue(ks, now, key);
    if found.result.Some? && found.result.value.kind == List then
      Step(Window(found.result.value.listValue, start, stop), found.store)
    else Step([], found.store)
  }

  /** `LIndexAsync`: the element at `index` of the raw entry's list, any kind,
      expired or not; a negative index counts from the end. */
  function LIndex(ks: Keyspace, key: string, index: int): (r: Option<string>)
    ensures r.Some? <==> -|RawList(ks, key)| <= index < |RawList(ks, key)| && key in ks
    ensures r.Some? && index >= 0 ==> r.value == ks[key].listValue[index]
    ensures r.Some? && index < 0 ==> r.value == ks[key].listValue[|ks[key].listValue| + index]
  {
    if key !in ks then None
    else
      var list := ks[key].listValue;
      var i := if index < 0 then |list| + index else index;
      if i < 0 || i >= |list| then None else Some(list[i])
  }

  /** Two left pushes on a fresh key read back newest first. */
  lemma LPushTwiceThenRange(ks: Keyspace, now: int, key: string, x: string, y: string)
    requires key !in ks
    ensures LRange(LPush(LPush(ks, key, x).store, key, y).store, now, key, 0, -1).result == [y, x]
  {
  }

  /** A right push onto a live List record reads back in argument order after the old elements. */
  lemma RPushThenRange(ks: Keyspace, now: int, key: string, values: seq<string>)
    requires LiveList(ks, now, key).Some?
    ensures LRange(RPush(ks, key, values).store, now, key, 0, -1).result == ks[key].listValue + values
  {
  }

  /** A right push onto a fresh key creates a String record: `LRange` and the
      pops see no list, while `LIndex` reads the pushed elements. */
  lemma RPushOnFreshKey(ks: Keyspace, now: int, key: string, values: seq<string>)
    requires key !in ks && values != []
    ensures LRange(RPush(ks, key, values).store, now, key, 0, -1).result == []
    ensures LPop(RPush(ks, key, values).store, now, key).result.None?
    ensures RPop(RPush(ks, key, values).store, now, key).result.None?
    ensures LIndex(RPush(ks, key, values).store, key, 0) == Some(values[0])
  {
  }

  /** A left push then a left pop on a live List record returns the pushed
      value and restores the keyspace. */
  lemma LPushThenLPop(ks: Keyspace, now: int, key: string, value: string)
    requires LiveList(ks, now, key).Some?
    ensures LPop(LPush(ks, key, value).store, now, key) == Step(Some(value), ks)
  {
  }

  /** A right push of one value then a right pop on a live List record
      returns the value and restores the keyspace. */
  lemma RPushThenRPop(ks: Keyspace, now: int, key: string, value: string)
    requires LiveList(ks, now, key).Some?
    ensures RPop(RPush(ks, key, [value]).store, now, key) == Step(Some(value), ks)
  {
  }

  /** On a live List record, `LIndex` at a valid position agrees with the one-element range there. */
  lemma LIndexAgreesWithRange(ks: Keyspace, now: int, key: string, i: int)
    requires LiveList(ks, now, key).Some? && 0 <= i < |ks[key].listValue|
    ensures LRange(ks, now, key, i, i).result == [ks[key].listValue[i]]
    ensures LIndex(ks, key, i) == Some(ks[key].listValue[i])
  {
  }

  /** A negative index `i` reads position `length + i`; `-1` is what `RPop` would return. */
  lemma LIndexNegative(ks: Keyspace, now: int, key: string, i: int)
    requires key in ks && -|ks[key].listValue| <= i < 0
    ensures LIndex(ks, key, i) == LIndex(ks, key, |ks[key].listValue| + i)
    ensures i == -1 && LiveList(ks, now, key).Some? ==> LIndex(ks, key, i) == RPop(ks, now, key).result
  {
  }
}
