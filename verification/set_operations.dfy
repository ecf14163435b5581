/** Set commands (`SetOperations`). `SAdd` reads the raw entry and turns any
    non-Set record into a Set record with no members, keeping its other
    payloads and its expiry; the other commands use the lazy-expiry lookup and
    require a live Set record. */
module SetOperations {
  import opened Common
  import opened Values
  import opened BaseStore

  /** The member set `SAdd` starts from: that of an existing Set record, else empty. */
  function PriorMembers(ks: Keyspace, key: string): set<string>
  {
    if key in ks && ks[key].kind == Set then ks[key].setValue else {}
  }

  /** The members of a live Set record under `key`, if there is one. */
  function LiveMembers(ks: Keyspace, now: int, key: string): Option<set<string>>
  {
    var v := LiveOfKind(ks, now, key, Set);
    if v.Some? then Some(v.value.setValue) else None
  }

  /** The loop of `SAddAsync`: `Add` each argument in turn, counting the
      additions that found the member new. */
  function AddMembers(s: set<string>, members: seq<string>): (r: (set<string>, nat))
    ensures r.0 == s + Elems(members)
    ensures r.1 == |Elems(members) - s|
    decreases |members|
  {
    if members == [] then (s, 0)
    else
      var isNew: nat := if members[0] in s then 0 else 1;
      var rest := AddMembers(s + {members[0]}, members[1..]);
      ElemsSplit(members);
      NewElementsStep(s, members[0], Elems(members[1..]));
      (rest.0, isNew + rest.1)
  }

  /** `SAddAsync`: adds the arguments to the member set; returns how many
      distinct arguments were not members before. */
  function SAdd(ks: Keyspace, key: string, members: seq<string>): (r: Step<int>)
    ensures key in r.store && r.store[key].kind == Set
    ensures r.store[key].setValue == PriorMembers(ks, key) + Elems(members)
    ensures r.result == |Elems(members) - PriorMembers(ks, key)|
    ensures key in ks ==> r.store[key] == ks[key].(kind := Set, setValue := r.store[key].setValue)
    ensures key !in ks ==> r.store[key] == New(Set).(setValue := Elems(members))
    ensures r.store - {key} == ks - {key}
  {
    var v :=
      if key !in ks then New(Set)
      else if ks[key].kind != Set then ks[key].(kind := Set, setValue := {})
      else ks[key];
    var added := AddMembers(v.setValue, members);
    Step(added.1, ks[key := v.(setValue := added.0)])
  }

  /** `SRemAsync`: removes `member` from a live Set record; 1 if it was there, else 0. */
  function SRem(ks: Keyspace, now: int, key: string, member: string): (r: Step<int>)
    ensures r.result == 0 || r.result == 1
    ensures r.result == 1 <==> LiveMembers(ks, now, key).Some? && member in LiveMembers(ks, now, key).value
    ensures r.result == 1 ==> r.store == ks[key := ks[key].(setValue := ks[key].setValue - {member})]
    ensures r.result == 0 ==> r.store == Evict(ks, now, key)
    ensures r.store - {key} == ks - {key}
  {
    var found := TryGetValue(ks, now, key);
    if found.result.Some? && found.result.value.kind == Set && member in found.result.value.setValue then
      var v := found.result.value;
      Step(1, found.store[key := v.(setValue := v.setValue - {member})])
    else Step(0, found.store)
  }

  /** `SMembersAsync`: the members of a live Set record; empty for anything else. */
  function SMembers(ks: Keyspace, now: int, key: string): (r: Step<set<string>>)
    ensures LiveMembers(ks, now, key).Some? ==> r.result == LiveMembers(ks, now, key).value
    ensures LiveMembers(ks, now, key).None? ==> r.result == {}
    ensures r.store == Evict(ks, now, key)
  {
    var found := TryGetValue(ks, now, key);
    if found.result.Some? && found.result.value.kind == Set then Step(found.result.value.setValue, found.store)
    else Step({}, found.store)
  }

  /** `SIsMemberAsync`: whether a live Set record has `member`. */
  function SIsMember(ks: Keyspace, now: int, key: string, member: string): (r: Step<bool>)
    ensures r.result <==> LiveMembers(ks, now, key).Some? && member in LiveMembers(ks, now, key).value
    ensures r.store == Evict(ks, now, key)
  {
    var found := TryGetValue(ks, now, key);
    Step(found.result.Some? && found.result.value.kind == Set && member in found.result.value.setValue, found.store)
  }

  /** Membership test and member listing agree. */
  lemma IsMemberAgreesWithMembers(ks: Keyspace, now: int, key: string, member: string)
    ensures SIsMember(ks, now, key, member).result <==> member in SMembers(ks, now, key).result
    ensures SIsMember(ks, now, key, member).store == SMembers(ks, now, key).store
  {
  }

  /** Adding the same member twice on a fresh key counts 1, then 0, and leaves one member. */
  lemma SAddTwice(ks: Keyspace, now: int, key: string, member: string)
    requires key !in ks
    ensures SAdd(ks, key, [member]).result == 1
    ensures SAdd(SAdd(ks, key, [member]).store, key, [member]).result == 0
    ensures SMembers(SAdd(SAdd(ks, key, [member]).store, key, [member]).store, now, key).result == {member}
  {
  }

  /** Repeating an `SAdd` adds nothing and changes nothing. */
  lemma SAddIdempotent(ks: Keyspace, key: string, members: seq<string>)
    ensures SAdd(SAdd(ks, key, members).store, key, members).result == 0
    ensures SAdd(SAdd(ks, key, members).store, key, members).store == SAdd(ks, key, members).store
  {
  }

  /** After `SAdd` on a key that is fresh or holds a live record, every argument is a member. */
  lemma SAddThenIsMember(ks: Keyspace, now: int, key: string, members: seq<string>, m: string)
    requires key !in ks || !IsExpired(ks[key], now)
    requires m in members
    ensures SIsMember(SAdd(ks, key, members).store, now, key, m).result
  {
  }

  /** `SAdd` keeps the expiry it finds: on an expired record the members are
      added, yet the next read evicts the key and finds no members. */
  lemma SAddOnExpiredRecord(ks: Keyspace, now: int, key: string, members: seq<string>)
    requires key in ks && IsExpired(ks[key], now)
    ensures SMembers(SAdd(ks, key, members).store, now, key).result == {}
    ensures key !in SMembers(SAdd(ks, key, members).store, now, key).store
  {
  }

  /** `SAdd` on a non-Set record discards its members but keeps its string:
      the record now answers set reads from the arguments alone. */
  lemma SAddCoercesKind(ks: Keyspace, now: int, key: string, members: seq<string>)
    requires key in ks && !IsExpired(ks[key], now) && ks[key].kind != Set
    ensures SMembers(SAdd(ks, key, members).store, now, key).result == Elems(members)
    ensures SAdd(ks, key, members).store[key].stringValue == ks[key].stringValue
  {
  }

  /** After `SRem` the member is gone; on a live Set record that lacked it,
      `SAdd` then `SRem` of one member restores the keyspace. */
  lemma SAddThenSRem(ks: Keyspace, now: int, key: string, member: string)
    requires LiveMembers(ks, now, key).Some? && member !in ks[key].setValue
    ensures SRem(SAdd(ks, key, [member]).store, now, key, member) == Step(1, ks)
    ensures !SIsMember(SRem(ks, now, key, member).store, now, key, member).result
  {
  }
}
