/** The value record stored under every key (`RedisValue`). It is a record
    with a kind tag and all five payloads side by side, not a tagged variant:
    several commands read or write a payload without looking at the kind.
    Instants and durations are integers in one common unit (clock ticks). */
module Values {
  import opened Common
  import opened SortedDictionary

  /** The kind tag, in declaration order. */
  datatype RedisValueType = String | List | Set | Hash | SortedSet

  /** The enum's underlying number; the default of the enum is the member numbered 0. */
  function Ordinal(t: RedisValueType): nat
  {
    match t
    case String => 0
    case List => 1
    case Set => 2
    case Hash => 3
    case SortedSet => 4
  }

  datatype RedisValue = RedisValue(
    kind: RedisValueType,
    stringValue: Option<string>,
    listValue: seq<string>,
    setValue: set<string>,
    hashValue: map<string, string>,
    sortedSetValue: SortedDict,
    expirationTime: Option<int>)

  /** True when every collection payload is empty, as the constructor leaves them. */
  predicate EmptyPayloads(v: RedisValue)
  {
    v.listValue == [] && v.setValue == {} && v.hashValue == map[] && v.sortedSetValue == []
  }

  /** `new RedisValue()`: empty collections, no string, no expiry, and the
      kind left at the enum default. */
  function Default(): (v: RedisValue)
    ensures EmptyPayloads(v) && v.stringValue.None? && v.expirationTime.None?
    ensures forall t: RedisValueType :: Ordinal(v.kind) <= Ordinal(t)
  {
    RedisValue(String, None, [], {}, map[], [], None)
  }

  /** `new RedisValue { Type = kind }`: the default record with its kind set. */
  function New(kind: RedisValueType): (v: RedisValue)
    ensures v.kind == kind
    ensures EmptyPayloads(v) && v.stringValue.None? && v.expirationTime.None?
  {
    Default().(kind := kind)
  }

  /** `IsExpired()` read at instant `now`. */
  predicate IsExpired(v: RedisValue, now: int)
  {
    v.expirationTime.Some? && now > v.expirationTime.value
  }

  /** A record built without setting the kind is a String record. */
  lemma DefaultKindIsString()
    ensures Default().kind == String
    ensures Default() == New(String)
  {
  }

  /** Expiry is strict: at the expiry instant the record is still live, one
      tick later it is expired, and a record without an expiry never expires. */
  lemma ExpiryBoundary(v: RedisValue, now: int)
    ensures v.expirationTime.None? ==> !IsExpired(v, now)
    ensures v.expirationTime == Some(now) ==> !IsExpired(v, now) && IsExpired(v, now + 1)
  {
  }

  /** Once expired, a record stays expired at every later instant. */
  lemma ExpiryIsPermanent(v: RedisValue, now: int, later: int)
    requires IsExpired(v, now) && now <= later
    ensures IsExpired(v, later)
  {
  }
}
